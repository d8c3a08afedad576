/**
 * Records of the exon, intron and transcript-start tables, the derived
 * gap intervals, and the positional predicates shared by the stages of
 * the gap-shortening pipeline.
 */
module Tables {
  import opened Results

  /**
   * One row of an exon, intron or transcript-start table. `kind` is the
   * `type` column (`None` stands for a missing value in that column) and
   * `group` the single grouping column (a transcript id, typically).
   */
  datatype Row = Row(seqnames: string, start: int, end: int, strand: string,
                     kind: Option<string>, group: string)

  /** A table: the names of its columns and its rows in order. */
  datatype Table = Table(columns: set<string>, rows: seq<Row>)

  /** A positional interval with no other columns (a merged exon block or a gap). */
  datatype Interval = Interval(start: int, end: int)

  /** The ways `shorten_gaps` fails. */
  datatype Error =
    | MissingColumns   // a table lacks start, end, strand or seqnames
    | BadIntronType    // an intron table has a `type` other than "intron"
    | MixedContext     // the exons span several seqnames or strands

  /** Number of positions of the closed interval [start, end]. */
  function Width(start: int, end: int): int {
    end - start + 1
  }

  /** Some row of `rows` covers position `p`. */
  predicate Covered(rows: seq<Row>, p: int) {
    exists i :: 0 <= i < |rows| && rows[i].start <= p <= rows[i].end
  }

  /** Some interval of `ivs` contains position `p`. */
  predicate InAny(ivs: seq<Interval>, p: int) {
    exists k :: 0 <= k < |ivs| && ivs[k].start <= p <= ivs[k].end
  }

  /** Every row starts no later than it ends. */
  predicate AllValid(rows: seq<Row>) {
    forall i :: 0 <= i < |rows| ==> rows[i].start <= rows[i].end
  }

  lemma CoveredAppend(rows: seq<Row>, x: Row, p: int)
    ensures Covered(rows + [x], p) <==> Covered(rows, p) || x.start <= p <= x.end
  {
    if Covered(rows, p) {
      var i :| 0 <= i < |rows| && rows[i].start <= p <= rows[i].end;
      assert (rows + [x])[i] == rows[i];
    }
    if Covered(rows + [x], p) && !(x.start <= p <= x.end) {
      var i :| 0 <= i < |rows + [x]| && (rows + [x])[i].start <= p <= (rows + [x])[i].end;
      assert i < |rows| && (rows + [x])[i] == rows[i];
    }
    if x.start <= p <= x.end {
      assert (rows + [x])[|rows|] == x;
    }
  }

  lemma InAnyAppend(ivs: seq<Interval>, x: Interval, p: int)
    ensures InAny(ivs + [x], p) <==> InAny(ivs, p) || x.start <= p <= x.end
  {
    if InAny(ivs, p) {
      var i :| 0 <= i < |ivs| && ivs[i].start <= p <= ivs[i].end;
      assert (ivs + [x])[i] == ivs[i];
    }
    if InAny(ivs + [x], p) && !(x.start <= p <= x.end) {
      var i :| 0 <= i < |ivs + [x]| && (ivs + [x])[i].start <= p <= (ivs + [x])[i].end;
      assert i < |ivs| && (ivs + [x])[i] == ivs[i];
    }
    if x.start <= p <= x.end {
      assert (ivs + [x])[|ivs|] == x;
    }
  }

  /** Coverage depends only on which rows there are, not on their order. */
  lemma CoveredPermutation(a: seq<Row>, b: seq<Row>, p: int)
    requires multiset(a) == multiset(b)
    ensures Covered(a, p) <==> Covered(b, p)
  {
    if Covered(a, p) {
      var i :| 0 <= i < |a| && a[i].start <= p <= a[i].end;
      assert a[i] in multiset(b);
      var j :| 0 <= j < |b| && b[j] == a[i];
    }
    if Covered(b, p) {
      var i :| 0 <= i < |b| && b[i].start <= p <= b[i].end;
      assert b[i] in multiset(a);
      var j :| 0 <= j < |a| && a[j] == b[i];
    }
  }
}
