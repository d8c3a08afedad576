/**
 * Gap mapping (`_get_gap_map`): a double loop over (gap, row) pairs that
 * records exact matches as `equal` hits and containments as `within`
 * hits, then drops from `within` the pairs already in `equal`.
 * Row indices are positions in the candidate table.
 */
module GapMap {
  import opened Tables
  import Seqs

  /** A (gap_index, df_index) pair. */
  datatype Hit = Hit(gap: nat, row: nat)

  datatype Relation = Equal | Within

  /** The test of the `if` branch: same start and same end. */
  predicate IsEqual(g: Interval, r: Row) {
    g.start == r.start && g.end == r.end
  }

  /** The test of the `elif` branch: the row contains the gap. */
  predicate Contains(r: Row, g: Interval) {
    g.start >= r.start && g.end <= r.end
  }

  /** Whether the pair lands in the given hit list. */
  predicate Matches(rel: Relation, g: Interval, r: Row) {
    match rel
    case Equal => IsEqual(g, r)
    case Within => !IsEqual(g, r) && Contains(r, g)
  }

  /** Hits of gap `i` against the first `j` rows, in row order. */
  function RowScan(gaps: seq<Interval>, i: nat, rows: seq<Row>, j: nat, rel: Relation): seq<Hit>
    requires i < |gaps| && j <= |rows|
  {
    if j == 0 then []
    else RowScan(gaps, i, rows, j - 1, rel) +
         (if Matches(rel, gaps[i], rows[j - 1]) then [Hit(i, j - 1)] else [])
  }

  /** Hits of the first `i` gaps against all rows, gap-major order. */
  function GapScan(gaps: seq<Interval>, rows: seq<Row>, i: nat, rel: Relation): seq<Hit>
    requires i <= |gaps|
  {
    if i == 0 then []
    else GapScan(gaps, rows, i - 1, rel) + RowScan(gaps, i - 1, rows, |rows|, rel)
  }

  /** Gap-major order: first by gap index, then by row index. */
  predicate Before(x: Hit, y: Hit) {
    x.gap < y.gap || (x.gap == y.gap && x.row < y.row)
  }

  /** Every hit comes strictly before every later one, so none repeats. */
  predicate Ordered(hs: seq<Hit>) {
    forall a, b :: 0 <= a < b < |hs| ==> Before(hs[a], hs[b])
  }

  lemma OrderedAppend(xs: seq<Hit>, ys: seq<Hit>)
    requires Ordered(xs) && Ordered(ys)
    requires forall a, b :: 0 <= a < |xs| && 0 <= b < |ys| ==> Before(xs[a], ys[b])
    ensures Ordered(xs + ys)
  {
    var u := xs + ys;
    forall a, b | 0 <= a < b < |u| ensures Before(u[a], u[b]) {
      if b < |xs| {
        assert u[a] == xs[a] && u[b] == xs[b];
      } else if a >= |xs| {
        assert u[a] == ys[a - |xs|] && u[b] == ys[b - |xs|];
      } else {
        assert u[a] == xs[a] && u[b] == ys[b - |xs|];
      }
    }
  }

  lemma {:induction false} RowScanOrdered(gaps: seq<Interval>, i: nat, rows: seq<Row>, j: nat, rel: Relation)
    requires i < |gaps| && j <= |rows|
    ensures Ordered(RowScan(gaps, i, rows, j, rel))
    ensures forall k :: 0 <= k < |RowScan(gaps, i, rows, j, rel)| ==>
      RowScan(gaps, i, rows, j, rel)[k].gap == i && RowScan(gaps, i, rows, j, rel)[k].row < j
  {
    if j > 0 {
      RowScanOrdered(gaps, i, rows, j - 1, rel);
      var front := RowScan(gaps, i, rows, j - 1, rel);
      var last: seq<Hit> := if Matches(rel, gaps[i], rows[j - 1]) then [Hit(i, j - 1)] else [];
      OrderedAppend(front, last);
      var u := front + last;
      forall k | 0 <= k < |u| ensures u[k].gap == i && u[k].row < j {
        if k < |front| {
          assert u[k] == front[k];
        } else {
          assert u[k] == last[k - |front|];
        }
      }
    }
  }

  lemma {:induction false} GapScanOrdered(gaps: seq<Interval>, rows: seq<Row>, i: nat, rel: Relation)
    requires i <= |gaps|
    ensures Ordered(GapScan(gaps, rows, i, rel))
    ensures forall k :: 0 <= k < |GapScan(gaps, rows, i, rel)| ==>
      GapScan(gaps, rows, i, rel)[k].gap < i && GapScan(gaps, rows, i, rel)[k].row < |rows|
  {
    if i > 0 {
      GapScanOrdered(gaps, rows, i - 1, rel);
      RowScanOrdered(gaps, i - 1, rows, |rows|, rel);
      var front := GapScan(gaps, rows, i - 1, rel);
      var last := RowScan(gaps, i - 1, rows, |rows|, rel);
      OrderedAppend(front, last);
      var u := front + last;
      forall k | 0 <= k < |u| ensures u[k].gap < i && u[k].row < |rows| {
        if k < |front| {
          assert u[k] == front[k];
        } else {
          assert u[k] == last[k - |front|];
        }
      }
    }
  }

  /** The list of `rel` hits the double loop of `_get_gap_map` builds. */
  function Hits(gaps: seq<Interval>, rows: seq<Row>, rel: Relation): seq<Hit> {
    GapScan(gaps, rows, |gaps|, rel)
  }

  /**
   * The loops list the hits gap by gap, and within a gap row by row: in
   * gap-major order with no repeats, each naming an existing gap and row.
   */
  lemma HitsOrdered(gaps: seq<Interval>, rows: seq<Row>, rel: Relation)
    ensures Ordered(Hits(gaps, rows, rel))
    ensures forall k :: 0 <= k < |Hits(gaps, rows, rel)| ==>
      Hits(gaps, rows, rel)[k].gap < |gaps| && Hits(gaps, rows, rel)[k].row < |rows|
  {
    GapScanOrdered(gaps, rows, |gaps|, rel);
  }

  lemma {:induction false} RowScanMembers(gaps: seq<Interval>, i: nat, rows: seq<Row>, j: nat, rel: Relation, h: Hit)
    requires i < |gaps| && j <= |rows|
    ensures h in RowScan(gaps, i, rows, j, rel) <==>
      h.gap == i && h.row < j && Matches(rel, gaps[i], rows[h.row])
  {
    if j > 0 {
      RowScanMembers(gaps, i, rows, j - 1, rel, h);
    }
  }

  lemma {:induction false} GapScanMembers(gaps: seq<Interval>, rows: seq<Row>, i: nat, rel: Relation, h: Hit)
    requires i <= |gaps|
    ensures h in GapScan(gaps, rows, i, rel) <==>
      h.gap < i && h.row < |rows| && Matches(rel, gaps[h.gap], rows[h.row])
  {
    if i > 0 {
      GapScanMembers(gaps, rows, i - 1, rel, h);
      RowScanMembers(gaps, i - 1, rows, |rows|, rel, h);
    }
  }

  /**
   * A pair is an `equal` hit exactly when gap and row have the same
   * bounds, and a `within` hit exactly when the row contains the gap
   * without being equal to it.
   */
  lemma HitsMembers(gaps: seq<Interval>, rows: seq<Row>, rel: Relation, h: Hit)
    ensures h in Hits(gaps, rows, rel) <==>
      h.gap < |gaps| && h.row < |rows| && Matches(rel, gaps[h.gap], rows[h.row])
  {
    GapScanMembers(gaps, rows, |gaps|, rel, h);
  }

  /** No pair is both an `equal` and a `within` hit. */
  lemma EqualWithinDisjoint(gaps: seq<Interval>, rows: seq<Row>, h: Hit)
    ensures !(h in Hits(gaps, rows, Equal) && h in Hits(gaps, rows, Within))
  {
    HitsMembers(gaps, rows, Equal, h);
    HitsMembers(gaps, rows, Within, h);
  }

  predicate NotIn(ys: seq<Hit>, h: Hit) {
    h !in ys
  }

  /** `NotIn` as a filter test. */
  function NotInTest(ys: seq<Hit>): Hit -> bool {
    h => NotIn(ys, h)
  }

  /** The `within` hits whose pair is not an `equal` hit (the filter of line 187). */
  function Difference(xs: seq<Hit>, ys: seq<Hit>): (r: seq<Hit>)
    ensures |r| <= |xs|
  {
    Seqs.Filter(xs, NotInTest(ys))
  }

  /** The difference holds exactly the hits of `xs` absent from `ys`, in `xs`'s order. */
  lemma DifferenceMembers(xs: seq<Hit>, ys: seq<Hit>, h: Hit)
    ensures h in Difference(xs, ys) <==> h in xs && h !in ys
  {
    Seqs.FilterMembers(xs, NotInTest(ys), h);
  }

  /** The filter of line 187 removes nothing: the `elif` already kept the lists apart. */
  lemma PureWithinIsWithin(gaps: seq<Interval>, rows: seq<Row>)
    ensures Difference(Hits(gaps, rows, Within), Hits(gaps, rows, Equal)) == Hits(gaps, rows, Within)
  {
    var w := Hits(gaps, rows, Within);
    var e := Hits(gaps, rows, Equal);
    forall i | 0 <= i < |w| ensures NotIn(e, w[i]) {
      EqualWithinDisjoint(gaps, rows, w[i]);
    }
    Seqs.FilterAll(w, NotInTest(e));
  }

  /** One step of the inner loop extends a running hit list by the pair's hit, if any. */
  lemma ScanStep(prefix: seq<Hit>, gaps: seq<Interval>, rows: seq<Row>, i: nat, j: nat, rel: Relation)
    requires i < |gaps| && j < |rows|
    ensures Matches(rel, gaps[i], rows[j]) ==>
      prefix + RowScan(gaps, i, rows, j + 1, rel) == prefix + RowScan(gaps, i, rows, j, rel) + [Hit(i, j)]
    ensures !Matches(rel, gaps[i], rows[j]) ==>
      prefix + RowScan(gaps, i, rows, j + 1, rel) == prefix + RowScan(gaps, i, rows, j, rel)
  {
    var q := RowScan(gaps, i, rows, j, rel);
    if Matches(rel, gaps[i], rows[j]) {
      Seqs.ConcatAssoc(prefix, q, [Hit(i, j)]);
    } else {
      assert q + [] == q;
    }
  }

  /** The inner loop (lines 175-181): gap `i` against every row, appending to both hit lists. */
  method ScanRows(rows: seq<Row>, gaps: seq<Interval>, i: nat, equal0: seq<Hit>, within0: seq<Hit>)
    returns (equal: seq<Hit>, within: seq<Hit>)
    requires i < |gaps|
    ensures equal == equal0 + RowScan(gaps, i, rows, |rows|, Equal)
    ensures within == within0 + RowScan(gaps, i, rows, |rows|, Within)
  {
    equal, within := equal0, within0;
    var j := 0;
    while j < |rows|
      invariant j <= |rows|
      invariant equal == equal0 + RowScan(gaps, i, rows, j, Equal)
      invariant within == within0 + RowScan(gaps, i, rows, j, Within)
    {
      ScanStep(equal0, gaps, rows, i, j, Equal);
      ScanStep(within0, gaps, rows, i, j, Within);
      var gap, row := gaps[i], rows[j];
      if gap.start == row.start && gap.end == row.end {
        equal := equal + [Hit(i, j)];
      } else if gap.start >= row.start && gap.end <= row.end {
        within := within + [Hit(i, j)];
      }
      j := j + 1;
    }
  }

  /** The double loop of lines 171-181, then the filter of line 187. */
  method GetGapMap(rows: seq<Row>, gaps: seq<Interval>) returns (equal: seq<Hit>, pureWithin: seq<Hit>)
    ensures equal == Hits(gaps, rows, Equal)
    ensures pureWithin == Hits(gaps, rows, Within)
  {
    equal := [];
    var within: seq<Hit> := [];
    var i := 0;
    while i < |gaps|
      invariant i <= |gaps|
      invariant equal == GapScan(gaps, rows, i, Equal)
      invariant within == GapScan(gaps, rows, i, Within)
    {
      equal, within := ScanRows(rows, gaps, i, equal, within);
      i := i + 1;
    }
    pureWithin := Difference(within, equal);
    PureWithinIsWithin(gaps, rows);
  }
}
