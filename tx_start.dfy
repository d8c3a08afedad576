/**
 * Transcript-start gaps (`_get_tx_start_gaps`): one synthetic record per
 * group, running from the leftmost exon start of the whole input to the
 * group's own first exon start.
 */
module TxStart {
  import opened Results
  import opened Tables
  import Seqs

  /** The smallest `start` of a non-empty table. */
  function MinStart(rows: seq<Row>): (m: int)
    requires |rows| > 0
    ensures forall i :: 0 <= i < |rows| ==> m <= rows[i].start
    ensures exists i :: 0 <= i < |rows| && rows[i].start == m
  {
    if |rows| == 1 then rows[0].start
    else
      var rest := MinStart(rows[1..]);
      assert forall i :: 1 <= i < |rows| ==> rows[1..][i - 1] == rows[i];
      if rows[0].start <= rest then rows[0].start else rest
  }

  function GroupColumn(rows: seq<Row>): (gs: seq<string>)
    ensures |gs| == |rows| && forall i :: 0 <= i < |rows| ==> gs[i] == rows[i].group
  {
    seq(|rows|, i requires 0 <= i < |rows| => rows[i].group)
  }

  /** The group keys of `rows`, each once, in first-occurrence order. */
  function GroupKeys(rows: seq<Row>): seq<string> {
    Seqs.Distinct(GroupColumn(rows))
  }

  predicate InGroup(g: string, r: Row) {
    r.group == g
  }

  /** `InGroup` as a filter test. */
  function GroupTest(g: string): Row -> bool {
    r => InGroup(g, r)
  }

  /** The rows of group `g`. */
  function GroupRows(rows: seq<Row>, g: string): seq<Row> {
    Seqs.Filter(rows, GroupTest(g))
  }

  lemma GroupRowsMembers(rows: seq<Row>, g: string, x: Row)
    ensures x in GroupRows(rows, g) <==> x in rows && x.group == g
  {
    Seqs.FilterMembers(rows, GroupTest(g), x);
  }

  function TxStartGaps(exons: seq<Row>): (r: seq<Row>)
    requires |exons| > 0
    ensures |r| == |GroupKeys(exons)|
  {
    var keys := GroupKeys(exons);
    var overall := MinStart(exons);
    seq(|keys|, i requires 0 <= i < |keys| =>
      var members := GroupRows(exons, keys[i]);
      GroupRowsNonEmpty(exons, keys[i]);
      Row(exons[0].seqnames, overall, MinStart(members), exons[0].strand, None, keys[i]))
  }

  lemma GroupRowsNonEmpty(rows: seq<Row>, g: string)
    requires g in GroupKeys(rows)
    ensures |GroupRows(rows, g)| > 0
  {
    var gs := GroupColumn(rows);
    assert g in gs;
    var i :| 0 <= i < |rows| && rows[i].group == g;
    GroupRowsMembers(rows, g, rows[i]);
  }

  /** Some row of `rows` belongs to group `g`. */
  predicate HasGroup(rows: seq<Row>, g: string) {
    g in GroupColumn(rows)
  }

  /** The start gaps carry exactly the group keys of the exons, each once. */
  lemma TxStartGapsKeys(exons: seq<Row>)
    requires |exons| > 0
    ensures forall g :: HasGroup(TxStartGaps(exons), g) <==> HasGroup(exons, g)
    ensures Seqs.NoDuplicates(GroupColumn(TxStartGaps(exons)))
  {
    var r := TxStartGaps(exons);
    var keys := GroupKeys(exons);
    assert GroupColumn(r) == keys;
  }

  /**
   * Each start gap runs from the leftmost exon start of the input to the
   * leftmost exon start of its own group, on the first exon's seqnames
   * and strand, and so starts no later than it ends.
   */
  lemma TxStartGapSpan(exons: seq<Row>, i: nat)
    requires |exons| > 0 && i < |TxStartGaps(exons)|
    ensures var x := TxStartGaps(exons)[i];
      && x.seqnames == exons[0].seqnames && x.strand == exons[0].strand
      && (forall j :: 0 <= j < |exons| ==> x.start <= exons[j].start)
      && (exists j :: 0 <= j < |exons| && exons[j].start == x.start)
      && (forall j :: 0 <= j < |exons| && exons[j].group == x.group ==> x.end <= exons[j].start)
      && (exists j :: 0 <= j < |exons| && exons[j].group == x.group && exons[j].start == x.end)
      && x.start <= x.end
  {
    var x := TxStartGaps(exons)[i];
    var g := GroupKeys(exons)[i];
    var members := GroupRows(exons, g);
    TxStartGapAt(exons, i);
    forall j | 0 <= j < |exons| && exons[j].group == g ensures x.end <= exons[j].start {
      GroupRowsMembers(exons, g, exons[j]);
      var t :| 0 <= t < |members| && members[t] == exons[j];
    }
    var t :| 0 <= t < |members| && members[t].start == x.end;
    GroupRowsMembers(exons, g, members[t]);
    var j :| 0 <= j < |exons| && exons[j] == members[t];
  }

  /** Start gap `i` is the record built for the `i`-th group key. */
  lemma TxStartGapAt(exons: seq<Row>, i: nat)
    requires |exons| > 0 && i < |TxStartGaps(exons)|
    ensures var g := GroupKeys(exons)[i];
      && |GroupRows(exons, g)| > 0
      && TxStartGaps(exons)[i] == Row(exons[0].seqnames, MinStart(exons), MinStart(GroupRows(exons, g)), exons[0].strand, None, g)
  {
    GroupRowsNonEmpty(exons, GroupKeys(exons)[i]);
  }

  /**
   * The group holding the leftmost exon gets a start gap of width 1,
   * which is the offset used when no grouping is requested.
   */
  lemma LeftmostGroupWidthOne(exons: seq<Row>, k: nat)
    requires |exons| > 0 && k < |exons| && exons[k].start == MinStart(exons)
    ensures HasGroup(TxStartGaps(exons), exons[k].group)
    ensures forall i :: 0 <= i < |TxStartGaps(exons)| && TxStartGaps(exons)[i].group == exons[k].group ==>
      Width(TxStartGaps(exons)[i].start, TxStartGaps(exons)[i].end) == 1
  {
    TxStartGapsKeys(exons);
    assert GroupColumn(exons)[k] == exons[k].group;
    forall i | 0 <= i < |TxStartGaps(exons)| && TxStartGaps(exons)[i].group == exons[k].group
      ensures Width(TxStartGaps(exons)[i].start, TxStartGaps(exons)[i].end) == 1
    {
      TxStartGapSpan(exons, i);
    }
  }
}
