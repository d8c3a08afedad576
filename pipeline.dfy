/**
 * The entry point `shorten_gaps`: validate both tables, type their rows,
 * pull the introns in by one position at each end, find the gaps between
 * exons, shorten the introns (and, with grouping, the transcript-start
 * gaps) that span them, and lay every transcript out again.
 */
module Pipeline {
  import opened Results
  import opened Tables
  import opened GapMap
  import Gaps
  import Shorten
  import TxStart
  import Rescale

  /** The columns both input tables must have. */
  const RequiredColumns: set<string> := {"start", "end", "strand", "seqnames"}

  predicate HasRequired(t: Table) {
    RequiredColumns <= t.columns
  }

  /** The required columns in the order the source lists them. */
  const RequiredList: seq<string> := ["start", "end", "strand", "seqnames"]

  /** `HasRequired` is the source's per-column membership test over that list. */
  lemma HasRequiredEach(t: Table)
    ensures HasRequired(t) <==> forall k :: 0 <= k < |RequiredList| ==> RequiredList[k] in t.columns
  {
    if forall k :: 0 <= k < |RequiredList| ==> RequiredList[k] in t.columns {
      assert RequiredList[0] in t.columns && RequiredList[1] in t.columns;
      assert RequiredList[2] in t.columns && RequiredList[3] in t.columns;
    }
  }

  /** Which input `_get_type` is looking at. */
  datatype TableKind = Exons | Introns

  function Label(which: TableKind): string {
    match which
    case Exons => "exon"
    case Introns => "intron"
  }

  /**
   * `_get_type`: a table without a `type` column gets one holding its
   * label; an intron table that has one must hold "intron" on every row
   * (a missing value fails this test too); an exon table passes as is.
   */
  function GetType(t: Table, which: TableKind): (r: Result<Table, Error>)
    ensures r.Err? <==>
      which == Introns && "type" in t.columns && exists i :: 0 <= i < |t.rows| && t.rows[i].kind != Some("intron")
    ensures r.Err? ==> r.error == BadIntronType
    ensures r.Ok? ==> r.value.columns == t.columns + {"type"} && |r.value.rows| == |t.rows|
    ensures r.Ok? ==> forall i :: 0 <= i < |t.rows| ==>
      r.value.rows[i] == t.rows[i].(kind := if "type" in t.columns then t.rows[i].kind else Some(Label(which)))
    ensures r.Ok? && which == Introns ==> forall i :: 0 <= i < |t.rows| ==> r.value.rows[i].kind == Some("intron")
  {
    if "type" !in t.columns then
      Ok(Table(t.columns + {"type"},
               seq(|t.rows|, i requires 0 <= i < |t.rows| => t.rows[i].(kind := Some(Label(which))))))
    else if which == Introns && exists i :: 0 <= i < |t.rows| && t.rows[i].kind != Some("intron") then
      Err(BadIntronType)
    else Ok(t)
  }

  /** Lines 38-40: every intron loses its first and its last position. */
  function Shrink(rows: seq<Row>): (r: seq<Row>)
    ensures |r| == |rows|
    ensures forall i :: 0 <= i < |rows| ==>
      && r[i] == rows[i].(start := rows[i].start + 1, end := rows[i].end - 1)
      && Width(r[i].start, r[i].end) == Width(rows[i].start, rows[i].end) - 2
  {
    seq(|rows|, i requires 0 <= i < |rows| => rows[i].(start := rows[i].start + 1, end := rows[i].end - 1))
  }

  /**
   * Shortening of a candidate table against the gaps, through the gap
   * map; `width` is the shortened width only if some row holds a gap.
   */
  function ShortenAgainst(rows: seq<Row>, gaps: seq<Interval>, target: int): (r: seq<Shorten.Shortened>)
    ensures |r| == |rows|
    ensures Shorten.GapsInRange(Hits(gaps, rows, Within), gaps)
    ensures forall j :: 0 <= j < |rows| ==> r[j].row == rows[j]
    ensures forall j :: 0 <= j < |rows| ==>
      r[j].width == if Hits(gaps, rows, Within) != [] then
        Shorten.ShortenedWidth(rows, gaps, Hits(gaps, rows, Equal), Hits(gaps, rows, Within), target, j)
      else Width(rows[j].start, rows[j].end)
  {
    Shorten.HitsInRange(gaps, rows, Within);
    Shorten.ShortenSpec(rows, gaps, Hits(gaps, rows, Equal), Hits(gaps, rows, Within), target)
  }

  /**
   * Everything after the gaps are known: shorten the introns, with
   * grouping shorten the start gaps too, and rescale.
   */
  function Assemble(exons: seq<Row>, introns: seq<Row>, gaps: seq<Interval>, grouped: bool, target: int): (r: seq<Row>)
    requires |exons| > 0
    ensures |r| <= |exons| + |introns|
    ensures !grouped ==> |r| == |exons| + |introns|
  {
    var txStart := if grouped then Some(ShortenAgainst(TxStart.TxStartGaps(exons), gaps, target)) else None;
    Rescale.UngroupedKeepsAll(exons, ShortenAgainst(introns, gaps, target));
    Rescale.Rescaled(exons, ShortenAgainst(introns, gaps, target), txStart)
  }

  method ShortenGaps(exons: Table, introns: Table, grouped: bool, target: int) returns (r: Result<seq<Row>, Error>)
    ensures r == Err(MissingColumns) <==> !(HasRequired(exons) && HasRequired(introns))
    ensures r == Err(BadIntronType) <==>
      HasRequired(exons) && HasRequired(introns) && GetType(introns, Introns).Err?
    ensures r == Err(MixedContext) <==>
      HasRequired(exons) && HasRequired(introns) && GetType(introns, Introns).Ok? && !Gaps.SingleContext(exons.rows)
    ensures r.Ok? ==> GetType(exons, Exons).Ok? && GetType(introns, Introns).Ok? && |exons.rows| > 0
    ensures r.Ok? ==> exists gaps :: (Gaps.IsGapSet(GetType(exons, Exons).value.rows, gaps) &&
      r.value == Assemble(GetType(exons, Exons).value.rows, Shrink(GetType(introns, Introns).value.rows), gaps, grouped, target))
  {
    if !(HasRequired(exons) && HasRequired(introns)) {
      return Err(MissingColumns);
    }
    var typedExons := GetType(exons, Exons).value;
    var typedIntrons := GetType(introns, Introns);
    if typedIntrons.Err? {
      return Err(typedIntrons.error);
    }
    var shrunk := Shrink(typedIntrons.value.rows);
    var ex := typedExons.rows;
    assert Gaps.SingleContext(ex) <==> Gaps.SingleContext(exons.rows);
    var found := Gaps.GetGaps(ex);
    if found.Err? {
      return Err(found.error);
    }
    var gaps := found.value;
    var equal, pureWithin := GetGapMap(shrunk, gaps);
    Shorten.HitsInRange(gaps, shrunk, Within);
    var intronsShortened := Shorten.GetShortenedGaps(shrunk, gaps, equal, pureWithin, target);
    var txStart: Option<seq<Shorten.Shortened>> := None;
    if grouped {
      var tx := TxStart.TxStartGaps(ex);
      var txEqual, txWithin := GetGapMap(tx, gaps);
      Shorten.HitsInRange(gaps, tx, Within);
      var txShortened := Shorten.GetShortenedGaps(tx, gaps, txEqual, txWithin, target);
      txStart := Some(txShortened);
    }
    r := Ok(Rescale.Rescaled(ex, intronsShortened, txStart));
  }

  /** Shortening keeps the groups of the candidate table. */
  lemma ShortenedGroups(rows: seq<Row>, gaps: seq<Interval>, target: int, g: string)
    ensures (exists k :: 0 <= k < |rows| && ShortenAgainst(rows, gaps, target)[k].row.group == g) <==>
      TxStart.HasGroup(rows, g)
  {
    var t := ShortenAgainst(rows, gaps, target);
    var gs := TxStart.GroupColumn(rows);
    if TxStart.HasGroup(rows, g) {
      var k :| 0 <= k < |gs| && gs[k] == g;
      assert t[k].row.group == g;
    }
    if exists k :: 0 <= k < |rows| && t[k].row.group == g {
      var k :| 0 <= k < |rows| && t[k].row.group == g;
      assert gs[k] == g;
    }
  }

  /**
   * With grouping, the merge of line 304 keeps a row exactly when its
   * group has an exon: every exon group has a start gap, and an intron
   * whose group has no exon is dropped.
   */
  lemma StartGapIffExonGroup(exons: seq<Row>, gaps: seq<Interval>, target: int, g: string)
    requires |exons| > 0
    ensures Rescale.Offset(Some(ShortenAgainst(TxStart.TxStartGaps(exons), gaps, target)), g).Some? <==>
      TxStart.HasGroup(exons, g)
  {
    TxStart.TxStartGapsKeys(exons);
    ShortenedGroups(TxStart.TxStartGaps(exons), gaps, target, g);
  }

  /**
   * The group holding the leftmost exon is shifted by 1, as every row is
   * without grouping: its start gap is the single covered position of
   * that exon start, which no gap touches.
   */
  lemma LeftmostGroupOffsetOne(exons: seq<Row>, gaps: seq<Interval>, target: int, k: nat)
    requires k < |exons| && AllValid(exons) && Gaps.IsGapSet(exons, gaps)
    requires exons[k].start == TxStart.MinStart(exons)
    ensures Rescale.Offset(Some(ShortenAgainst(TxStart.TxStartGaps(exons), gaps, target)), exons[k].group) == Some(1)
  {
    var tx := TxStart.TxStartGaps(exons);
    var t := ShortenAgainst(tx, gaps, target);
    var g := exons[k].group;
    assert TxStart.GroupColumn(exons)[k] == g;
    StartGapIffExonGroup(exons, gaps, target, g);
    var o := Rescale.Offset(Some(t), g);
    var j :| 0 <= j < |t| && t[j].row.group == g && t[j].width == o.value;
    StartGapWidthOne(exons, gaps, target, k, j);
  }

  lemma StartGapWidthOne(exons: seq<Row>, gaps: seq<Interval>, target: int, k: nat, j: nat)
    requires k < |exons| && AllValid(exons) && Gaps.IsGapSet(exons, gaps)
    requires exons[k].start == TxStart.MinStart(exons)
    requires j < |TxStart.TxStartGaps(exons)| && TxStart.TxStartGaps(exons)[j].group == exons[k].group
    ensures ShortenAgainst(TxStart.TxStartGaps(exons), gaps, target)[j].width == 1
  {
    var tx := TxStart.TxStartGaps(exons);
    TxStart.LeftmostGroupWidthOne(exons, k);
    TxStart.TxStartGapSpan(exons, j);
    assert tx[j].start == exons[k].start && tx[j].end == exons[k].start;
    assert Covered(exons, exons[k].start);
    Shorten.CoveredRowUntouched(exons, gaps, tx[j]);
    Shorten.ShortenedWidthOfRow(gaps, tx, target, j);
  }
}
