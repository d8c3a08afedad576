/**
 * Gap shortening (`_get_shortened_gaps`): each candidate row (an intron
 * or a transcript-start gap) gets its true width, a shortening type from
 * the hit lists, a width capped at the target for `equal` rows, and,
 * for rows that contain gaps, its width minus the reductions of the
 * gaps it contains.
 */
module Shorten {
  import opened Results
  import opened Tables
  import opened GapMap
  import Gaps

  /** The `shorten_type` column. */
  datatype ShortenType = NoShortening | EqualType | PureWithinType

  /** The bookkeeping columns that survive when no row contains a gap. */
  datatype Extra = Extra(shortenType: ShortenType, shortenedWidth: int)

  /**
   * An output row: the candidate, its `width` column and, when the source
   * keeps them, its `shorten_type` and `shortened_width` columns.
   */
  datatype Shortened = Shortened(row: Row, width: int, extra: Option<Extra>)

  /** `np.where(w > target, target, w)`. */
  function Cap(w: int, target: int): (c: int)
    ensures c <= w && c <= target && (c == w || c == target)
  {
    if w > target then target else w
  }

  /** How many positions capping shaves off a gap. */
  function Reduction(g: Interval, target: int): (d: int)
    ensures d >= 0
    ensures d == 0 <==> Width(g.start, g.end) <= target
  {
    Width(g.start, g.end) - Cap(Width(g.start, g.end), target)
  }

  /** Some hit names row `j`: the row's index is in the `df_index` column. */
  predicate HitsRow(hits: seq<Hit>, j: nat) {
    exists k :: 0 <= k < |hits| && hits[k].row == j
  }

  predicate GapsInRange(hits: seq<Hit>, gaps: seq<Interval>) {
    forall k :: 0 <= k < |hits| ==> hits[k].gap < |gaps|
  }

  /** The group-wise sum of reductions for row `j` (line 243). */
  function SumReduction(hits: seq<Hit>, gaps: seq<Interval>, j: nat, target: int): (s: int)
    requires GapsInRange(hits, gaps)
    ensures s >= 0
    ensures !HitsRow(hits, j) ==> s == 0
  {
    if hits == [] then 0
    else
      var last := hits[|hits| - 1];
      SumReduction(hits[..|hits| - 1], gaps, j, target) +
        (if last.row == j then Reduction(gaps[last.gap], target) else 0)
  }

  /** The type a row ends with: `pure_within` overwrites `equal` (lines 205-209). */
  function Tag(equal: seq<Hit>, pureWithin: seq<Hit>, j: nat): (t: ShortenType)
    ensures t == PureWithinType <==> HitsRow(pureWithin, j)
    ensures t == EqualType <==> HitsRow(equal, j) && !HitsRow(pureWithin, j)
    ensures t == NoShortening <==> !HitsRow(equal, j) && !HitsRow(pureWithin, j)
  {
    if HitsRow(pureWithin, j) then PureWithinType
    else if HitsRow(equal, j) then EqualType
    else NoShortening
  }

  /** `shortened_width` after the `equal` capping of lines 212-216. */
  function CappedWidth(r: Row, t: ShortenType, target: int): (w: int)
    ensures w <= Width(r.start, r.end)
    ensures t == EqualType ==> w <= target && (w == Width(r.start, r.end) || w == target)
    ensures t != EqualType ==> w == Width(r.start, r.end)
  {
    if t == EqualType then Cap(Width(r.start, r.end), target) else Width(r.start, r.end)
  }

  /** `shortened_width` after the `pure_within` reduction of lines 246-256. */
  function ShortenedWidth(rows: seq<Row>, gaps: seq<Interval>, equal: seq<Hit>, pureWithin: seq<Hit>,
                          target: int, j: nat): (w: int)
    requires j < |rows| && GapsInRange(pureWithin, gaps)
    ensures w <= Width(rows[j].start, rows[j].end)
    ensures !HitsRow(pureWithin, j) && HitsRow(equal, j) ==> w == Cap(Width(rows[j].start, rows[j].end), target)
    ensures !HitsRow(pureWithin, j) && !HitsRow(equal, j) ==> w == Width(rows[j].start, rows[j].end)
  {
    if HitsRow(pureWithin, j) then
      Width(rows[j].start, rows[j].end) - SumReduction(pureWithin, gaps, j, target)
    else CappedWidth(rows[j], Tag(equal, pureWithin, j), target)
  }

  /**
   * The table `_get_shortened_gaps` returns. With `pure_within` hits the
   * shortened width replaces `width` and the bookkeeping columns are
   * dropped; without them `width` stays the true width (lines 219, 261).
   */
  function ShortenSpec(rows: seq<Row>, gaps: seq<Interval>, equal: seq<Hit>, pureWithin: seq<Hit>,
                       target: int): (r: seq<Shortened>)
    requires GapsInRange(pureWithin, gaps)
    ensures |r| == |rows|
    ensures forall j :: 0 <= j < |rows| ==>
      r[j].row == rows[j] && r[j].width <= Width(rows[j].start, rows[j].end)
    ensures |pureWithin| > 0 ==> forall j :: 0 <= j < |rows| ==>
      r[j].extra.None? &&
      (!HitsRow(pureWithin, j) ==> r[j].width == CappedWidth(rows[j], Tag(equal, pureWithin, j), target))
    ensures |pureWithin| == 0 ==> forall j :: 0 <= j < |rows| ==>
      r[j].width == Width(rows[j].start, rows[j].end) &&
      r[j].extra == Some(Extra(Tag(equal, pureWithin, j), CappedWidth(rows[j], Tag(equal, pureWithin, j), target)))
  {
    seq(|rows|, j requires 0 <= j < |rows| =>
      if |pureWithin| > 0 then
        Shortened(rows[j], ShortenedWidth(rows, gaps, equal, pureWithin, target, j), None)
      else
        Shortened(rows[j], Width(rows[j].start, rows[j].end),
                  Some(Extra(Tag(equal, pureWithin, j), ShortenedWidth(rows, gaps, equal, pureWithin, target, j)))))
  }

  lemma HitsRowPrefix(hits: seq<Hit>, k: nat, j: nat)
    requires k < |hits|
    ensures HitsRow(hits[..k + 1], j) <==> HitsRow(hits[..k], j) || hits[k].row == j
  {
    if HitsRow(hits[..k], j) {
      var t :| 0 <= t < k && hits[..k][t].row == j;
      assert hits[..k + 1][t] == hits[t];
    }
    if hits[k].row == j {
      assert hits[..k + 1][k] == hits[k];
    }
  }

  lemma SumReductionPrefix(hits: seq<Hit>, gaps: seq<Interval>, k: nat, j: nat, target: int)
    requires k < |hits| && GapsInRange(hits, gaps)
    ensures GapsInRange(hits[..k], gaps) && GapsInRange(hits[..k + 1], gaps)
    ensures SumReduction(hits[..k + 1], gaps, j, target) ==
      SumReduction(hits[..k], gaps, j, target) +
      (if hits[k].row == j then Reduction(gaps[hits[k].gap], target) else 0)
  {
    assert hits[..k + 1][..k] == hits[..k];
  }

  /**
   * The `groupby('df_index')` sum of the reductions of the gaps each row
   * contains (lines 226-249): `None`, the NaN the column starts with, for a
   * row no gap names.
   */
  method ReductionSums(rows: seq<Row>, gaps: seq<Interval>, pureWithin: seq<Hit>, target: int)
    returns (sums: seq<Option<int>>)
    requires GapsInRange(pureWithin, gaps)
    ensures |sums| == |rows|
    ensures forall t :: 0 <= t < |rows| ==>
      sums[t] == if HitsRow(pureWithin, t) then Some(SumReduction(pureWithin, gaps, t, target)) else None
  {
    sums := seq(|rows|, _ => None);
    var k := 0;
    while k < |pureWithin|
      invariant k <= |pureWithin| && |sums| == |rows|
      invariant GapsInRange(pureWithin[..k], gaps)
      invariant forall t :: 0 <= t < |rows| ==>
        sums[t] == if HitsRow(pureWithin[..k], t) then Some(SumReduction(pureWithin[..k], gaps, t, target)) else None
    {
      var h := pureWithin[k];
      var gapWidth := gaps[h.gap].end - gaps[h.gap].start + 1;
      var shortenedGapWidth := if gapWidth > target then target else gapWidth;
      ghost var prev := sums;
      if h.row < |rows| {
        var before := match sums[h.row] case None => 0 case Some(v) => v;
        sums := sums[h.row := Some(before + (gapWidth - shortenedGapWidth))];
      }
      SumReductionPrefix(pureWithin, gaps, k, 0, target);
      forall t | 0 <= t < |rows|
        ensures sums[t] == if HitsRow(pureWithin[..k + 1], t) then Some(SumReduction(pureWithin[..k + 1], gaps, t, target)) else None
      {
        HitsRowPrefix(pureWithin, k, t);
        SumReductionPrefix(pureWithin, gaps, k, t, target);
        assert sums[t] == if t == h.row then Some((match prev[t] case None => 0 case Some(v) => v) + (gapWidth - shortenedGapWidth)) else prev[t];
      }
      k := k + 1;
    }
    assert pureWithin[..k] == pureWithin;
  }

  method GetShortenedGaps(rows: seq<Row>, gaps: seq<Interval>, equal: seq<Hit>, pureWithin: seq<Hit>,
                          target: int) returns (r: seq<Shortened>)
    requires GapsInRange(pureWithin, gaps)
    ensures r == ShortenSpec(rows, gaps, equal, pureWithin, target)
  {
    // Columns width, shorten_type and the capped shortened_width.
    var width: seq<int> := [];
    var tags: seq<ShortenType> := [];
    var capped: seq<int> := [];
    var j := 0;
    while j < |rows|
      invariant j <= |rows| && |width| == j && |tags| == j && |capped| == j
      invariant forall t :: 0 <= t < j ==>
        && width[t] == Width(rows[t].start, rows[t].end)
        && tags[t] == Tag(equal, pureWithin, t)
        && capped[t] == CappedWidth(rows[t], tags[t], target)
    {
      var w := rows[j].end - rows[j].start + 1;
      var tag := NoShortening;
      if HitsRow(equal, j) {
        tag := EqualType;
      }
      if HitsRow(pureWithin, j) {
        tag := PureWithinType;
      }
      width := width + [w];
      tags := tags + [tag];
      capped := capped + [if tag == EqualType && w > target then target else w];
      j := j + 1;
    }
    if |pureWithin| == 0 {
      r := seq(|rows|, t requires 0 <= t < |rows| => Shortened(rows[t], width[t], Some(Extra(tags[t], capped[t]))));
      return;
    }
    // Per-row sums of the reductions of the contained gaps; None is NaN.
    var sums := ReductionSums(rows, gaps, pureWithin, target);
    r := [];
    j := 0;
    while j < |rows|
      invariant j <= |rows| && |r| == j
      invariant forall t :: 0 <= t < j ==> r[t] == ShortenSpec(rows, gaps, equal, pureWithin, target)[t]
    {
      var sw := match sums[j] case None => capped[j] case Some(d) => width[j] - d;
      r := r + [Shortened(rows[j], sw, None)];
      j := j + 1;
    }
  }

  /** Row `r` strictly contains one of the gaps. */
  predicate ContainsSomeGap(gaps: seq<Interval>, r: Row) {
    exists k :: 0 <= k < |gaps| && Matches(Within, gaps[k], r)
  }

  /** Row `r` has the bounds of one of the gaps. */
  predicate EqualsSomeGap(gaps: seq<Interval>, r: Row) {
    exists k :: 0 <= k < |gaps| && Matches(Equal, gaps[k], r)
  }

  /** Reference sum: the reductions of the gaps among the first `n` that `r` strictly contains. */
  function ContainedReduction(gaps: seq<Interval>, r: Row, n: nat, target: int): (s: int)
    requires n <= |gaps|
    ensures s >= 0
  {
    if n == 0 then 0
    else ContainedReduction(gaps, r, n - 1, target) +
         (if Matches(Within, gaps[n - 1], r) then Reduction(gaps[n - 1], target) else 0)
  }

  lemma HitsInRange(gaps: seq<Interval>, rows: seq<Row>, rel: Relation)
    ensures GapsInRange(Hits(gaps, rows, rel), gaps)
  {
    var hs := Hits(gaps, rows, rel);
    forall k | 0 <= k < |hs| ensures hs[k].gap < |gaps| {
      HitsMembers(gaps, rows, rel, hs[k]);
    }
  }

  /** A row is named by a `rel` hit exactly when some gap stands in `rel` to it. */
  lemma HitsRowIff(gaps: seq<Interval>, rows: seq<Row>, rel: Relation, j: nat)
    requires j < |rows|
    ensures HitsRow(Hits(gaps, rows, rel), j) <==> exists k :: 0 <= k < |gaps| && Matches(rel, gaps[k], rows[j])
  {
    var hs := Hits(gaps, rows, rel);
    if HitsRow(hs, j) {
      var t :| 0 <= t < |hs| && hs[t].row == j;
      HitsMembers(gaps, rows, rel, hs[t]);
    }
    if exists k :: 0 <= k < |gaps| && Matches(rel, gaps[k], rows[j]) {
      var k :| 0 <= k < |gaps| && Matches(rel, gaps[k], rows[j]);
      HitsMembers(gaps, rows, rel, Hit(k, j));
      var t :| 0 <= t < |hs| && hs[t] == Hit(k, j);
    }
  }

  lemma {:induction false} SumReductionAppend(a: seq<Hit>, b: seq<Hit>, gaps: seq<Interval>, j: nat, target: int)
    requires GapsInRange(a, gaps) && GapsInRange(b, gaps)
    ensures GapsInRange(a + b, gaps)
    ensures SumReduction(a + b, gaps, j, target) == SumReduction(a, gaps, j, target) + SumReduction(b, gaps, j, target)
  {
    if b == [] {
      assert a + b == a;
    } else {
      var b' := b[..|b| - 1];
      assert GapsInRange(b', gaps);
      SumReductionAppend(a, b', gaps, j, target);
      assert (a + b)[..|a + b| - 1] == a + b';
    }
  }

  lemma {:induction false} RowScanReduction(gaps: seq<Interval>, i: nat, rows: seq<Row>, m: nat, j: nat, target: int)
    requires i < |gaps| && m <= |rows|
    ensures GapsInRange(RowScan(gaps, i, rows, m, Within), gaps)
    ensures SumReduction(RowScan(gaps, i, rows, m, Within), gaps, j, target) ==
      if j < m && Matches(Within, gaps[i], rows[j]) then Reduction(gaps[i], target) else 0
  {
    if m > 0 {
      var prev := RowScan(gaps, i, rows, m - 1, Within);
      RowScanReduction(gaps, i, rows, m - 1, j, target);
      if Matches(Within, gaps[i], rows[m - 1]) {
        var h := Hit(i, m - 1);
        assert [h][..0] == [];
        assert SumReduction([h], gaps, j, target) == if m - 1 == j then Reduction(gaps[i], target) else 0;
        SumReductionAppend(prev, [h], gaps, j, target);
      } else {
        assert RowScan(gaps, i, rows, m, Within) == prev + [] == prev;
      }
    }
  }

  lemma {:induction false} GapScanReduction(gaps: seq<Interval>, rows: seq<Row>, n: nat, j: nat, target: int)
    requires n <= |gaps| && j < |rows|
    ensures GapsInRange(GapScan(gaps, rows, n, Within), gaps)
    ensures SumReduction(GapScan(gaps, rows, n, Within), gaps, j, target) == ContainedReduction(gaps, rows[j], n, target)
  {
    if n > 0 {
      GapScanReduction(gaps, rows, n - 1, j, target);
      RowScanReduction(gaps, n - 1, rows, |rows|, j, target);
      SumReductionAppend(GapScan(gaps, rows, n - 1, Within), RowScan(gaps, n - 1, rows, |rows|, Within), gaps, j, target);
    }
  }

  /**
   * Over the hits of the gap map, the group-wise sum of line 243 is the
   * sum of the reductions of exactly the gaps the row strictly contains.
   */
  lemma PureReductionIsContainedSum(gaps: seq<Interval>, rows: seq<Row>, j: nat, target: int)
    requires j < |rows|
    ensures GapsInRange(Hits(gaps, rows, Within), gaps)
    ensures SumReduction(Hits(gaps, rows, Within), gaps, j, target) == ContainedReduction(gaps, rows[j], |gaps|, target)
  {
    GapScanReduction(gaps, rows, |gaps|, j, target);
  }

  /**
   * The shortened width of a row, stated on the gaps alone: a row holding
   * gaps loses their reductions, a row equal to a gap is capped at the
   * target, and any other row keeps its width.
   */
  lemma ShortenedWidthOfRow(gaps: seq<Interval>, rows: seq<Row>, target: int, j: nat)
    requires j < |rows|
    ensures GapsInRange(Hits(gaps, rows, Within), gaps)
    ensures ShortenedWidth(rows, gaps, Hits(gaps, rows, Equal), Hits(gaps, rows, Within), target, j) ==
      if ContainsSomeGap(gaps, rows[j]) then
        Width(rows[j].start, rows[j].end) - ContainedReduction(gaps, rows[j], |gaps|, target)
      else if EqualsSomeGap(gaps, rows[j]) then Cap(Width(rows[j].start, rows[j].end), target)
      else Width(rows[j].start, rows[j].end)
  {
    HitsInRange(gaps, rows, Within);
    HitsRowIff(gaps, rows, Within, j);
    HitsRowIff(gaps, rows, Equal, j);
    PureReductionIsContainedSum(gaps, rows, j, target);
  }

  /**
   * The end of the last gap among the first `n` that `r` strictly contains,
   * or the position just before `r` when there is none.
   */
  function LastEnd(gaps: seq<Interval>, r: Row, n: nat): (e: int)
    requires n <= |gaps| && Gaps.NonEmpty(gaps)
    ensures e >= r.start - 1
    ensures e == r.start - 1 || e <= r.end
  {
    if n == 0 then r.start - 1
    else if Matches(Within, gaps[n - 1], r) then gaps[n - 1].end
    else LastEnd(gaps, r, n - 1)
  }

  /** Over ascending gaps, a later contained gap starts after that last end. */
  lemma {:induction false} LastEndBefore(gaps: seq<Interval>, r: Row, n: nat, k: nat)
    requires Gaps.NonEmpty(gaps) && Gaps.Ascending(gaps) && n <= k < |gaps| && Contains(r, gaps[k])
    ensures LastEnd(gaps, r, n) < gaps[k].start
  {
    if n > 0 && !Matches(Within, gaps[n - 1], r) {
      LastEndBefore(gaps, r, n - 1, k);
    }
  }

  /**
   * Over non-empty ascending gaps and a target of at least 1, each
   * contained gap keeps at least one position, so the reductions of the
   * contained gaps stay below the stretch of `r` they reach into.
   */
  lemma {:induction false} ContainedReductionBound(gaps: seq<Interval>, r: Row, n: nat, target: int)
    requires target >= 1 && Gaps.NonEmpty(gaps) && Gaps.Ascending(gaps) && n <= |gaps|
    ensures ContainedReduction(gaps, r, n, target) <=
      if LastEnd(gaps, r, n) >= r.start then LastEnd(gaps, r, n) - r.start else 0
  {
    if n > 0 {
      ContainedReductionBound(gaps, r, n - 1, target);
      var g := gaps[n - 1];
      if Matches(Within, g, r) {
        LastEndBefore(gaps, r, n - 1, n - 1);
        assert g.start <= g.end;
        assert Reduction(g, target) <= Width(g.start, g.end) - 1;
      }
    }
  }

  /**
   * Over the gaps `_get_gaps` produces and a target of at least 1, a row of
   * positive width keeps a positive shortened width: `0 < shortened_width <= width`.
   */
  lemma ShortenedWidthPositive(gaps: seq<Interval>, rows: seq<Row>, target: int, j: nat)
    requires j < |rows| && target >= 1 && Gaps.NonEmpty(gaps) && Gaps.Ascending(gaps)
    requires Width(rows[j].start, rows[j].end) >= 1
    ensures GapsInRange(Hits(gaps, rows, Within), gaps)
    ensures 0 < ShortenedWidth(rows, gaps, Hits(gaps, rows, Equal), Hits(gaps, rows, Within), target, j)
              <= Width(rows[j].start, rows[j].end)
  {
    ShortenedWidthOfRow(gaps, rows, target, j);
    ContainedReductionBound(gaps, rows[j], |gaps|, target);
  }


  /**
   * Over disjoint, ascending, non-empty gaps a row equal to one gap
   * contains no other, so the precedence of `pure_within` over `equal`
   * never decides a row's type.
   */
  lemma EqualRowContainsNoGap(gaps: seq<Interval>, r: Row)
    requires Gaps.NonEmpty(gaps) && Gaps.Ascending(gaps)
    ensures EqualsSomeGap(gaps, r) ==> !ContainsSomeGap(gaps, r)
  {
  }

  /**
   * A row every position of which is covered by an exon stands in no
   * relation to any gap, so it keeps its width; this covers the start gap
   * of the group holding the leftmost exon.
   */
  lemma CoveredRowUntouched(exons: seq<Row>, gaps: seq<Interval>, r: Row)
    requires Gaps.NonEmpty(gaps) && Gaps.AvoidsExons(gaps, exons)
    requires forall p :: r.start <= p <= r.end ==> Covered(exons, p)
    ensures !EqualsSomeGap(gaps, r) && !ContainsSomeGap(gaps, r)
  {
    forall k | 0 <= k < |gaps| && gaps[k].start >= r.start && gaps[k].end <= r.end
      ensures false
    {
      assert InAny(gaps, gaps[k].start);
    }
  }

  /**
   * A row starting at a covered position equals no gap; every start gap
   * starts at the leftmost exon start, so start gaps are never `equal`.
   */
  lemma CoveredStartNotEqual(exons: seq<Row>, gaps: seq<Interval>, r: Row)
    requires Gaps.NonEmpty(gaps) && Gaps.AvoidsExons(gaps, exons)
    requires Covered(exons, r.start)
    ensures !EqualsSomeGap(gaps, r)
  {
  }

  /**
   * A single intron equal to its gap and wider than the target keeps its
   * full `width`: with no `pure_within` hit anywhere the rename of line
   * 259 is skipped, and the capped value stays in `shortened_width`.
   */
  lemma EqualCapLostAsWritten()
    ensures var gaps := [Interval(11, 100)];
      var rows := [Row("chr1", 11, 100, "+", Some("intron"), "tx1")];
      && Hits(gaps, rows, Within) == []
      && Hits(gaps, rows, Equal) == [Hit(0, 0)]
      && ShortenSpec(rows, gaps, Hits(gaps, rows, Equal), Hits(gaps, rows, Within), 10)[0] ==
         Shortened(rows[0], 90, Some(Extra(EqualType, 10)))
  {
    var gaps := [Interval(11, 100)];
    var rows := [Row("chr1", 11, 100, "+", Some("intron"), "tx1")];
    assert RowScan(gaps, 0, rows, 1, Within) == [];
    assert RowScan(gaps, 0, rows, 1, Equal) == [Hit(0, 0)];
    assert [Hit(0, 0)][0].row == 0;
  }
}
