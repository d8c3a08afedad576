/**
 * Gap detection (`_get_gaps`): merge the exons of one seqnames/strand
 * into blocks with a single sweep in start order, and report the
 * uncovered intervals between consecutive blocks.
 */
module Gaps {
  import opened Results
  import opened Tables
  import Sorting

  /**
   * Exactly one distinct seqnames and one distinct strand; an empty table
   * has none, so it fails the `nunique() == 1` test.
   */
  predicate SingleContext(rows: seq<Row>) {
    && |rows| > 0
    && forall i :: 0 <= i < |rows| ==>
      rows[i].seqnames == rows[0].seqnames && rows[i].strand == rows[0].strand
  }

  /** The distinct seqnames of a table (what `nunique` counts). */
  function Seqnames(rows: seq<Row>): set<string> {
    set i | 0 <= i < |rows| :: rows[i].seqnames
  }

  /** The distinct strands of a table. */
  function Strands(rows: seq<Row>): set<string> {
    set i | 0 <= i < |rows| :: rows[i].strand
  }

  /** A set with exactly one element holds nothing but that element. */
  lemma SingletonCard(xs: set<string>, x: string)
    requires x in xs
    ensures |xs| == 1 <==> xs == {x}
  {
    if |xs| == 1 {
      var rest := xs - {x};
      assert xs == rest + {x};
      assert |rest| == 0;
      assert rest == {};
    }
  }

  /**
   * `SingleContext` is the `nunique() == 1` test on both columns: one
   * distinct seqnames and one distinct strand.
   */
  lemma SingleContextNunique(rows: seq<Row>)
    ensures SingleContext(rows) <==> |Seqnames(rows)| == 1 && |Strands(rows)| == 1
  {
    if |rows| == 0 {
      assert Seqnames(rows) == {};
    } else {
      var n, st := rows[0].seqnames, rows[0].strand;
      assert n in Seqnames(rows);
      assert st in Strands(rows);
      SingletonCard(Seqnames(rows), n);
      SingletonCard(Strands(rows), st);
      if SingleContext(rows) {
        assert Seqnames(rows) == {n};
        assert Strands(rows) == {st};
      } else {
        var i :| 0 <= i < |rows| && !(rows[i].seqnames == n && rows[i].strand == st);
        assert rows[i].seqnames in Seqnames(rows);
        assert rows[i].strand in Strands(rows);
      }
    }
  }

  predicate StartLe(a: Row, b: Row) {
    a.start <= b.start
  }

  /** The exons in start order (the `sort_values('start')` of the source). */
  function SortByStart(rows: seq<Row>): (r: seq<Row>)
    ensures multiset(r) == multiset(rows) && |r| == |rows|
    ensures Sorting.SortedBy(r, StartLe)
  {
    Sorting.SortSorted(rows, StartLe);
    Sorting.Sort(rows, StartLe)
  }

  /** Every gap holds at least one position. */
  predicate NonEmpty(gaps: seq<Interval>) {
    forall k :: 0 <= k < |gaps| ==> gaps[k].start <= gaps[k].end
  }

  /** Gaps are listed left to right and pairwise disjoint. */
  predicate Ascending(gaps: seq<Interval>) {
    forall j, k :: 0 <= j < k < |gaps| ==> gaps[j].end < gaps[k].start
  }

  /** No gap position is covered by an exon. */
  ghost predicate AvoidsExons(gaps: seq<Interval>, exons: seq<Row>) {
    forall p :: InAny(gaps, p) ==> !Covered(exons, p)
  }

  /** Every uncovered position lying between two covered ones is in a gap. */
  ghost predicate FillsHoles(gaps: seq<Interval>, exons: seq<Row>) {
    forall a, p, b :: a < p < b && Covered(exons, a) && Covered(exons, b) && !Covered(exons, p)
      ==> InAny(gaps, p)
  }

  /** Each gap is flanked by covered positions, so it cannot be widened. */
  ghost predicate Maximal(gaps: seq<Interval>, exons: seq<Row>) {
    forall k :: 0 <= k < |gaps| ==>
      Covered(exons, gaps[k].start - 1) && Covered(exons, gaps[k].end + 1)
  }

  /**
   * What `_get_gaps` promises about its output: non-empty gaps and, for
   * well-formed exons, exactly the maximal uncovered runs between covered
   * positions, in ascending order.
   */
  ghost predicate IsGapSet(exons: seq<Row>, gaps: seq<Interval>) {
    && NonEmpty(gaps)
    && (AllValid(exons) ==>
          Ascending(gaps) && AvoidsExons(gaps, exons) && FillsHoles(gaps, exons) && Maximal(gaps, exons))
  }

  /** Blocks listed left to right, each ending before the next starts. */
  predicate Separated(blocks: seq<Interval>) {
    forall j, k :: 0 <= j < k < |blocks| ==> blocks[j].end < blocks[k].start
  }

  /** Every block holds at least one position. */
  predicate BlocksValid(blocks: seq<Interval>) {
    forall k :: 0 <= k < |blocks| ==> blocks[k].start <= blocks[k].end
  }

  /**
   * Invariant of the merging sweep after `i` exons of `s`: the closed
   * blocks and the open block [cs, ce] are separated and cover exactly
   * the positions covered by the exons seen so far.
   */
  ghost predicate SweepInv(s: seq<Row>, i: nat, merged: seq<Interval>, cs: int, ce: int, valid: bool)
    requires 0 < |s| && i <= |s|
  {
    && (i < |s| ==> cs <= s[i].start)
    && (forall k :: 0 <= k < |merged| ==> merged[k].end < cs)
    && Separated(merged)
    && (forall p :: InAny(merged + [Interval(cs, ce)], p) <==>
                   Covered(s[..i], p) || s[0].start <= p <= s[0].end)
    && (valid ==> cs <= ce && BlocksValid(merged))
  }

  lemma SweepInit(s: seq<Row>, valid: bool)
    requires 0 < |s| && (valid ==> AllValid(s))
    ensures SweepInv(s, 0, [], s[0].start, s[0].end, valid)
  {
    forall p ensures InAny([] + [Interval(s[0].start, s[0].end)], p) <==> s[0].start <= p <= s[0].end {
      InAnyAppend([], Interval(s[0].start, s[0].end), p);
    }
  }

  /** A exon starting after the open block closes it and opens a new one. */
  lemma SweepClose(s: seq<Row>, i: nat, merged: seq<Interval>, cs: int, ce: int, valid: bool)
    requires i < |s| && SweepInv(s, i, merged, cs, ce, valid)
    requires Sorting.SortedBy(s, StartLe) && (valid ==> AllValid(s))
    requires s[i].start > ce
    ensures SweepInv(s, i + 1, merged + [Interval(cs, ce)], s[i].start, s[i].end, valid)
  {
    var e := s[i];
    assert s[..i + 1] == s[..i] + [e];
    forall p ensures InAny(merged + [Interval(cs, ce)] + [Interval(e.start, e.end)], p) <==>
                     Covered(s[..i + 1], p) || s[0].start <= p <= s[0].end {
      InAnyAppend(merged + [Interval(cs, ce)], Interval(e.start, e.end), p);
      CoveredAppend(s[..i], e, p);
    }
    if i + 1 < |s| {
      assert StartLe(s[i], s[i + 1]);
    }
  }

  /** An exon starting inside the open block extends it to the larger end. */
  lemma SweepExtend(s: seq<Row>, i: nat, merged: seq<Interval>, cs: int, ce: int, valid: bool)
    requires i < |s| && SweepInv(s, i, merged, cs, ce, valid)
    requires Sorting.SortedBy(s, StartLe) && (valid ==> AllValid(s))
    requires s[i].start <= ce
    ensures SweepInv(s, i + 1, merged, cs, if s[i].end > ce then s[i].end else ce, valid)
  {
    var e := s[i];
    var ne := if e.end > ce then e.end else ce;
    assert s[..i + 1] == s[..i] + [e];
    forall p ensures InAny(merged + [Interval(cs, ne)], p) <==>
                     Covered(s[..i + 1], p) || s[0].start <= p <= s[0].end {
      InAnyAppend(merged, Interval(cs, ne), p);
      InAnyAppend(merged, Interval(cs, ce), p);
      CoveredAppend(s[..i], e, p);
    }
    if i + 1 < |s| {
      assert StartLe(s[i], s[i + 1]);
    }
  }

  method GetGaps(exons: seq<Row>) returns (r: Result<seq<Interval>, Error>)
    ensures r.Err? <==> !SingleContext(exons)
    ensures r.Err? ==> r.error == MixedContext
    ensures r.Ok? ==> IsGapSet(exons, r.value)
  {
    if !SingleContext(exons) {
      return Err(MixedContext);
    }
    var s := SortByStart(exons);
    ghost var valid := AllValid(exons);
    SortedValid(exons, s);
    // Sweep: `merged` holds the closed blocks, [cs, ce] the open one.
    var merged: seq<Interval> := [];
    var cs, ce := s[0].start, s[0].end;
    SweepInit(s, valid);
    var i := 0;
    while i < |s|
      invariant 0 <= i <= |s|
      invariant SweepInv(s, i, merged, cs, ce, valid)
    {
      var e := s[i];
      if e.start > ce {
        SweepClose(s, i, merged, cs, ce, valid);
        merged := merged + [Interval(cs, ce)];
        cs, ce := e.start, e.end;
      } else {
        SweepExtend(s, i, merged, cs, ce, valid);
        ce := if e.end > ce then e.end else ce;
      }
      i := i + 1;
    }
    SweepDone(s, merged, cs, ce, valid);
    merged := merged + [Interval(cs, ce)];
    var gaps := GapsBetween(merged, valid);
    GapsOfBlocks(exons, s, merged, gaps, valid);
    return Ok(gaps);
  }

  lemma SortedValid(exons: seq<Row>, s: seq<Row>)
    requires multiset(s) == multiset(exons)
    ensures AllValid(exons) ==> AllValid(s)
  {
    if AllValid(exons) {
      forall i | 0 <= i < |s| ensures s[i].start <= s[i].end {
        assert s[i] in multiset(exons);
      }
    }
  }

  /** When the sweep ends, closing the open block leaves the blocks that cover the exons. */
  lemma SweepDone(s: seq<Row>, merged: seq<Interval>, cs: int, ce: int, valid: bool)
    requires 0 < |s| && SweepInv(s, |s|, merged, cs, ce, valid)
    ensures Separated(merged + [Interval(cs, ce)])
    ensures valid ==> BlocksValid(merged + [Interval(cs, ce)])
    ensures forall p :: InAny(merged + [Interval(cs, ce)], p) <==> Covered(s, p)
  {
    assert s[..|s|] == s;
    var b := merged + [Interval(cs, ce)];
    forall j, k | 0 <= j < k < |b| ensures b[j].end < b[k].start {
      if k == |merged| {
        assert b[j] == merged[j];
      } else {
        assert b[j] == merged[j] && b[k] == merged[k];
      }
    }
    forall p ensures InAny(b, p) <==> Covered(s, p) {
      if s[0].start <= p <= s[0].end {
        assert s[0].start <= p <= s[0].end;
      }
    }
  }

  /** The gaps between the blocks of the exons' union are the exons' gap set. */
  lemma GapsOfBlocks(exons: seq<Row>, s: seq<Row>, merged: seq<Interval>, gaps: seq<Interval>, valid: bool)
    requires multiset(s) == multiset(exons) && valid == AllValid(exons)
    requires |merged| > 0 && Separated(merged) && (valid ==> BlocksValid(merged))
    requires forall p :: InAny(merged, p) <==> Covered(s, p)
    requires NonEmpty(gaps)
    requires valid ==> Ascending(gaps)
    requires valid ==> forall p :: InAny(gaps, p) ==> !InAny(merged, p)
    requires valid ==> forall p :: merged[0].start <= p <= merged[|merged| - 1].end && !InAny(merged, p)
                                   ==> InAny(gaps, p)
    requires valid ==> forall k :: 0 <= k < |gaps| ==>
                         InAny(merged, gaps[k].start - 1) && InAny(merged, gaps[k].end + 1)
    ensures IsGapSet(exons, gaps)
  {
    forall p ensures Covered(s, p) <==> Covered(exons, p) {
      CoveredPermutation(s, exons, p);
    }
    if valid {
      ValidBlocksSpan(merged);
      forall a, p, b | a < p < b && Covered(exons, a) && Covered(exons, b) && !Covered(exons, p)
        ensures InAny(gaps, p)
      {
        var ja :| 0 <= ja < |merged| && merged[ja].start <= a <= merged[ja].end;
        var jb :| 0 <= jb < |merged| && merged[jb].start <= b <= merged[jb].end;
      }
    }
  }

  /** Separated, non-empty blocks span from the first one's start to the last one's end. */
  lemma ValidBlocksSpan(blocks: seq<Interval>)
    requires |blocks| > 0 && Separated(blocks) && BlocksValid(blocks)
    ensures forall k :: 0 <= k < |blocks| ==>
      blocks[0].start <= blocks[k].start && blocks[k].end <= blocks[|blocks| - 1].end
  {
  }

  /** No gap position lies in a block. */
  ghost predicate AvoidsBlocks(gaps: seq<Interval>, merged: seq<Interval>) {
    forall p :: InAny(gaps, p) ==> !InAny(merged, p)
  }

  /** Every position from the first block's start to `hi` outside all blocks is in a gap. */
  ghost predicate FillsUpTo(gaps: seq<Interval>, merged: seq<Interval>, hi: int)
    requires |merged| > 0
  {
    forall p :: merged[0].start <= p <= hi && !InAny(merged, p) ==> InAny(gaps, p)
  }

  /** The positions next to each gap lie in blocks. */
  ghost predicate FlankedByBlocks(gaps: seq<Interval>, merged: seq<Interval>) {
    forall j :: 0 <= j < |gaps| ==>
      InAny(merged, gaps[j].start - 1) && InAny(merged, gaps[j].end + 1)
  }

  /** Every gap ends before `bound`. */
  predicate EndBefore(gaps: seq<Interval>, bound: int) {
    forall j :: 0 <= j < |gaps| ==> gaps[j].end < bound
  }

  /**
   * Invariant of the gap loop after the block pairs before `k`: the gaps
   * found so far are ascending, end before block k - 1, avoid every block,
   * fill every hole up to the end of block k - 1 and are flanked by blocks.
   */
  ghost predicate GapInv(merged: seq<Interval>, k: nat, gaps: seq<Interval>)
    requires 1 <= k <= |merged|
  {
    && Ascending(gaps)
    && EndBefore(gaps, merged[k - 1].start)
    && AvoidsBlocks(gaps, merged)
    && FillsUpTo(gaps, merged, merged[k - 1].end)
    && FlankedByBlocks(gaps, merged)
  }

  /** The candidate gap between blocks k - 1 and k. */
  function GapAt(merged: seq<Interval>, k: nat): Interval
    requires 1 <= k < |merged|
  {
    Interval(merged[k - 1].end + 1, merged[k].start - 1)
  }

  /** No position of the candidate gap between blocks k - 1 and k lies in a block. */
  lemma GapAvoidsBlocks(merged: seq<Interval>, k: nat, p: int)
    requires 1 <= k < |merged| && Separated(merged) && BlocksValid(merged)
    requires GapAt(merged, k).start <= p <= GapAt(merged, k).end
    ensures !InAny(merged, p)
  {
    forall j | 0 <= j < |merged| ensures !(merged[j].start <= p <= merged[j].end) {
      if j < k {
        assert j == k - 1 || merged[j].end < merged[k - 1].start;
      } else {
        assert j == k || merged[k].end < merged[j].start;
      }
    }
  }

  /** A hole after block k - 1 and within the reach of block k lies in the gap between them. */
  lemma HoleInGap(merged: seq<Interval>, k: nat, p: int)
    requires 1 <= k < |merged|
    requires merged[k - 1].end < p <= merged[k].end && !InAny(merged, p)
    ensures GapAt(merged, k).start <= p <= GapAt(merged, k).end
  {
  }

  lemma AscendingAppend(gaps: seq<Interval>, g: Interval)
    requires Ascending(gaps) && EndBefore(gaps, g.start)
    ensures Ascending(gaps + [g])
  {
    var next := gaps + [g];
    forall i, j | 0 <= i < j < |next| ensures next[i].end < next[j].start {
      if j == |gaps| {
        assert next[i] == gaps[i];
      } else {
        assert next[i] == gaps[i] && next[j] == gaps[j];
      }
    }
  }

  lemma AvoidsAppend(merged: seq<Interval>, k: nat, gaps: seq<Interval>, g: Interval)
    requires 1 <= k < |merged| && Separated(merged) && BlocksValid(merged)
    requires AvoidsBlocks(gaps, merged) && g == GapAt(merged, k)
    ensures AvoidsBlocks(gaps + [g], merged)
  {
    forall p | InAny(gaps + [g], p) ensures !InAny(merged, p) {
      InAnyAppend(gaps, g, p);
      if g.start <= p <= g.end {
        GapAvoidsBlocks(merged, k, p);
      }
    }
  }

  lemma FlankedAppend(merged: seq<Interval>, k: nat, gaps: seq<Interval>, g: Interval)
    requires 1 <= k < |merged| && BlocksValid(merged)
    requires FlankedByBlocks(gaps, merged) && g == GapAt(merged, k)
    ensures FlankedByBlocks(gaps + [g], merged)
  {
    var next := gaps + [g];
    assert merged[k - 1].start <= g.start - 1 <= merged[k - 1].end;
    assert merged[k].start <= g.end + 1 <= merged[k].end;
    forall j | 0 <= j < |next|
      ensures InAny(merged, next[j].start - 1) && InAny(merged, next[j].end + 1)
    {
      if j < |gaps| {
        assert next[j] == gaps[j];
      }
    }
  }

  lemma FillsAppend(merged: seq<Interval>, k: nat, gaps: seq<Interval>, g: Interval)
    requires 1 <= k < |merged|
    requires FillsUpTo(gaps, merged, merged[k - 1].end) && g == GapAt(merged, k)
    ensures FillsUpTo(gaps + [g], merged, merged[k].end)
  {
    forall p | merged[0].start <= p <= merged[k].end && !InAny(merged, p)
      ensures InAny(gaps + [g], p)
    {
      InAnyAppend(gaps, g, p);
      if p > merged[k - 1].end {
        HoleInGap(merged, k, p);
      }
    }
  }

  /** A non-empty candidate gap is appended. */
  lemma GapStepEmit(merged: seq<Interval>, k: nat, gaps: seq<Interval>, g: Interval)
    requires 1 <= k < |merged| && Separated(merged) && BlocksValid(merged)
    requires GapInv(merged, k, gaps)
    requires g == GapAt(merged, k) && g.start <= g.end
    ensures GapInv(merged, k + 1, gaps + [g])
  {
    AscendingAppend(gaps, g);
    AvoidsAppend(merged, k, gaps, g);
    FlankedAppend(merged, k, gaps, g);
    FillsAppend(merged, k, gaps, g);
    assert EndBefore(gaps + [g], merged[k].start) by {
      assert forall j :: 0 <= j < |gaps| ==> (gaps + [g])[j] == gaps[j];
    }
  }

  /** An empty candidate gap is skipped: no hole lies between blocks k - 1 and k. */
  lemma GapStepSkip(merged: seq<Interval>, k: nat, gaps: seq<Interval>)
    requires 1 <= k < |merged| && Separated(merged) && BlocksValid(merged)
    requires GapInv(merged, k, gaps)
    requires GapAt(merged, k).start > GapAt(merged, k).end
    ensures GapInv(merged, k + 1, gaps)
  {
    forall p | merged[0].start <= p <= merged[k].end && !InAny(merged, p)
      ensures InAny(gaps, p)
    {
    }
  }

  /**
   * The second loop of `_get_gaps`: one gap between each pair of
   * consecutive blocks, kept only when it holds a position.
   */
  method GapsBetween(merged: seq<Interval>, ghost valid: bool) returns (gaps: seq<Interval>)
    requires |merged| > 0 && Separated(merged)
    requires valid ==> BlocksValid(merged)
    ensures NonEmpty(gaps)
    ensures valid ==> GapInv(merged, |merged|, gaps)
  {
    gaps := [];
    var k := 1;
    while k < |merged|
      invariant 1 <= k <= |merged|
      invariant NonEmpty(gaps)
      invariant valid ==> GapInv(merged, k, gaps)
    {
      var gapStart := merged[k - 1].end + 1;
      var gapEnd := merged[k].start - 1;
      if gapStart <= gapEnd {
        if valid {
          GapStepEmit(merged, k, gaps, Interval(gapStart, gapEnd));
        }
        gaps := gaps + [Interval(gapStart, gapEnd)];
      } else if valid {
        GapStepSkip(merged, k, gaps);
      }
      k := k + 1;
    }
  }
}
