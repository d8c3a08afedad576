/**
 * Coordinate rescaling (`_get_rescaled_txs`): exons and shortened introns
 * are laid end to end, per group when a grouping column is given, by a
 * running sum of their widths; each group is then shifted by the width of
 * its shortened transcript-start gap (or by 1 without grouping), and
 * introns are widened by one position on each side.
 */
module Rescale {
  import opened Results
  import opened Tables
  import Sorting
  import Seqs
  import Shorten

  /** A row to be laid out, with the `width` column it brings. */
  datatype Piece = Piece(row: Row, width: int)

  /** A piece with its cumulative end, before any shift. */
  datatype Laid = Laid(piece: Piece, end: int)

  /** Exons carry their true width. */
  function ExonPieces(exons: seq<Row>): (r: seq<Piece>)
    ensures |r| == |exons|
    ensures forall i :: 0 <= i < |exons| ==> r[i] == Piece(exons[i], Width(exons[i].start, exons[i].end))
  {
    seq(|exons|, i requires 0 <= i < |exons| => Piece(exons[i], Width(exons[i].start, exons[i].end)))
  }

  /** Introns carry the `width` of the shortened table. */
  function IntronPieces(introns: seq<Shorten.Shortened>): (r: seq<Piece>)
    ensures |r| == |introns|
    ensures forall i :: 0 <= i < |introns| ==> r[i] == Piece(introns[i].row, introns[i].width)
  {
    seq(|introns|, i requires 0 <= i < |introns| => Piece(introns[i].row, introns[i].width))
  }

  /** The key the running sum restarts on: the group, or one key for all rows. */
  function Key(grouped: bool, p: Piece): string {
    if grouped then p.row.group else ""
  }

  /** Order on `['start', 'end']`. */
  predicate PosLe(a: Piece, b: Piece) {
    a.row.start < b.row.start || (a.row.start == b.row.start && a.row.end <= b.row.end)
  }

  /** Order on `[group_var, 'start', 'end']`. */
  predicate GroupedLe(a: Piece, b: Piece) {
    if a.row.group != b.row.group then Sorting.StrLe(a.row.group, b.row.group) else PosLe(a, b)
  }

  function Order(grouped: bool): (Piece, Piece) -> bool {
    if grouped then GroupedLe else PosLe
  }

  lemma OrderTotalPreorder(grouped: bool)
    ensures Sorting.TotalPreorder(Order(grouped))
  {
    if grouped {
      forall a: Piece, b: Piece ensures GroupedLe(a, b) || GroupedLe(b, a) {
        Sorting.StrLeTotal(a.row.group, b.row.group);
      }
      forall a: Piece, b: Piece, c: Piece | GroupedLe(a, b) && GroupedLe(b, c)
        ensures GroupedLe(a, c)
      {
        GroupedTrans(a, b, c);
      }
    }
  }

  lemma GroupedTrans(a: Piece, b: Piece, c: Piece)
    requires GroupedLe(a, b) && GroupedLe(b, c)
    ensures GroupedLe(a, c)
  {
    var x, y, z := a.row.group, b.row.group, c.row.group;
    if x != y && y != z {
      Sorting.StrLeTrans(x, y, z);
      if x == z {
        Sorting.StrLeAntisym(x, y);
      }
    }
  }

  /** Concatenation of exons and introns, sorted as line 294 sorts it. */
  function Arranged(exons: seq<Row>, introns: seq<Shorten.Shortened>, grouped: bool): (s: seq<Piece>)
    ensures multiset(s) == multiset(ExonPieces(exons) + IntronPieces(introns))
    ensures |s| == |exons| + |introns|
    ensures Sorting.SortedBy(s, Order(grouped))
  {
    OrderTotalPreorder(grouped);
    Sorting.SortSorted(ExonPieces(exons) + IntronPieces(introns), Order(grouped));
    Sorting.Sort(ExonPieces(exons) + IntronPieces(introns), Order(grouped))
  }

  /** Sum of the widths of the first `n` pieces that have key `k`. */
  function KeySum(s: seq<Piece>, n: nat, grouped: bool, k: string): int
    requires n <= |s|
  {
    if n == 0 then 0
    else KeySum(s, n - 1, grouped, k) + (if Key(grouped, s[n - 1]) == k then s[n - 1].width else 0)
  }

  /** The groupwise `cumsum` of line 297: the running width total of row `i`'s key. */
  function CumEnd(s: seq<Piece>, i: nat, grouped: bool): int
    requires i < |s|
  {
    KeySum(s, i + 1, grouped, Key(grouped, s[i]))
  }

  function Layout(s: seq<Piece>, grouped: bool): (l: seq<Laid>)
    ensures |l| == |s|
    ensures forall i :: 0 <= i < |s| ==> l[i] == Laid(s[i], CumEnd(s, i, grouped))
  {
    seq(|s|, i requires 0 <= i < |s| => Laid(s[i], CumEnd(s, i, grouped)))
  }

  /**
   * The `width_tx_start` a group is shifted by: 1 without grouping, else
   * the width of the group's start gap; `None` when the inner merge of
   * line 304 finds no start gap for the group.
   */
  function Offset(txStart: Option<seq<Shorten.Shortened>>, g: string): (o: Option<int>)
    ensures txStart.None? ==> o == Some(1)
    ensures txStart.Some? ==>
      (o.Some? <==> exists k :: 0 <= k < |txStart.value| && txStart.value[k].row.group == g)
    ensures txStart.Some? && o.Some? ==>
      exists k :: 0 <= k < |txStart.value| && txStart.value[k].row.group == g && txStart.value[k].width == o.value
  {
    match txStart
    case None => Some(1)
    case Some(t) => FirstWidth(t, g)
  }

  function FirstWidth(t: seq<Shorten.Shortened>, g: string): (o: Option<int>)
    ensures o.Some? <==> exists k :: 0 <= k < |t| && t[k].row.group == g
    ensures o.Some? ==> exists k :: 0 <= k < |t| && t[k].row.group == g && t[k].width == o.value
  {
    if t == [] then None
    else if t[0].row.group == g then Some(t[0].width)
    else
      var rest := FirstWidth(t[1..], g);
      assert forall k :: 1 <= k < |t| ==> t[1..][k - 1] == t[k];
      rest
  }

  predicate Joins(txStart: Option<seq<Shorten.Shortened>>, l: Laid) {
    Offset(txStart, l.piece.row.group).Some?
  }

  /** Shift by the offset, then widen introns by one position on each side (lines 311-314). */
  function Place(l: Laid, offset: int): (r: Row)
    ensures r.seqnames == l.piece.row.seqnames && r.strand == l.piece.row.strand
    ensures r.kind == l.piece.row.kind && r.group == l.piece.row.group
    ensures l.piece.row.kind == Some("intron") ==>
      r.end == l.end + offset + 1 && Width(r.start, r.end) == l.piece.width + 2
    ensures l.piece.row.kind != Some("intron") ==>
      r.end == l.end + offset && Width(r.start, r.end) == l.piece.width
  {
    var e := l.end + offset;
    var st := e - l.piece.width + 1;
    var x := l.piece.row;
    if x.kind == Some("intron") then Row(x.seqnames, st - 1, e + 1, x.strand, x.kind, x.group)
    else Row(x.seqnames, st, e, x.strand, x.kind, x.group)
  }

  /** `Joins` as a filter test. */
  function JoinTest(txStart: Option<seq<Shorten.Shortened>>): Laid -> bool {
    l => Joins(txStart, l)
  }

  /** The rows that survive the merge, in layout order. */
  function Joined(s: seq<Piece>, grouped: bool, txStart: Option<seq<Shorten.Shortened>>): (j: seq<Laid>)
    ensures |j| <= |s|
    ensures forall i :: 0 <= i < |j| ==> Joins(txStart, j[i])
  {
    Seqs.Filter(Layout(s, grouped), JoinTest(txStart))
  }

  /**
   * The table `_get_rescaled_txs` returns; grouping is requested exactly
   * when a start-gap table is passed.
   */
  function Rescaled(exons: seq<Row>, introns: seq<Shorten.Shortened>,
                    txStart: Option<seq<Shorten.Shortened>>): (r: seq<Row>)
    ensures |r| <= |exons| + |introns|
  {
    var j := Joined(Arranged(exons, introns, txStart.Some?), txStart.Some?, txStart);
    seq(|j|, i requires 0 <= i < |j| =>
      Place(j[i], Offset(txStart, j[i].piece.row.group).value))
  }

  /**
   * Two neighbours with the same key are laid edge to edge: the later one
   * starts right after the earlier one ends.
   */
  lemma Contiguous(s: seq<Piece>, grouped: bool, i: nat)
    requires 0 < i < |s| && Key(grouped, s[i - 1]) == Key(grouped, s[i])
    ensures CumEnd(s, i, grouped) - s[i].width + 1 == CumEnd(s, i - 1, grouped) + 1
  {
  }

  /** Pieces `m..n-1` do not have key `k`, so they add nothing to its sum. */
  lemma {:induction false} KeySumStable(s: seq<Piece>, m: nat, n: nat, grouped: bool, k: string)
    requires m <= n <= |s| && forall t :: m <= t < n ==> Key(grouped, s[t]) != k
    ensures KeySum(s, n, grouped, k) == KeySum(s, m, grouped, k)
  {
    if n > m {
      KeySumStable(s, m, n - 1, grouped, k);
    }
  }

  /** In sorted order the pieces of one key are consecutive. */
  lemma KeysConsecutive(s: seq<Piece>, grouped: bool, a: nat, b: nat, c: nat)
    requires Sorting.SortedBy(s, Order(grouped))
    requires a < b < c < |s| && Key(grouped, s[a]) == Key(grouped, s[c])
    ensures Key(grouped, s[b]) == Key(grouped, s[a])
  {
    if grouped {
      assert GroupedLe(s[a], s[b]) && GroupedLe(s[b], s[c]);
      var x, y := s[a].row.group, s[b].row.group;
      if x != y {
        Sorting.StrLeAntisym(x, y);
      }
    }
  }

  /**
   * The first piece of each key starts at position 1 of the layout: no
   * earlier piece has its key.
   */
  lemma FirstOfKey(s: seq<Piece>, grouped: bool, i: nat)
    requires Sorting.SortedBy(s, Order(grouped)) && i < |s|
    requires i == 0 || Key(grouped, s[i - 1]) != Key(grouped, s[i])
    ensures CumEnd(s, i, grouped) - s[i].width + 1 == 1
  {
    var k := Key(grouped, s[i]);
    forall t | 0 <= t < i ensures Key(grouped, s[t]) != k {
      if t < i - 1 && Key(grouped, s[t]) == k {
        KeysConsecutive(s, grouped, t, i - 1, i);
      }
    }
    KeySumStable(s, 0, i, grouped, k);
  }

  /**
   * The last piece of each key ends at the total width of its key: no
   * later piece has its key.
   */
  lemma LastOfKey(s: seq<Piece>, grouped: bool, i: nat)
    requires Sorting.SortedBy(s, Order(grouped)) && i < |s|
    requires i == |s| - 1 || Key(grouped, s[i + 1]) != Key(grouped, s[i])
    ensures CumEnd(s, i, grouped) == KeySum(s, |s|, grouped, Key(grouped, s[i]))
  {
    var k := Key(grouped, s[i]);
    forall t | i + 1 <= t < |s| ensures Key(grouped, s[t]) != k {
      if t > i + 1 && Key(grouped, s[t]) == k {
        KeysConsecutive(s, grouped, i, i + 1, t);
      }
    }
    KeySumStable(s, i + 1, |s|, grouped, k);
  }

  lemma {:induction false} KeySumAppend(a: seq<Piece>, b: seq<Piece>, grouped: bool, k: string)
    ensures KeySum(a + b, |a + b|, grouped, k) == KeySum(a, |a|, grouped, k) + KeySum(b, |b|, grouped, k)
  {
    if b == [] {
      assert a + b == a;
    } else {
      var b' := b[..|b| - 1];
      KeySumAppend(a, b', grouped, k);
      assert (a + b)[..|a + b| - 1] == (a + b')[..|a + b'|];
      assert b[..|b| - 1] == b'[..|b'|];
      KeySumAgree(a + b, a + b', |a + b'|, grouped, k);
      KeySumAgree(b, b', |b'|, grouped, k);
    }
  }

  /** The sum over the first `n` pieces depends on those pieces alone. */
  lemma {:induction false} KeySumAgree(s: seq<Piece>, u: seq<Piece>, n: nat, grouped: bool, k: string)
    requires n <= |s| && n <= |u| && s[..n] == u[..n]
    ensures KeySum(s, n, grouped, k) == KeySum(u, n, grouped, k)
  {
    if n > 0 {
      assert s[..n - 1] == s[..n][..n - 1] && u[..n - 1] == u[..n][..n - 1];
      assert s[n - 1] == s[..n][n - 1] && u[n - 1] == u[..n][n - 1];
      KeySumAgree(s, u, n - 1, grouped, k);
    }
  }

  /** Reordering the pieces changes no key's total width. */
  lemma {:induction false} KeySumPermutation(a: seq<Piece>, b: seq<Piece>, grouped: bool, k: string)
    requires multiset(a) == multiset(b)
    ensures KeySum(a, |a|, grouped, k) == KeySum(b, |b|, grouped, k)
  {
    if a != [] {
      var x := a[|a| - 1];
      var a' := a[..|a| - 1];
      assert a == a' + [x];
      assert x in multiset(b);
      var i :| 0 <= i < |b| && b[i] == x;
      var b' := b[..i] + b[i + 1..];
      assert b == b[..i] + [x] + b[i + 1..];
      assert multiset(b) == multiset(b[..i]) + multiset{x} + multiset(b[i + 1..]);
      assert multiset(a) == multiset(a') + multiset{x};
      assert multiset(b') == multiset(b[..i]) + multiset(b[i + 1..]);
      assert multiset(a') == multiset(a) - multiset{x};
      assert multiset(b') == multiset(b) - multiset{x};
      KeySumPermutation(a', b', grouped, k);
      KeySumAppend(a', [x], grouped, k);
      KeySumAppend(b[..i], [x], grouped, k);
      KeySumAppend(b[..i] + [x], b[i + 1..], grouped, k);
      KeySumAppend(b[..i], b[i + 1..], grouped, k);
      assert KeySum([x], 1, grouped, k) == (if Key(grouped, x) == k then x.width else 0);
    }
  }

  /**
   * Each key's layout ends at the summed widths of its exons and its
   * shortened introns, whatever order the sort put them in.
   */
  lemma KeyTotal(exons: seq<Row>, introns: seq<Shorten.Shortened>, grouped: bool, k: string)
    ensures KeySum(Arranged(exons, introns, grouped), |Arranged(exons, introns, grouped)|, grouped, k) ==
      KeySum(ExonPieces(exons), |exons|, grouped, k) + KeySum(IntronPieces(introns), |introns|, grouped, k)
  {
    KeySumPermutation(Arranged(exons, introns, grouped), ExonPieces(exons) + IntronPieces(introns), grouped, k);
    KeySumAppend(ExonPieces(exons), IntronPieces(introns), grouped, k);
  }

  /** A laid-out piece survives the merge exactly when its group has a start gap. */
  lemma JoinedMembers(s: seq<Piece>, grouped: bool, txStart: Option<seq<Shorten.Shortened>>, l: Laid)
    ensures l in Joined(s, grouped, txStart) <==> l in Layout(s, grouped) && Joins(txStart, l)
  {
    Seqs.FilterMembers(Layout(s, grouped), JoinTest(txStart), l);
  }

  /**
   * Without grouping nothing is dropped: row `i` is the `i`-th piece in
   * (`start`, `end`) order, shifted by 1.
   */
  lemma UngroupedKeepsAll(exons: seq<Row>, introns: seq<Shorten.Shortened>)
    ensures var s := Arranged(exons, introns, false);
      && |Rescaled(exons, introns, None)| == |exons| + |introns|
      && forall i :: 0 <= i < |s| ==> Rescaled(exons, introns, None)[i] == Place(Laid(s[i], CumEnd(s, i, false)), 1)
  {
    var s := Arranged(exons, introns, false);
    var l := Layout(s, false);
    Seqs.FilterAll(l, JoinTest(None));
  }

  /** Without grouping, neighbouring output rows are edge to edge. */
  lemma UngroupedContiguous(exons: seq<Row>, introns: seq<Shorten.Shortened>, i: nat)
    requires 0 < i < |Rescaled(exons, introns, None)|
    ensures Core(Rescaled(exons, introns, None)[i]).start == Core(Rescaled(exons, introns, None)[i - 1]).end + 1
  {
    var s := Arranged(exons, introns, false);
    var r := Rescaled(exons, introns, None);
    UngroupedKeepsAll(exons, introns);
    var l := Laid(s[i], CumEnd(s, i, false));
    var l' := Laid(s[i - 1], CumEnd(s, i - 1, false));
    assert r[i] == Place(l, 1);
    assert r[i - 1] == Place(l', 1);
    CoreOfPlace(l, 1);
    CoreOfPlace(l', 1);
    Contiguous(s, false, i);
  }

  /** Without grouping, the last output row ends at the total width of all exons and introns, plus 1. */
  lemma UngroupedLast(exons: seq<Row>, introns: seq<Shorten.Shortened>)
    requires |exons| + |introns| > 0
    ensures var r := Rescaled(exons, introns, None);
      |r| > 0 &&
      Core(r[|r| - 1]).end == KeySum(ExonPieces(exons), |exons|, false, "") +
                             KeySum(IntronPieces(introns), |introns|, false, "") + 1
  {
    var s := Arranged(exons, introns, false);
    var r := Rescaled(exons, introns, None);
    UngroupedKeepsAll(exons, introns);
    var i := |s| - 1;
    var l := Laid(s[i], CumEnd(s, i, false));
    assert r[i] == Place(l, 1);
    CoreOfPlace(l, 1);
    LastOfKey(s, false, i);
    KeyTotal(exons, introns, false, "");
  }


  /** Row `x` is piece `p` placed: same group, type, seqnames and strand, and `p`'s width (two more for an intron). */
  predicate Comes(x: Row, p: Piece) {
    && x.group == p.row.group && x.kind == p.row.kind
    && x.seqnames == p.row.seqnames && x.strand == p.row.strand
    && Width(x.start, x.end) == p.width + (if p.row.kind == Some("intron") then 2 else 0)
  }

  lemma PlaceComes(l: Laid, offset: int)
    ensures Comes(Place(l, offset), l.piece)
  {
  }

  /** Output row `i` is merged row `i` placed at its group's offset. */
  lemma RescaledAt(exons: seq<Row>, introns: seq<Shorten.Shortened>,
                   txStart: Option<seq<Shorten.Shortened>>, i: nat)
    requires i < |Joined(Arranged(exons, introns, txStart.Some?), txStart.Some?, txStart)|
    ensures var j := Joined(Arranged(exons, introns, txStart.Some?), txStart.Some?, txStart);
      && Joins(txStart, j[i])
      && |Rescaled(exons, introns, txStart)| == |j|
      && Rescaled(exons, introns, txStart)[i] == Place(j[i], Offset(txStart, j[i].piece.row.group).value)
  {
  }

  /** The arranged pieces are the exon and intron pieces. */
  lemma ArrangedMembers(exons: seq<Row>, introns: seq<Shorten.Shortened>, grouped: bool, p: Piece)
    ensures p in Arranged(exons, introns, grouped) <==> p in ExonPieces(exons) + IntronPieces(introns)
  {
    assert p in Arranged(exons, introns, grouped) <==> p in multiset(Arranged(exons, introns, grouped));
    assert p in ExonPieces(exons) + IntronPieces(introns) <==> p in multiset(ExonPieces(exons) + IntronPieces(introns));
  }

  /**
   * Every output row comes from an exon or a shortened intron whose group
   * has a start gap, keeps its group and type, and spans that row's width
   * (two more for an intron, widened at both ends).
   */
  lemma RescaledRowOrigin(exons: seq<Row>, introns: seq<Shorten.Shortened>,
                          txStart: Option<seq<Shorten.Shortened>>, i: nat)
    requires i < |Rescaled(exons, introns, txStart)|
    ensures var x := Rescaled(exons, introns, txStart)[i];
      exists p :: p in ExonPieces(exons) + IntronPieces(introns)
        && Offset(txStart, p.row.group).Some? && Comes(x, p)
  {
    var grouped := txStart.Some?;
    var s := Arranged(exons, introns, grouped);
    var j := Joined(s, grouped, txStart);
    RescaledAt(exons, introns, txStart, i);
    var l := j[i];
    JoinedPiece(s, grouped, txStart, l);
    ArrangedMembers(exons, introns, grouped, l.piece);
    PlaceComes(l, Offset(txStart, l.piece.row.group).value);
  }

  lemma JoinedPiece(s: seq<Piece>, grouped: bool, txStart: Option<seq<Shorten.Shortened>>, l: Laid)
    requires l in Joined(s, grouped, txStart)
    ensures l.piece in s && Joins(txStart, l)
  {
    JoinedMembers(s, grouped, txStart, l);
    var k :| 0 <= k < |s| && Layout(s, grouped)[k] == l;
  }

  /** A piece of `s` whose group joins has its laid-out row in the merge. */
  lemma JoinedHasPiece(s: seq<Piece>, grouped: bool, txStart: Option<seq<Shorten.Shortened>>, p: Piece)
    requires p in s && Offset(txStart, p.row.group).Some?
    ensures exists i :: 0 <= i < |Joined(s, grouped, txStart)| && Joined(s, grouped, txStart)[i].piece == p
  {
    var m :| 0 <= m < |s| && s[m] == p;
    var l := Layout(s, grouped)[m];
    JoinedMembers(s, grouped, txStart, l);
    var j := Joined(s, grouped, txStart);
    var i :| 0 <= i < |j| && j[i] == l;
  }

  /**
   * Every exon or intron whose group has a start gap yields an output
   * row with its group, type, seqnames and strand, spanning its width
   * (two more for an intron).
   */
  lemma RescaledRowForPiece(exons: seq<Row>, introns: seq<Shorten.Shortened>,
                            txStart: Option<seq<Shorten.Shortened>>, p: Piece)
    requires p in ExonPieces(exons) + IntronPieces(introns)
    requires Offset(txStart, p.row.group).Some?
    ensures exists i :: (0 <= i < |Rescaled(exons, introns, txStart)| &&
      Comes(Rescaled(exons, introns, txStart)[i], p))
  {
    var grouped := txStart.Some?;
    var s := Arranged(exons, introns, grouped);
    ArrangedMembers(exons, introns, grouped, p);
    JoinedHasPiece(s, grouped, txStart, p);
    var j := Joined(s, grouped, txStart);
    var i :| 0 <= i < |j| && j[i].piece == p;
    RescaledAt(exons, introns, txStart, i);
    PlaceComes(j[i], Offset(txStart, p.row.group).value);
  }

  /** The group of a piece meets a start gap in the merge of line 304. */
  predicate Kept(txStart: Option<seq<Shorten.Shortened>>, p: Piece) {
    Offset(txStart, p.row.group).Some?
  }

  /** `Kept` as a filter test. */
  function KeepTest(txStart: Option<seq<Shorten.Shortened>>): Piece -> bool {
    p => Kept(txStart, p)
  }

  /** The sorted pieces the merge keeps, in sort order. */
  function KeptPieces(s: seq<Piece>, txStart: Option<seq<Shorten.Shortened>>): (k: seq<Piece>)
    ensures forall p :: multiset(k)[p] == if Kept(txStart, p) then multiset(s)[p] else 0
    ensures forall i :: 0 <= i < |k| ==> Kept(txStart, k[i])
  {
    Seqs.Filter(s, KeepTest(txStart))
  }

  /** Dropping elements keeps a sequence sorted. */
  lemma {:induction false} FilterSorted<T(!new)>(s: seq<T>, p: T -> bool, le: (T, T) -> bool)
    requires Sorting.SortedBy(s, le)
    ensures Sorting.SortedBy(Seqs.Filter(s, p), le)
  {
    if s != [] {
      var rest := s[1..];
      SortedTail(s, le);
      FilterSorted(rest, p, le);
      var f := Seqs.Filter(rest, p);
      if p(s[0]) {
        forall j | 0 <= j < |f| ensures le(s[0], f[j]) {
          Seqs.FilterMembers(rest, p, f[j]);
          SortedHeadLe(s, le, f[j]);
        }
        SortedCons(s[0], f, le);
        assert Seqs.Filter(s, p) == [s[0]] + f;
      } else {
        assert Seqs.Filter(s, p) == f;
      }
    }
  }

  lemma SortedTail<T>(s: seq<T>, le: (T, T) -> bool)
    requires s != [] && Sorting.SortedBy(s, le)
    ensures Sorting.SortedBy(s[1..], le)
  {
    var rest := s[1..];
    forall i, j | 0 <= i < j < |rest| ensures le(rest[i], rest[j]) {
      assert rest[i] == s[i + 1] && rest[j] == s[j + 1];
    }
  }

  lemma SortedHeadLe<T>(s: seq<T>, le: (T, T) -> bool, y: T)
    requires s != [] && Sorting.SortedBy(s, le) && y in s[1..]
    ensures le(s[0], y)
  {
    var m :| 0 <= m < |s[1..]| && s[1..][m] == y;
    assert s[m + 1] == y;
  }

  lemma SortedCons<T>(x: T, f: seq<T>, le: (T, T) -> bool)
    requires Sorting.SortedBy(f, le) && forall j :: 0 <= j < |f| ==> le(x, f[j])
    ensures Sorting.SortedBy([x] + f, le)
  {
    var r := [x] + f;
    forall i, j | 0 <= i < j < |r| ensures le(r[i], r[j]) {
      if i == 0 {
        assert r[j] == f[j - 1];
      } else {
        assert r[i] == f[i - 1] && r[j] == f[j - 1];
      }
    }
  }

  /** The layout of a sequence extended by one piece. */
  lemma LayoutSnoc(s: seq<Piece>, x: Piece, grouped: bool)
    ensures Layout(s + [x], grouped) == Layout(s, grouped) + [Laid(x, CumEnd(s + [x], |s|, grouped))]
  {
    var lhs := Layout(s + [x], grouped);
    var rhs := Layout(s, grouped) + [Laid(x, CumEnd(s + [x], |s|, grouped))];
    forall i | 0 <= i < |lhs| ensures lhs[i] == rhs[i] {
      LayoutSnocAt(s, x, grouped, i);
    }
  }

  lemma LayoutSnocAt(s: seq<Piece>, x: Piece, grouped: bool, i: nat)
    requires i <= |s|
    ensures Layout(s + [x], grouped)[i] ==
      if i < |s| then Layout(s, grouped)[i] else Laid(x, CumEnd(s + [x], |s|, grouped))
  {
    var u := s + [x];
    if i < |s| {
      assert u[i] == s[i];
      assert u[..i + 1] == s[..i + 1];
      KeySumAgree(u, s, i + 1, grouped, Key(grouped, s[i]));
    } else {
      assert u[|s|] == x;
    }
  }

  /** The running total at an appended piece. */
  lemma CumEndLast(s: seq<Piece>, x: Piece, grouped: bool)
    ensures CumEnd(s + [x], |s|, grouped) == KeySum(s, |s|, grouped, Key(grouped, x)) + x.width
  {
    var u := s + [x];
    var k := Key(grouped, x);
    assert u[|s|] == x;
    assert u[..|s|] == s[..|s|];
    KeySumAgree(u, s, |s|, grouped, k);
    assert KeySum(u, |s| + 1, grouped, k) == KeySum(u, |s|, grouped, k) + x.width;
  }

  /** The pieces the merge keeps, split at the last piece. */
  lemma KeptSnoc(s: seq<Piece>, x: Piece, txStart: Option<seq<Shorten.Shortened>>)
    ensures Kept(txStart, x) ==> KeptPieces(s + [x], txStart) == KeptPieces(s, txStart) + [x]
    ensures !Kept(txStart, x) ==> KeptPieces(s + [x], txStart) == KeptPieces(s, txStart)
  {
    Seqs.FilterSnoc(s + [x], s, x, KeepTest(txStart));
    assert KeepTest(txStart)(x) == Kept(txStart, x);
  }
  /** The merge drops whole groups, so a kept group loses none of its width. */
  lemma {:induction false} KeptKeySum(s: seq<Piece>, t: seq<Shorten.Shortened>, g: string)
    requires Offset(Some(t), g).Some?
    ensures KeySum(KeptPieces(s, Some(t)), |KeptPieces(s, Some(t))|, true, g) == KeySum(s, |s|, true, g)
  {
    if s != [] {
      var s' := s[..|s| - 1];
      var x := s[|s| - 1];
      assert s == s' + [x];
      KeptKeySum(s', t, g);
      KeptSnoc(s', x, Some(t));
      KeySumAppend(s', [x], true, g);
      var k' := KeptPieces(s', Some(t));
      if Kept(Some(t), x) {
        KeySumAppend(k', [x], true, g);
      }
    }
  }

  /** The merge of a layout extended by a piece whose group is kept. */
  lemma JoinedSnocKept(s: seq<Piece>, x: Piece, t: seq<Shorten.Shortened>)
    requires Kept(Some(t), x)
    ensures Joined(s + [x], true, Some(t)) == Joined(s, true, Some(t)) + [Laid(x, CumEnd(s + [x], |s|, true))]
  {
    LayoutSnoc(s, x, true);
    var lx := Laid(x, CumEnd(s + [x], |s|, true));
    Seqs.FilterSnoc(Layout(s + [x], true), Layout(s, true), lx, JoinTest(Some(t)));
    assert JoinTest(Some(t))(lx);
  }

  /** The merge of a layout extended by a piece whose group is dropped. */
  lemma JoinedSnocDropped(s: seq<Piece>, x: Piece, t: seq<Shorten.Shortened>)
    requires !Kept(Some(t), x)
    ensures Joined(s + [x], true, Some(t)) == Joined(s, true, Some(t))
  {
    LayoutSnoc(s, x, true);
    var lx := Laid(x, CumEnd(s + [x], |s|, true));
    Seqs.FilterSnoc(Layout(s + [x], true), Layout(s, true), lx, JoinTest(Some(t)));
    assert !JoinTest(Some(t))(lx);
  }

  /** A kept piece ends at the same running total with or without the dropped groups. */
  lemma KeptEnd(s: seq<Piece>, x: Piece, t: seq<Shorten.Shortened>)
    requires Kept(Some(t), x)
    ensures CumEnd(s + [x], |s|, true) ==
      CumEnd(KeptPieces(s, Some(t)) + [x], |KeptPieces(s, Some(t))|, true)
  {
    CumEndLast(s, x, true);
    CumEndLast(KeptPieces(s, Some(t)), x, true);
    KeptKeySum(s, t, Key(true, x));
  }

  /**
   * With grouping, the merge keeps or drops whole groups, so the rows it
   * keeps are laid out as if the dropped groups had never been there.
   */
  lemma {:induction false} JoinedIsLayoutOfKept(s: seq<Piece>, t: seq<Shorten.Shortened>)
    ensures Joined(s, true, Some(t)) == Layout(KeptPieces(s, Some(t)), true)
  {
    if s == [] {
      assert Layout(s, true) == [];
    } else {
      var s' := s[..|s| - 1];
      var x := s[|s| - 1];
      assert s == s' + [x];
      JoinedIsLayoutOfKept(s', t);
      KeptSnoc(s', x, Some(t));
      var k' := KeptPieces(s', Some(t));
      if Kept(Some(t), x) {
        JoinedSnocKept(s', x, t);
        LayoutSnoc(k', x, true);
        KeptEnd(s', x, t);
      } else {
        JoinedSnocDropped(s', x, t);
      }
    }
  }

  /**
   * With grouping, output row `i` is the `i`-th kept piece, laid out
   * among the kept pieces of its group and shifted by its group's start
   * gap width.
   */
  lemma RescaledGrouped(exons: seq<Row>, introns: seq<Shorten.Shortened>, t: seq<Shorten.Shortened>)
    ensures var k := KeptPieces(Arranged(exons, introns, true), Some(t));
      && Sorting.SortedBy(k, Order(true))
      && |Rescaled(exons, introns, Some(t))| == |k|
      && forall i :: 0 <= i < |k| ==>
           Rescaled(exons, introns, Some(t))[i] == Place(Laid(k[i], CumEnd(k, i, true)), Offset(Some(t), k[i].row.group).value)
  {
    var s := Arranged(exons, introns, true);
    FilterSorted(s, KeepTest(Some(t)), Order(true));
    JoinedIsLayoutOfKept(s, t);
  }

  /** The positions a placed row spans before introns are widened. */
  function Core(r: Row): Interval {
    if r.kind == Some("intron") then Interval(r.start + 1, r.end - 1) else Interval(r.start, r.end)
  }

  /** A placed row spans, before widening, the piece's width up to its shifted end. */
  lemma CoreOfPlace(l: Laid, offset: int)
    ensures Core(Place(l, offset)).end == l.end + offset
    ensures Core(Place(l, offset)).start == l.end + offset - l.piece.width + 1
    ensures Place(l, offset).group == l.piece.row.group
  {
  }

  /** With grouping, consecutive output rows of one group abut. */
  lemma GroupedContiguous(exons: seq<Row>, introns: seq<Shorten.Shortened>, t: seq<Shorten.Shortened>, i: nat)
    requires 0 < i < |Rescaled(exons, introns, Some(t))|
    requires Rescaled(exons, introns, Some(t))[i - 1].group == Rescaled(exons, introns, Some(t))[i].group
    ensures Core(Rescaled(exons, introns, Some(t))[i]).start == Core(Rescaled(exons, introns, Some(t))[i - 1]).end + 1
  {
    var k := KeptPieces(Arranged(exons, introns, true), Some(t));
    var r := Rescaled(exons, introns, Some(t));
    RescaledGrouped(exons, introns, t);
    var l := Laid(k[i], CumEnd(k, i, true));
    var l' := Laid(k[i - 1], CumEnd(k, i - 1, true));
    assert r[i] == Place(l, Offset(Some(t), k[i].row.group).value);
    assert r[i - 1] == Place(l', Offset(Some(t), k[i - 1].row.group).value);
    CoreOfPlace(l, Offset(Some(t), k[i].row.group).value);
    CoreOfPlace(l', Offset(Some(t), k[i - 1].row.group).value);
    assert Key(true, k[i - 1]) == Key(true, k[i]);
    Contiguous(k, true, i);
  }

  /** With grouping, a group's first output row starts right after its start-gap offset. */
  lemma GroupedFirst(exons: seq<Row>, introns: seq<Shorten.Shortened>, t: seq<Shorten.Shortened>, i: nat)
    requires i < |Rescaled(exons, introns, Some(t))|
    requires i == 0 || Rescaled(exons, introns, Some(t))[i - 1].group != Rescaled(exons, introns, Some(t))[i].group
    ensures var x := Rescaled(exons, introns, Some(t))[i];
      Offset(Some(t), x.group).Some? && Core(x).start == Offset(Some(t), x.group).value + 1
  {
    var k := KeptPieces(Arranged(exons, introns, true), Some(t));
    var r := Rescaled(exons, introns, Some(t));
    RescaledGrouped(exons, introns, t);
    var o := Offset(Some(t), k[i].row.group).value;
    var l := Laid(k[i], CumEnd(k, i, true));
    assert r[i] == Place(l, o);
    CoreOfPlace(l, o);
    if i > 0 {
      CoreOfPlace(Laid(k[i - 1], CumEnd(k, i - 1, true)), Offset(Some(t), k[i - 1].row.group).value);
      assert Key(true, k[i - 1]) != Key(true, k[i]);
    }
    FirstOfKey(k, true, i);
  }

  /**
   * With grouping, a group's last output row ends at the summed widths of
   * the group's exons and shortened introns plus its start-gap offset.
   */
  lemma GroupedLast(exons: seq<Row>, introns: seq<Shorten.Shortened>, t: seq<Shorten.Shortened>, i: nat)
    requires i < |Rescaled(exons, introns, Some(t))|
    requires i == |Rescaled(exons, introns, Some(t))| - 1 ||
      Rescaled(exons, introns, Some(t))[i + 1].group != Rescaled(exons, introns, Some(t))[i].group
    ensures var x := Rescaled(exons, introns, Some(t))[i];
      Offset(Some(t), x.group).Some? &&
      Core(x).end == KeySum(ExonPieces(exons), |exons|, true, x.group) +
                     KeySum(IntronPieces(introns), |introns|, true, x.group) + Offset(Some(t), x.group).value
  {
    var s := Arranged(exons, introns, true);
    var k := KeptPieces(s, Some(t));
    var r := Rescaled(exons, introns, Some(t));
    RescaledGrouped(exons, introns, t);
    var g := k[i].row.group;
    var o := Offset(Some(t), g).value;
    var l := Laid(k[i], CumEnd(k, i, true));
    assert r[i] == Place(l, o);
    CoreOfPlace(l, o);
    if i < |r| - 1 {
      CoreOfPlace(Laid(k[i + 1], CumEnd(k, i + 1, true)), Offset(Some(t), k[i + 1].row.group).value);
      assert Key(true, k[i + 1]) != Key(true, k[i]);
    }
    LastOfKey(k, true, i);
    assert CumEnd(k, i, true) == KeySum(k, |k|, true, g);
    KeptKeySum(s, t, g);
    KeyTotal(exons, introns, true, g);
    assert KeySum(s, |s|, true, g) == KeySum(ExonPieces(exons), |exons|, true, g) +
      KeySum(IntronPieces(introns), |introns|, true, g);
  }
}
