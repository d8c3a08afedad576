/**
 * Gene and transcript filtering (`gene_filtering`): keep the annotation of
 * one gene, restrict the expression rows to its transcripts, keep only
 * the transcripts both tables share and, when ordering is requested,
 * rank transcripts by total expression, keep the top ones and order both
 * tables by that total, highest first.
 */
module GeneFiltering {
  import opened Results
  import Seqs
  import Sorting

  /** An annotation row: gene id, transcript id, and the columns carried along. */
  datatype AnnotationRow = AnnotationRow(gene: string, transcript: string, rest: string)

  /** An expression row: transcript id, its expression value, and the other columns. */
  datatype ExpressionRow = ExpressionRow(transcript: string, value: int, rest: string)

  /** `keep_top_expressed_transcripts`: a string or an integer. */
  datatype KeepTop = Label(text: string) | Count(n: int)

  /** The return value: the annotation alone, or the (annotation, expression) pair. */
  datatype Filtered =
    | AnnotationOnly(annotation: seq<AnnotationRow>)
    | Both(annotation: seq<AnnotationRow>, expression: seq<ExpressionRow>)

  /** The `ValueError`s the function raises. */
  datatype FilterError = NoAnnotation | EmptyExpression | BadKeepTop

  /** A transcript with its total expression (a row of `aggregated_df`). */
  datatype Ranked = Ranked(transcript: string, total: int)

  predicate OfGene(g: string, a: AnnotationRow) {
    a.gene == g
  }

  predicate AnnotationIn(ts: set<string>, a: AnnotationRow) {
    a.transcript in ts
  }

  predicate ExpressionIn(ts: set<string>, e: ExpressionRow) {
    e.transcript in ts
  }

  function AnnotationTranscripts(rows: seq<AnnotationRow>): set<string> {
    set a | a in rows :: a.transcript
  }

  function ExpressionTranscripts(rows: seq<ExpressionRow>): set<string> {
    set e | e in rows :: e.transcript
  }

  /** The annotation rows of gene `g` (line 129). */
  function GeneRows(annotation: seq<AnnotationRow>, g: string): (r: seq<AnnotationRow>)
    ensures forall a :: multiset(r)[a] == if a.gene == g then multiset(annotation)[a] else 0
    ensures forall a :: a in r <==> a in annotation && a.gene == g
  {
    var p := a => OfGene(g, a);
    var r := Seqs.Filter(annotation, p);
    forall a ensures a in r <==> a in annotation && a.gene == g {
      Seqs.FilterMembers(annotation, p, a);
    }
    r
  }

  /** The annotation rows whose transcript is in `ts`. */
  function KeepAnnotation(rows: seq<AnnotationRow>, ts: set<string>): (r: seq<AnnotationRow>)
    ensures forall a :: multiset(r)[a] == if a.transcript in ts then multiset(rows)[a] else 0
    ensures forall a :: a in r <==> a in rows && a.transcript in ts
    ensures AnnotationTranscripts(r) == AnnotationTranscripts(rows) * ts
  {
    var p := a => AnnotationIn(ts, a);
    var r := Seqs.Filter(rows, p);
    forall a ensures a in r <==> a in rows && a.transcript in ts {
      Seqs.FilterMembers(rows, p, a);
    }
    r
  }

  /** The expression rows whose transcript is in `ts`. */
  function KeepExpression(rows: seq<ExpressionRow>, ts: set<string>): (r: seq<ExpressionRow>)
    ensures forall e :: multiset(r)[e] == if e.transcript in ts then multiset(rows)[e] else 0
    ensures forall e :: e in r <==> e in rows && e.transcript in ts
    ensures ExpressionTranscripts(r) == ExpressionTranscripts(rows) * ts
  {
    var p := e => ExpressionIn(ts, e);
    var r := Seqs.Filter(rows, p);
    forall e ensures e in r <==> e in rows && e.transcript in ts {
      Seqs.FilterMembers(rows, p, e);
    }
    r
  }

  /** Sum of the expression values of transcript `t`. */
  function Total(rows: seq<ExpressionRow>, t: string): int {
    if rows == [] then 0
    else (if rows[0].transcript == t then rows[0].value else 0) + Total(rows[1..], t)
  }

  /** A transcript with no expression row has total 0. */
  lemma {:induction false} TotalAbsent(rows: seq<ExpressionRow>, t: string)
    requires t !in ExpressionTranscripts(rows)
    ensures Total(rows, t) == 0
  {
    if rows != [] {
      assert ExpressionTranscripts(rows[1..]) <= ExpressionTranscripts(rows) by {
        forall e | e in rows[1..] ensures e in rows { }
      }
      TotalAbsent(rows[1..], t);
    }
  }

  /** Dropping other transcripts leaves a kept transcript's total unchanged. */
  lemma {:induction false} TotalKeep(rows: seq<ExpressionRow>, ts: set<string>, t: string)
    requires t in ts
    ensures Total(KeepExpression(rows, ts), t) == Total(rows, t)
  {
    if rows != [] {
      TotalKeep(rows[1..], ts, t);
      var tail := KeepExpression(rows[1..], ts);
      if ExpressionIn(ts, rows[0]) {
        assert KeepExpression(rows, ts) == [rows[0]] + tail;
        assert ([rows[0]] + tail)[1..] == tail;
      } else {
        assert KeepExpression(rows, ts) == tail;
      }
    }
  }

  function TranscriptColumn(rows: seq<ExpressionRow>): (ts: seq<string>)
    ensures |ts| == |rows| && forall i :: 0 <= i < |rows| ==> ts[i] == rows[i].transcript
  {
    seq(|rows|, i requires 0 <= i < |rows| => rows[i].transcript)
  }

  /** `group_by(transcript).agg(sum)`: one entry per transcript with its total. */
  function Aggregate(rows: seq<ExpressionRow>): (r: seq<Ranked>)
    ensures Seqs.NoDuplicates(r)
    ensures forall x :: x in r <==> x.transcript in ExpressionTranscripts(rows) && x.total == Total(rows, x.transcript)
  {
    var ts := Seqs.Distinct(TranscriptColumn(rows));
    var r := seq(|ts|, i requires 0 <= i < |ts| => Ranked(ts[i], Total(rows, ts[i])));
    forall x: Ranked | x.transcript in ExpressionTranscripts(rows) && x.total == Total(rows, x.transcript)
      ensures x in r
    {
      var e :| e in rows && e.transcript == x.transcript;
      var i :| 0 <= i < |rows| && rows[i] == e;
      assert TranscriptColumn(rows)[i] == x.transcript;
      assert x.transcript in TranscriptColumn(rows);
      assert x.transcript in ts;
      var k :| 0 <= k < |ts| && ts[k] == x.transcript;
      assert r[k] == x;
    }
    forall x | x in r ensures x.transcript in ExpressionTranscripts(rows) {
      var k :| 0 <= k < |r| && r[k] == x;
      assert ts[k] in TranscriptColumn(rows);
      var i :| 0 <= i < |rows| && TranscriptColumn(rows)[i] == ts[k];
      assert rows[i] in rows;
    }
    r
  }

  predicate Heavier(a: Ranked, b: Ranked) {
    a.total >= b.total
  }

  function NameSeq(rs: seq<Ranked>): (ns: seq<string>)
    ensures |ns| == |rs| && forall i :: 0 <= i < |rs| ==> ns[i] == rs[i].transcript
  {
    seq(|rs|, i requires 0 <= i < |rs| => rs[i].transcript)
  }

  function Names(rs: seq<Ranked>): set<string> {
    set x | x in rs :: x.transcript
  }

  /** `aggregated_df.sort("total_expression", descending=True)` (line 200). */
  function SortedTotals(rows: seq<ExpressionRow>): (r: seq<Ranked>)
    ensures Sorting.SortedBy(r, Heavier)
    ensures forall x :: x in r <==> x.transcript in ExpressionTranscripts(rows) && x.total == Total(rows, x.transcript)
    ensures Seqs.NoDuplicates(NameSeq(r))
    ensures Names(r) == ExpressionTranscripts(rows)
  {
    var a := Aggregate(rows);
    Sorting.SortSorted(a, Heavier);
    var r := Sorting.Sort(a, Heavier);
    Seqs.NoDuplicatesPermutation(a, r);
    forall x ensures x in r <==> x in a {
      assert x in r <==> x in multiset(r);
      assert x in a <==> x in multiset(a);
    }
    forall i, j | 0 <= i < j < |r| ensures NameSeq(r)[i] != NameSeq(r)[j] {
      assert r[i] in r && r[j] in r;
    }
    forall t | t in ExpressionTranscripts(rows) ensures t in Names(r) {
      assert Ranked(t, Total(rows, t)) in r;
    }
    r
  }

  /**
   * The transcripts `keep_top_expressed_transcripts` selects (lines
   * 203-220): the first `n` when a positive `n` is below the number of
   * transcripts, all of them for a larger `n` or for "all", and a
   * `ValueError` for anything else.
   */
  function Keep(sorted: seq<Ranked>, keep: KeepTop): (r: Result<seq<Ranked>, FilterError>)
    ensures r.Err? <==> !((keep.Count? && keep.n > 0) || keep == Label("all"))
    ensures r.Err? ==> r.error == BadKeepTop
    ensures r.Ok? && keep.Count? && keep.n < |sorted| ==> r.value == sorted[..keep.n]
    ensures r.Ok? && !(keep.Count? && keep.n < |sorted|) ==> r.value == sorted
  {
    if keep.Count? && keep.n > 0 then
      Ok(if keep.n < |sorted| then sorted[..keep.n] else sorted)
    else if keep == Label("all") then Ok(sorted)
    else Err(BadKeepTop)
  }

  /** Order by total expression, highest first (lines 231-235). */
  function OrderAnnotation(rows: seq<AnnotationRow>, expression: seq<ExpressionRow>): (r: seq<AnnotationRow>)
    ensures multiset(r) == multiset(rows)
    ensures forall i, j :: 0 <= i < j < |r| ==> Total(expression, r[i].transcript) >= Total(expression, r[j].transcript)
  {
    var le := (a: AnnotationRow, b: AnnotationRow) => Total(expression, a.transcript) >= Total(expression, b.transcript);
    Sorting.SortSorted(rows, le);
    Sorting.Sort(rows, le)
  }

  /** Order by total expression, highest first (lines 237-241). */
  function OrderExpression(rows: seq<ExpressionRow>, expression: seq<ExpressionRow>): (r: seq<ExpressionRow>)
    ensures multiset(r) == multiset(rows)
    ensures forall i, j :: 0 <= i < j < |r| ==> Total(expression, r[i].transcript) >= Total(expression, r[j].transcript)
  {
    var le := (a: ExpressionRow, b: ExpressionRow) => Total(expression, a.transcript) >= Total(expression, b.transcript);
    Sorting.SortSorted(rows, le);
    Sorting.Sort(rows, le)
  }

  /**
   * Lines 185-191: both tables keep only the transcripts they share.
   */
  function Reconcile(fa: seq<AnnotationRow>, fe: seq<ExpressionRow>): (r: Filtered)
    ensures r.Both?
    ensures AnnotationTranscripts(r.annotation) == AnnotationTranscripts(fa) * ExpressionTranscripts(fe)
    ensures ExpressionTranscripts(r.expression) == AnnotationTranscripts(fa) * ExpressionTranscripts(fe)
    ensures forall a :: a in r.annotation <==> a in fa && a.transcript in ExpressionTranscripts(fe)
    ensures forall e :: e in r.expression <==> e in fe && e.transcript in AnnotationTranscripts(fa)
  {
    var common := AnnotationTranscripts(fa) * ExpressionTranscripts(fe);
    Both(KeepAnnotation(fa, common), KeepExpression(fe, common))
  }

  lemma PermutationTranscripts(a: seq<AnnotationRow>, b: seq<AnnotationRow>, e: seq<ExpressionRow>, f: seq<ExpressionRow>)
    requires multiset(a) == multiset(b) && multiset(e) == multiset(f)
    ensures forall x :: x in a <==> x in b
    ensures forall x :: x in e <==> x in f
    ensures AnnotationTranscripts(a) == AnnotationTranscripts(b)
    ensures ExpressionTranscripts(e) == ExpressionTranscripts(f)
  {
    forall x ensures x in a <==> x in b {
      assert x in a <==> x in multiset(a);
      assert x in b <==> x in multiset(b);
    }
    forall x ensures x in e <==> x in f {
      assert x in e <==> x in multiset(e);
      assert x in f <==> x in multiset(f);
    }
  }

  /**
   * Lines 186-188 and 231-241 for a chosen set of transcripts: both tables
   * keep just those transcripts' rows, ordered by total, highest first.
   */
  function Select(fa: seq<AnnotationRow>, fe: seq<ExpressionRow>, names: set<string>): (r: Filtered)
    requires AnnotationTranscripts(fa) == ExpressionTranscripts(fe)
    requires names <= ExpressionTranscripts(fe)
    ensures r.Both?
    ensures forall a :: a in r.annotation ==> a in fa
    ensures forall e :: e in r.expression ==> e in fe
    ensures AnnotationTranscripts(r.annotation) == names
    ensures ExpressionTranscripts(r.expression) == names
    ensures forall a :: a in fa && a.transcript in names ==> multiset(r.annotation)[a] == multiset(fa)[a]
    ensures forall e :: e in fe && e.transcript in names ==> multiset(r.expression)[e] == multiset(fe)[e]
    ensures forall i, j :: 0 <= i < j < |r.annotation| ==>
      Total(fe, r.annotation[i].transcript) >= Total(fe, r.annotation[j].transcript)
    ensures forall i, j :: 0 <= i < j < |r.expression| ==>
      Total(fe, r.expression[i].transcript) >= Total(fe, r.expression[j].transcript)
  {
    var a := KeepAnnotation(fa, names);
    var e := KeepExpression(fe, names);
    var oa := OrderAnnotation(a, fe);
    var oe := OrderExpression(e, fe);
    PermutationTranscripts(oa, a, oe, e);
    Both(oa, oe)
  }

  /**
   * Lines 193-241: rank the shared transcripts by total expression, keep
   * those `keep` selects, and order both tables by total, highest first.
   */
  function Ranking(fa: seq<AnnotationRow>, fe: seq<ExpressionRow>, keep: KeepTop): (r: Result<Filtered, FilterError>)
    requires AnnotationTranscripts(fa) == ExpressionTranscripts(fe)
    ensures r.Err? <==> Keep([], keep).Err?
    ensures r.Err? ==> r.error == BadKeepTop
    ensures r.Ok? ==> r.value.Both?
    ensures r.Ok? ==> forall a :: a in r.value.annotation ==> a in fa
    ensures r.Ok? ==> forall e :: e in r.value.expression ==> e in fe
    ensures r.Ok? ==> AnnotationTranscripts(r.value.annotation) == ExpressionTranscripts(r.value.expression)
    ensures r.Ok? ==> ExpressionTranscripts(r.value.expression) == Names(Keep(SortedTotals(fe), keep).value)
    ensures r.Ok? ==> ExpressionTranscripts(r.value.expression) <= ExpressionTranscripts(fe)
    ensures r.Ok? ==> forall a :: a in fa && a.transcript in ExpressionTranscripts(r.value.expression) ==>
      multiset(r.value.annotation)[a] == multiset(fa)[a]
    ensures r.Ok? ==> forall e :: e in fe && e.transcript in ExpressionTranscripts(r.value.expression) ==>
      multiset(r.value.expression)[e] == multiset(fe)[e]
    ensures r.Ok? ==> forall i, j :: 0 <= i < j < |r.value.annotation| ==>
      Total(fe, r.value.annotation[i].transcript) >= Total(fe, r.value.annotation[j].transcript)
    ensures r.Ok? ==> forall i, j :: 0 <= i < j < |r.value.expression| ==>
      Total(fe, r.value.expression[i].transcript) >= Total(fe, r.value.expression[j].transcript)
  {
    var sorted := SortedTotals(fe);
    match Keep(sorted, keep)
    case Err(e) => Err(e)
    case Ok(kept) =>
      assert Names(kept) <= Names(sorted);
      Ok(Select(fa, fe, Names(kept)))
  }

  /** The transcripts of gene `g` in the annotation. */
  function GeneTranscripts(annotation: seq<AnnotationRow>, g: string): set<string> {
    AnnotationTranscripts(GeneRows(annotation, g))
  }

  /** The gene has annotation rows exactly when some row names it. */
  lemma GeneRowsEmpty(annotation: seq<AnnotationRow>, g: string)
    ensures |GeneRows(annotation, g)| == 0 <==> forall a :: a in annotation ==> a.gene != g
  {
    var fa := GeneRows(annotation, g);
    if |fa| > 0 {
      assert fa[0] in fa;
    }
  }

  /**
   * Lines 139-241, once the gene's annotation rows `fa` are known: keep the
   * expression rows of its transcripts, reconcile both tables and, if asked,
   * rank and order them.
   */
  function WithExpression(fa: seq<AnnotationRow>, em: seq<ExpressionRow>, orderByExpression: bool,
                          keep: KeepTop): (r: Result<Filtered, FilterError>)
    ensures r != Err(NoAnnotation)
    ensures r == Err(EmptyExpression) <==> ExpressionTranscripts(em) * AnnotationTranscripts(fa) == {}
    ensures r == Err(BadKeepTop) <==>
      ExpressionTranscripts(em) * AnnotationTranscripts(fa) != {} && orderByExpression && Keep([], keep).Err?
    ensures r.Ok? ==> r.value.Both?
    ensures r.Ok? ==> forall a :: a in r.value.annotation ==> a in fa
    ensures r.Ok? ==>
      && (forall e :: e in r.value.expression ==> e in em)
      && AnnotationTranscripts(r.value.annotation) == ExpressionTranscripts(r.value.expression)
      && AnnotationTranscripts(r.value.annotation) <= AnnotationTranscripts(fa) * ExpressionTranscripts(em)
  {
    var fe := KeepExpression(em, AnnotationTranscripts(fa));
    if |fe| == 0 then
      assert ExpressionTranscripts(fe) == {};
      Err(EmptyExpression)
    else
      assert fe[0] in fe;
      var both := Reconcile(fa, fe);
      if !orderByExpression then Ok(both)
      else Ranking(both.annotation, both.expression, keep)
  }

  /** `gene_filtering`. */
  function GeneFilter(target: string, annotation: seq<AnnotationRow>, expression: Option<seq<ExpressionRow>>,
                      orderByExpression: bool, keep: KeepTop): (r: Result<Filtered, FilterError>)
    ensures r == Err(NoAnnotation) <==> forall a :: a in annotation ==> a.gene != target
    ensures r == Err(EmptyExpression) <==>
      && (exists a :: a in annotation && a.gene == target)
      && expression.Some?
      && ExpressionTranscripts(expression.value) * GeneTranscripts(annotation, target) == {}
    ensures r == Err(BadKeepTop) <==>
      && (exists a :: a in annotation && a.gene == target)
      && expression.Some?
      && ExpressionTranscripts(expression.value) * GeneTranscripts(annotation, target) != {}
      && orderByExpression
      && Keep([], keep).Err?
    ensures r.Ok? ==> (r.value.AnnotationOnly? <==> expression.None?)
    ensures r.Ok? && expression.None? ==> r.value.annotation == GeneRows(annotation, target)
    ensures r.Ok? ==> forall a :: a in r.value.annotation ==> a in annotation && a.gene == target
    ensures r.Ok? && r.value.Both? ==>
      && (forall e :: e in r.value.expression ==> e in expression.value)
      && AnnotationTranscripts(r.value.annotation) == ExpressionTranscripts(r.value.expression)
      && AnnotationTranscripts(r.value.annotation) <=
           GeneTranscripts(annotation, target) * ExpressionTranscripts(expression.value)
  {
    var fa := GeneRows(annotation, target);
    GeneRowsEmpty(annotation, target);
    if |fa| == 0 then Err(NoAnnotation)
    else
      match expression
      case None => Ok(AnnotationOnly(fa))
      case Some(em) =>
        assert GeneTranscripts(annotation, target) == AnnotationTranscripts(fa);
        WithExpression(fa, em, orderByExpression, keep)
  }

  /** Keeping every transcript of the rows keeps every row. */
  lemma KeepAllExpression(rows: seq<ExpressionRow>)
    ensures multiset(KeepExpression(rows, ExpressionTranscripts(rows))) == multiset(rows)
  {
    var r := KeepExpression(rows, ExpressionTranscripts(rows));
    forall e ensures multiset(r)[e] == multiset(rows)[e] {
      if e in rows {
        assert e.transcript in ExpressionTranscripts(rows);
      }
    }
  }

  /**
   * The second filter of line 189 keeps every expression row: those rows
   * were already restricted to annotated transcripts.
   */
  lemma ReconcileKeepsExpression(fa: seq<AnnotationRow>, em: seq<ExpressionRow>)
    ensures var fe := KeepExpression(em, AnnotationTranscripts(fa));
      multiset(Reconcile(fa, fe).expression) == multiset(fe)
  {
    var fe := KeepExpression(em, AnnotationTranscripts(fa));
    var common := AnnotationTranscripts(fa) * ExpressionTranscripts(fe);
    assert common == ExpressionTranscripts(fe);
    KeepAllExpression(fe);
  }

  /** The ranking holds one entry per shared transcript. */
  lemma SortedTotalsCount(fe: seq<ExpressionRow>)
    ensures |SortedTotals(fe)| == |ExpressionTranscripts(fe)|
  {
    var s := SortedTotals(fe);
    Seqs.NoDuplicatesCard(NameSeq(s));
    assert (set x | x in NameSeq(s)) == Names(s);
  }

  /**
   * The first `n` entries of the ranking name `n` distinct transcripts,
   * none with a lower total than a transcript left out.
   */
  lemma TopNames(fe: seq<ExpressionRow>, n: int)
    requires 0 < n < |ExpressionTranscripts(fe)|
    ensures n <= |SortedTotals(fe)|
    ensures var kept := Names(SortedTotals(fe)[..n]);
      && |kept| == n
      && forall t, u :: t in kept && u in ExpressionTranscripts(fe) - kept ==> Total(fe, t) >= Total(fe, u)
  {
    var s := SortedTotals(fe);
    SortedTotalsCount(fe);
    var top := s[..n];
    var kept := Names(top);
    assert NameSeq(top) == NameSeq(s)[..n];
    assert Seqs.NoDuplicates(NameSeq(top));
    Seqs.NoDuplicatesCard(NameSeq(top));
    assert (set x | x in NameSeq(top)) == kept;
    TopAbove(s, n);
    forall t, u | t in kept && u in ExpressionTranscripts(fe) - kept ensures Total(fe, t) >= Total(fe, u) {
      var x :| x in top && x.transcript == t;
      assert u in Names(s);
      var y :| y in s && y.transcript == u;
      assert x in s;
    }
  }

  /** In the ranking, an entry among the first `n` outweighs every entry whose transcript is not among them. */
  lemma TopAbove(s: seq<Ranked>, n: nat)
    requires Sorting.SortedBy(s, Heavier) && n <= |s|
    ensures forall x, y :: x in s[..n] && y in s && y.transcript !in Names(s[..n]) ==> x.total >= y.total
  {
    forall x, y | x in s[..n] && y in s && y.transcript !in Names(s[..n]) ensures x.total >= y.total {
      var i :| 0 <= i < n && s[..n][i] == x;
      forall k | 0 <= k < n ensures s[k] != y {
        assert s[..n][k] == s[k];
      }
      var j :| 0 <= j < |s| && s[j] == y;
      assert s[i] == x;
    }
  }

  /**
   * Lines 203-206: a positive `n` below the number of transcripts keeps
   * exactly `n` transcripts, and none that is dropped has a higher total
   * than one that is kept.
   */
  lemma TopNKept(fa: seq<AnnotationRow>, fe: seq<ExpressionRow>, n: int)
    requires AnnotationTranscripts(fa) == ExpressionTranscripts(fe)
    requires 0 < n < |ExpressionTranscripts(fe)|
    ensures Ranking(fa, fe, Count(n)).Ok?
    ensures var kept := ExpressionTranscripts(Ranking(fa, fe, Count(n)).value.expression);
      && |kept| == n
      && AnnotationTranscripts(Ranking(fa, fe, Count(n)).value.annotation) == kept
      && forall t, u :: t in kept && u in ExpressionTranscripts(fe) - kept ==> Total(fe, t) >= Total(fe, u)
  {
    TopNames(fe, n);
    SortedTotalsCount(fe);
    assert Keep(SortedTotals(fe), Count(n)).value == SortedTotals(fe)[..n];
  }

  /** "all", or a count at least the number of transcripts, selects every transcript. */
  lemma KeepAllNames(fe: seq<ExpressionRow>, keep: KeepTop)
    requires keep == Label("all") || (keep.Count? && keep.n >= |ExpressionTranscripts(fe)| && keep.n > 0)
    ensures Keep(SortedTotals(fe), keep).Ok?
    ensures Names(Keep(SortedTotals(fe), keep).value) == ExpressionTranscripts(fe)
  {
    SortedTotalsCount(fe);
  }

  /**
   * "all", or a count at least the number of transcripts, keeps every
   * shared row of both tables (lines 207-216).
   */
  lemma KeepEverything(fa: seq<AnnotationRow>, fe: seq<ExpressionRow>, keep: KeepTop)
    requires AnnotationTranscripts(fa) == ExpressionTranscripts(fe)
    requires keep == Label("all") || (keep.Count? && keep.n >= |ExpressionTranscripts(fe)| && keep.n > 0)
    ensures Ranking(fa, fe, keep).Ok?
    ensures multiset(Ranking(fa, fe, keep).value.annotation) == multiset(fa)
    ensures multiset(Ranking(fa, fe, keep).value.expression) == multiset(fe)
  {
    KeepAllNames(fe, keep);
    var r := Ranking(fa, fe, keep).value;
    var kept := ExpressionTranscripts(r.expression);
    assert kept == ExpressionTranscripts(fe);
    assert forall a :: a in fa ==> a.transcript in kept;
    assert forall e :: e in fe ==> e.transcript in kept;
    SameRows(r.annotation, fa);
    SameRows(r.expression, fe);
  }

  lemma SameRows<T>(r: seq<T>, s: seq<T>)
    requires forall x :: x in r ==> x in s
    requires forall x :: x in s ==> multiset(r)[x] == multiset(s)[x]
    ensures multiset(r) == multiset(s)
  {
    forall x ensures multiset(r)[x] == multiset(s)[x] {
      if x !in s {
        assert x !in r;
      }
    }
  }

  /**
   * With ordering on, both outputs run from the highest to the lowest
   * total expression, the totals taken over the whole expression matrix.
   */
  lemma OrderedByTotal(target: string, annotation: seq<AnnotationRow>, em: seq<ExpressionRow>, keep: KeepTop)
    requires GeneFilter(target, annotation, Some(em), true, keep).Ok?
    ensures var r := GeneFilter(target, annotation, Some(em), true, keep).value;
      && (forall i, j :: 0 <= i < j < |r.annotation| ==>
            Total(em, r.annotation[i].transcript) >= Total(em, r.annotation[j].transcript))
      && (forall i, j :: 0 <= i < j < |r.expression| ==>
            Total(em, r.expression[i].transcript) >= Total(em, r.expression[j].transcript))
  {
    var r := GeneFilter(target, annotation, Some(em), true, keep).value;
    var fa := GeneRows(annotation, target);
    var fe := KeepExpression(em, AnnotationTranscripts(fa));
    var both := Reconcile(fa, fe);
    var common := AnnotationTranscripts(fa) * ExpressionTranscripts(fe);
    assert r == Ranking(both.annotation, both.expression, keep).value;
    forall t | t in ExpressionTranscripts(r.expression) ensures Total(both.expression, t) == Total(em, t) {
      TotalKeep(fe, common, t);
      TotalKeep(em, AnnotationTranscripts(fa), t);
    }
    forall i | 0 <= i < |r.annotation| ensures r.annotation[i].transcript in ExpressionTranscripts(r.expression) {
      assert r.annotation[i] in r.annotation;
    }
    forall i | 0 <= i < |r.expression| ensures r.expression[i].transcript in ExpressionTranscripts(r.expression) {
      assert r.expression[i] in r.expression;
    }
  }

  /** The transcripts of gene `target` that also have expression rows. */
  function Common(target: string, annotation: seq<AnnotationRow>, em: seq<ExpressionRow>): set<string> {
    ExpressionTranscripts(em) * GeneTranscripts(annotation, target)
  }

  /** The tables `Reconcile` is given and returns inside `gene_filtering` (lines 129, 147-149, 185-191). */
  function Reconciled(target: string, annotation: seq<AnnotationRow>, em: seq<ExpressionRow>): (r: Filtered)
    ensures r.Both?
  {
    var fa := GeneRows(annotation, target);
    Reconcile(fa, KeepExpression(em, AnnotationTranscripts(fa)))
  }

  /**
   * Every common row, and no other: each expression row of a gene
   * transcript and each gene row of an expressed transcript, with its
   * multiplicity.
   */
  ghost predicate CommonRows(target: string, annotation: seq<AnnotationRow>, em: seq<ExpressionRow>, r: Filtered) {
    && r.Both?
    && multiset(r.expression) == multiset(KeepExpression(em, GeneTranscripts(annotation, target)))
    && forall a :: multiset(r.annotation)[a] ==
         if a.gene == target && a.transcript in ExpressionTranscripts(em) then multiset(annotation)[a] else 0
  }

  /** Lines 185-191 keep every common row; both tables then hold exactly the common transcripts. */
  lemma ReconciledRows(target: string, annotation: seq<AnnotationRow>, em: seq<ExpressionRow>)
    ensures CommonRows(target, annotation, em, Reconciled(target, annotation, em))
    ensures AnnotationTranscripts(Reconciled(target, annotation, em).annotation) == Common(target, annotation, em)
    ensures ExpressionTranscripts(Reconciled(target, annotation, em).expression) == Common(target, annotation, em)
  {
    var fa := GeneRows(annotation, target);
    var fe := KeepExpression(em, AnnotationTranscripts(fa));
    var both := Reconcile(fa, fe);
    var common := AnnotationTranscripts(fa) * ExpressionTranscripts(fe);
    assert common == Common(target, annotation, em);
    ReconcileKeepsExpression(fa, em);
    assert both.annotation == KeepAnnotation(fa, common);
  }

  /** On a common transcript, the reconciled expression keeps the input's total. */
  lemma ReconciledTotal(target: string, annotation: seq<AnnotationRow>, em: seq<ExpressionRow>, t: string)
    requires t in Common(target, annotation, em)
    ensures Total(Reconciled(target, annotation, em).expression, t) == Total(em, t)
  {
    var fa := GeneRows(annotation, target);
    var fe := KeepExpression(em, AnnotationTranscripts(fa));
    TotalKeep(fe, AnnotationTranscripts(fa) * ExpressionTranscripts(fe), t);
    TotalKeep(em, AnnotationTranscripts(fa), t);
  }

  /** With some common transcript, `gene_filtering` reaches the reconciliation (lines 129-191). */
  lemma GeneFilterReaches(target: string, annotation: seq<AnnotationRow>, em: seq<ExpressionRow>,
                          orderByExpression: bool, keep: KeepTop)
    requires Common(target, annotation, em) != {}
    ensures var both := Reconciled(target, annotation, em);
      orderByExpression ==>
        GeneFilter(target, annotation, Some(em), orderByExpression, keep) == Ranking(both.annotation, both.expression, keep)
    ensures !orderByExpression ==>
      GeneFilter(target, annotation, Some(em), orderByExpression, keep) == Ok(Reconciled(target, annotation, em))
  {
    var fa := GeneRows(annotation, target);
    var t :| t in Common(target, annotation, em);
    assert t in AnnotationTranscripts(fa);
    assert |fa| != 0;
    assert GeneFilter(target, annotation, Some(em), orderByExpression, keep) ==
      WithExpression(fa, em, orderByExpression, keep);
    var fe := KeepExpression(em, AnnotationTranscripts(fa));
    assert t in ExpressionTranscripts(fe);
    assert |fe| != 0;
  }

  /** Without ordering, `gene_filtering` returns every common row (lines 185-191). */
  lemma GeneFilterUnordered(target: string, annotation: seq<AnnotationRow>, em: seq<ExpressionRow>, keep: KeepTop)
    requires Common(target, annotation, em) != {}
    ensures GeneFilter(target, annotation, Some(em), false, keep).Ok?
    ensures CommonRows(target, annotation, em, GeneFilter(target, annotation, Some(em), false, keep).value)
  {
    GeneFilterReaches(target, annotation, em, false, keep);
    ReconciledRows(target, annotation, em);
  }

  /**
   * With ordering and "all", or a count at least the number of common
   * transcripts, `gene_filtering` returns every common row (lines 203-228).
   */
  lemma GeneFilterAll(target: string, annotation: seq<AnnotationRow>, em: seq<ExpressionRow>, keep: KeepTop)
    requires Common(target, annotation, em) != {}
    requires keep == Label("all") || (keep.Count? && keep.n >= |Common(target, annotation, em)| && keep.n > 0)
    ensures GeneFilter(target, annotation, Some(em), true, keep).Ok?
    ensures CommonRows(target, annotation, em, GeneFilter(target, annotation, Some(em), true, keep).value)
  {
    var both := Reconciled(target, annotation, em);
    GeneFilterReaches(target, annotation, em, true, keep);
    ReconciledRows(target, annotation, em);
    KeepEverything(both.annotation, both.expression, keep);
  }

  /**
   * With ordering and a count `0 < n` below the number of common
   * transcripts, `gene_filtering` keeps exactly `n` common transcripts,
   * none lighter than one it drops, with every row of each (lines 193-228).
   */
  lemma GeneFilterTopN(target: string, annotation: seq<AnnotationRow>, em: seq<ExpressionRow>, n: int)
    requires 0 < n < |Common(target, annotation, em)|
    ensures GeneFilter(target, annotation, Some(em), true, Count(n)).Ok?
    ensures var r := GeneFilter(target, annotation, Some(em), true, Count(n)).value;
      var kept := ExpressionTranscripts(r.expression);
      && r.Both?
      && |kept| == n && AnnotationTranscripts(r.annotation) == kept
      && kept <= Common(target, annotation, em)
      && (forall t, u :: t in kept && u in Common(target, annotation, em) - kept ==> Total(em, t) >= Total(em, u))
      && (forall e: ExpressionRow :: e.transcript in kept ==> multiset(r.expression)[e] == multiset(em)[e])
      && (forall a: AnnotationRow :: a.transcript in kept ==>
            multiset(r.annotation)[a] == if a.gene == target then multiset(annotation)[a] else 0)
  {
    var common := Common(target, annotation, em);
    var both := Reconciled(target, annotation, em);
    GeneFilterReaches(target, annotation, em, true, Count(n));
    ReconciledRows(target, annotation, em);
    TopNKept(both.annotation, both.expression, n);
    var r := Ranking(both.annotation, both.expression, Count(n)).value;
    var kept := ExpressionTranscripts(r.expression);
    forall t, u | t in kept && u in common - kept ensures Total(em, t) >= Total(em, u) {
      ReconciledTotal(target, annotation, em, t);
      ReconciledTotal(target, annotation, em, u);
    }
    forall e: ExpressionRow | e.transcript in kept ensures multiset(r.expression)[e] == multiset(em)[e] {
      if e !in both.expression {
        assert e !in r.expression;
        assert multiset(both.expression)[e] == 0;
      }
    }
    forall a: AnnotationRow | a.transcript in kept ensures
      multiset(r.annotation)[a] == if a.gene == target then multiset(annotation)[a] else 0
    {
      if a !in both.annotation {
        assert a !in r.annotation;
        assert multiset(both.annotation)[a] == 0;
      }
    }
  }
}
