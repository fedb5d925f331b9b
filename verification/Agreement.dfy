// When the planned run of a SELECT and the unoptimised one raise alike, and when a hash join
// and a nested loop do (run_select, _join and and_fn in leafdb/executor.py).

module Agreement {
  import opened Bytes
  import opened Sql
  import opened Evaluate
  import opened Join
  import opened Planner
  import opened Pushdown
  import opened BaseScan
  import opened Exceptions

  // ---- the sites of exceptions -------------------------------------------------------------

  /** WHERE and every ON condition compile: their columns resolve. */
  ghost predicate Compiles(q: Query) {
    && (q.where'.Some? ==> Compile(q.where'.value, FullScope(q)).Some?)
    && forall s :: 0 <= s < |q.joins| ==> Compile(q.joins[s].on, ScopeAt(q, s + 1)).Some?
  }

  /** The stage of conjunct i */
  function Stage(q: Query, i: nat): (s: nat)
    requires i < |Conjuncts(q)|
    ensures s <= |q.joins|
  {
    StageOf(Conjuncts(q)[i], FullScope(q))
  }

  /** A row of the tables joined by the stage of conjunct i, on which it raises. */
  ghost predicate WhereSite(q: Query, i: nat, l: Parts)
    requires i < |Conjuncts(q)|
  {
    l in Naive(q, Stage(q, i)) && Raises(Conjuncts(q)[i], l, ScopeAt(q, Stage(q, i)))
  }

  /** A pair of rows on which the ON condition of join s raises. */
  ghost predicate OnSite(q: Query, s: nat, l: Parts, r: Row)
    requires s < |q.joins|
  {
    l in Naive(q, s) && r in q.joins[s].rows && Raises(q.joins[s].on, l + [Some(r)], ScopeAt(q, s + 1))
  }

  /** The planned run checks conjunct i on this row: the scan finds it, and the conjuncts of
      earlier stages and those in front of it at its own are True. */
  ghost predicate PlanChecks(q: Query, scan: Scan, i: nat, l: Parts)
    requires i < |Conjuncts(q)|
  {
    Finds(scan, l) && Reaches(Conjuncts(q), FullScope(q), Stage(q, i), i, l)
  }

  /** It checks the ON condition on this pair: the scan finds the row, the conjuncts that are
      due are True, and the keys of a hash join are the same. */
  ghost predicate PlanPairs(q: Query, scan: Scan, s: nat, l: Parts, r: Row)
    requires s < |q.joins|
  {
    && Finds(scan, l) && Reaches(Conjuncts(q), FullScope(q), s, |Conjuncts(q)|, l)
    && Meets(EquiFor(q, s), l, r)
  }

  /** The whole WHERE gets as far as conjunct i on some joined row that extends this one: no
      conjunct in front of it is False there. */
  ghost predicate WhereChecks(q: Query, i: nat, l: Parts)
    requires i < |Conjuncts(q)|
  {
    exists x :: x in Naive(q, |q.joins|) && Stage(q, i) < |x| && x[..Stage(q, i) + 1] == l && Uncut(q, i, x)
  }

  ghost predicate Uncut(q: Query, i: nat, x: Parts)
    requires i < |Conjuncts(q)|
  {
    forall k :: 0 <= k < i ==> !Cuts(Conjuncts(q)[k], x, FullScope(q))
  }

  /** Only the planned run raises: some conjunct does on a row on which the plan checks it,
      while every such row is cut short by a False conjunct wherever it is joined, and no ON
      condition raises on any pair. */
  ghost predicate PlanAlone(q: Query, scan: Scan) {
    && Compiles(q)
    && (exists i, l :: 0 <= i < |Conjuncts(q)| && WhereSite(q, i, l) && PlanChecks(q, scan, i, l))
    && (forall i, l :: 0 <= i < |Conjuncts(q)| && WhereSite(q, i, l) ==> !WhereChecks(q, i, l))
    && (forall s, l, r :: 0 <= s < |q.joins| ==> !OnSite(q, s, l, r))
  }

  /** Only the unoptimised run raises: it does, while every row on which a condition raises
      is kept away by the scan, by a conjunct that is not True or by different keys. */
  ghost predicate PlainAlone(q: Query, scan: Scan) {
    && Compiles(q)
    && (|| (exists i, l :: 0 <= i < |Conjuncts(q)| && WhereSite(q, i, l) && WhereChecks(q, i, l))
        || (exists s, l, r :: 0 <= s < |q.joins| && OnSite(q, s, l, r)))
    && (forall i, l :: 0 <= i < |Conjuncts(q)| && WhereSite(q, i, l) ==> !PlanChecks(q, scan, i, l))
    && (forall s, l, r :: 0 <= s < |q.joins| && OnSite(q, s, l, r) ==> !PlanPairs(q, scan, s, l, r))
  }

  ghost predicate PlanRaisesInWhere(q: Query, scan: Scan) {
    exists i, l :: 0 <= i < |Conjuncts(q)| && WhereSite(q, i, l) && PlanChecks(q, scan, i, l)
  }

  ghost predicate PlanRaisesInOn(q: Query, scan: Scan) {
    exists s, l, r :: 0 <= s < |q.joins| && OnSite(q, s, l, r) && PlanPairs(q, scan, s, l, r)
  }

  ghost predicate PlainRaisesInWhere(q: Query) {
    exists i, l :: 0 <= i < |Conjuncts(q)| && WhereSite(q, i, l) && WhereChecks(q, i, l)
  }

  ghost predicate PlainRaisesInOn(q: Query) {
    exists s, l, r :: 0 <= s < |q.joins| && OnSite(q, s, l, r)
  }

  lemma AloneIs(q: Query, scan: Scan)
    ensures PlanAlone(q, scan) <==>
            Compiles(q) && PlanRaisesInWhere(q, scan) && !PlainRaisesInWhere(q) && !PlainRaisesInOn(q)
    ensures PlainAlone(q, scan) <==>
            Compiles(q) && (PlainRaisesInWhere(q) || PlainRaisesInOn(q)) &&
            !PlanRaisesInWhere(q, scan) && !PlanRaisesInOn(q, scan)
    ensures PlanRaisesInOn(q, scan) ==> PlainRaisesInOn(q)
  {
    hide Compiles, Conjuncts, WhereSite, OnSite, PlanChecks, PlanPairs, WhereChecks;
  }

  // ---- the unoptimised run ---------------------------------------------------------------------

  /** A joined row begins with a joined row of fewer tables. */
  lemma {:induction false} NaivePrefix(q: Query, s: nat, n: nat, x: Parts)
    requires s <= n <= |q.joins| && InnerOrLeft(q) && x in Naive(q, n)
    ensures |x| == n + 1 && x[..s + 1] in Naive(q, s)
    decreases n
  {
    hide *;
    if n == 0 {
      NaiveStart(q);
      WideHolds(Naive(q, 0), 1, x);
      assert x[..1] == x;
    } else {
      var l, y := NaiveElements(q, n, x);
      if s == n {
        NaivePrefix(q, n - 1, n - 1, l);
        assert x[..n + 1] == x;
      } else {
        NaivePrefix(q, s, n - 1, l);
        assert x[..s + 1] == l[..s + 1];
      }
    }
  }

  lemma WideHolds(ls: seq<Parts>, n: nat, x: Parts)
    requires Wide(ls, n) && x in ls
    ensures |x| == n
  {
  }

  /** Where the query compiles, its conjuncts compile at their stages, and say there what
      they say at the end. */
  lemma ConjunctAtStage(q: Query, i: nat, x: Parts)
    requires Compiles(q) && i < |Conjuncts(q)| && |x| == |q.joins| + 1
    ensures var c, s := Conjuncts(q)[i], Stage(q, i);
      && Compile(c, ScopeAt(q, s)).Some? && Compile(c, FullScope(q)).Some?
      && (Raises(c, x, FullScope(q)) <==> Raises(c, x[..s + 1], ScopeAt(q, s)))
  {
    var c, s, full := Conjuncts(q)[i], Stage(q, i), FullScope(q);
    CompileConjuncts(q.where'.value, full);
    assert c in FlattenAnd(q.where'.value);
    ScopePrefix(q, s, |q.joins|);
    hide Compile, Resolved, FlattenAnd, ScopeAt;
    if s < |q.joins| {
      EarlyIsLate(c, full, s + 1, x);
    } else {
      assert full[..s + 1] == full && x[..s + 1] == x;
    }
  }

  /** The whole WHERE raises on a joined row if and only if some conjunct does that no False
      one in front of it keeps from being looked at. */
  lemma WhereRaises(q: Query, x: Parts)
    requires Compiles(q) && q.where'.Some?
    ensures Raises(q.where'.value, x, FullScope(q)) <==>
      exists i :: 0 <= i < |Conjuncts(q)| && RaisesUncut(Conjuncts(q), i, x, FullScope(q))
  {
    var e, full := q.where'.value, FullScope(q);
    assert Conjuncts(q) == FlattenAnd(e);
    hide *;
    CompilesWhere(q);
    ChainStops(e, x, full);
    RaisedUncut(FlattenAnd(e), x, full);
  }

  lemma CompilesWhere(q: Query)
    requires Compiles(q) && q.where'.Some?
    ensures Compile(q.where'.value, FullScope(q)).Some?
  {
    hide Compile, ScopeAt;
  }

  /** The conjunct that raises on a joined row raises at its stage. */
  lemma SiteOfRow(q: Query, i: nat, x: Parts)
    requires Compiles(q) && InnerOrLeft(q) && i < |Conjuncts(q)| && x in Naive(q, |q.joins|)
    ensures |x| == |q.joins| + 1
    ensures var l := x[..Stage(q, i) + 1];
      RaisesUncut(Conjuncts(q), i, x, FullScope(q)) <==> WhereSite(q, i, l) && Uncut(q, i, x)
  {
    hide *;
    NaivePrefix(q, Stage(q, i), |q.joins|, x);
    ConjunctAtStage(q, i, x);
    SiteOfPrefix(q, i, x);
  }

  lemma SiteOfPrefix(q: Query, i: nat, x: Parts)
    requires i < |Conjuncts(q)| && |x| == |q.joins| + 1
    requires var c, s := Conjuncts(q)[i], Stage(q, i);
      && x[..s + 1] in Naive(q, s)
      && (Raises(c, x, FullScope(q)) <==> Raises(c, x[..s + 1], ScopeAt(q, s)))
    ensures var l := x[..Stage(q, i) + 1];
      RaisesUncut(Conjuncts(q), i, x, FullScope(q)) <==> WhereSite(q, i, l) && Uncut(q, i, x)
  {
    hide Raises, Cuts, Naive, ScopeAt, Stage, Conjuncts;
  }

  lemma SiteOfRaise(q: Query, x: Parts)
    requires Compiles(q) && InnerOrLeft(q) && q.where'.Some? && x in Naive(q, |q.joins|)
    requires Raises(q.where'.value, x, FullScope(q))
    ensures PlainRaisesInWhere(q)
  {
    WhereRaises(q, x);
    hide Raises, Naive, ScopeAt, Compiles, Conjuncts, Stage, WhereSite, Uncut, RaisesUncut, InnerOrLeft;
    var i :| 0 <= i < |Conjuncts(q)| && RaisesUncut(Conjuncts(q), i, x, FullScope(q));
    SiteOfRow(q, i, x);
    assert WhereChecks(q, i, x[..Stage(q, i) + 1]);
  }

  lemma RaiseOfSite(q: Query, i: nat, l: Parts) returns (x: Parts)
    requires Compiles(q) && InnerOrLeft(q) && q.where'.Some? && i < |Conjuncts(q)|
    requires WhereSite(q, i, l) && WhereChecks(q, i, l)
    ensures x in Naive(q, |q.joins|) && Raises(q.where'.value, x, FullScope(q))
  {
    hide Raises, Naive, ScopeAt, Compiles, Conjuncts, Stage, WhereSite, Uncut, RaisesUncut, InnerOrLeft;
    x :| x in Naive(q, |q.joins|) && Stage(q, i) < |x| && x[..Stage(q, i) + 1] == l && Uncut(q, i, x);
    SiteOfRow(q, i, x);
    WhereRaises(q, x);
  }

  lemma PlainWhereSites(q: Query)
    requires Compiles(q) && InnerOrLeft(q) && q.where'.Some?
    ensures PlainWhereRaises(q, q.where'.value) <==> PlainRaisesInWhere(q)
  {
    CompilesWhere(q);
    hide Raises, Naive, ScopeAt, Compiles, Conjuncts, WhereSite, WhereChecks, InnerOrLeft, Compile;
    if x :| x in Naive(q, |q.joins|) && Raises(q.where'.value, x, FullScope(q)) {
      SiteOfRaise(q, x);
    }
    if i, l :| 0 <= i < |Conjuncts(q)| && WhereSite(q, i, l) && WhereChecks(q, i, l) {
      var x := RaiseOfSite(q, i, l);
    }
  }

  /** The unoptimised run raises at every pair on which an ON condition does, and where
      WHERE gets as far as a conjunct that raises. */
  lemma PlainSites(q: Query)
    requires Compiles(q) && InnerOrLeft(q)
    ensures PlainRaises(q) <==> PlainRaisesInWhere(q) || PlainRaisesInOn(q)
  {
    if q.where'.Some? {
      PlainWhereSites(q);
    }
    hide Compile, Raises, Naive, ScopeAt, WhereSite, WhereChecks, InnerOrLeft, PlainWhereRaises, FlattenAnd;
    forall s | 0 <= s < |q.joins|
      ensures PlainJoinRaises(q, s) <==> exists l, r :: OnSite(q, s, l, r)
    {
      PlainJoinSites(q, s);
    }
    hide PlainJoinRaises, OnSite, Compiles;
    if s :| 0 <= s < |q.joins| && PlainJoinRaises(q, s) {
      var l, r :| OnSite(q, s, l, r);
    }
    if s, l, r :| 0 <= s < |q.joins| && OnSite(q, s, l, r) {
      assert PlainJoinRaises(q, s);
    }
  }

  lemma PlainJoinSites(q: Query, s: nat)
    requires Compiles(q) && s < |q.joins|
    ensures PlainJoinRaises(q, s) <==> exists l, r :: OnSite(q, s, l, r)
  {
    hide Compile, Raises, Naive, ScopeAt;
    if PlainJoinRaises(q, s) {
      var l, r :| l in Naive(q, s) && r in q.joins[s].rows &&
        Raises(q.joins[s].on, l + [Some(r)], ScopeAt(q, s + 1));
      assert OnSite(q, s, l, r);
    }
  }

  // ---- the planned run ------------------------------------------------------------------------

  /** The scan of the plan */
  function ScanOf(q: Query, pk: Option<string>, indexed: set<string>): Scan {
    if q.where'.None? then SeqScan else ChooseScan(FlattenAnd(q.where'.value), q.base, pk, indexed)
  }

  /** What run_select is given: the tables are as the catalog says, and the literals as the
      grammar has them. */
  ghost predicate Planned(q: Query, pk: Option<string>) {
    && Distinct(FullScope(q)) && InnerOrLeft(q) && ProperTable(q, pk) && InModel(q)
    && (q.where'.Some? ==>
          && NoBooleanLiteral(FlattenAnd(q.where'.value))
          && forall c :: c in FlattenAnd(q.where'.value) ==> BooleanValued(c))
  }

  lemma ScannedIs(q: Query, pk: Option<string>, indexed: set<string>)
    ensures Scanned(q, pk, indexed) == q.(rows := ScanRows(ScanOf(q, pk, indexed), q.rows))
  {
    hide ChooseScan, FlattenAnd;
  }

  lemma FirstPart(scan: Scan, c: Expr, base: Source, l: Parts)
    requires |l| > 0
    ensures OnBase(c, base)(l) == OnBase(c, base)(l[..1]) && Finds(scan, l) == Finds(scan, l[..1])
  {
    assert l[..1][..1] == l[..1];
    hide Keeps, SameValue;
  }

  /** The tables joined from what the scan finds: the joined rows whose base row it finds. */
  lemma ScannedRows(q: Query, pk: Option<string>, indexed: set<string>, s: nat, l: Parts)
    requires Planned(q, pk) && s <= |q.joins|
    ensures l in Naive(Scanned(q, pk, indexed), s) <==> l in Naive(q, s) && Finds(ScanOf(q, pk, indexed), l)
  {
    var scan := ScanOf(q, pk, indexed);
    ScannedIs(q, pk, indexed);
    if scan.SeqScan? {
      SeqScanRows(q.rows);
      assert q.(rows := q.rows) == q;
    } else {
      RestrictedRows(q, pk, indexed, s, l);
    }
    hide Naive, ChooseScan, Scanned;
  }

  lemma RestrictedRows(q: Query, pk: Option<string>, indexed: set<string>, s: nat, l: Parts)
    requires Planned(q, pk) && s <= |q.joins| && !ScanOf(q, pk, indexed).SeqScan?
    ensures var scan := ScanOf(q, pk, indexed);
      l in Naive(q.(rows := ScanRows(scan, q.rows)), s) <==> l in Naive(q, s) && Finds(scan, l)
  {
    var scan := ScanOf(q, pk, indexed);
    var rows' := ScanRows(scan, q.rows);
    hide ChooseScan, ScanRows, Naive, Filter, Singles, OnBase, Finds, FlattenAnd, NoBooleanLiteral, ProperTable;
    var c := ScanIsConjunct(q, pk, indexed);
    NaiveRestricted(q, c, rows', s);
    FilterHolds(OnBase(c, q.base), Naive(q, s), l);
    SameMembers(Naive(q.(rows := rows'), s), Filter(OnBase(c, q.base), Naive(q, s)), l);
    if l in Naive(q, s) {
      NaivePrefix(q, 0, s, l);
      NaiveStart(q);
      FirstPart(scan, c, q.base, l);
      FilterHolds(OnBase(c, q.base), Singles(q.rows), l[..1]);
      ScanFinds(q, pk, indexed, l[..1]);
    }
  }

  lemma SameMembers(a: seq<Parts>, b: seq<Parts>, l: Parts)
    requires multiset(a) == multiset(b)
    ensures l in a <==> l in b
  {
    assert l in multiset(a) <==> l in multiset(b);
  }

  /** Scopes, conjuncts and hash keys do not depend on the base rows. */
  lemma ScannedShape(q: Query, pk: Option<string>, indexed: set<string>)
    ensures var q' := Scanned(q, pk, indexed);
      && q'.joins == q.joins && Conjuncts(q') == Conjuncts(q) && FullScope(q') == FullScope(q)
      && (forall s :: 0 <= s <= |q.joins| ==> ScopeAt(q', s) == ScopeAt(q, s))
      && (forall s :: 0 <= s < |q.joins| ==> EquiFor(q', s) == EquiFor(q, s))
  {
    var q' := Scanned(q, pk, indexed);
    ScannedIs(q, pk, indexed);
    hide FlattenAnd, FindJoinEqui, Scanned, ScanRows, Columns;
    forall s | 0 <= s <= |q.joins|
      ensures ScopeAt(q', s) == ScopeAt(q, s)
    {
      SameScopes(q, q'.rows, s);
    }
    hide ScopeAt;
  }

  lemma PlanWhereSites(q: Query, pk: Option<string>, indexed: set<string>, i: nat)
    requires Planned(q, pk) && Compiles(q) && i < |Conjuncts(q)|
    ensures var q', cs := Scanned(q, pk, indexed), Conjuncts(q);
      && |q'.joins| == |q.joins|
      && (FilterRaises(q', cs, Stage(q, i), i) <==>
          exists l :: WhereSite(q, i, l) && PlanChecks(q, ScanOf(q, pk, indexed), i, l))
  {
    var q', cs, s, scan := Scanned(q, pk, indexed), Conjuncts(q), Stage(q, i), ScanOf(q, pk, indexed);
    ScannedShape(q, pk, indexed);
    ConjunctAtStage(q, i, seq(|q.joins| + 1, _ => None));
    forall l
      ensures l in Naive(q', s) && Reaches(cs, FullScope(q'), s, i, l) && Raises(cs[i], l, ScopeAt(q', s)) <==>
              WhereSite(q, i, l) && PlanChecks(q, scan, i, l)
    {
      ScannedRows(q, pk, indexed, s, l);
      hide Naive, Reaches, Raises, ScopeAt, Conjuncts, Finds, Stage, Scanned, ScanOf;
    }
    hide Naive, Reaches, Raises, ScopeAt, Conjuncts, Finds, Compile, Compiles, Planned, Scanned, ScanOf,
      WhereSite, PlanChecks, StageOf;
  }

  lemma PlanOnSites(q: Query, pk: Option<string>, indexed: set<string>, s: nat)
    requires Planned(q, pk) && Compiles(q) && s < |q.joins|
    ensures var q', cs := Scanned(q, pk, indexed), Conjuncts(q);
      && |q'.joins| == |q.joins|
      && (OnRaises(q', cs, s) <==>
          exists l, r :: OnSite(q, s, l, r) && PlanPairs(q, ScanOf(q, pk, indexed), s, l, r))
  {
    var q', cs, scan := Scanned(q, pk, indexed), Conjuncts(q), ScanOf(q, pk, indexed);
    ScannedShape(q, pk, indexed);
    CompilesOn(q, s);
    hide *;
    RaisingPairs(q', cs, s);
    forall l, r
      ensures RaisingPair(q', cs, s, l, r) <==> OnSite(q, s, l, r) && PlanPairs(q, scan, s, l, r)
    {
      ScannedRows(q, pk, indexed, s, l);
      RaisingPairAt(q, q', cs, scan, s, l, r);
    }
  }

  lemma CompilesOn(q: Query, s: nat)
    requires Compiles(q) && s < |q.joins|
    ensures Compile(q.joins[s].on, ScopeAt(q, s + 1)).Some?
  {
    hide Compile, ScopeAt;
  }

  lemma RaisingPairAt(q: Query, q': Query, cs: seq<Expr>, scan: Scan, s: nat, l: Parts, r: Row)
    requires s < |q.joins| && q'.joins == q.joins && cs == Conjuncts(q) && FullScope(q') == FullScope(q)
    requires ScopeAt(q', s + 1) == ScopeAt(q, s + 1) && EquiFor(q', s) == EquiFor(q, s)
    requires l in Naive(q', s) <==> l in Naive(q, s) && Finds(scan, l)
    ensures RaisingPair(q', cs, s, l, r) <==> OnSite(q, s, l, r) && PlanPairs(q, scan, s, l, r)
  {
    hide Naive, Reaches, Raises, ScopeAt, Conjuncts, Finds, EquiFor, Meets;
  }

  /** The planned run raises where it checks a condition that does. */
  lemma PlanSites(q: Query, pk: Option<string>, indexed: set<string>)
    requires Planned(q, pk) && Compiles(q)
    ensures var scan := ScanOf(q, pk, indexed);
      PlanRaises(Scanned(q, pk, indexed)) <==> PlanRaisesInWhere(q, scan) || PlanRaisesInOn(q, scan)
  {
    var q', cs, scan := Scanned(q, pk, indexed), Conjuncts(q), ScanOf(q, pk, indexed);
    ScannedShape(q, pk, indexed);
    hide FilterRaises, OnRaises, Conjuncts, WhereSite, PlanChecks, OnSite, PlanPairs, Planned, Compiles, Scanned,
      ScanOf, StageOf, ScopeAt;
    if PlanRaises(q') {
      if s, i :| 0 <= s <= |q'.joins| && 0 <= i < |cs| && FilterRaises(q', cs, s, i) {
        DueAt(q', cs, s, i);
        PlanWhereSites(q, pk, indexed, i);
        var l :| WhereSite(q, i, l) && PlanChecks(q, scan, i, l);
      } else {
        var s :| 0 <= s < |q.joins| && OnRaises(q', cs, s);
        PlanOnSites(q, pk, indexed, s);
        var l, r :| OnSite(q, s, l, r) && PlanPairs(q, scan, s, l, r);
      }
    }
    if i, l :| 0 <= i < |cs| && WhereSite(q, i, l) && PlanChecks(q, scan, i, l) {
      PlanWhereSites(q, pk, indexed, i);
      assert StageRaises(q', cs, Stage(q, i));
    }
    if s, l, r :| 0 <= s < |q.joins| && OnSite(q, s, l, r) && PlanPairs(q, scan, s, l, r) {
      PlanOnSites(q, pk, indexed, s);
    }
  }

  lemma DueAt(q: Query, cs: seq<Expr>, s: nat, i: nat)
    requires s <= |q.joins| && i < |cs| && FilterRaises(q, cs, s, i)
    ensures StageOf(cs[i], FullScope(q)) == s
  {
    hide StageOf, ScopeAt, Naive, Reaches, Raises, Compile;
  }

  // ---- conditions that do not compile --------------------------------------------------------------

  /** If a column does not resolve, both runs raise. */
  lemma UncompiledRaisesBoth(q: Query, pk: Option<string>, indexed: set<string>)
    requires !Compiles(q)
    ensures PlanRaises(Scanned(q, pk, indexed)) && PlainRaises(q)
  {
    var q' := Scanned(q, pk, indexed);
    ScannedShape(q, pk, indexed);
    hide Compile, ScopeAt, Scanned, Naive, Raises, Conjuncts, EquiFor;
    if s :| 0 <= s < |q.joins| && Compile(q.joins[s].on, ScopeAt(q, s + 1)).None? {
      UncompiledRaises(q', Conjuncts(q'), s);
      assert PlainJoinRaises(q, s);
      hide OnRaises, StageRaises, PlainJoinRaises;
    } else {
      UncompiledWhere(q, q');
    }
  }

  lemma UncompiledWhere(q: Query, q': Query)
    requires q.where'.Some? && Compile(q.where'.value, FullScope(q)).None?
    requires q'.joins == q.joins && Conjuncts(q') == Conjuncts(q)
    requires forall s :: 0 <= s <= |q.joins| ==> ScopeAt(q', s) == ScopeAt(q, s)
    ensures PlanRaises(q') && PlainRaises(q)
  {
    var cs, full, n := Conjuncts(q), FullScope(q), |q.joins|;
    CompileConjuncts(q.where'.value, full);
    var c :| c in cs && Compile(c, full).None?;
    var i :| 0 <= i < |cs| && cs[i] == c;
    if StageOf(c, full) < n {
      EarlyIsLate(c, full, StageOf(c, full) + 1, seq(n + 1, _ => None));
    }
    hide StageOf, Compile, ScopeAt, Naive, Raises, Reaches, Conjuncts, PlainJoinRaises;
    assert FilterRaises(q', cs, n, i);
    assert StageRaises(q', cs, n);
    hide StageRaises, FilterRaises, OnRaises;
  }

  // ---- agreement ----------------------------------------------------------------------------------

  /** When exactly one of the two runs raises. */
  lemma RaiseAlone(q: Query, pk: Option<string>, indexed: set<string>)
    requires Planned(q, pk)
    ensures var scan, q' := ScanOf(q, pk, indexed), Scanned(q, pk, indexed);
      && (PlanRaises(q') && !PlainRaises(q) <==> PlanAlone(q, scan))
      && (PlainRaises(q) && !PlanRaises(q') <==> PlainAlone(q, scan))
  {
    assert InnerOrLeft(q);
    hide *;
    AloneIs(q, ScanOf(q, pk, indexed));
    if Compiles(q) {
      PlainSites(q);
      PlanSites(q, pk, indexed);
    } else {
      UncompiledRaisesBoth(q, pk, indexed);
    }
  }

  /** For the result of `RunSelect`: it is that of the unoptimised run, unless exactly one of
      them raises. */
  lemma OutcomesAgree(q: Query, pk: Option<string>, indexed: set<string>, r: Option<seq<Parts>>)
    requires Planned(q, pk)
    requires r.None? <==> PlanRaises(Scanned(q, pk, indexed))
    requires r.Some? ==> multiset(r.value) == multiset(Meaning(q))
    ensures var scan := ScanOf(q, pk, indexed);
      && (r.None? && Plain(q).Some? <==> PlanAlone(q, scan))
      && (r.Some? && Plain(q).None? <==> PlainAlone(q, scan))
      && (SameOutcome(r, Plain(q)) <==> !PlanAlone(q, scan) && !PlainAlone(q, scan))
  {
    RaiseAlone(q, pk, indexed);
    hide Planned, PlanAlone, PlainAlone, PlanRaises, PlainRaises, Meaning, Scanned, ScanOf;
  }

  // ---- one table ------------------------------------------------------------------------------------

  /** Row l of the only table raises in conjunct i, and the conjuncts in front are True. */
  ghost predicate RaisesAfterTrue(q: Query, i: nat, l: Parts)
    requires i < |Conjuncts(q)|
  {
    Raises(Conjuncts(q)[i], l, [q.base]) && forall k :: 0 <= k < i ==> Keeps(Conjuncts(q)[k], l, [q.base])
  }

  lemma OneTableStages(q: Query, i: nat, l: Parts)
    requires q.joins == [] && i < |Conjuncts(q)| && l in Naive(q, 0)
    ensures |l| == 1 && FullScope(q) == [q.base] && Stage(q, i) == 0 && ScopeAt(q, 0) == [q.base]
    ensures Reaches(Conjuncts(q), [q.base], 0, i, l) <==>
            forall k :: 0 <= k < i ==> Keeps(Conjuncts(q)[k], l, [q.base])
  {
    NaiveStart(q);
    WideHolds(Naive(q, 0), 1, l);
    assert l[..1] == l && ScopeAt(q, 0) == [q.base] && [q.base][..1] == [q.base];
    hide Naive, Conjuncts, Keeps, Singles, NoFunc, Resolved;
    var cs := Conjuncts(q);
    forall k | 0 <= k < i
      ensures StageOf(cs[k], [q.base]) == 0 && (Passes(cs[k], [q.base], l) <==> Keeps(cs[k], l, [q.base]))
    {
    }
    hide Passes, StageOf;
  }

  /** Only l itself extends l. */
  lemma OneTableChecks(q: Query, i: nat, l: Parts)
    requires q.joins == [] && i < |Conjuncts(q)| && l in Naive(q, 0) && |l| == 1 && Stage(q, i) == 0
    ensures WhereChecks(q, i, l) <==> Uncut(q, i, l)
  {
    NaiveStart(q);
    hide Naive, Conjuncts, Stage, Uncut, Singles;
    assert l[..1] == l;
    if x :| x in Naive(q, 0) && 0 < |x| && x[..1] == l && Uncut(q, i, x) {
      WideHolds(Naive(q, 0), 1, x);
      assert x[..1] == x;
    }
  }

  lemma OneTableSite(q: Query, scan: Scan, i: nat, l: Parts)
    requires q.joins == [] && i < |Conjuncts(q)| && l in Naive(q, 0)
    ensures WhereSite(q, i, l) && PlanChecks(q, scan, i, l) <==> Finds(scan, l) && RaisesAfterTrue(q, i, l)
    ensures WhereSite(q, i, l) && WhereChecks(q, i, l) <==> RaisesUncut(Conjuncts(q), i, l, [q.base])
  {
    OneTableStages(q, i, l);
    OneTableChecks(q, i, l);
    hide Naive, Conjuncts, Raises, Keeps, Finds, Cuts, Reaches, ScopeAt, Stage, WhereChecks;
  }

  /** The scan finds a row on which a conjunct raises after True ones only. */
  ghost predicate FindsRaising(q: Query, scan: Scan) {
    exists i, l :: 0 <= i < |Conjuncts(q)| && l in Naive(q, 0) && Finds(scan, l) && RaisesAfterTrue(q, i, l)
  }

  /** WHERE raises on a row of the table: a conjunct does after none that is False. */
  ghost predicate RowRaising(q: Query) {
    exists i, l :: 0 <= i < |Conjuncts(q)| && l in Naive(q, 0) && RaisesUncut(Conjuncts(q), i, l, [q.base])
  }

  /** Without joins the plan never raises alone. The two runs agree if and only if WHERE does
      not compile, or it raises on no row, or the scan finds a row on which a conjunct raises
      after True ones only. */
  lemma OneTable(q: Query, pk: Option<string>, indexed: set<string>)
    requires Planned(q, pk) && q.joins == []
    ensures PlanRaises(Scanned(q, pk, indexed)) ==> PlainRaises(q)
    ensures (PlanRaises(Scanned(q, pk, indexed)) <==> PlainRaises(q)) <==>
            !Compiles(q) || !RowRaising(q) || FindsRaising(q, ScanOf(q, pk, indexed))
  {
    hide *;
    if !Compiles(q) {
      UncompiledRaisesBoth(q, pk, indexed);
    } else {
      OneTableSites(q, pk, indexed);
      FoundIsRow(q, ScanOf(q, pk, indexed));
    }
  }

  lemma FoundIsRow(q: Query, scan: Scan)
    ensures FindsRaising(q, scan) ==> RowRaising(q)
  {
    hide Conjuncts, RaisesUncut, Naive, Finds, RaisesAfterTrue;
    if i, l :| 0 <= i < |Conjuncts(q)| && l in Naive(q, 0) && Finds(scan, l) && RaisesAfterTrue(q, i, l) {
      TrueIsUncut(q, i, l);
    }
  }

  lemma TrueIsUncut(q: Query, i: nat, l: Parts)
    requires i < |Conjuncts(q)|
    ensures RaisesAfterTrue(q, i, l) ==> RaisesUncut(Conjuncts(q), i, l, [q.base])
  {
    hide Conjuncts, Compile;
  }

  lemma OneTableSites(q: Query, pk: Option<string>, indexed: set<string>)
    requires Planned(q, pk) && q.joins == [] && Compiles(q)
    ensures PlanRaises(Scanned(q, pk, indexed)) <==> FindsRaising(q, ScanOf(q, pk, indexed))
    ensures PlainRaises(q) <==> RowRaising(q)
  {
    assert InnerOrLeft(q);
    hide *;
    PlanSites(q, pk, indexed);
    PlainSites(q);
    OneTablePlan(q, ScanOf(q, pk, indexed));
    OneTablePlain(q);
  }

  lemma OneTablePlan(q: Query, scan: Scan)
    requires q.joins == []
    ensures !PlanRaisesInOn(q, scan)
    ensures PlanRaisesInWhere(q, scan) <==> FindsRaising(q, scan)
  {
    hide Conjuncts, WhereSite, PlanChecks, Naive, Finds, RaisesAfterTrue, OnSite, PlanPairs;
    if i, l :| 0 <= i < |Conjuncts(q)| && WhereSite(q, i, l) && PlanChecks(q, scan, i, l) {
      SiteInTable(q, i, l);
      OneTableSite(q, scan, i, l);
    }
    if i, l :| 0 <= i < |Conjuncts(q)| && l in Naive(q, 0) && Finds(scan, l) && RaisesAfterTrue(q, i, l) {
      OneTableSite(q, scan, i, l);
    }
  }

  lemma OneTablePlain(q: Query)
    requires q.joins == []
    ensures !PlainRaisesInOn(q)
    ensures PlainRaisesInWhere(q) <==> RowRaising(q)
  {
    hide Conjuncts, WhereSite, WhereChecks, Naive, RaisesUncut, OnSite;
    if i, l :| 0 <= i < |Conjuncts(q)| && WhereSite(q, i, l) && WhereChecks(q, i, l) {
      SiteInTable(q, i, l);
      OneTableSite(q, SeqScan, i, l);
    }
    if i, l :| 0 <= i < |Conjuncts(q)| && l in Naive(q, 0) && RaisesUncut(Conjuncts(q), i, l, [q.base]) {
      OneTableSite(q, SeqScan, i, l);
    }
  }

  lemma SiteInTable(q: Query, i: nat, l: Parts)
    requires q.joins == [] && i < |Conjuncts(q)| && WhereSite(q, i, l)
    ensures l in Naive(q, 0)
  {
    hide Naive, Conjuncts, StageOf, Raises;
  }

  // ---- a key search that answers where WHERE raises ---------------------------------------------------

  const KEYED: Source := Source("a", ["x"])
  const X_BELOW_Z: Expr := Bin(Lt, Col(Some("a"), "x"), Lit(Str("z")))
  const X_IS_7: Expr := Bin(Eq, Col(Some("a"), "x"), Lit(Int(7)))

  /** SELECT * FROM a WHERE a.x < 'z' AND a.x = 7, with the one row 1 and primary key x */
  const KEY_QUERY: Query := Query(KEYED, [[Int(1)]], [], Some(Bin(AndOp, X_BELOW_Z, X_IS_7)))

  lemma KeyQueryParts()
    ensures var q := KEY_QUERY;
      && Conjuncts(q) == [X_BELOW_Z, X_IS_7] && FullScope(q) == [KEYED] && Naive(q, 0) == [[Some([Int(1)])]]
  {
    var q := KEY_QUERY;
    assert FlattenAnd(q.where'.value) == FlattenAnd(X_BELOW_Z) + FlattenAnd(X_IS_7);
    SinglesStep([[Int(1)]]);
    assert [[Int(1)]][..0] == [];
    NoSingles();
    hide Singles;
  }

  lemma KeyQueryPlanned()
    ensures Planned(KEY_QUERY, Some("x"))
  {
    KeyQueryParts();
    assert IndexOf(["x"], "x") == 0;
    hide FlattenAnd, Naive;
  }

  lemma KeyQueryScan()
    ensures ScanOf(KEY_QUERY, Some("x"), {}) == PkScan(0, Int(7))
  {
    KeyQueryParts();
    assert IndexOf(["x"], "x") == 0 && AsColumnLiteral(X_BELOW_Z) == None;
    assert [X_BELOW_Z, X_IS_7][1..] == [X_IS_7];
    hide FlattenAnd, Naive;
    assert FirstOn([X_IS_7], KEYED, {"x"}) == Some(ColumnLiteral(Some("a"), "x", Int(7)));
  }

  lemma KeyQueryRaises(l: Parts)
    requires l == [Some([Int(1)])]
    ensures Compile(X_BELOW_Z, [KEYED]).Some? && Compile(X_IS_7, [KEYED]).Some? && Raises(X_BELOW_Z, l, [KEYED])
  {
    assert SourceOf([KEYED], "a") == Some(0);
    assert Resolve([KEYED], Some("a"), "x") == Some((0, 0));
    hide Resolve;
    var f, g := Compile(Col(Some("a"), "x"), [KEYED]).value, Compile(Lit(Str("z")), [KEYED]).value;
    assert f(l) == Val(Int(1)) && g(l) == Val(Str("z"));
    assert Compile(X_BELOW_Z, [KEYED]).value == Both(Lt, f, g);
    assert Both(Lt, f, g)(l) == Strict(Lt, Int(1), Str("z"));
  }

  lemma KeyQueryCompiles()
    ensures Compiles(KEY_QUERY)
  {
    KeyQueryParts();
    KeyQueryRaises([Some([Int(1)])]);
    hide Compile, FlattenAnd, Naive;
    CompileConjuncts(KEY_QUERY.where'.value, [KEYED]);
  }

  lemma KeyQueryScanned()
    ensures Scanned(KEY_QUERY, None, {}) == KEY_QUERY && Planned(KEY_QUERY, None)
  {
    KeyQueryPlanned();
    KeyQueryParts();
    assert FirstOn([X_BELOW_Z, X_IS_7], KEYED, {}) == None;
    hide FlattenAnd, Naive;
  }

  lemma KeyQueryPlan()
    ensures PlanRaises(KEY_QUERY)
  {
    var q, l := KEY_QUERY, [Some([Int(1)])];
    KeyQueryParts();
    KeyQueryRaises(l);
    hide Compile, Raises, Naive, Conjuncts, Passes, Resolved;
    assert Reaches(Conjuncts(q), FullScope(q), 0, 0, l);
    assert FilterRaises(q, Conjuncts(q), 0, 0);
    assert StageRaises(q, Conjuncts(q), 0);
  }

  lemma KeyQueryMissed()
    ensures !FindsRaising(KEY_QUERY, PkScan(0, Int(7)))
  {
    var l := [Some([Int(1)])];
    KeyQueryParts();
    assert !Finds(PkScan(0, Int(7)), l);
    hide Finds, Conjuncts, Naive, RaisesAfterTrue;
    assert forall x :: x in [l] ==> x == l;
  }

  /** The search for 7 finds nothing, so nothing is compared; a scan of the table compares 1
      with text, planned or not. */
  lemma KeySearchAnswers()
    ensures Planned(KEY_QUERY, Some("x"))
    ensures PlanRaises(KEY_QUERY) && PlainRaises(KEY_QUERY) && !PlanRaises(Scanned(KEY_QUERY, Some("x"), {}))
  {
    var q := KEY_QUERY;
    assert q.joins == [];
    hide *;
    KeyQueryPlanned();
    KeyQueryScanned();
    KeyQueryCompiles();
    KeyQueryScan();
    KeyQueryPlan();
    KeyQueryMissed();
    OneTable(q, None, {});
    OneTableSites(q, Some("x"), {});
  }
}
