// Exceptions in a SELECT (leafdb/executor.py): a planned run evaluates conditions on other
// rows than an unoptimised run does, so one may raise where the other answers.

module Exceptions {
  import opened Bytes
  import opened Sql
  import opened Evaluate
  import opened Join
  import opened Planner
  import opened Pushdown
  import opened BaseScan

  // ---- conditions that never raise -----------------------------------------------------------

  /** Equality, connectives and tests: no order comparison, no arithmetic, no aggregate. */
  predicate Total(e: Expr)
    decreases e, 0
  {
    match e
    case Lit(_) => true
    case Col(_, _) => true
    case Bin(op, l, r) => (op.OrOp? || op.AndOp? || op.Eq? || op.Ne?) && Total(l) && Total(r)
    case Not(x) => Total(x)
    case IsNull(x, _) => Total(x)
    case InList(x, items, _) => Total(x) && TotalAll(items)
    case _ => false
  }

  predicate TotalAll(items: seq<Expr>)
    decreases items, 1
  {
    items == [] || (Total(items[0]) && TotalAll(items[1..]))
  }

  /** One part for every source, as wide as the source or missing. */
  ghost predicate Fitting(parts: Parts, scope: Scope) {
    |parts| == |scope| && forall i :: 0 <= i < |scope| ==> PartFits(parts[i], scope[i])
  }

  predicate PartFits(part: Option<Row>, source: Source) {
    part.Some? ==> |part.value| == |source.cols|
  }

  lemma ResolveInside(scope: Scope, table: Option<string>, name: string)
    requires Resolve(scope, table, name).Some?
    ensures var slot := Resolve(scope, table, name).value;
      slot.0 < |scope| && slot.1 < |scope[slot.0].cols|
  {
  }

  /** Such a condition has a value on every row. */
  lemma {:induction false} TotalHasValue(e: Expr, parts: Parts, scope: Scope)
    requires Total(e) && Compile(e, scope).Some? && Fitting(parts, scope)
    ensures Compile(e, scope).value(parts).Val?
    decreases e, 0
  {
    hide Fitting, Resolve;
    match e
    case Col(table, name) => ColumnHasValue(table, name, parts, scope);
    case Bin(op, l, r) =>
      TotalHasValue(l, parts, scope);
      TotalHasValue(r, parts, scope);
      var f, g := Compile(l, scope).value, Compile(r, scope).value;
      if op.Eq? || op.Ne? {
        assert Both(op, f, g)(parts) == Strict(op, f(parts).v, g(parts).v);
      }
    case Not(x) => TotalHasValue(x, parts, scope);
    case IsNull(x, _) => TotalHasValue(x, parts, scope);
    case InList(x, items, negated) =>
      TotalHasValue(x, parts, scope);
      ItemsHaveValues(items, Compile(x, scope).value(parts).v, parts, scope, false, negated);
    case _ =>
  }

  lemma ColumnHasValue(table: Option<string>, name: string, parts: Parts, scope: Scope)
    requires Resolve(scope, table, name).Some? && Fitting(parts, scope)
    ensures var slot := Resolve(scope, table, name).value; ReadCol(parts, slot.0, slot.1).Val?
  {
    ResolveInside(scope, table, name);
    var slot := Resolve(scope, table, name).value;
    assert PartFits(parts[slot.0], scope[slot.0]);
    hide Resolve;
  }

  lemma {:induction false} ItemsHaveValues(items: seq<Expr>, v: Value, parts: Parts, scope: Scope, sawNull: bool,
                                           negated: bool)
    requires TotalAll(items) && CompileAll(items, scope).Some? && Fitting(parts, scope)
    ensures RunItems(CompileAll(items, scope).value, v, parts, sawNull, negated).Val?
    decreases items, 1
  {
    hide Fitting;
    if items != [] {
      TotalHasValue(items[0], parts, scope);
      ItemsHaveValues(items[1..], v, parts, scope, true, negated);
      ItemsHaveValues(items[1..], v, parts, scope, sawNull, negated);
      var fs := CompileAll(items, scope).value;
      assert fs[1..] == CompileAll(items[1..], scope).value;
    }
  }

  /** It compiles exactly where its columns resolve, which decides its stage. */
  lemma {:induction false} TotalCompiles(e: Expr, scope: Scope)
    requires Total(e)
    ensures NoFunc(e) && (Resolved(e, scope) <==> Compile(e, scope).Some?)
    decreases e, 0
  {
    match e
    case Bin(_, l, r) =>
      TotalCompiles(l, scope);
      TotalCompiles(r, scope);
    case Not(x) => TotalCompiles(x, scope);
    case IsNull(x, _) => TotalCompiles(x, scope);
    case InList(x, items, _) =>
      TotalCompiles(x, scope);
      TotalItemsCompile(items, scope);
    case _ =>
  }

  lemma {:induction false} TotalItemsCompile(items: seq<Expr>, scope: Scope)
    requires TotalAll(items)
    ensures ResolvedAll(items, scope) <==> CompileAll(items, scope).Some?
    decreases items, 1
  {
    if items != [] {
      TotalCompiles(items[0], scope);
      TotalItemsCompile(items[1..], scope);
    }
  }

  lemma {:induction false} TotalConjuncts(e: Expr)
    requires Total(e)
    ensures forall c :: c in FlattenAnd(e) ==> Total(c)
    decreases e
  {
    if e.Bin? && e.op.AndOp? {
      TotalConjuncts(e.left);
      TotalConjuncts(e.right);
    }
  }

  // ---- the rows of a query fit its sources ------------------------------------------------------

  lemma {:induction false} MatchElements(l: Parts, rights: seq<Row>, on: Parts -> bool, x: Parts)
    requires x in RowMatches(l, rights, on)
    ensures exists r :: r in rights && x == l + [Some(r)]
    decreases |rights|
  {
    var n := |rights| - 1;
    if x in RowMatches(l, rights[..n], on) {
      MatchElements(l, rights[..n], on, x);
      var r :| r in rights[..n] && x == l + [Some(r)];
      assert r in rights;
    } else {
      assert rights[n] in rights;
    }
  }

  /** A joined row is a left row with a row of the new table, or with none. */
  ghost predicate Extends(x: Parts, ls: seq<Parts>, rights: seq<Row>) {
    exists l, y :: l in ls && x == l + [y] && IsPart(y, rights)
  }

  ghost predicate IsPart(y: Option<Row>, rights: seq<Row>) {
    y.Some? ==> y.value in rights
  }

  lemma {:induction false} FlatElements(ls: seq<Parts>, rights: seq<Row>, on: Parts -> bool, kind: Kind, x: Parts)
    requires x in Flat(ls, rights, on, kind)
    ensures Extends(x, ls, rights)
    decreases |ls|
  {
    var n := |ls| - 1;
    if x in Flat(ls[..n], rights, on, kind) {
      FlatElements(ls[..n], rights, on, kind, x);
      var l, y :| l in ls[..n] && x == l + [y] && IsPart(y, rights);
      assert l in ls;
    } else {
      assert x in Extend(ls[n], rights, on, kind) && ls[n] in ls;
      if x in RowMatches(ls[n], rights, on) {
        MatchElements(ls[n], rights, on, x);
        var r :| r in rights && x == ls[n] + [Some(r)];
        assert IsPart(Some(r), rights);
      } else {
        assert x == ls[n] + [None] && IsPart(None, rights);
      }
    }
  }

  /** All tables have rows as wide as their sources. */
  ghost predicate TablesFit(q: Query) {
    && Proper(q.rows, q.base)
    && forall c :: c in q.joins ==> Proper(c.rows, c.source)
  }

  lemma NaiveElements(q: Query, s: nat, x: Parts) returns (l: Parts, y: Option<Row>)
    requires 0 < s <= |q.joins| && InnerOrLeft(q) && x in Naive(q, s)
    ensures l in Naive(q, s - 1) && x == l + [y] && IsPart(y, q.joins[s - 1].rows)
  {
    var c, lefts := q.joins[s - 1], Naive(q, s - 1);
    KindsAre(q, s - 1);
    var inp := InputOf(q, s - 1, lefts);
    NaiveStep(q, s);
    assert inp.lefts == lefts && inp.rights == c.rows;
    hide *;
    NestedIsFlat(inp, c.kind);
    var flat := Flat(lefts, c.rows, inp.on, c.kind);
    assert x in multiset(NestedLoop(inp, c.kind));
    assert x in multiset(flat);
    FlatElements(lefts, c.rows, inp.on, c.kind, x);
    l, y := SomeElement(x, lefts, c.rows);
  }

  lemma SomeElement(x: Parts, ls: seq<Parts>, rights: seq<Row>) returns (l: Parts, y: Option<Row>)
    requires Extends(x, ls, rights)
    ensures l in ls && x == l + [y] && IsPart(y, rights)
  {
    l, y :| l in ls && x == l + [y] && IsPart(y, rights);
  }

  lemma TableFits(q: Query, s: nat)
    requires 0 < s <= |q.joins| && TablesFit(q)
    ensures Proper(q.joins[s - 1].rows, q.joins[s - 1].source)
    ensures ScopeAt(q, s) == ScopeAt(q, s - 1) + [q.joins[s - 1].source]
  {
    assert q.joins[s - 1] in q.joins;
  }

  lemma {:induction false} NaiveFits(q: Query, s: nat, x: Parts)
    requires s <= |q.joins| && InnerOrLeft(q) && TablesFit(q) && x in Naive(q, s)
    ensures Fitting(x, ScopeAt(q, s))
    decreases s
  {
    hide *;
    if s == 0 {
      FirstFits(q, x);
    } else {
      var l, y := NaiveElements(q, s, x);
      NaiveFits(q, s - 1, l);
      TableFits(q, s);
      OneMoreFits(l, y, q.joins[s - 1], ScopeAt(q, s - 1));
    }
  }

  lemma FirstFits(q: Query, x: Parts)
    requires TablesFit(q) && x in Naive(q, 0)
    ensures Fitting(x, ScopeAt(q, 0))
  {
    var i :| 0 <= i < |q.rows| && Singles(q.rows)[i] == x;
  }

  lemma OneMoreFits(l: Parts, y: Option<Row>, c: Clause, scope: Scope)
    requires Fitting(l, scope) && IsPart(y, c.rows) && Proper(c.rows, c.source)
    ensures Fitting(l + [y], scope + [c.source])
  {
  }

  // ---- queries that never raise ----------------------------------------------------------------

  /** Conditions that never raise and compile, over tables that fit: nothing here depends
      on the rows themselves. */
  ghost predicate Harmless(q: Query) {
    && TablesFit(q)
    && (q.where'.Some? ==> Total(q.where'.value) && Compile(q.where'.value, FullScope(q)).Some?)
    && forall s :: 0 <= s < |q.joins| ==>
         Total(q.joins[s].on) && Compile(q.joins[s].on, ScopeAt(q, s + 1)).Some?
  }

  lemma HarmlessOn(q: Query, s: nat, l: Parts, r: Row)
    requires s < |q.joins| && InnerOrLeft(q) && Harmless(q) && l in Naive(q, s) && r in q.joins[s].rows
    ensures !Raises(q.joins[s].on, l + [Some(r)], ScopeAt(q, s + 1))
  {
    var c := q.joins[s];
    assert c in q.joins;
    NaiveFits(q, s, l);
    assert IsPart(Some(r), c.rows);
    OneMoreFits(l, Some(r), c, ScopeAt(q, s));
    assert ScopeAt(q, s + 1) == ScopeAt(q, s) + [c.source];
    TotalHasValue(c.on, l + [Some(r)], ScopeAt(q, s + 1));
  }

  /** A conjunct of a harmless WHERE, at its stage. */
  lemma HarmlessConjunct(q: Query, c: Expr, s: nat)
    requires Harmless(q) && c in Conjuncts(q) && s <= |q.joins| && StageOf(c, FullScope(q)) == s
    ensures Total(c) && Compile(c, ScopeAt(q, s)).Some?
  {
    TotalConjuncts(q.where'.value);
    CompileConjuncts(q.where'.value, FullScope(q));
    TotalCompiles(c, ScopeAt(q, s));
    ScopePrefix(q, s, |q.joins|);
    hide FlattenAnd, Compile, Resolved, Total;
  }

  lemma HarmlessFilter(q: Query, i: nat, s: nat)
    requires InnerOrLeft(q) && Harmless(q) && i < |Conjuncts(q)| && s <= |q.joins|
    ensures !FilterRaises(q, Conjuncts(q), s, i)
  {
    var c, full := Conjuncts(q)[i], FullScope(q);
    hide Conjuncts, Naive, ScopeAt, StageOf, Reaches, Total, Fitting, InnerOrLeft;
    if StageOf(c, full) == s {
      HarmlessConjunct(q, c, s);
      forall l | l in Naive(q, s)
        ensures !Raises(c, l, ScopeAt(q, s))
      {
        NaiveFits(q, s, l);
        TotalHasValue(c, l, ScopeAt(q, s));
      }
    }
    hide Compile, Raises, Harmless;
  }

  /** Such a query raises neither as planned nor unoptimised, whatever the rows. */
  lemma NeverRaises(q: Query)
    requires InnerOrLeft(q) && Harmless(q)
    ensures !PlanRaises(q) && !PlainRaises(q)
  {
    var n := |q.joins|;
    assert q.where'.Some? ==> !PlainWhereRaises(q, q.where'.value) by {
      if q.where'.Some? {
        forall l | l in Naive(q, n)
          ensures !Raises(q.where'.value, l, FullScope(q))
        {
          NaiveFits(q, n, l);
          TotalHasValue(q.where'.value, l, FullScope(q));
        }
      }
    }
    assert forall s :: 0 <= s < n ==> Compile(q.joins[s].on, ScopeAt(q, s + 1)).Some?;
    hide Compile, Raises, Harmless, Naive, ScopeAt, Reaches, Meets, PlainWhereRaises, Conjuncts, InnerOrLeft,
      FilterRaises;
    forall s, l, r | 0 <= s < n && l in Naive(q, s) && r in q.joins[s].rows
      ensures !Raises(q.joins[s].on, l + [Some(r)], ScopeAt(q, s + 1))
    {
      HarmlessOn(q, s, l, r);
    }
    forall s, i | 0 <= s <= n && 0 <= i < |Conjuncts(q)|
      ensures !FilterRaises(q, Conjuncts(q), s, i)
    {
      HarmlessFilter(q, i, s);
    }
  }

  lemma {:induction false} FoundInTable(rows: seq<Row>, j: nat, k: int)
    ensures forall r :: r in FindPk(rows, j, k) ==> r in rows
    decreases |rows|
  {
    if rows != [] {
      FoundInTable(rows[1..], j, k);
    }
  }

  lemma {:induction false} LookedUpInTable(rows: seq<Row>, j: nat, v: Value)
    ensures forall r :: r in LookUp(rows, j, v) ==> r in rows
    decreases |rows|
  {
    if rows != [] {
      LookedUpInTable(rows[..|rows| - 1], j, v);
      assert forall r :: r in rows[..|rows| - 1] ==> r in rows;
    }
  }

  lemma ScannedInTable(scan: Scan, rows: seq<Row>)
    ensures forall r :: r in ScanRows(scan, rows) ==> r in rows
  {
    match scan
    case SeqScan =>
    case PkScan(j, v) => if v.Int? { FoundInTable(rows, j, v.i); }
    case IndexScan(j, v) => LookedUpInTable(rows, j, v);
  }

  /** Nor does it raise when it starts from a search or an index. */
  lemma ScanNeverRaises(q: Query, pk: Option<string>, indexed: set<string>)
    requires InnerOrLeft(q) && Harmless(q)
    ensures !PlanRaises(Scanned(q, pk, indexed)) && !PlainRaises(q)
  {
    var q' := Scanned(q, pk, indexed);
    NeverRaises(q);
    if q.where'.Some? {
      var scan := ChooseScan(FlattenAnd(q.where'.value), q.base, pk, indexed);
      ScannedInTable(scan, q.rows);
      ProperPart(q'.rows, q.rows, q.base);
      forall s: nat | s <= |q.joins|
        ensures ScopeAt(q', s) == ScopeAt(q, s)
      {
        SameScopes(q, q'.rows, s);
      }
      hide Compile, Total, ScopeAt, Proper, ChooseScan, ScanRows, PlanRaises, PlainRaises, FlattenAnd;
      assert q' == q.(rows := ScanRows(scan, q.rows));
      assert Harmless(q') && InnerOrLeft(q');
      NeverRaises(q');
    }
  }

  lemma ProperPart(part: seq<Row>, rows: seq<Row>, base: Source)
    requires Proper(rows, base) && forall r :: r in part ==> r in rows
    ensures Proper(part, base)
  {
    forall i | 0 <= i < |part|
      ensures |part[i]| == |base.cols|
    {
      assert part[i] in part;
      var k :| 0 <= k < |rows| && rows[k] == part[i];
    }
  }

  // ---- a planned run that raises alone -----------------------------------------------------------

  const A: Source := Source("a", ["y"])
  const B: Source := Source("b", ["x"])
  const JOINED: Expr := Bin(Eq, Col(Some("a"), "y"), Col(Some("b"), "x"))
  const X_IS_2: Expr := Bin(Eq, Col(Some("b"), "x"), Lit(Int(2)))
  const Y_BELOW_Z: Expr := Bin(Lt, Col(Some("a"), "y"), Lit(Str("z")))

  /** SELECT * FROM a JOIN b ON a.y = b.x WHERE b.x = 2 AND a.y < 'z', with a row 1 in each */
  const MIXED_QUERY: Query :=
    Query(A, [[Int(1)]], [Clause(Inner, B, [[Int(1)]], JOINED)], Some(Bin(AndOp, X_IS_2, Y_BELOW_Z)))

  lemma MixedParts()
    ensures var q := MIXED_QUERY;
      && |q.joins| == 1 && ScopeAt(q, 0) == [A] && FullScope(q) == [A, B] && ScopeAt(q, 1) == [A, B]
      && q.joins[0] == Clause(Inner, B, [[Int(1)]], JOINED)
      && Conjuncts(q) == [X_IS_2, Y_BELOW_Z] && InnerOrLeft(q)
  {
    var q := MIXED_QUERY;
    assert ScopeAt(q, 1) == ScopeAt(q, 0) + [B];
    assert FlattenAnd(q.where'.value) == FlattenAnd(X_IS_2) + FlattenAnd(Y_BELOW_Z);
  }

  lemma MixedStages()
    ensures StageOf(X_IS_2, [A, B]) == 1 && StageOf(Y_BELOW_Z, [A, B]) == 0
  {
    assert [A, B][..1] == [A] && SourceOf([A], "b") == None && SourceOf([A, B], "b") == Some(1);
    assert SourceOf([A], "a") == Some(0) && SourceOf([A, B], "a") == Some(0);
    assert Resolve([A], Some("b"), "x").None? && Resolve([A, B], Some("b"), "x").Some?;
    assert Resolve([A], Some("a"), "y").Some? && Resolve([A, B], Some("a"), "y").Some?;
    hide Resolve;
    assert !Resolved(X_IS_2.left, [A]) && Resolved(X_IS_2.left, [A, B]) && Resolved(X_IS_2.right, [A, B]);
    assert Resolved(Y_BELOW_Z.left, [A]) && Resolved(Y_BELOW_Z.left, [A, B]);
    assert Resolved(Y_BELOW_Z.right, [A]) && Resolved(Y_BELOW_Z.right, [A, B]);
    assert !Resolved(X_IS_2, [A]) && Resolved(X_IS_2, [A, B]) && Resolved(Y_BELOW_Z, [A]) &&
      Resolved(Y_BELOW_Z, [A, B]);
    hide Resolved;
    assert !PlacedAt(X_IS_2, [A, B], 0) && PlacedAt(Y_BELOW_Z, [A, B], 0);
  }

  lemma MixedColumns(l: Parts)
    requires |l| > 0 && l[0] == Some([Int(1)])
    ensures ReadCol(l, 0, 0) == Val(Int(1))
    ensures Resolve([A], Some("a"), "y") == Some((0, 0)) && Resolve([A, B], Some("a"), "y") == Some((0, 0))
    ensures Resolve([A, B], Some("b"), "x") == Some((1, 0))
  {
    assert SourceOf([A], "a") == Some(0) && SourceOf([A, B], "a") == Some(0);
    assert SourceOf([B], "b") == Some(0) && [A, B][1..] == [B];
  }

  lemma BelowRaises(l: Parts, scope: Scope)
    requires |l| > 0 && l[0] == Some([Int(1)]) && (scope == [A] || scope == [A, B])
    ensures Compile(Y_BELOW_Z, scope).Some? && Raises(Y_BELOW_Z, l, scope)
  {
    MixedColumns(l);
    hide Resolve;
    var f, g := Compile(Col(Some("a"), "y"), scope).value, Compile(Lit(Str("z")), scope).value;
    assert f(l) == Val(Int(1)) && g(l) == Val(Str("z"));
    assert Compile(Y_BELOW_Z, scope).value == Both(Lt, f, g);
    assert Both(Lt, f, g)(l) == Strict(Lt, Int(1), Str("z"));
  }

  lemma JoinedHolds(l: Parts)
    requires l == [Some([Int(1)]), Some([Int(1)])]
    ensures Compile(JOINED, [A, B]).Some? && Compile(JOINED, [A, B]).value(l) == Val(Bool(true))
    ensures Compile(X_IS_2, [A, B]).Some? && Compile(X_IS_2, [A, B]).value(l) == Val(Bool(false))
  {
    MixedColumns(l);
    hide Resolve;
    var f, g := Compile(Col(Some("a"), "y"), [A, B]).value, Compile(Col(Some("b"), "x"), [A, B]).value;
    var two := Compile(Lit(Int(2)), [A, B]).value;
    assert f(l) == Val(Int(1)) && g(l) == Val(Int(1)) && two(l) == Val(Int(2));
    assert Compile(JOINED, [A, B]).value == Both(Eq, f, g);
    assert Both(Eq, f, g)(l) == Strict(Eq, Int(1), Int(1));
    assert Compile(X_IS_2, [A, B]).value == Both(Eq, g, two);
    assert Both(Eq, g, two)(l) == Strict(Eq, Int(1), Int(2));
  }

  /** The false left side keeps the whole WHERE from looking at its right side. */
  lemma WhereIsFalse(l: Parts)
    requires l == [Some([Int(1)]), Some([Int(1)])]
    ensures var e := Bin(AndOp, X_IS_2, Y_BELOW_Z);
      Compile(e, [A, B]).Some? && !Raises(e, l, [A, B])
  {
    JoinedHolds(l);
    BelowRaises(l, [A, B]);
    var f, g := Compile(X_IS_2, [A, B]).value, Compile(Y_BELOW_Z, [A, B]).value;
    assert Compile(Bin(AndOp, X_IS_2, Y_BELOW_Z), [A, B]).value == AndThen(f, g);
    hide Compile;
  }

  lemma OnlyJoinedRow(l: Parts)
    requires l in Naive(MIXED_QUERY, 1)
    ensures l == [Some([Int(1)]), Some([Int(1)])]
  {
    var q, row := MIXED_QUERY, [Some([Int(1)])];
    MixedParts();
    NaiveStart(q);
    NaiveStep(q, 1);
    var inp := InputOf(q, 0, Naive(q, 0));
    SinglesStep([[Int(1)]]);
    assert [[Int(1)]][..0] == [];
    NoSingles();
    assert inp.lefts == [row] && inp.rights == [[Int(1)]];
    hide Naive, Flat, NestedLoop, Test, Singles;
    NestedIsFlat(inp, Inner);
    assert l in multiset(Flat(inp.lefts, inp.rights, inp.on, Inner));
    FlatOne(row, inp.rights, inp.on, Inner);
    MatchElements(row, inp.rights, inp.on, l);
  }

  lemma FirstRow(l: Parts)
    ensures l in Naive(MIXED_QUERY, 0) <==> l == [Some([Int(1)])]
  {
    NaiveStart(MIXED_QUERY);
    SinglesStep([[Int(1)]]);
    assert [[Int(1)]][..0] == [];
    NoSingles();
    hide Naive, Singles;
  }

  lemma PlanOfMixed()
    ensures PlanRaises(MIXED_QUERY)
  {
    var q, l := MIXED_QUERY, [Some([Int(1)])];
    MixedParts();
    MixedStages();
    BelowRaises(l, [A]);
    FirstRow(l);
    hide Compile, Raises, Naive, ScopeAt, StageOf, Conjuncts, Passes;
    assert Reaches(Conjuncts(q), FullScope(q), 0, 1, l);
    assert FilterRaises(q, Conjuncts(q), 0, 1);
    assert StageRaises(q, Conjuncts(q), 0);
  }

  lemma PlainOfMixed()
    ensures !PlainRaises(MIXED_QUERY)
  {
    var q, both := MIXED_QUERY, [Some([Int(1)]), Some([Int(1)])];
    MixedParts();
    JoinedHolds(both);
    WhereIsFalse(both);
    assert !Raises(JOINED, both, [A, B]);
    hide Compile, Raises, Naive, ScopeAt;
    forall l | l in Naive(q, 0)
      ensures l + [Some([Int(1)])] == both
    {
      FirstRow(l);
    }
    assert forall r :: r in q.joins[0].rows ==> r == [Int(1)];
    assert !PlainJoinRaises(q, 0);
    forall l | l in Naive(q, 1)
      ensures l == both
    {
      OnlyJoinedRow(l);
    }
    assert !PlainWhereRaises(q, q.where'.value);
  }

  /** Checked at its stage, the comparison of a number with text raises; at the end, the
      false condition in front of it would have kept it from being looked at. */
  lemma PlanRaisesAlone()
    ensures InnerOrLeft(MIXED_QUERY) && Distinct(FullScope(MIXED_QUERY)) && InModel(MIXED_QUERY)
    ensures forall c :: c in Conjuncts(MIXED_QUERY) ==> BooleanValued(c)
    ensures PlanRaises(MIXED_QUERY) && !PlainRaises(MIXED_QUERY)
  {
    MixedParts();
    PlanOfMixed();
    PlainOfMixed();
    hide PlanRaises, PlainRaises, Conjuncts;
  }
}
