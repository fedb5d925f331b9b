// Exceptions of an ON condition (_join and and_fn in leafdb/executor.py): a hash join
// evaluates it on pairs with the same key only, a nested loop on every pair.

module HashExceptions {
  import opened Bytes
  import opened Sql
  import opened Evaluate
  import opened Join
  import opened Planner
  import opened Pushdown
  import opened BaseScan
  import opened Exceptions

  // ---- the equality among the conjuncts ------------------------------------------------------

  /** The planner can hash on this conjunct. */
  predicate Usable(c: Expr, known: Scope, right: Source) {
    && c.Bin? && c.op.Eq? && c.left.Col? && c.right.Col?
    && var lo, ro := Owner(c.left, known, right), Owner(c.right, known, right);
       lo.Some? && ro.Some? && lo != ro && (ro.value == right.alias || lo.value == right.alias)
  }

  /** Conjunct m is the first one it can hash on. */
  predicate FirstUsable(cs: seq<Expr>, known: Scope, right: Source, m: nat) {
    m < |cs| && Usable(cs[m], known, right) && forall k :: 0 <= k < m ==> !Usable(cs[k], known, right)
  }

  /** The two columns, the one of the new table last. */
  function SidesOf(c: Expr, known: Scope, right: Source): (Expr, Expr)
    requires Usable(c, known, right)
  {
    var lo, ro := Owner(c.left, known, right), Owner(c.right, known, right);
    if ro.value == right.alias then (Col(lo, c.left.name), Col(ro, c.right.name))
    else (Col(ro, c.right.name), Col(lo, c.left.name))
  }

  /** That conjunct is the one the planner takes. */
  lemma {:induction false} TakesFirst(cs: seq<Expr>, known: Scope, right: Source, m: nat)
    requires FirstUsable(cs, known, right, m)
    ensures FindJoinEqui(cs, known, right) == Some(SidesOf(cs[m], known, right))
    decreases m
  {
    hide Owner;
    if m > 0 {
      assert !Usable(cs[0], known, right);
      assert forall k :: 0 <= k < m - 1 ==> cs[1..][k] == cs[k + 1];
      TakesFirst(cs[1..], known, right, m - 1);
    }
  }

  lemma {:induction false} SomeFirst(cs: seq<Expr>, known: Scope, right: Source) returns (m: nat)
    requires FindJoinEqui(cs, known, right).Some?
    ensures FirstUsable(cs, known, right, m)
    decreases |cs|
  {
    if Usable(cs[0], known, right) {
      m := 0;
    } else {
      hide Owner;
      var n := SomeFirst(cs[1..], known, right);
      m := n + 1;
      assert forall k :: 0 < k < m ==> cs[k] == cs[1..][k - 1];
    }
  }

  /** The two keys of a pair, as the hash join reads them, decide the equality: NULL if
      either is missing. */
  lemma EqualityOfKeys(c: Expr, known: Scope, right: Source, l: Parts, r: Row)
    requires Distinct(known + [right]) && Usable(c, known, right) && Fitting(l, known) && |r| == |right.cols|
    ensures var scope, (acc, fresh') := known + [right], SidesOf(c, known, right);
      && fresh'.name in right.cols && Compile(c, scope).Some?
      && var eq := Columns(acc, fresh', known, right);
         var a, b := eq.acc(l), eq.fresh'(r);
         Compile(c, scope).value(l + [Some(r)]) ==
         Val(if a == Null || b == Null then Null else Bool(KeyOf(a) == KeyOf(b)))
  {
    OwnerResolves(c.left, known, right);
    OwnerResolves(c.right, known, right);
    var scope, parts := known + [right], l + [Some(r)];
    var (acc, fresh') := SidesOf(c, known, right);
    var eq := Columns(acc, fresh', known, right);
    var f, g := Compile(c.left, scope).value, Compile(c.right, scope).value;
    assert Compile(c, scope).value == Both(Eq, f, g);
    assert scope[|known|] == right;
    if Owner(c.right, known, right).value == right.alias {
      PairColumns(c.left, c.right, known, right, l, r);
      EqualOfKeys(f, g, parts);
    } else {
      PairColumns(c.right, c.left, known, right, l, r);
      EqualOfKeys(f, g, parts);
    }
    hide Resolve, Owner, Distinct, Fitting;
  }

  /** Reading the columns of the pair is reading the keys of its two rows. */
  lemma PairColumns(a: Expr, b: Expr, known: Scope, right: Source, l: Parts, r: Row)
    requires Distinct(known + [right]) && Fitting(l, known) && |r| == |right.cols| && a.Col? && b.Col?
    requires var p, q := Owner(a, known, right), Owner(b, known, right);
      p.Some? && q.Some? && p != q && q.value == right.alias
    ensures var scope, acc := known + [right], Col(Owner(a, known, right), a.name);
      var fresh' := Col(Some(right.alias), b.name);
      && b.name in right.cols && Compile(a, scope).Some? && Compile(b, scope).Some?
      && var eq := Columns(acc, fresh', known, right);
         && Compile(a, scope).value(l + [Some(r)]) == Val(eq.acc(l))
         && Compile(b, scope).value(l + [Some(r)]) == Val(eq.fresh'(r))
  {
    hide Resolve, Owner;
    OwnerResolves(a, known, right);
    OwnerResolves(b, known, right);
    var scope, parts := known + [right], l + [Some(r)];
    var s, t := Resolve(scope, a.table, a.name).value, Resolve(scope, b.table, b.name).value;
    assert scope[s.0] == known[s.0] && PartFits(l[s.0], known[s.0]) && scope[t.0] == right;
    ReadLeft(l, r, s.0, s.1);
    assert ReadCol(l, s.0, s.1).Val?;
    assert parts[t.0] == Some(r) && ReadCol(parts, t.0, t.1) == Val(r[t.1]);
  }

  lemma EqualOfKeys(f: Closure, g: Closure, parts: Parts)
    requires f(parts).Val? && g(parts).Val?
    ensures var a, b := f(parts).v, g(parts).v;
      && Both(Eq, f, g)(parts) == Val(if a == Null || b == Null then Null else Bool(KeyOf(a) == KeyOf(b)))
      && Both(Eq, f, g)(parts) == Val(if a == Null || b == Null then Null else Bool(KeyOf(b) == KeyOf(a)))
  {
    var a, b := f(parts).v, g(parts).v;
    assert Both(Eq, f, g)(parts) == Strict(Eq, a, b);
    if a != Null && b != Null {
      KeysAreEquality(a, b);
    }
  }

  // ---- a pair that a hash join does not test ----------------------------------------------------

  /** A key is missing. */
  predicate Keyless(eq: Equi, l: Parts, r: Row) {
    eq.acc(l) == Null || eq.fresh'(r) == Null
  }

  /** Both keys are there and differ. */
  predicate Apart(eq: Equi, l: Parts, r: Row) {
    !Keyless(eq, l, r) && KeyOf(eq.acc(l)) != KeyOf(eq.fresh'(r))
  }

  lemma UntestedIs(eq: Equi, l: Parts, r: Row)
    ensures Meets(Some(eq), l, r) <==> !Keyless(eq, l, r) && !Apart(eq, l, r)
  {
    hide KeyOf;
  }

  /** The conjuncts beside the equality. */
  function Beside(cs: seq<Expr>, m: nat): seq<Expr>
    requires m < |cs|
  {
    cs[..m] + cs[m + 1..]
  }

  /** With different keys the equality is False and nothing behind it is looked at; with a
      missing key it is NULL and everything is. */
  lemma UntestedRaises(cs: seq<Expr>, m: nat, pair: Parts, scope: Scope, keyless: bool)
    requires m < |cs| && Compile(cs[m], scope).Some?
    requires Compile(cs[m], scope).value(pair) == Val(if keyless then Null else Bool(false))
    ensures FateOf(cs, pair, scope).Raised? <==>
            FateOf(if keyless then Beside(cs, m) else cs[..m], pair, scope).Raised?
  {
    var before, after := cs[..m], cs[m + 1..];
    assert cs == before + ([cs[m]] + after);
    FateConcat(before, [cs[m]] + after, pair, scope);
    FateConcat(before, after, pair, scope);
    assert ([cs[m]] + after)[1..] == after;
    assert !Raises(cs[m], pair, scope) && (Cuts(cs[m], pair, scope) <==> !keyless);
    hide Compile, Raises, Cuts;
  }

  /** Where ON raises on a pair that the hash join does not test. */
  ghost predicate MissedRaise(on: Expr, m: nat, eq: Equi, scope: Scope, l: Parts, r: Row)
    requires m < |FlattenAnd(on)|
  {
    || (Apart(eq, l, r) && FateOf(FlattenAnd(on)[..m], l + [Some(r)], scope).Raised?)
    || (Keyless(eq, l, r) && FateOf(Beside(FlattenAnd(on), m), l + [Some(r)], scope).Raised?)
  }

  /** What the planner hashes join s on, if conjunct m is the first it can hash on. */
  function EquiAt(q: Query, s: nat, m: nat): Equi
    requires s < |q.joins| && FirstUsable(FlattenAnd(q.joins[s].on), ScopeAt(q, s), q.joins[s].source, m)
    requires SidesOf(FlattenAnd(q.joins[s].on)[m], ScopeAt(q, s), q.joins[s].source).1.name in q.joins[s].source.cols
  {
    var known, right := ScopeAt(q, s), q.joins[s].source;
    var (acc, fresh') := SidesOf(FlattenAnd(q.joins[s].on)[m], known, right);
    Columns(acc, fresh', known, right)
  }

  /** Join s with left rows and a table that fit their sources; its ON condition compiles, and
      conjunct m is the first equality the planner can hash on. */
  ghost predicate HashJoin(q: Query, s: nat, m: nat, ls: seq<Parts>) {
    && s < |q.joins| && Distinct(ScopeAt(q, s + 1)) && Compile(q.joins[s].on, ScopeAt(q, s + 1)).Some?
    && FirstUsable(FlattenAnd(q.joins[s].on), ScopeAt(q, s), q.joins[s].source, m)
    && Proper(q.joins[s].rows, q.joins[s].source)
    && forall l :: l in ls ==> Fitting(l, ScopeAt(q, s))
  }

  lemma EquiIs(q: Query, s: nat, m: nat, ls: seq<Parts>)
    requires HashJoin(q, s, m, ls)
    ensures SidesOf(FlattenAnd(q.joins[s].on)[m], ScopeAt(q, s), q.joins[s].source).1.name in q.joins[s].source.cols
    ensures EquiFor(q, s) == Some(EquiAt(q, s, m))
  {
    var known, right, cs := ScopeAt(q, s), q.joins[s].source, FlattenAnd(q.joins[s].on);
    TakesFirst(cs, known, right, m);
    assert ScopeAt(q, s + 1) == known + [right];
    hide Compile, FlattenAnd, ScopeAt, Columns, FindJoinEqui, Fitting, Resolve;
    assert Usable(cs[m], known, right);
    OwnerResolves(cs[m].left, known, right);
    OwnerResolves(cs[m].right, known, right);
    hide Owner, Distinct;
  }

  lemma MissedIs(q: Query, s: nat, m: nat, ls: seq<Parts>, l: Parts, r: Row)
    requires HashJoin(q, s, m, ls) && l in ls && r in q.joins[s].rows
    ensures EquiFor(q, s).Some?
    ensures var c, scope, eq := q.joins[s], ScopeAt(q, s + 1), EquiFor(q, s).value;
      MissedRaise(c.on, m, eq, scope, l, r) <==> !Meets(Some(eq), l, r) && Raises(c.on, l + [Some(r)], scope)
  {
    EquiIs(q, s, m, ls);
    var c, known, scope, cs := q.joins[s], ScopeAt(q, s), ScopeAt(q, s + 1), FlattenAnd(q.joins[s].on);
    var eq, pair := EquiAt(q, s, m), l + [Some(r)];
    assert scope == known + [c.source] && Usable(cs[m], known, c.source);
    var k :| 0 <= k < |c.rows| && c.rows[k] == r;
    hide Compile, FlattenAnd, ScopeAt, Columns, Fitting, Usable, EquiFor, FateOf, Raises, KeyOf, Meets, SidesOf,
      Distinct;
    EqualityOfKeys(cs[m], known, c.source, l, r);
    UntestedIs(eq, l, r);
    ChainStops(c.on, pair, scope);
    if !Meets(Some(eq), l, r) {
      UntestedRaises(cs, m, pair, scope, Keyless(eq, l, r));
    }
  }

  /** The ON condition is evaluated on this pair, and raises. */
  ghost predicate RaisesOn(inp: Input, raises: Parts -> bool, equi: Option<Equi>, l: Parts, r: Row) {
    l in inp.lefts && r in inp.rights && Meets(equi, l, r) && raises(l + [Some(r)])
  }

  lemma JoinRaisesOn(inp: Input, raises: Parts -> bool, equi: Option<Equi>)
    ensures JoinRaises(inp, raises, equi) <==> exists l, r :: RaisesOn(inp, raises, equi, l, r)
  {
    JoinRaisesIs(inp, raises, equi);
    hide Meets, JoinRaises;
    if l, r :| l in inp.lefts && r in inp.rights && Meets(equi, l, r) && raises(l + [Some(r)]) {
      assert RaisesOn(inp, raises, equi, l, r);
    }
  }

  /** A pair of join s that the hash join does not test, and on which ON raises. */
  ghost predicate MissedPair(q: Query, s: nat, m: nat, ls: seq<Parts>, l: Parts, r: Row)
    requires HashJoin(q, s, m, ls) && EquiFor(q, s).Some?
  {
    && l in ls && r in q.joins[s].rows
    && MissedRaise(q.joins[s].on, m, EquiFor(q, s).value, ScopeAt(q, s + 1), l, r)
  }

  lemma MissedPairIs(q: Query, s: nat, m: nat, ls: seq<Parts>, l: Parts, r: Row)
    requires HashJoin(q, s, m, ls)
    ensures EquiFor(q, s).Some?
    ensures var inp, raises := InputOf(q, s, ls), RaiseTest(q.joins[s].on, ScopeAt(q, s + 1));
      MissedPair(q, s, m, ls, l, r) <==>
      RaisesOn(inp, raises, None, l, r) && !RaisesOn(inp, raises, EquiFor(q, s), l, r)
  {
    EquiIs(q, s, m, ls);
    RaiseTestIs(q.joins[s].on, ScopeAt(q, s + 1));
    NoKeysMeets();
    if l in ls && r in q.joins[s].rows {
      MissedIs(q, s, m, ls, l, r);
    }
    hide HashJoin, MissedRaise, Meets, ScopeAt, EquiFor, RaiseTest, FlattenAnd;
  }

  /** A hash join and a nested loop raise alike if and only if the hash join does, or on no
      pair with different keys a conjunct in front of the equality raises, and on no pair
      with a missing key a conjunct beside it does, each before one that is False. */
  lemma HashRaisesAlike(q: Query, s: nat, m: nat, ls: seq<Parts>)
    requires HashJoin(q, s, m, ls)
    ensures EquiFor(q, s).Some?
    ensures var inp, equi, raises := InputOf(q, s, ls), EquiFor(q, s), RaiseTest(q.joins[s].on, ScopeAt(q, s + 1));
      && (JoinRaises(inp, raises, equi) ==> JoinRaises(inp, raises, None))
      && ((JoinRaises(inp, raises, equi) <==> JoinRaises(inp, raises, None)) <==>
          JoinRaises(inp, raises, equi) || !exists l, r :: MissedPair(q, s, m, ls, l, r))
  {
    EquiIs(q, s, m, ls);
    hide *;
    var inp, equi, raises := InputOf(q, s, ls), EquiFor(q, s), RaiseTest(q.joins[s].on, ScopeAt(q, s + 1));
    JoinRaisesOn(inp, raises, equi);
    JoinRaisesOn(inp, raises, None);
    forall l, r
      ensures MissedPair(q, s, m, ls, l, r) <==> RaisesOn(inp, raises, None, l, r) && !RaisesOn(inp, raises, equi, l, r)
      ensures RaisesOn(inp, raises, equi, l, r) ==> RaisesOn(inp, raises, None, l, r)
    {
      MissedPairIs(q, s, m, ls, l, r);
      TestedIsPair(inp, raises, equi, l, r);
    }
  }

  lemma TestedIsPair(inp: Input, raises: Parts -> bool, equi: Option<Equi>, l: Parts, r: Row)
    ensures RaisesOn(inp, raises, equi, l, r) ==> RaisesOn(inp, raises, None, l, r)
  {
  }

  lemma RaiseTestIs(c: Expr, scope: Scope)
    ensures forall l :: RaiseTest(c, scope)(l) == Raises(c, l, scope)
  {
    hide Raises;
  }

  lemma NoKeysMeets()
    ensures forall l, r :: Meets(None, l, r)
  {
  }

  /** If the equality is the first conjunct, only pairs with a missing key can make a
      difference. */
  lemma EqualityFirst(q: Query, s: nat, ls: seq<Parts>)
    requires HashJoin(q, s, 0, ls)
    ensures EquiFor(q, s).Some?
    ensures var inp, equi, raises := InputOf(q, s, ls), EquiFor(q, s), RaiseTest(q.joins[s].on, ScopeAt(q, s + 1));
      (JoinRaises(inp, raises, equi) <==> JoinRaises(inp, raises, None)) <==>
      JoinRaises(inp, raises, equi) || !exists l, r :: KeylessRaise(q, s, ls, equi.value, l, r)
  {
    HashRaisesAlike(q, s, 0, ls);
    hide *;
    forall l, r
      ensures MissedPair(q, s, 0, ls, l, r) <==> KeylessRaise(q, s, ls, EquiFor(q, s).value, l, r)
    {
      MissedFirst(q, s, ls, l, r);
    }
  }

  /** A pair with a missing key, on which a conjunct behind the first one raises. */
  ghost predicate KeylessRaise(q: Query, s: nat, ls: seq<Parts>, eq: Equi, l: Parts, r: Row)
    requires s < |q.joins|
  {
    && l in ls && r in q.joins[s].rows && Keyless(eq, l, r)
    && FateOf(FlattenAnd(q.joins[s].on)[1..], l + [Some(r)], ScopeAt(q, s + 1)).Raised?
  }

  lemma MissedFirst(q: Query, s: nat, ls: seq<Parts>, l: Parts, r: Row)
    requires HashJoin(q, s, 0, ls) && EquiFor(q, s).Some?
    ensures MissedPair(q, s, 0, ls, l, r) <==> KeylessRaise(q, s, ls, EquiFor(q, s).value, l, r)
  {
    var cs := FlattenAnd(q.joins[s].on);
    assert cs[..0] == [] && Beside(cs, 0) == cs[1..];
    hide Keyless, FlattenAnd, ScopeAt, EquiFor, HashJoin, Apart;
    assert FateOf([], l + [Some(r)], ScopeAt(q, s + 1)) == Through;
  }

  // ---- a hash join that answers alone ---------------------------------------------------------------

  const P: Source := Source("a", ["y", "z"])
  const Q: Source := Source("b", ["x", "w"])
  const Z_BELOW_W: Expr := Bin(Lt, Col(Some("a"), "z"), Col(Some("b"), "w"))
  const Y_IS_X: Expr := Bin(Eq, Col(Some("a"), "y"), Col(Some("b"), "x"))

  /** SELECT * FROM a JOIN b ON a.z < b.w AND a.y = b.x, with the rows (1, 1) and (2, 't') */
  const TEXT_QUERY: Query :=
    Query(P, [[Int(1), Int(1)]], [Clause(Inner, Q, [[Int(2), Str("t")]], Bin(AndOp, Z_BELOW_W, Y_IS_X))], None)

  const TEXT_PAIR: Parts := [Some([Int(1), Int(1)]), Some([Int(2), Str("t")])]

  lemma TextParts()
    ensures var q := TEXT_QUERY;
      && |q.joins| == 1 && ScopeAt(q, 0) == [P] && ScopeAt(q, 1) == [P, Q] && q.joins[0].source == Q
      && q.joins[0].rows == [[Int(2), Str("t")]] && Naive(q, 0) == [[Some([Int(1), Int(1)])]]
      && FlattenAnd(q.joins[0].on) == [Z_BELOW_W, Y_IS_X] && q.joins[0].on == Bin(AndOp, Z_BELOW_W, Y_IS_X)
  {
    var q := TEXT_QUERY;
    assert ScopeAt(q, 1) == ScopeAt(q, 0) + [Q];
    assert FlattenAnd(q.joins[0].on) == FlattenAnd(Z_BELOW_W) + FlattenAnd(Y_IS_X);
    SinglesStep([[Int(1), Int(1)]]);
    assert [[Int(1), Int(1)]][..0] == [];
    NoSingles();
    hide Singles;
  }

  lemma TextColumns()
    ensures Resolve([P, Q], Some("a"), "y") == Some((0, 0)) && Resolve([P, Q], Some("a"), "z") == Some((0, 1))
    ensures Resolve([P, Q], Some("b"), "x") == Some((1, 0)) && Resolve([P, Q], Some("b"), "w") == Some((1, 1))
  {
    assert SourceOf([P, Q], "a") == Some(0);
    assert SourceOf([Q], "b") == Some(0) && [P, Q][1..] == [Q];
    assert ["y", "z"][1..] == ["z"] && ["x", "w"][1..] == ["w"];
    assert IndexOf(["y", "z"], "z") == 1 && IndexOf(["x", "w"], "w") == 1;
  }

  lemma TextValues()
    ensures Compile(Z_BELOW_W, [P, Q]).Some? && Raises(Z_BELOW_W, TEXT_PAIR, [P, Q])
    ensures Compile(Y_IS_X, [P, Q]).Some? && Compile(Y_IS_X, [P, Q]).value(TEXT_PAIR) == Val(Bool(false))
  {
    TextColumns();
    hide Resolve;
    var y, z := Compile(Col(Some("a"), "y"), [P, Q]).value, Compile(Col(Some("a"), "z"), [P, Q]).value;
    var x, w := Compile(Col(Some("b"), "x"), [P, Q]).value, Compile(Col(Some("b"), "w"), [P, Q]).value;
    assert y(TEXT_PAIR) == Val(Int(1)) && z(TEXT_PAIR) == Val(Int(1));
    assert x(TEXT_PAIR) == Val(Int(2)) && w(TEXT_PAIR) == Val(Str("t"));
    assert Compile(Z_BELOW_W, [P, Q]).value == Both(Lt, z, w) && Compile(Y_IS_X, [P, Q]).value == Both(Eq, y, x);
    assert Both(Lt, z, w)(TEXT_PAIR) == Strict(Lt, Int(1), Str("t"));
    assert Both(Eq, y, x)(TEXT_PAIR) == Strict(Eq, Int(1), Int(2));
  }

  lemma TextUsable()
    ensures FirstUsable([Z_BELOW_W, Y_IS_X], [P], Q, 1)
  {
    assert SourceOf([P], "a") == Some(0);
    assert Owner(Y_IS_X.left, [P], Q) == Some("a") && Owner(Y_IS_X.right, [P], Q) == Some("b");
  }

  lemma TextJoin()
    ensures HashJoin(TEXT_QUERY, 0, 1, Naive(TEXT_QUERY, 0))
    ensures Raises(TEXT_QUERY.joins[0].on, TEXT_PAIR, [P, Q])
  {
    TextParts();
    TextUsable();
    TextValues();
    hide FirstUsable, Naive, Compile, FlattenAnd, ScopeAt;
    var on := TEXT_QUERY.joins[0].on;
    CompileConjuncts(on, [P, Q]);
    ChainStops(on, TEXT_PAIR, [P, Q]);
  }

  lemma TextApart(l: Parts, r: Row)
    requires l == [Some([Int(1), Int(1)])] && r == [Int(2), Str("t")]
    ensures EquiFor(TEXT_QUERY, 0).Some? && !Meets(EquiFor(TEXT_QUERY, 0), l, r)
  {
    TextParts();
    TextUsable();
    TextValues();
    TextJoin();
    EquiIs(TEXT_QUERY, 0, 1, Naive(TEXT_QUERY, 0));
    var eq := EquiFor(TEXT_QUERY, 0).value;
    assert l + [Some(r)] == TEXT_PAIR && [P] + [Q] == [P, Q];
    assert Fitting(l, [P]) && |r| == |Q.cols|;
    hide FirstUsable, Naive, Compile, FlattenAnd, ScopeAt, Columns, EquiFor, Fitting, HashJoin, SidesOf, Raises;
    EqualityOfKeys(Y_IS_X, [P], Q, l, r);
    UntestedIs(eq, l, r);
  }

  /** The keys 1 and 2 differ, so the hash join compares nothing; the nested loop compares a
      number with text before it sees that the keys differ. */
  lemma HashJoinAnswers()
    ensures HashJoin(TEXT_QUERY, 0, 1, Naive(TEXT_QUERY, 0))
    ensures var inp := InputOf(TEXT_QUERY, 0, Naive(TEXT_QUERY, 0));
      var raises := RaiseTest(TEXT_QUERY.joins[0].on, ScopeAt(TEXT_QUERY, 1));
      !JoinRaises(inp, raises, EquiFor(TEXT_QUERY, 0)) && JoinRaises(inp, raises, None)
  {
    var q, l, r := TEXT_QUERY, [Some([Int(1), Int(1)])], [Int(2), Str("t")];
    var inp, raises := InputOf(q, 0, Naive(q, 0)), RaiseTest(q.joins[0].on, ScopeAt(q, 1));
    OnlyTextPair(inp, raises);
    hide *;
    TextJoin();
    TextApart(l, r);
    JoinRaisesOn(inp, raises, EquiFor(q, 0));
    JoinRaisesOn(inp, raises, None);
    assert RaisesOn(inp, raises, None, l, r);
  }

  lemma OnlyTextPair(inp: Input, raises: Parts -> bool)
    requires inp == InputOf(TEXT_QUERY, 0, Naive(TEXT_QUERY, 0))
    requires raises == RaiseTest(TEXT_QUERY.joins[0].on, ScopeAt(TEXT_QUERY, 1))
    ensures var l, r := [Some([Int(1), Int(1)])], [Int(2), Str("t")];
      && RaisesOn(inp, raises, None, l, r)
      && forall x, y :: RaisesOn(inp, raises, EquiFor(TEXT_QUERY, 0), x, y) ==>
           x == l && y == r && Meets(EquiFor(TEXT_QUERY, 0), x, y)
  {
    var l, r := [Some([Int(1), Int(1)])], [Int(2), Str("t")];
    TextParts();
    TextJoin();
    assert inp.lefts == [l] && inp.rights == [r] && l + [Some(r)] == TEXT_PAIR;
    assert forall x :: x in [l] ==> x == l;
    assert forall y :: y in [r] ==> y == r;
    RaiseTestIs(TEXT_QUERY.joins[0].on, [P, Q]);
    NoKeysMeets();
    hide RaiseTest, InputOf, Naive, ScopeAt, EquiFor, Meets, HashJoin, FlattenAnd;
  }
}
