// The SELECT pipeline up to WHERE (run_select in leafdb/executor.py with the plan of
// leafdb/planner.py): conjuncts checked as early as possible, hash joins, and a
// shortcut for the base table, against joining everything and filtering last.

module Pushdown {
  import opened Bytes
  import opened Sql
  import opened Evaluate
  import opened Join
  import opened Planner

  /** One JOIN clause with the rows of its table. */
  datatype Clause = Clause(kind: Kind, source: Source, rows: seq<Row>, on: Expr)

  datatype Query = Query(base: Source, rows: seq<Row>, joins: seq<Clause>, where': Option<Expr>)

  /** The sources after s joins. */
  function ScopeAt(q: Query, s: nat): (r: Scope)
    requires s <= |q.joins|
    ensures |r| == s + 1
  {
    if s == 0 then [q.base] else ScopeAt(q, s - 1) + [q.joins[s - 1].source]
  }

  function FullScope(q: Query): Scope {
    ScopeAt(q, |q.joins|)
  }

  lemma {:induction false} ScopePrefix(q: Query, s: nat, n: nat)
    requires s <= n <= |q.joins|
    ensures ScopeAt(q, s) == ScopeAt(q, n)[..s + 1]
    decreases n
  {
    if s < n {
      ScopePrefix(q, s, n - 1);
    }
  }

  // ---- lists of contexts ---------------------------------------------------------------

  function Filter(p: Parts -> bool, ls: seq<Parts>): (r: seq<Parts>)
    ensures forall x :: x in r ==> x in ls
  {
    if ls == [] then []
    else
      var n := |ls| - 1;
      Filter(p, ls[..n]) + if p(ls[n]) then [ls[n]] else []
  }

  /** The matches of one left row. */
  function RowMatches(l: Parts, rights: seq<Row>, on: Parts -> bool): seq<Parts> {
    if rights == [] then []
    else
      var n := |rights| - 1;
      RowMatches(l, rights[..n], on) + if on(l + [Some(rights[n])]) then [l + [Some(rights[n])]] else []
  }

  /** What an INNER or LEFT join makes of one left row. */
  function Extend(l: Parts, rights: seq<Row>, on: Parts -> bool, kind: Kind): seq<Parts> {
    var ms := RowMatches(l, rights, on);
    if kind.LeftOuter? && ms == [] then [l + [None]] else ms
  }

  function Flat(ls: seq<Parts>, rights: seq<Row>, on: Parts -> bool, kind: Kind): seq<Parts> {
    if ls == [] then []
    else
      var n := |ls| - 1;
      Flat(ls[..n], rights, on, kind) + Extend(ls[n], rights, on, kind)
  }

  lemma {:induction false} FilterConcat(p: Parts -> bool, a: seq<Parts>, b: seq<Parts>)
    ensures Filter(p, a + b) == Filter(p, a) + Filter(p, b)
    decreases |b|
  {
    if b == [] {
      assert a + b == a;
    } else {
      var n := |b| - 1;
      assert (a + b)[..|a| + n] == a + b[..n];
      FilterConcat(p, a, b[..n]);
    }
  }

  lemma {:induction false} FlatConcat(a: seq<Parts>, b: seq<Parts>, rights: seq<Row>, on: Parts -> bool, kind: Kind)
    ensures Flat(a + b, rights, on, kind) == Flat(a, rights, on, kind) + Flat(b, rights, on, kind)
    decreases |b|
  {
    hide Extend;
    if b == [] {
      assert a + b == a;
    } else {
      var n := |b| - 1;
      assert (a + b)[..|a| + n] == a + b[..n];
      FlatConcat(a, b[..n], rights, on, kind);
    }
  }

  lemma FilterTakeOut(p: Parts -> bool, s: seq<Parts>, k: nat)
    requires k < |s|
    ensures multiset(Filter(p, s)) == multiset(Filter(p, s[..k] + s[k + 1..])) + multiset(Filter(p, [s[k]]))
  {
    hide Filter;
    Bytes.Parts(s, k);
    FilterConcat(p, s[..k] + [s[k]], s[k + 1..]);
    FilterConcat(p, s[..k], [s[k]]);
    FilterConcat(p, s[..k], s[k + 1..]);
  }

  lemma FlatTakeOut(s: seq<Parts>, k: nat, rights: seq<Row>, on: Parts -> bool, kind: Kind)
    requires k < |s|
    ensures multiset(Flat(s, rights, on, kind)) ==
            multiset(Flat(s[..k] + s[k + 1..], rights, on, kind)) + multiset(Flat([s[k]], rights, on, kind))
  {
    hide Flat;
    Bytes.Parts(s, k);
    FlatConcat(s[..k] + [s[k]], s[k + 1..], rights, on, kind);
    FlatConcat(s[..k], [s[k]], rights, on, kind);
    FlatConcat(s[..k], s[k + 1..], rights, on, kind);
  }

  /** Filtering and joining do not care about the order of the rows. */
  lemma {:induction false} FilterPermutes(p: Parts -> bool, a: seq<Parts>, b: seq<Parts>)
    requires multiset(a) == multiset(b)
    ensures multiset(Filter(p, a)) == multiset(Filter(p, b))
    decreases |a|
  {
    hide *;
    if a == [] {
      assert |b| == |multiset(b)| == |multiset(a)| == 0;
    } else {
      var k := FindFirst(a, b);
      FilterTakeOut(p, a, 0);
      FilterTakeOut(p, b, k);
      FilterPermutes(p, a[..0] + a[1..], b[..k] + b[k + 1..]);
    }
  }

  lemma {:induction false} FlatPermutes(a: seq<Parts>, b: seq<Parts>, rights: seq<Row>, on: Parts -> bool, kind: Kind)
    requires multiset(a) == multiset(b)
    ensures multiset(Flat(a, rights, on, kind)) == multiset(Flat(b, rights, on, kind))
    decreases |a|
  {
    hide *;
    if a == [] {
      assert |b| == |multiset(b)| == |multiset(a)| == 0;
    } else {
      var k := FindFirst(a, b);
      FlatTakeOut(a, 0, rights, on, kind);
      FlatTakeOut(b, k, rights, on, kind);
      FlatPermutes(a[..0] + a[1..], b[..k] + b[k + 1..], rights, on, kind);
    }
  }

  /** A condition that does not look at the newest part. */
  ghost predicate Blind(p: Parts -> bool, ls: seq<Parts>) {
    forall l, x: Option<Row> :: l in ls ==> p(l + [x]) == p(l)
  }

  lemma {:induction false} FilterMatches(p: Parts -> bool, l: Parts, rights: seq<Row>, on: Parts -> bool)
    requires Blind(p, [l])
    ensures Filter(p, RowMatches(l, rights, on)) == if p(l) then RowMatches(l, rights, on) else []
    decreases |rights|
  {
    if rights != [] {
      var n := |rights| - 1;
      var x := l + [Some(rights[n])];
      var ms := RowMatches(l, rights[..n], on);
      FilterMatches(p, l, rights[..n], on);
      assert l in [l];
      FilterOne(p, x);
      assert ms + [] == ms;
      hide Filter;
      FilterConcat(p, ms, [x]);
    }
  }

  lemma FilterOne(p: Parts -> bool, x: Parts)
    ensures Filter(p, [x]) == if p(x) then [x] else []
  {
    assert [x][..0] == [];
  }

  lemma FilterExtend(p: Parts -> bool, l: Parts, rights: seq<Row>, on: Parts -> bool, kind: Kind)
    requires Blind(p, [l])
    ensures Filter(p, Extend(l, rights, on, kind)) == if p(l) then Extend(l, rights, on, kind) else []
  {
    FilterMatches(p, l, rights, on);
    assert l in [l];
    FilterOne(p, l + [None]);
    hide Filter;
  }

  /** Filtering before the join is filtering after it, for INNER and LEFT joins. */
  lemma {:induction false} FilterFlat(p: Parts -> bool, ls: seq<Parts>, rights: seq<Row>, on: Parts -> bool, kind: Kind)
    requires Blind(p, ls)
    ensures Filter(p, Flat(ls, rights, on, kind)) == Flat(Filter(p, ls), rights, on, kind)
    decreases |ls|
  {
    hide Flat, Filter, Extend, Blind;
    if ls == [] {
      NoRows(p, rights, on, kind);
    } else {
      var n := |ls| - 1;
      var l := ls[n];
      BlindParts(p, ls);
      FlatStep(ls, rights, on, kind);
      FilterStep(p, ls);
      FilterFlat(p, ls[..n], rights, on, kind);
      FilterExtend(p, l, rights, on, kind);
      FilterConcat(p, Flat(ls[..n], rights, on, kind), Extend(l, rights, on, kind));
      FlatOne(l, rights, on, kind);
      FlatConcat(Filter(p, ls[..n]), [l], rights, on, kind);
      assert Filter(p, ls[..n]) + [] == Filter(p, ls[..n]);
    }
  }

  lemma NoRows(p: Parts -> bool, rights: seq<Row>, on: Parts -> bool, kind: Kind)
    ensures Filter(p, []) == [] && Flat([], rights, on, kind) == []
  {
  }

  lemma BlindParts(p: Parts -> bool, ls: seq<Parts>)
    requires Blind(p, ls) && ls != []
    ensures Blind(p, ls[..|ls| - 1]) && Blind(p, [ls[|ls| - 1]])
  {
    forall l, x: Option<Row> | l in ls[..|ls| - 1] || l in [ls[|ls| - 1]]
      ensures p(l + [x]) == p(l)
    {
      assert l in ls;
    }
  }

  lemma FlatStep(ls: seq<Parts>, rights: seq<Row>, on: Parts -> bool, kind: Kind)
    requires ls != []
    ensures Flat(ls, rights, on, kind) == Flat(ls[..|ls| - 1], rights, on, kind) +
      Extend(ls[|ls| - 1], rights, on, kind)
  {
  }

  lemma FilterStep(p: Parts -> bool, ls: seq<Parts>)
    requires ls != []
    ensures Filter(p, ls) == Filter(p, ls[..|ls| - 1]) + if p(ls[|ls| - 1]) then [ls[|ls| - 1]] else []
  {
  }

  lemma FlatOne(l: Parts, rights: seq<Row>, on: Parts -> bool, kind: Kind)
    ensures Flat([l], rights, on, kind) == Extend(l, rights, on, kind)
  {
    hide Extend;
    assert [l][..0] == [];
  }

  // ---- the nested loop, row by row --------------------------------------------------------

  lemma {:induction false} MatchesOfRow(inp: Input, i: nat, m: nat)
    requires i < |inp.lefts| && m <= |inp.rights|
    ensures Joined(inp, RowPairs(inp, i, m)) == RowMatches(inp.lefts[i], inp.rights[..m], inp.on)
    decreases m
  {
    if m > 0 {
      MatchesOfRow(inp, i, m - 1);
      assert inp.rights[..m][..m - 1] == inp.rights[..m - 1];
      var more := if inp.Match(i, m - 1) then [(i, m - 1)] else [];
      assert Joined(inp, [(i, m - 1)]) == [inp.Pair(i, m - 1)];
      JoinedConcat(inp, RowPairs(inp, i, m - 1), more);
    }
  }

  lemma {:induction false} MatchedIffMatches(inp: Input, i: nat, m: nat)
    requires i < |inp.lefts| && m <= |inp.rights|
    ensures RowPairs(inp, i, m) != [] <==> exists j :: 0 <= j < m && inp.Match(i, j)
    decreases m
  {
    if m > 0 {
      MatchedIffMatches(inp, i, m - 1);
    }
  }

  lemma ExtendOfRow(inp: Input, i: nat, kind: Kind)
    requires i < |inp.lefts|
    ensures Extend(inp.lefts[i], inp.rights, inp.on, kind) ==
            Joined(inp, RowPairs(inp, i, |inp.rights|)) +
            if kind.LeftOuter? && !inp.LeftMatched(i) then [inp.lefts[i] + [None]] else []
  {
    MatchesOfRow(inp, i, |inp.rights|);
    MatchedIffMatches(inp, i, |inp.rights|);
    assert inp.rights[..|inp.rights|] == inp.rights;
  }

  lemma {:induction false} NestedUpTo(inp: Input, kind: Kind, n: nat)
    requires n <= |inp.lefts|
    ensures multiset(Joined(inp, PairsByRow(inp, n))) + multiset(if kind.LeftOuter? then LoneLefts(inp, n) else []) ==
            multiset(Flat(inp.lefts[..n], inp.rights, inp.on, kind))
    decreases n
  {
    hide *;
    if n == 0 {
      NothingJoined(inp, kind);
    } else {
      var m := n - 1;
      NestedUpTo(inp, kind, m);
      ExtendOfRow(inp, m, kind);
      assert inp.lefts[..n][..m] == inp.lefts[..m] && inp.lefts[..n][m] == inp.lefts[m];
      FlatStep(inp.lefts[..n], inp.rights, inp.on, kind);
      PairsByRowStep(inp, n);
      JoinedConcat(inp, PairsByRow(inp, m), RowPairs(inp, m, |inp.rights|));
      Regroup(Joined(inp, PairsByRow(inp, m)), Joined(inp, RowPairs(inp, m, |inp.rights|)),
              if kind.LeftOuter? then LoneLefts(inp, m) else [],
              if kind.LeftOuter? && !inp.LeftMatched(m) then [inp.lefts[m] + [None]] else [],
              Flat(inp.lefts[..m], inp.rights, inp.on, kind));
      LonesStep(inp, kind, n);
    }
  }

  lemma PairsByRowStep(inp: Input, n: nat)
    requires 0 < n <= |inp.lefts|
    ensures PairsByRow(inp, n) == PairsByRow(inp, n - 1) + RowPairs(inp, n - 1, |inp.rights|)
  {
    hide RowPairs;
  }

  lemma LonesStep(inp: Input, kind: Kind, n: nat)
    requires 0 < n <= |inp.lefts|
    ensures (if kind.LeftOuter? then LoneLefts(inp, n) else []) ==
            (if kind.LeftOuter? then LoneLefts(inp, n - 1) else []) +
            (if kind.LeftOuter? && !inp.LeftMatched(n - 1) then [inp.lefts[n - 1] + [None]] else [])
  {
  }

  lemma NothingJoined(inp: Input, kind: Kind)
    ensures PairsByRow(inp, 0) == [] && Joined(inp, []) == [] && LoneLefts(inp, 0) == []
    ensures inp.lefts[..0] == [] && Flat([], inp.rights, inp.on, kind) == []
  {
  }

  lemma Regroup<T>(a: seq<T>, b: seq<T>, c: seq<T>, d: seq<T>, e: seq<T>)
    requires multiset(a) + multiset(c) == multiset(e)
    ensures multiset(a + b) + multiset(c + d) == multiset(e + (b + d))
  {
  }

  /** A join, whichever way it runs, has the rows that the left rows extend to. */
  lemma NestedIsFlat(inp: Input, kind: Kind)
    requires kind.Inner? || kind.LeftOuter?
    ensures multiset(NestedLoop(inp, kind)) == multiset(Flat(inp.lefts, inp.rights, inp.on, kind))
  {
    hide Flat, Joined, PairsByRow, LoneLefts, LoneRights;
    NestedUpTo(inp, kind, |inp.lefts|);
    assert inp.lefts[..|inp.lefts|] == inp.lefts;
    var lone := if kind.LeftOuter? then LoneLefts(inp, |inp.lefts|) else [];
    assert Outer(inp, kind) == lone + [];
    assert lone + [] == lone;
  }

  // ---- the meaning of a query ---------------------------------------------------------------

  /** The base table's rows as contexts */
  function Singles(rows: seq<Row>): (r: seq<Parts>)
    ensures |r| == |rows| && forall i :: 0 <= i < |rows| ==> r[i] == [Some(rows[i])]
  {
    if rows == [] then [] else Singles(rows[..|rows| - 1]) + [[Some(rows[|rows| - 1])]]
  }

  /** `fn(parts) is True` */
  function Test(c: Expr, scope: Scope): Parts -> bool {
    (parts: Parts) => Keeps(c, parts, scope)
  }

  function RaiseTest(c: Expr, scope: Scope): Parts -> bool {
    (parts: Parts) => Raises(c, parts, scope)
  }

  /** The conjuncts of WHERE */
  function Conjuncts(q: Query): seq<Expr> {
    if q.where'.None? then [] else FlattenAnd(q.where'.value)
  }

  function InputOf(q: Query, s: nat, lefts: seq<Parts>): Input
    requires s < |q.joins|
  {
    Input(lefts, q.joins[s].rows, Test(q.joins[s].on, ScopeAt(q, s + 1)), s + 1)
  }

  /** Joining the first s tables with nested loops, without looking at WHERE. */
  function Naive(q: Query, s: nat): seq<Parts>
    requires s <= |q.joins|
  {
    if s == 0 then Singles(q.rows) else NestedLoop(InputOf(q, s - 1, Naive(q, s - 1)), q.joins[s - 1].kind)
  }

  /** The rows a query is supposed to have: everything joined, then the whole WHERE. */
  function Meaning(q: Query): seq<Parts> {
    var all := Naive(q, |q.joins|);
    if q.where'.None? then all else Filter(Test(q.where'.value, FullScope(q)), all)
  }

  /** Joining every pair with the nested loop, an ON condition does not compile or raises. */
  ghost predicate PlainJoinRaises(q: Query, s: nat)
    requires s < |q.joins|
  {
    var c, scope := q.joins[s], ScopeAt(q, s + 1);
    || Compile(c.on, scope).None?
    || exists l, r :: l in Naive(q, s) && r in c.rows && Raises(c.on, l + [Some(r)], scope)
  }

  /** Joining everything and then filtering by the whole WHERE raises an exception. */
  ghost predicate PlainRaises(q: Query) {
    || (exists s :: 0 <= s < |q.joins| && PlainJoinRaises(q, s))
    || (q.where'.Some? && PlainWhereRaises(q, q.where'.value))
  }

  ghost predicate PlainWhereRaises(q: Query, e: Expr) {
    || Compile(e, FullScope(q)).None?
    || exists l :: l in Naive(q, |q.joins|) && Raises(e, l, FullScope(q))
  }

  /** The unoptimised run; None is an exception. */
  ghost function Plain(q: Query): Option<seq<Parts>> {
    if PlainRaises(q) then None else Some(Meaning(q))
  }

  /** Both raise, or both have the same rows up to order. */
  ghost predicate SameOutcome(a: Option<seq<Parts>>, b: Option<seq<Parts>>) {
    a.Some? == b.Some? && (a.Some? ==> multiset(a.value) == multiset(b.value))
  }

  ghost predicate Wide(ls: seq<Parts>, n: nat) {
    forall l :: l in ls ==> |l| == n
  }

  /** The conditions of the query have no LIKE and no division. */
  ghost predicate InModel(q: Query) {
    && (q.where'.Some? ==> Covered(q.where'.value))
    && forall c :: c in q.joins ==> Covered(c.on)
  }

  ghost predicate InnerOrLeft(q: Query) {
    forall c :: c in q.joins ==> c.kind.Inner? || c.kind.LeftOuter?
  }

  lemma {:induction false} MatchesWide(l: Parts, rights: seq<Row>, on: Parts -> bool)
    ensures Wide(RowMatches(l, rights, on), |l| + 1)
    decreases |rights|
  {
    if rights != [] {
      MatchesWide(l, rights[..|rights| - 1], on);
    }
  }

  lemma {:induction false} FlatWide(ls: seq<Parts>, rights: seq<Row>, on: Parts -> bool, kind: Kind, n: nat)
    requires Wide(ls, n)
    ensures Wide(Flat(ls, rights, on, kind), n + 1)
    decreases |ls|
  {
    hide Flat, Extend;
    if ls == [] {
      NoRows((l: Parts) => true, rights, on, kind);
    } else {
      var m := |ls| - 1;
      assert forall l :: l in ls[..m] ==> l in ls;
      assert ls[m] in ls;
      FlatStep(ls, rights, on, kind);
      FlatWide(ls[..m], rights, on, kind, n);
      ExtendWide(ls[m], rights, on, kind);
    }
  }

  lemma ExtendWide(l: Parts, rights: seq<Row>, on: Parts -> bool, kind: Kind)
    ensures Wide(Extend(l, rights, on, kind), |l| + 1)
  {
    MatchesWide(l, rights, on);
  }

  lemma WidePermutes(a: seq<Parts>, b: seq<Parts>, n: nat)
    requires multiset(a) == multiset(b) && Wide(a, n)
    ensures Wide(b, n)
  {
    forall l | l in b
      ensures |l| == n
    {
      assert l in multiset(b);
    }
  }

  // ---- the pipeline ---------------------------------------------------------------------------

  /** A conjunct at the stage it is assigned to. */
  predicate Passes(c: Expr, full: Scope, parts: Parts)
    requires full != []
  {
    var m := StageOf(c, full) + 1;
    m <= |parts| && Keeps(c, parts[..m], full[..m])
  }

  /** All conjuncts that are due by stage s. */
  ghost predicate PassesUpTo(cs: seq<Expr>, full: Scope, s: nat, parts: Parts)
    requires full != []
  {
    forall c :: c in cs && StageOf(c, full) <= s ==> Passes(c, full, parts)
  }

  /** Those due at stage s. */
  ghost predicate PassesAt(cs: seq<Expr>, full: Scope, s: nat, parts: Parts)
    requires full != []
  {
    forall c :: c in cs && StageOf(c, full) == s ==> Passes(c, full, parts)
  }

  ghost function UpTo(cs: seq<Expr>, full: Scope, s: nat): Parts -> bool
    requires full != []
  {
    (parts: Parts) => PassesUpTo(cs, full, s, parts)
  }

  ghost function At(cs: seq<Expr>, full: Scope, s: nat): Parts -> bool
    requires full != []
  {
    (parts: Parts) => PassesAt(cs, full, s, parts)
  }

  /** Conjuncts due by stage s do not look at later parts. */
  lemma UpToIsBlind(cs: seq<Expr>, full: Scope, s: nat, ls: seq<Parts>)
    requires full != [] && Wide(ls, s + 1)
    ensures Blind(UpTo(cs, full, s), ls)
  {
    forall l, x: Option<Row> | l in ls
      ensures UpTo(cs, full, s)(l + [x]) == UpTo(cs, full, s)(l)
    {
      forall c | c in cs && StageOf(c, full) <= s
        ensures Passes(c, full, l + [x]) == Passes(c, full, l)
      {
        var m := StageOf(c, full) + 1;
        assert (l + [x])[..m] == l[..m];
      }
      hide Passes, StageOf;
    }
  }

  lemma {:induction false} FilterTwice(p: Parts -> bool, r: Parts -> bool, both: Parts -> bool, ls: seq<Parts>)
    requires forall l :: l in ls ==> (both(l) <==> p(l) && r(l))
    ensures Filter(r, Filter(p, ls)) == Filter(both, ls)
    decreases |ls|
  {
    hide Filter;
    if ls == [] {
      NoneKept(p);
      NoneKept(r);
      NoneKept(both);
    } else {
      var n := |ls| - 1;
      assert ls[n] in ls && forall l :: l in ls[..n] ==> l in ls;
      FilterTwice(p, r, both, ls[..n]);
      FilterStep(p, ls);
      FilterStep(both, ls);
      FilterOne(r, ls[n]);
      FilterConcat(r, Filter(p, ls[..n]), [ls[n]]);
      assert Filter(p, ls[..n]) + [] == Filter(p, ls[..n]) && Filter(both, ls[..n]) + [] == Filter(both, ls[..n]);
    }
  }

  lemma NoneKept(p: Parts -> bool)
    ensures Filter(p, []) == []
  {
  }

  lemma {:induction false} FilterSame(p: Parts -> bool, r: Parts -> bool, ls: seq<Parts>)
    requires forall l :: l in ls ==> p(l) == r(l)
    ensures Filter(p, ls) == Filter(r, ls)
    decreases |ls|
  {
    hide Filter;
    if ls == [] {
      NoneKept(p);
      NoneKept(r);
    } else {
      var n := |ls| - 1;
      assert ls[n] in ls && forall l :: l in ls[..n] ==> l in ls;
      FilterSame(p, r, ls[..n]);
      FilterStep(p, ls);
      FilterStep(r, ls);
    }
  }

  /** One filter loop; None is an exception. */
  method FilterLoop(c: Expr, scope: Scope, ls: seq<Parts>) returns (r: Option<seq<Parts>>)
    requires Compile(c, scope).Some?
    ensures r.None? <==> exists l :: l in ls && Raises(c, l, scope)
    ensures r.Some? ==> r.value == Filter(Test(c, scope), ls)
  {
    hide Compile;
    var f := Compile(c, scope).value;
    var kept := [];
    for i := 0 to |ls|
      invariant kept == Filter(Test(c, scope), ls[..i])
      invariant forall k :: 0 <= k < i ==> !Raises(c, ls[k], scope)
    {
      assert ls[..i + 1][..i] == ls[..i];
      var o := f(ls[i]);
      if o == Fail {
        assert ls[i] in ls && Raises(c, ls[i], scope);
        return None;
      }
      if o == Val(Bool(true)) {
        kept := kept + [ls[i]];
      }
    }
    assert ls[..|ls|] == ls;
    return Some(kept);
  }

  /** A conjunct at its own stage sees exactly the parts that are there. */
  lemma AtItsStage(q: Query, c: Expr, s: nat, l: Parts)
    requires s <= |q.joins| && StageOf(c, FullScope(q)) == s && |l| == s + 1
    ensures Passes(c, FullScope(q), l) <==> Keeps(c, l, ScopeAt(q, s))
  {
    hide ScopeAt, StageOf, Keeps;
    ScopePrefix(q, s, |q.joins|);
    assert l[..s + 1] == l;
  }

  lemma OneMoreConjunct(q: Query, cs: seq<Expr>, i: nat, s: nat, ls: seq<Parts>)
    requires s <= |q.joins| && i < |cs| && Wide(ls, s + 1)
    ensures var full := FullScope(q);
      forall l :: l in ls ==>
        (At(cs[..i + 1], full, s)(l) <==>
         At(cs[..i], full, s)(l) && (StageOf(cs[i], full) != s || Test(cs[i], ScopeAt(q, s))(l)))
  {
    var full := FullScope(q);
    assert cs[..i + 1] == cs[..i] + [cs[i]];
    forall l | l in ls
      ensures At(cs[..i + 1], full, s)(l) <==>
              At(cs[..i], full, s)(l) && (StageOf(cs[i], full) != s || Test(cs[i], ScopeAt(q, s))(l))
    {
      if StageOf(cs[i], full) == s {
        AtItsStage(q, cs[i], s, l);
      }
      hide Passes, Keeps, StageOf, ScopeAt;
    }
  }

  /** Conjunct i is due at stage s, and does not compile or raises on one of the rows that
      the conjuncts before it at this stage have left of ls. */
  ghost predicate ConjunctRaises(q: Query, cs: seq<Expr>, s: nat, ls: seq<Parts>, i: nat)
    requires s <= |q.joins| && i < |cs|
  {
    && StageOf(cs[i], FullScope(q)) == s
    && (|| Compile(cs[i], ScopeAt(q, s)).None?
        || exists l :: l in ls && At(cs[..i], FullScope(q), s)(l) && Raises(cs[i], l, ScopeAt(q, s)))
  }

  /** `apply_stage`: the stage's conjuncts, one filter after the other; None is an
      exception. */
  method ApplyStage(q: Query, cs: seq<Expr>, s: nat, ls: seq<Parts>) returns (r: Option<seq<Parts>>)
    requires s <= |q.joins| && Wide(ls, s + 1)
    ensures r.None? <==> exists i :: 0 <= i < |cs| && ConjunctRaises(q, cs, s, ls, i)
    ensures r.Some? ==> r.value == Filter(At(cs, FullScope(q), s), ls)
  {
    hide Filter, StageOf, ScopeAt, Wide, At, Test, ConjunctRaises;
    ghost var full := FullScope(q);
    var left := ls;
    NothingDue(cs, full, s);
    AllKept(At(cs[..0], full, s), ls);
    for i := 0 to |cs|
      invariant left == Filter(At(cs[..i], full, s), ls)
      invariant forall k :: 0 <= k < i ==> !ConjunctRaises(q, cs, s, ls, k)
    {
      OneMoreConjunct(q, cs, i, s, ls);
      ConjunctRaisesIs(q, cs, s, ls, i);
      if StageOf(cs[i], FullScope(q)) == s {
        if Compile(cs[i], ScopeAt(q, s)).None? {
          return None;
        }
        FilterTwice(At(cs[..i], full, s), Test(cs[i], ScopeAt(q, s)), At(cs[..i + 1], full, s), ls);
        var kept := FilterLoop(cs[i], ScopeAt(q, s), left);
        if kept.None? {
          return None;
        }
        left := kept.value;
      } else {
        FilterSame(At(cs[..i], full, s), At(cs[..i + 1], full, s), ls);
      }
    }
    assert cs[..|cs|] == cs;
    return Some(left);
  }

  lemma {:induction false} FilterHolds(p: Parts -> bool, ls: seq<Parts>, l: Parts)
    ensures l in Filter(p, ls) <==> l in ls && p(l)
    decreases |ls|
  {
    if ls != [] {
      var n := |ls| - 1;
      FilterHolds(p, ls[..n], l);
      assert ls == ls[..n] + [ls[n]];
    }
  }

  lemma ConjunctRaisesIs(q: Query, cs: seq<Expr>, s: nat, ls: seq<Parts>, i: nat)
    requires s <= |q.joins| && i < |cs|
    ensures ConjunctRaises(q, cs, s, ls, i) <==>
      StageOf(cs[i], FullScope(q)) == s &&
      (Compile(cs[i], ScopeAt(q, s)).None? ||
       exists l :: l in Filter(At(cs[..i], FullScope(q), s), ls) && Raises(cs[i], l, ScopeAt(q, s)))
  {
    hide Filter, At, Raises, StageOf, ScopeAt, Compile;
    forall l
      ensures l in Filter(At(cs[..i], FullScope(q), s), ls) <==> l in ls && At(cs[..i], FullScope(q), s)(l)
    {
      FilterHolds(At(cs[..i], FullScope(q), s), ls, l);
    }
  }

  lemma NothingDue(cs: seq<Expr>, full: Scope, s: nat)
    requires full != []
    ensures forall l :: At(cs[..0], full, s)(l)
  {
  }

  lemma {:induction false} AllKept(p: Parts -> bool, ls: seq<Parts>)
    requires forall l :: p(l)
    ensures Filter(p, ls) == ls
    decreases |ls|
  {
    if ls != [] {
      AllKept(p, ls[..|ls| - 1]);
    }
  }

  /** The join columns as functions of the rows. */
  function Columns(acc: Expr, fresh': Expr, known: Scope, right: Source): Equi
    requires acc.Col? && fresh'.Col? && fresh'.name in right.cols
  {
    var slot, j := Resolve(known + [right], acc.table, acc.name), IndexOf(right.cols, fresh'.name);
    Equi((l: Parts) => var x := if slot.None? then Fail else ReadCol(l, slot.value.0, slot.value.1);
                       if x.Val? then x.v else Null,
         (r: Row) => if j < |r| then r[j] else Null)
  }

  /** The planner's equality, if there is one it can use. */
  function EquiFor(q: Query, s: nat): Option<Equi>
    requires s < |q.joins|
  {
    var known, right := ScopeAt(q, s), q.joins[s].source;
    match FindJoinEqui(FlattenAnd(q.joins[s].on), known, right)
    case None => None
    case Some((acc, fresh')) =>
      if acc.Col? && fresh'.Col? && fresh'.name in right.cols then Some(Columns(acc, fresh', known, right)) else None
  }

  lemma EquiForIsForced(q: Query, s: nat, ls: seq<Parts>)
    requires s < |q.joins| && Wide(ls, s + 1) && Distinct(ScopeAt(q, s + 1))
    ensures EquiFor(q, s).Some? ==> Forced(InputOf(q, s, ls), EquiFor(q, s).value)
  {
    if EquiFor(q, s).Some? {
      var known, right, on := ScopeAt(q, s), q.joins[s].source, q.joins[s].on;
      var inp, eq := InputOf(q, s, ls), EquiFor(q, s).value;
      var (acc, fresh') := FindJoinEqui(FlattenAnd(on), known, right).value;
      assert eq == Columns(acc, fresh', known, right);
      forall i, j | 0 <= i < |inp.lefts| && 0 <= j < |inp.rights| && inp.Match(i, j)
        ensures var a, b := eq.acc(inp.lefts[i]), eq.fresh'(inp.rights[j]);
          a != Null && b != Null && KeyOf(a) == KeyOf(b)
      {
        assert ls[i] in ls;
        EquiForced(on, known, right, ls[i], inp.rights[j]);
      }
    }
  }

  // ---- one stage after the other ------------------------------------------------------------------

  /** The contexts after s joins are, up to order, the naively joined rows that pass the
      conjuncts that are due. */
  ghost predicate OnCourse(q: Query, cs: seq<Expr>, s: nat, ls: seq<Parts>)
    requires s <= |q.joins|
  {
    && Wide(ls, s + 1) && Wide(Naive(q, s), s + 1)
    && multiset(ls) == multiset(Filter(UpTo(cs, FullScope(q), s), Naive(q, s)))
  }

  lemma StartOnCourse(q: Query, cs: seq<Expr>)
    ensures Wide(Singles(q.rows), 1)
    ensures OnCourse(q, cs, 0, Filter(At(cs, FullScope(q), 0), Singles(q.rows)))
  {
    var full, ls := FullScope(q), Singles(q.rows);
    forall l | l in ls
      ensures At(cs, full, 0)(l) == UpTo(cs, full, 0)(l)
    {
    }
    FilterSame(At(cs, full, 0), UpTo(cs, full, 0), ls);
    hide Filter, At, UpTo, Singles;
    forall l | l in ls
      ensures |l| == 1
    {
      var i :| 0 <= i < |ls| && ls[i] == l;
    }
  }

  lemma UpToNext(cs: seq<Expr>, full: Scope, s: nat, ls: seq<Parts>)
    requires full != []
    ensures forall l :: l in ls ==> (UpTo(cs, full, s + 1)(l) <==> UpTo(cs, full, s)(l) && At(cs, full, s + 1)(l))
  {
    hide Passes, StageOf;
  }

  /** Joining what has been filtered: the same rows, up to order, as filtering what has
      been joined. */
  lemma JoinedOnCourse(q: Query, cs: seq<Expr>, s: nat, ls: seq<Parts>, out: seq<Parts>)
    requires s < |q.joins| && OnCourse(q, cs, s, ls)
    requires q.joins[s].kind.Inner? || q.joins[s].kind.LeftOuter?
    requires multiset(out) == multiset(NestedLoop(InputOf(q, s, ls), q.joins[s].kind))
    ensures Wide(out, s + 2) && Wide(Naive(q, s + 1), s + 2)
    ensures multiset(out) == multiset(Filter(UpTo(cs, FullScope(q), s), Naive(q, s + 1)))
  {
    var p, c := UpTo(cs, FullScope(q), s), q.joins[s];
    var on, naive := Test(c.on, ScopeAt(q, s + 1)), Naive(q, s);
    var next := Naive(q, s + 1);
    assert next == NestedLoop(InputOf(q, s, naive), c.kind);
    hide Filter, Flat, UpTo, Test, NestedLoop, Naive, ScopeAt, Blind, Wide;
    NestedIsFlat(InputOf(q, s, ls), c.kind);
    NestedIsFlat(InputOf(q, s, naive), c.kind);
    FlatPermutes(ls, Filter(p, naive), c.rows, on, c.kind);
    UpToIsBlind(cs, FullScope(q), s, naive);
    FilterFlat(p, naive, c.rows, on, c.kind);
    FilterPermutes(p, Flat(naive, c.rows, on, c.kind), next);
    FlatWide(naive, c.rows, on, c.kind, s + 1);
    FlatWide(ls, c.rows, on, c.kind, s + 1);
    WidePermutes(Flat(naive, c.rows, on, c.kind), next, s + 2);
    WidePermutes(Flat(ls, c.rows, on, c.kind), out, s + 2);
  }

  lemma FilteredOnCourse(q: Query, cs: seq<Expr>, s: nat, out: seq<Parts>)
    requires s < |q.joins| && Wide(out, s + 2) && Wide(Naive(q, s + 1), s + 2)
    requires multiset(out) == multiset(Filter(UpTo(cs, FullScope(q), s), Naive(q, s + 1)))
    ensures OnCourse(q, cs, s + 1, Filter(At(cs, FullScope(q), s + 1), out))
  {
    var full, next := FullScope(q), Naive(q, s + 1);
    var p, r := UpTo(cs, full, s), At(cs, full, s + 1);
    hide Filter, UpTo, At, Naive, ScopeAt;
    FilterPermutes(r, out, Filter(p, next));
    UpToNext(cs, full, s, next);
    FilterTwice(p, r, UpTo(cs, full, s + 1), next);
  }

  /** All conjuncts at their stages are the whole WHERE at the end. */
  lemma AllStages(q: Query, ls: seq<Parts>)
    requires q.where'.Some? && Wide(ls, |q.joins| + 1)
    requires forall c :: c in FlattenAnd(q.where'.value) ==> BooleanValued(c)
    ensures var full := FullScope(q);
      Filter(UpTo(FlattenAnd(q.where'.value), full, |q.joins|), ls) == Filter(Test(q.where'.value, full), ls)
  {
    var e, full := q.where'.value, FullScope(q);
    var cs := FlattenAnd(e);
    forall l | l in ls
      ensures UpTo(cs, full, |q.joins|)(l) == Test(e, full)(l)
    {
      assert l[..|full|] == l;
      forall c | c in cs
        ensures Passes(c, full, l) <==> Keeps(c, l, full)
      {
        StageIsEnough(c, full, l);
      }
      WhereIsConjuncts(e, l, full);
      hide Passes, Keeps, FlattenAnd, StageOf;
    }
    hide UpTo, Test;
    FilterSame(UpTo(cs, full, |q.joins|), Test(e, full), ls);
  }

  lemma WhereIsConjuncts(e: Expr, parts: Parts, scope: Scope)
    requires forall c :: c in FlattenAnd(e) ==> BooleanValued(c)
    ensures Keeps(e, parts, scope) <==> AllKeep(FlattenAnd(e), parts, scope)
  {
    CompileConjuncts(e, scope);
    if Compile(e, scope).Some? {
      BooleanWhere(e, parts, scope);
    }
    hide FlattenAnd, Compile;
  }

  lemma {:induction false} CompileConjuncts(e: Expr, scope: Scope)
    ensures Compile(e, scope).Some? <==> forall c :: c in FlattenAnd(e) ==> Compile(c, scope).Some?
    decreases e
  {
    if e.Bin? && e.op.AndOp? {
      CompileConjuncts(e.left, scope);
      CompileConjuncts(e.right, scope);
    } else {
      assert FlattenAnd(e) == [e];
    }
  }

  lemma {:induction false} DistinctPrefix(q: Query, s: nat)
    requires s <= |q.joins| && Distinct(FullScope(q))
    ensures Distinct(ScopeAt(q, s))
  {
    ScopePrefix(q, s, |q.joins|);
  }

  // ---- where the planned run raises ------------------------------------------------------------------

  /** The row has passed the conjuncts of earlier stages and those before conjunct i at
      stage s. */
  ghost predicate Reaches(cs: seq<Expr>, full: Scope, s: nat, i: nat, l: Parts)
    requires full != [] && i <= |cs|
  {
    forall k :: 0 <= k < |cs| && (StageOf(cs[k], full) < s || (StageOf(cs[k], full) == s && k < i)) ==>
      Passes(cs[k], full, l)
  }

  /** Conjunct i, at its stage s, does not compile or raises on a row that reaches it. */
  ghost predicate FilterRaises(q: Query, cs: seq<Expr>, s: nat, i: nat)
    requires s <= |q.joins| && i < |cs|
  {
    && StageOf(cs[i], FullScope(q)) == s
    && (|| Compile(cs[i], ScopeAt(q, s)).None?
        || exists l :: l in Naive(q, s) && Reaches(cs, FullScope(q), s, i, l) && Raises(cs[i], l, ScopeAt(q, s)))
  }

  /** The ON condition of join s does not compile, or raises on a row that reaches the join
      and a row of the new table that it is paired with. */
  ghost predicate OnRaises(q: Query, cs: seq<Expr>, s: nat)
    requires s < |q.joins|
  {
    var c, scope := q.joins[s], ScopeAt(q, s + 1);
    || Compile(c.on, scope).None?
    || exists l, r :: l in Naive(q, s) && Reaches(cs, FullScope(q), s, |cs|, l) && r in c.rows &&
         Meets(EquiFor(q, s), l, r) && Raises(c.on, l + [Some(r)], scope)
  }

  ghost predicate StageRaises(q: Query, cs: seq<Expr>, s: nat)
    requires s <= |q.joins|
  {
    exists i :: 0 <= i < |cs| && FilterRaises(q, cs, s, i)
  }

  /** The planned run evaluates a condition that raises. */
  ghost predicate PlanRaises(q: Query) {
    || (exists s :: 0 <= s <= |q.joins| && StageRaises(q, Conjuncts(q), s))
    || (exists s :: 0 <= s < |q.joins| && OnRaises(q, Conjuncts(q), s))
  }

  /** Nothing has been raised up to the filters of stage s. */
  ghost predicate Quiet(q: Query, cs: seq<Expr>, s: nat)
    requires s <= |q.joins|
  {
    && (forall x :: 0 <= x <= s ==> !StageRaises(q, cs, x))
    && (forall x :: 0 <= x < s ==> !OnRaises(q, cs, x))
  }

  lemma ReachesIs(cs: seq<Expr>, full: Scope, s: nat, i: nat, l: Parts)
    requires full != [] && i <= |cs|
    ensures Reaches(cs, full, s, i, l) <==> (s > 0 ==> UpTo(cs, full, s - 1)(l)) && At(cs[..i], full, s)(l)
  {
    hide Passes, StageOf;
    if Reaches(cs, full, s, i, l) {
      forall c | c in cs[..i] && StageOf(c, full) == s
        ensures Passes(c, full, l)
      {
        var k :| 0 <= k < i && cs[..i][k] == c;
        assert cs[k] == c;
      }
      forall c | c in cs && StageOf(c, full) < s
        ensures Passes(c, full, l)
      {
        var k :| 0 <= k < |cs| && cs[k] == c;
      }
    }
    if (s > 0 ==> UpTo(cs, full, s - 1)(l)) && At(cs[..i], full, s)(l) {
      forall k | 0 <= k < |cs| && (StageOf(cs[k], full) < s || (StageOf(cs[k], full) == s && k < i))
        ensures Passes(cs[k], full, l)
      {
        if StageOf(cs[k], full) == s {
          assert cs[..i][k] == cs[k];
        }
        assert cs[k] in cs;
      }
    }
  }

  lemma ReachesAll(cs: seq<Expr>, full: Scope, s: nat, l: Parts)
    requires full != []
    ensures Reaches(cs, full, s, |cs|, l) <==> UpTo(cs, full, s)(l)
  {
    hide Passes, StageOf;
    if Reaches(cs, full, s, |cs|, l) {
      forall c | c in cs && StageOf(c, full) <= s
        ensures Passes(c, full, l)
      {
        var k :| 0 <= k < |cs| && cs[k] == c;
      }
    }
    if UpTo(cs, full, s)(l) {
      forall k | 0 <= k < |cs| && StageOf(cs[k], full) <= s
        ensures Passes(cs[k], full, l)
      {
        assert cs[k] in cs;
      }
    }
  }

  /** The rows that enter stage s: the naively joined ones that have passed the stages
      before it. */
  ghost predicate Entering(q: Query, cs: seq<Expr>, s: nat, ls: seq<Parts>)
    requires s <= |q.joins|
  {
    multiset(ls) == multiset(if s == 0 then Naive(q, 0) else Filter(UpTo(cs, FullScope(q), s - 1), Naive(q, s)))
  }

  lemma EntersIs(q: Query, cs: seq<Expr>, s: nat, ls: seq<Parts>, l: Parts)
    requires s <= |q.joins| && Entering(q, cs, s, ls)
    ensures l in ls <==> l in Naive(q, s) && (s > 0 ==> UpTo(cs, FullScope(q), s - 1)(l))
  {
    hide Filter, UpTo, Naive;
    assert l in ls <==> l in multiset(ls);
    if s > 0 {
      var p := UpTo(cs, FullScope(q), s - 1);
      FilterHolds(p, Naive(q, s), l);
      assert l in Filter(p, Naive(q, s)) <==> l in multiset(Filter(p, Naive(q, s)));
    } else {
      assert l in Naive(q, 0) <==> l in multiset(Naive(q, 0));
    }
  }

  /** Which filter raises depends on the rows, not on their order. */
  lemma StageRaisesIs(q: Query, cs: seq<Expr>, s: nat, ls: seq<Parts>)
    requires s <= |q.joins| && Entering(q, cs, s, ls)
    ensures StageRaises(q, cs, s) <==> exists i :: 0 <= i < |cs| && ConjunctRaises(q, cs, s, ls, i)
  {
    hide StageOf, Compile, Raises, ScopeAt, Naive, At, UpTo, Reaches, Entering;
    forall i | 0 <= i < |cs|
      ensures FilterRaises(q, cs, s, i) <==> ConjunctRaises(q, cs, s, ls, i)
    {
      var full := FullScope(q);
      forall l
        ensures l in ls && At(cs[..i], full, s)(l) <==> l in Naive(q, s) && Reaches(cs, full, s, i, l)
      {
        EntersIs(q, cs, s, ls, l);
        ReachesIs(cs, full, s, i, l);
      }
    }
    hide FilterRaises, ConjunctRaises;
  }

  lemma OnCourseHolds(q: Query, cs: seq<Expr>, s: nat, ls: seq<Parts>, l: Parts)
    requires s <= |q.joins| && OnCourse(q, cs, s, ls)
    ensures l in ls <==> l in Naive(q, s) && Reaches(cs, FullScope(q), s, |cs|, l)
  {
    var p, naive := UpTo(cs, FullScope(q), s), Naive(q, s);
    hide Filter, UpTo, Naive, Reaches;
    FilterHolds(p, naive, l);
    ReachesAll(cs, FullScope(q), s, l);
    assert l in ls <==> l in multiset(ls);
    assert l in Filter(p, naive) <==> l in multiset(Filter(p, naive));
  }

  /** Which pair raises depends on the rows, not on their positions. */
  lemma JoinRaisesIs(inp: Input, raises: Parts -> bool, equi: Option<Equi>)
    ensures JoinRaises(inp, raises, equi) <==>
      exists l, r :: l in inp.lefts && r in inp.rights && Meets(equi, l, r) && raises(l + [Some(r)])
  {
    hide Meets;
    if l, r :| l in inp.lefts && r in inp.rights && Meets(equi, l, r) && raises(l + [Some(r)]) {
      var i :| 0 <= i < |inp.lefts| && inp.lefts[i] == l;
      var j :| 0 <= j < |inp.rights| && inp.rights[j] == r;
      assert Tested(inp, equi, i, j) && raises(inp.Pair(i, j));
    }
    if i, j :| 0 <= i < |inp.lefts| && 0 <= j < |inp.rights| && Tested(inp, equi, i, j) && raises(inp.Pair(i, j)) {
      assert inp.lefts[i] in inp.lefts && inp.rights[j] in inp.rights;
      assert Meets(equi, inp.lefts[i], inp.rights[j]) && raises(inp.lefts[i] + [Some(inp.rights[j])]);
    }
  }

  lemma OnRaisesUnfolded(q: Query, cs: seq<Expr>, s: nat)
    requires s < |q.joins| && Compile(q.joins[s].on, ScopeAt(q, s + 1)).Some?
    ensures var c, scope := q.joins[s], ScopeAt(q, s + 1);
      OnRaises(q, cs, s) <==>
      exists l, r :: l in Naive(q, s) && Reaches(cs, FullScope(q), s, |cs|, l) && r in c.rows &&
        Meets(EquiFor(q, s), l, r) && Raises(c.on, l + [Some(r)], scope)
  {
    hide StageOf, Compile, Raises, ScopeAt, Naive, Reaches, EquiFor, Meets;
  }

  /** A row that reaches the join, and a row of the new table, on which ON raises. */
  ghost predicate RaisingPair(q: Query, cs: seq<Expr>, s: nat, l: Parts, r: Row)
    requires s < |q.joins|
  {
    l in Naive(q, s) && Reaches(cs, FullScope(q), s, |cs|, l) && r in q.joins[s].rows &&
    Meets(EquiFor(q, s), l, r) && Raises(q.joins[s].on, l + [Some(r)], ScopeAt(q, s + 1))
  }

  lemma RaisingPairs(q: Query, cs: seq<Expr>, s: nat)
    requires s < |q.joins| && Compile(q.joins[s].on, ScopeAt(q, s + 1)).Some?
    ensures OnRaises(q, cs, s) <==> exists l, r :: RaisingPair(q, cs, s, l, r)
  {
    OnRaisesUnfolded(q, cs, s);
    hide StageOf, Compile, Raises, ScopeAt, Naive, Reaches, EquiFor, Meets, OnRaises;
    assert forall l, r :: RaisingPair(q, cs, s, l, r) <==>
      (l in Naive(q, s) && Reaches(cs, FullScope(q), s, |cs|, l) && r in q.joins[s].rows &&
       Meets(EquiFor(q, s), l, r) && Raises(q.joins[s].on, l + [Some(r)], ScopeAt(q, s + 1)));
  }

  lemma RaisingPairIs(q: Query, cs: seq<Expr>, s: nat, ls: seq<Parts>, l: Parts, r: Row)
    requires s < |q.joins| && OnCourse(q, cs, s, ls)
    ensures RaisingPair(q, cs, s, l, r) <==>
      l in ls && r in q.joins[s].rows && Meets(EquiFor(q, s), l, r) &&
      RaiseTest(q.joins[s].on, ScopeAt(q, s + 1))(l + [Some(r)])
  {
    OnCourseHolds(q, cs, s, ls, l);
    hide StageOf, Compile, Raises, ScopeAt, Naive, Reaches, EquiFor, Meets, OnCourse;
  }

  lemma OnRaisesIs(q: Query, cs: seq<Expr>, s: nat, ls: seq<Parts>)
    requires s < |q.joins| && OnCourse(q, cs, s, ls) && Compile(q.joins[s].on, ScopeAt(q, s + 1)).Some?
    ensures OnRaises(q, cs, s) <==>
            JoinRaises(InputOf(q, s, ls), RaiseTest(q.joins[s].on, ScopeAt(q, s + 1)), EquiFor(q, s))
  {
    var raises, equi, inp := RaiseTest(q.joins[s].on, ScopeAt(q, s + 1)), EquiFor(q, s), InputOf(q, s, ls);
    assert inp.lefts == ls && inp.rights == q.joins[s].rows;
    hide *;
    JoinRaisesIs(inp, raises, equi);
    RaisingPairs(q, cs, s);
    if l, r :| RaisingPair(q, cs, s, l, r) {
      RaisingPairIs(q, cs, s, ls, l, r);
    }
    if l, r :| l in inp.lefts && r in inp.rights && Meets(equi, l, r) && raises(l + [Some(r)]) {
      RaisingPairIs(q, cs, s, ls, l, r);
    }
  }

  /** What a run that ends at stage s says about the whole plan. */
  lemma RaisedAt(q: Query, s: nat)
    requires s <= |q.joins|
    ensures StageRaises(q, Conjuncts(q), s) || (s < |q.joins| && OnRaises(q, Conjuncts(q), s)) ==> PlanRaises(q)
    ensures Quiet(q, Conjuncts(q), |q.joins|) ==> !PlanRaises(q)
  {
    hide StageRaises, OnRaises;
  }

  lemma QuietMore(q: Query, cs: seq<Expr>, s: nat)
    requires s < |q.joins| && Quiet(q, cs, s) && !OnRaises(q, cs, s) && !StageRaises(q, cs, s + 1)
    ensures Quiet(q, cs, s + 1)
  {
    hide StageRaises, OnRaises;
  }

  lemma QuietFirst(q: Query, cs: seq<Expr>)
    requires !StageRaises(q, cs, 0)
    ensures Quiet(q, cs, 0)
  {
    hide StageRaises, OnRaises;
  }

  /** The pipeline of run_select, up to WHERE: each join hashed if the planner found an
      equality, on the side that `sides` says, and each conjunct at its stage. The rows
      are, up to order, the ones the query is supposed to have. None is an exception: one
      that a condition raises on a row that reaches it. */
  method Pipeline(q: Query, sides: seq<bool>) returns (r: Option<seq<Parts>>)
    requires |sides| == |q.joins| && Distinct(FullScope(q)) && InnerOrLeft(q) && InModel(q)
    requires q.where'.Some? ==> forall c :: c in FlattenAnd(q.where'.value) ==> BooleanValued(c)
    ensures r.None? <==> PlanRaises(q)
    ensures r.Some? ==> multiset(r.value) == multiset(Meaning(q))
  {
    hide Filter, At, UpTo, Naive, ScopeAt, FlattenAnd, StageOf, NestedLoop, Forced, Wide, Singles, Distinct,
      BooleanValued, FindJoinEqui, Test, Conjuncts, PlanRaises, StageRaises, OnRaises, Quiet, ConjunctRaises,
      Compile, Raises, JoinRaises, Entering;
    var cs := Conjuncts(q);
    StartOnCourse(q, cs);
    EnteringFirst(q, cs);
    StageRaisesIs(q, cs, 0, Singles(q.rows));
    RaisedAt(q, 0);
    var left := ApplyStage(q, cs, 0, Singles(q.rows));
    if left.None? {
      return None;
    }
    QuietFirst(q, cs);
    for s := 0 to |q.joins|
      invariant left.Some? && OnCourse(q, cs, s, left.value) && Quiet(q, cs, s)
    {
      var c := q.joins[s];
      assert c in q.joins;
      RaisedAt(q, s);
      RaisedAt(q, s + 1);
      if Compile(c.on, ScopeAt(q, s + 1)).None? {
        UncompiledRaises(q, cs, s);
        return None;
      }
      DistinctPrefix(q, s + 1);
      EquiForIsForced(q, s, left.value);
      OnRaisesIs(q, cs, s, left.value);
      var out := Join.Run(InputOf(q, s, left.value), RaiseTest(c.on, ScopeAt(q, s + 1)), c.kind, EquiFor(q, s),
        sides[s]);
      if out.None? {
        return None;
      }
      JoinedOnCourse(q, cs, s, left.value, out.value);
      EnteringNext(q, cs, s, out.value);
      StageRaisesIs(q, cs, s + 1, out.value);
      FilteredOnCourse(q, cs, s, out.value);
      left := ApplyStage(q, cs, s + 1, out.value);
      if left.None? {
        return None;
      }
      QuietMore(q, cs, s);
    }
    RaisedAt(q, |q.joins|);
    EndOfCourse(q);
    return left;
  }

  lemma UncompiledRaises(q: Query, cs: seq<Expr>, s: nat)
    requires s < |q.joins| && Compile(q.joins[s].on, ScopeAt(q, s + 1)).None?
    ensures OnRaises(q, cs, s)
  {
    hide Compile, ScopeAt;
  }

  lemma EnteringFirst(q: Query, cs: seq<Expr>)
    ensures Entering(q, cs, 0, Singles(q.rows))
  {
    hide Singles;
  }

  lemma EnteringNext(q: Query, cs: seq<Expr>, s: nat, out: seq<Parts>)
    requires s < |q.joins| && multiset(out) == multiset(Filter(UpTo(cs, FullScope(q), s), Naive(q, s + 1)))
    ensures Entering(q, cs, s + 1, out)
  {
    hide Filter, UpTo, Naive;
  }

  /** All conjuncts at their stages, and then all tables joined: the meaning of the query. */
  lemma EndOfCourse(q: Query)
    requires q.where'.Some? ==> forall c :: c in FlattenAnd(q.where'.value) ==> BooleanValued(c)
    requires Wide(Naive(q, |q.joins|), |q.joins| + 1)
    ensures Filter(UpTo(Conjuncts(q), FullScope(q), |q.joins|), Naive(q, |q.joins|)) == Meaning(q)
  {
    if q.where'.Some? {
      AllStages(q, Naive(q, |q.joins|));
      hide *;
    } else {
      NoConjuncts(FullScope(q), |q.joins|);
      AllKept(UpTo([], FullScope(q), |q.joins|), Naive(q, |q.joins|));
    }
  }

  lemma NoConjuncts(full: Scope, s: nat)
    requires full != []
    ensures forall l :: UpTo([], full, s)(l)
  {
  }
}
