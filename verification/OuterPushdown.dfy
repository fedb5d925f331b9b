// Filtering the left side of a RIGHT or FULL join before it is joined, as the stages of
// leafdb/planner.py do: exactly when this is the same as filtering afterwards.

module OuterPushdown {
  import opened Bytes
  import opened Sql
  import opened Evaluate
  import opened Join
  import opened Planner
  import opened Pushdown
  import opened BaseScan

  /** The part of a join that does not come from unmatched right rows. */
  function LeftKind(kind: Kind): Kind {
    if kind.FullOuter? then LeftOuter else Inner
  }

  lemma SplitOuter(inp: Input, kind: Kind)
    requires kind.RightOuter? || kind.FullOuter?
    ensures NestedLoop(inp, kind) == NestedLoop(inp, LeftKind(kind)) + LoneRights(inp, |inp.rights|)
  {
    var pairs := Joined(inp, PairsByRow(inp, |inp.lefts|));
    var lone := if kind.FullOuter? then LoneLefts(inp, |inp.lefts|) else [];
    var right := LoneRights(inp, |inp.rights|);
    assert Outer(inp, kind) == lone + right && Outer(inp, LeftKind(kind)) == lone + [];
    hide *;
    assert lone + [] == lone;
    assert pairs + (lone + right) == (pairs + lone) + right;
  }

  /** Restricting the left rows only adds unmatched right rows. */
  lemma FewerMatches(inp: Input, p: Parts -> bool, j: nat)
    requires j < |inp.rights| && inp.(lefts := Filter(p, inp.lefts)).RightMatched(j)
    ensures inp.RightMatched(j)
  {
    var early := inp.(lefts := Filter(p, inp.lefts));
    var i :| 0 <= i < |early.lefts| && early.Match(i, j);
    assert early.lefts[i] in early.lefts;
    FilterHolds(p, inp.lefts, early.lefts[i]);
    var k :| 0 <= k < |inp.lefts| && inp.lefts[k] == early.lefts[i];
    assert inp.Match(k, j);
  }

  ghost predicate SameLonely(a: Input, b: Input, m: nat)
    requires m <= |a.rights| && a.rights == b.rights
  {
    forall j :: 0 <= j < m ==> (a.RightMatched(j) <==> b.RightMatched(j))
  }

  lemma {:induction false} SameLoneRights(a: Input, b: Input, m: nat)
    requires m <= |a.rights| && a.rights == b.rights && a.width == b.width && SameLonely(a, b, m)
    ensures LoneRights(a, m) == LoneRights(b, m)
    decreases m
  {
    hide Input.RightMatched;
    if m > 0 {
      SameLoneRights(a, b, m - 1);
    }
  }

  /** As many unmatched right rows as before, and at least the same ones: the same ones. */
  lemma SameCount(inp: Input, p: Parts -> bool)
    ensures var early, m := inp.(lefts := Filter(p, inp.lefts)), |inp.rights|;
      |LoneRights(early, m)| == |LoneRights(inp, m)| ==> SameLonely(early, inp, m)
  {
    var early, m := inp.(lefts := Filter(p, inp.lefts)), |inp.rights|;
    var a, b := LonelyRights(early, m), LonelyRights(inp, m);
    CountLoneRights(early, m);
    CountLoneRights(inp, m);
    forall j | j in b
      ensures j in a
    {
      if early.RightMatched(j) {
        FewerMatches(inp, p, j);
      }
    }
    hide Input.RightMatched, LoneRights, Filter;
    if |a| == |b| {
      EqualSets(b, a);
      forall j: nat | j < m
        ensures early.RightMatched(j) <==> inp.RightMatched(j)
      {
        assert j in a <==> j in b;
      }
    }
  }

  lemma EqualSets(a: set<nat>, b: set<nat>)
    requires a <= b && |a| == |b|
    ensures a == b
  {
    if x :| x in b && x !in a {
      assert a <= b - {x};
      SubsetSize(a, b - {x});
    }
  }

  /** The added rows have no left part, so p says the same of all of them. */
  lemma {:induction false} FilterLone(inp: Input, p: Parts -> bool, m: nat)
    requires m <= |inp.rights| && Blind(p, [Nones(inp.width)])
    ensures Filter(p, LoneRights(inp, m)) == if p(Nones(inp.width)) then LoneRights(inp, m) else []
    decreases m
  {
    var none := Nones(inp.width);
    assert none in [none];
    hide Filter, Input.RightMatched, Nones;
    if m == 0 {
      NoneKept(p);
    } else {
      FilterLone(inp, p, m - 1);
      var before := LoneRights(inp, m - 1);
      if !inp.RightMatched(m - 1) {
        var row := none + [Some(inp.rights[m - 1])];
        FilterConcat(p, before, [row]);
        FilterOne(p, row);
      }
      assert before + [] == before;
    }
  }

  /** Every right row that no passing left row matches is matched by no left row at all,
      and p holds of the missing left part. */
  ghost predicate NothingLost(inp: Input, p: Parts -> bool) {
    forall j :: 0 <= j < |inp.rights| && !inp.(lefts := Filter(p, inp.lefts)).RightMatched(j) ==>
      !inp.RightMatched(j) && p(Nones(inp.width))
  }

  lemma LostSplit(inp: Input, p: Parts -> bool)
    ensures var early, m := inp.(lefts := Filter(p, inp.lefts)), |inp.rights|;
      NothingLost(inp, p) <==>
      if p(Nones(inp.width)) then SameLonely(early, inp, m) else |LoneRights(early, m)| == 0
  {
    var early, m := inp.(lefts := Filter(p, inp.lefts)), |inp.rights|;
    CountLoneRights(early, m);
    forall j: nat | j < m && early.RightMatched(j)
      ensures inp.RightMatched(j)
    {
      FewerMatches(inp, p, j);
    }
    hide Input.RightMatched, LoneRights, Filter, Nones;
    if |LoneRights(early, m)| == 0 {
      assert LonelyRights(early, m) == {};
      forall j: nat | j < m
        ensures early.RightMatched(j)
      {
        assert j !in LonelyRights(early, m);
      }
    }
    if NothingLost(inp, p) && !p(Nones(inp.width)) {
      assert LonelyRights(early, m) == {};
    }
  }

  /** Filtering the left rows of a RIGHT or FULL join by a condition on them, and filtering
      the joined rows by it, give the same rows if and only if nothing is lost. */
  lemma OuterFilterIff(inp: Input, p: Parts -> bool, kind: Kind)
    requires kind.RightOuter? || kind.FullOuter?
    requires Blind(p, inp.lefts) && Blind(p, [Nones(inp.width)])
    ensures multiset(NestedLoop(inp.(lefts := Filter(p, inp.lefts)), kind)) ==
      multiset(Filter(p, NestedLoop(inp, kind)))
            <==> NothingLost(inp, p)
  {
    var early, m, left := inp.(lefts := Filter(p, inp.lefts)), |inp.rights|, LeftKind(kind);
    hide *;
    SplitOuter(early, kind);
    SplitOuter(inp, kind);
    LeftPartsAgree(inp, p, left, kind);
    FilterConcat(p, NestedLoop(inp, left), LoneRights(inp, m));
    FilterLone(inp, p, m);
    LostSplit(inp, p);
    SameCount(inp, p);
    SameMultisets(NestedLoop(early, left), LoneRights(early, m),
                  Filter(p, NestedLoop(inp, left)), if p(Nones(inp.width)) then LoneRights(inp, m) else []);
    if SameLonely(early, inp, m) {
      SameLoneRights(early, inp, m);
    }
    SizeOf(LoneRights(early, m), LoneRights(inp, m));
    SizeOf(LoneRights(early, m), []);
  }

  lemma SizeOf(a: seq<Parts>, b: seq<Parts>)
    ensures multiset(a) == multiset(b) ==> |a| == |b|
    ensures |a| == 0 <==> a == []
  {
    assert |multiset(a)| == |a| && |multiset(b)| == |b|;
  }

  lemma SameMultisets(a: seq<Parts>, x: seq<Parts>, b: seq<Parts>, y: seq<Parts>)
    requires multiset(a) == multiset(b)
    ensures multiset(a + x) == multiset(b + y) <==> multiset(x) == multiset(y)
  {
    assert multiset(a + x) == multiset(a) + multiset(x) && multiset(b + y) == multiset(b) + multiset(y);
    assert multiset(x) == multiset(a + x) - multiset(a) && multiset(y) == multiset(b + y) - multiset(b);
  }

  /** The matches and the unmatched left rows agree in any case. */
  lemma LeftPartsAgree(inp: Input, p: Parts -> bool, left: Kind, kind: Kind)
    requires left == LeftKind(kind) && Blind(p, inp.lefts)
    ensures multiset(NestedLoop(inp.(lefts := Filter(p, inp.lefts)), left)) ==
      multiset(Filter(p, NestedLoop(inp, left)))
  {
    var early := inp.(lefts := Filter(p, inp.lefts));
    assert left.Inner? || left.LeftOuter?;
    assert early.lefts == Filter(p, inp.lefts) && early.rights == inp.rights && early.on == inp.on;
    hide *;
    NestedIsFlat(early, left);
    NestedIsFlat(inp, left);
    FilterFlat(p, inp.lefts, inp.rights, inp.on, left);
    FilterPermutes(p, NestedLoop(inp, left), Flat(inp.lefts, inp.rights, inp.on, left));
  }

  // ---- a query with one such join -------------------------------------------------------------

  lemma {:induction false} JoinedWide(inp: Input, pairs: seq<(nat, nat)>, n: nat)
    requires Wide(inp.lefts, n)
    requires forall p :: p in pairs ==> p.0 < |inp.lefts| && p.1 < |inp.rights|
    ensures Wide(Joined(inp, pairs), n + 1)
    decreases |pairs|
  {
    if pairs != [] {
      assert inp.lefts[pairs[0].0] in inp.lefts;
      JoinedWide(inp, pairs[1..], n);
    }
  }

  lemma {:induction false} LoneLeftsWide(inp: Input, m: nat, n: nat)
    requires m <= |inp.lefts| && Wide(inp.lefts, n)
    ensures Wide(LoneLefts(inp, m), n + 1)
    decreases m
  {
    hide Input.LeftMatched;
    if m > 0 {
      assert inp.lefts[m - 1] in inp.lefts;
      LoneLeftsWide(inp, m - 1, n);
    }
  }

  lemma {:induction false} NonesSize(n: nat)
    ensures |Nones(n)| == n
  {
    if n > 0 {
      NonesSize(n - 1);
    }
  }

  lemma {:induction false} LoneRightsWide(inp: Input, m: nat)
    requires m <= |inp.rights|
    ensures Wide(LoneRights(inp, m), inp.width + 1)
    decreases m
  {
    hide Input.RightMatched;
    NonesSize(inp.width);
    if m > 0 {
      LoneRightsWide(inp, m - 1);
    }
  }

  lemma NestedWide(inp: Input, kind: Kind)
    requires Wide(inp.lefts, inp.width)
    ensures Wide(NestedLoop(inp, kind), inp.width + 1)
  {
    JoinedWide(inp, PairsByRow(inp, |inp.lefts|), inp.width);
    LoneLeftsWide(inp, |inp.lefts|, inp.width);
    LoneRightsWide(inp, |inp.rights|);
    hide LoneLefts, LoneRights, Joined, PairsByRow;
  }

  lemma LateIsEarly(c: Expr, full: Scope, base: Source, l: Parts)
    requires full != [] && full[0] == base && Resolved(c, [base]) && Resolved(c, full) && |l| > 0
    ensures Keeps(c, l, full) <==> OnBase(c, base)(l)
  {
    assert full[..1] == [base];
    EarlyIsLate(c, full, 1, l);
    hide Compile, Resolved;
  }

  lemma FirstStage(c: Expr, full: Scope, base: Source)
    requires full != [] && full[0] == base && NoFunc(c) && Resolved(c, [base]) && Resolved(c, full)
    ensures StageOf(c, full) == 0
  {
    assert full[..1] == [base];
    hide Resolved;
  }

  /** SELECT with one RIGHT or FULL join and a condition on the base table: checking it at
      its stage, before the join, gives the rows of the query if and only if nothing is
      lost. */
  lemma OneOuterJoin(q: Query, c: Expr)
    requires |q.joins| == 1 && (q.joins[0].kind.RightOuter? || q.joins[0].kind.FullOuter?)
    requires q.where' == Some(c) && NoFunc(c) && Resolved(c, [q.base]) && Resolved(c, FullScope(q))
    ensures StageOf(c, FullScope(q)) == 0
    ensures var early := Filter(Test(c, ScopeAt(q, 0)), Singles(q.rows));
      multiset(NestedLoop(InputOf(q, 0, early), q.joins[0].kind)) == multiset(Meaning(q)) <==>
      NothingLost(InputOf(q, 0, Singles(q.rows)), OnBase(c, q.base))
  {
    var full, p, kind, ls := FullScope(q), OnBase(c, q.base), q.joins[0].kind, Singles(q.rows);
    var inp, test := InputOf(q, 0, ls), Test(c, ScopeAt(q, 0));
    assert full == [q.base] + [q.joins[0].source];
    FirstStage(c, full, q.base);
    NaiveStart(q);
    NaiveStep(q, 1);
    NonesSize(1);
    OnBaseIsBlind(c, q.base, ls, 1);
    OnBaseIsBlind(c, q.base, [Nones(1)], 1);
    NestedWide(inp, kind);
    assert Wide(ls, 1) && Wide(NestedLoop(inp, kind), 2);
    assert Meaning(q) == Filter(Test(c, full), NestedLoop(inp, kind));
    forall l | l in ls
      ensures test(l) == p(l)
    {
      LateIsEarly(c, [q.base], q.base, l);
    }
    forall l | l in NestedLoop(inp, kind)
      ensures Test(c, full)(l) == p(l)
    {
      LateIsEarly(c, full, q.base, l);
    }
    assert InputOf(q, 0, Filter(p, ls)) == inp.(lefts := Filter(p, ls)) && inp.lefts == ls && inp.width == 1;
    hide *;
    FilterSame(test, p, ls);
    FilterSame(Test(c, full), p, NestedLoop(inp, kind));
    OuterFilterIff(inp, p, kind);
  }
}
