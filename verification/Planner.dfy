// The planner's analyses (leafdb/planner.py): which equality a hash join may use, and
// the earliest stage at which a conjunct can be checked.

module Planner {
  import opened Bytes
  import opened Sql
  import opened Evaluate
  import opened Join

  ghost predicate Distinct(scope: Scope) {
    forall i, j :: 0 <= i < j < |scope| ==> scope[i].alias != scope[j].alias
  }

  lemma {:induction false} SourceOfIs(scope: Scope, i: nat)
    requires Distinct(scope) && i < |scope|
    ensures SourceOf(scope, scope[i].alias) == Some(i)
    decreases |scope|
  {
    if i > 0 {
      SourceOfIs(scope[1..], i - 1);
    }
  }

  lemma {:induction false} SourceOfFinds(scope: Scope, alias: string)
    ensures var r := SourceOf(scope, alias);
      r.Some? ==> r.value < |scope| && scope[r.value].alias == alias
    ensures SourceOf(scope, alias).None? ==> forall i :: 0 <= i < |scope| ==> scope[i].alias != alias
    decreases |scope|
  {
    if scope != [] && scope[0].alias != alias {
      SourceOfFinds(scope[1..], alias);
    }
  }

  // ---- the equality of a hash join -------------------------------------------------------

  /** `owner`: the alias a column belongs to, if that is clear. */
  function Owner(col: Expr, known: Scope, right: Source): Option<string>
    requires col.Col?
  {
    if col.table.Some? then
      if col.table.value == right.alias then
        if col.name in right.cols then Some(right.alias) else None
      else
        var i := SourceOf(known, col.table.value);
        if i.Some? && i.value < |known| && col.name in known[i.value].cols then col.table else None
    else
      var all := known + [right];
      var hits := Hits(all, col.name, 0);
      if |hits| == 1 && hits[0] < |all| then Some(all[hits[0]].alias) else None
  }

  /** `find_join_equi`: the accumulated column and the new one, both with their aliases. */
  function FindJoinEqui(conjuncts: seq<Expr>, known: Scope, right: Source): Option<(Expr, Expr)> {
    if conjuncts == [] then None
    else
      var c, rest := conjuncts[0], conjuncts[1..];
      if !(c.Bin? && c.op.Eq? && c.left.Col? && c.right.Col?) then FindJoinEqui(rest, known, right)
      else
        var lo, ro := Owner(c.left, known, right), Owner(c.right, known, right);
        if lo.None? || ro.None? || lo == ro then FindJoinEqui(rest, known, right)
        else if ro.value == right.alias then Some((Col(lo, c.left.name), Col(Some(right.alias), c.right.name)))
        else if lo.value == right.alias then Some((Col(ro, c.right.name), Col(Some(right.alias), c.left.name)))
        else FindJoinEqui(rest, known, right)
  }

  /** Naming a column by its owner changes nothing. */
  lemma OwnerResolves(col: Expr, known: Scope, right: Source)
    requires col.Col? && Distinct(known + [right]) && Owner(col, known, right).Some?
    ensures var owner, scope := Owner(col, known, right), known + [right];
      var slot := Resolve(scope, owner, col.name);
      && slot.Some? && Resolve(scope, col.table, col.name) == slot
      && slot.value.0 < |scope| && scope[slot.value.0].alias == owner.value
      && col.name in scope[slot.value.0].cols && slot.value.1 == IndexOf(scope[slot.value.0].cols, col.name)
      && (owner.value == right.alias <==> slot.value.0 == |known|)
  {
    var owner, scope := Owner(col, known, right), known + [right];
    hide Hits, SourceOf, IndexOf;
    if col.table.Some? {
      if col.table.value == right.alias {
        SourceOfIs(scope, |known|);
      } else {
        SourceOfFinds(known, col.table.value);
        var i := SourceOf(known, col.table.value).value;
        assert scope[i] == known[i];
        SourceOfIs(scope, i);
      }
    } else {
      var hits := Hits(scope, col.name, 0);
      assert |hits| == 1 && hits[0] in hits;
      SourceOfIs(scope, hits[0]);
      assert owner == Some(scope[hits[0]].alias) && scope[|known|] == right;
      assert hits[0] < |scope| && col.name in scope[hits[0]].cols;
      assert SourceOf(scope, owner.value) == Some(hits[0]);
    }
  }

  /** The equality that was found is one of the conjuncts, up to naming and sides. */
  lemma {:induction false} EquiIsConjunct(conjuncts: seq<Expr>, known: Scope, right: Source) returns (c: Expr)
    requires FindJoinEqui(conjuncts, known, right).Some?
    ensures c in conjuncts && c.Bin? && c.op.Eq? && c.left.Col? && c.right.Col?
    ensures var (acc, fresh') := FindJoinEqui(conjuncts, known, right).value;
      var lo, ro := Owner(c.left, known, right), Owner(c.right, known, right);
      && lo.Some? && ro.Some? && lo != ro
      && ((ro.value == right.alias && acc == Col(lo, c.left.name) && fresh' == Col(ro, c.right.name)) ||
          (lo.value == right.alias && acc == Col(ro, c.right.name) && fresh' == Col(lo, c.left.name)))
    decreases |conjuncts|
  {
    c := conjuncts[0];
    var rest := conjuncts[1..];
    hide Owner;
    if c.Bin? && c.op.Eq? && c.left.Col? && c.right.Col? {
      var lo, ro := Owner(c.left, known, right), Owner(c.right, known, right);
      if lo.Some? && ro.Some? && lo != ro && (ro.value == right.alias || lo.value == right.alias) {
        return;
      }
    }
    c := EquiIsConjunct(rest, known, right);
  }

  /** An equality between columns that holds has equal values on both sides. */
  lemma EqualityHolds(a: Expr, b: Expr, parts: Parts, scope: Scope)
    requires a.Col? && b.Col? && Compile(Bin(Eq, a, b), scope).Some?
    requires Holds(Compile(Bin(Eq, a, b), scope).value(parts))
    ensures var s, t := Resolve(scope, a.table, a.name), Resolve(scope, b.table, b.name);
      && s.Some? && t.Some?
      && var x, y := ReadCol(parts, s.value.0, s.value.1), ReadCol(parts, t.value.0, t.value.1);
         x.Val? && y.Val? && x.v != Null && y.v != Null && Equal(x.v, y.v)
  {
    hide Resolve, ReadCol;
    var f, g := Compile(a, scope).value, Compile(b, scope).value;
    assert Compile(Bin(Eq, a, b), scope).value == Both(Eq, f, g);
    var x, y := f(parts), g(parts);
    if x.Val? && y.Val? {
      assert Both(Eq, f, g)(parts) == Strict(Eq, x.v, y.v);
    }
  }

  /** Symmetry of `_eq` */
  lemma EqualSymmetric(a: Value, b: Value)
    ensures Equal(a, b) == Equal(b, a)
  {
  }

  lemma ReadLeft(l: Parts, r: Row, i: nat, j: nat)
    requires i < |l|
    ensures ReadCol(l + [Some(r)], i, j) == ReadCol(l, i, j)
  {
  }

  lemma ReadRight(l: Parts, r: Row, j: nat)
    requires ReadCol(l + [Some(r)], |l|, j).Val?
    ensures j < |r| && ReadCol(l + [Some(r)], |l|, j).v == r[j]
  {
  }

  /** The values of the two columns of a join equality are there and have the same key. */
  ghost predicate SameKey(acc: Expr, fresh': Expr, known: Scope, right: Source, l: Parts, r: Row) {
    && acc.Col? && fresh'.Col? && fresh'.name in right.cols
    && var s, j := Resolve(known + [right], acc.table, acc.name), IndexOf(right.cols, fresh'.name);
       && s.Some? && s.value.0 < |known| && j < |r|
       && var x := ReadCol(l, s.value.0, s.value.1);
          x.Val? && x.v != Null && r[j] != Null && KeyOf(x.v) == KeyOf(r[j])
  }

  /** One column from the left, one from the right, equal where both stand. */
  lemma SidesAgree(a: Expr, b: Expr, known: Scope, right: Source, l: Parts, r: Row)
    requires Distinct(known + [right]) && |l| == |known| && a.Col? && b.Col?
    requires var p, q := Owner(a, known, right), Owner(b, known, right);
      p.Some? && q.Some? && p != q && q.value == right.alias
    requires var scope, parts := known + [right], l + [Some(r)];
      var s, t := Resolve(scope, a.table, a.name), Resolve(scope, b.table, b.name);
      && s.Some? && t.Some?
      && var x, y := ReadCol(parts, s.value.0, s.value.1), ReadCol(parts, t.value.0, t.value.1);
         x.Val? && y.Val? && x.v != Null && y.v != Null && Equal(x.v, y.v)
    ensures SameKey(Col(Owner(a, known, right), a.name), Col(Owner(b, known, right), b.name), known, right, l, r)
  {
    hide Resolve, Owner, Equal, ReadCol, KeyOf;
    OwnerResolves(a, known, right);
    OwnerResolves(b, known, right);
    var scope := known + [right];
    var s, t := Resolve(scope, a.table, a.name).value, Resolve(scope, b.table, b.name).value;
    ReadLeft(l, r, s.0, s.1);
    ReadRight(l, r, t.1);
    KeysAreEquality(ReadCol(l, s.0, s.1).v, r[t.1]);
  }

  /** Where an ON condition is True, the two sides of the equality that the planner found
      are there and have the same key: hashing on them loses no match. */
  lemma EquiForced(on: Expr, known: Scope, right: Source, l: Parts, r: Row)
    requires Distinct(known + [right]) && |l| == |known|
    requires FindJoinEqui(FlattenAnd(on), known, right).Some?
    requires Keeps(on, l + [Some(r)], known + [right])
    ensures var (acc, fresh') := FindJoinEqui(FlattenAnd(on), known, right).value;
      SameKey(acc, fresh', known, right, l, r)
  {
    hide Compile, FindJoinEqui, FlattenAnd, Resolve, Owner, Equal, SameKey, ReadCol, Distinct;
    var scope, parts := known + [right], l + [Some(r)];
    ConjunctsHold(on, parts, scope);
    var c := EquiIsConjunct(FlattenAnd(on), known, right);
    assert c == Bin(Eq, c.left, c.right) && Compile(c, scope).Some? && Holds(Compile(c, scope).value(parts));
    EqualityHolds(c.left, c.right, parts, scope);
    if Owner(c.right, known, right).value == right.alias {
      SidesAgree(c.left, c.right, known, right, l, r);
    } else {
      EqualSides(parts, Resolve(scope, c.left.table, c.left.name).value,
        Resolve(scope, c.right.table, c.right.name).value);
      SidesAgree(c.right, c.left, known, right, l, r);
    }
  }

  lemma EqualSides(parts: Parts, s: (nat, nat), t: (nat, nat))
    requires var x, y := ReadCol(parts, s.0, s.1), ReadCol(parts, t.0, t.1); x.Val? && y.Val? && Equal(x.v, y.v)
    ensures Equal(ReadCol(parts, t.0, t.1).v, ReadCol(parts, s.0, s.1).v)
  {
    EqualSymmetric(ReadCol(parts, s.0, s.1).v, ReadCol(parts, t.0, t.1).v);
    hide Equal, ReadCol;
  }

  // ---- the earliest stage of a conjunct ---------------------------------------------------

  /** `walk_func_nodes` finds nothing; it looks through operators and IS NULL only. */
  predicate NoFunc(e: Expr) {
    match e
    case Bin(_, l, r) => NoFunc(l) && NoFunc(r)
    case Not(x) => NoFunc(x)
    case Neg(x) => NoFunc(x)
    case IsNull(x, _) => NoFunc(x)
    case Func(_, _, _) => false
    case _ => true
  }

  /** Every column that `gather` finds resolves among these sources. A LIKE pattern is
      not looked at. */
  predicate Resolved(e: Expr, scope: Scope)
    decreases e, 0
  {
    match e
    case Lit(_) => true
    case Col(table, name) => Resolve(scope, table, name).Some?
    case Bin(_, l, r) => Resolved(l, scope) && Resolved(r, scope)
    case Not(x) => Resolved(x, scope)
    case Neg(x) => Resolved(x, scope)
    case IsNull(x, _) => Resolved(x, scope)
    case Between(x, lo, hi, _) => Resolved(x, scope) && Resolved(lo, scope) && Resolved(hi, scope)
    case InList(x, items, _) => Resolved(x, scope) && ResolvedAll(items, scope)
    case Like(x, _, _) => Resolved(x, scope)
    case Func(_, _, _) => true
  }

  predicate ResolvedAll(items: seq<Expr>, scope: Scope)
    decreases items, 1
  {
    items == [] || (Resolved(items[0], scope) && ResolvedAll(items[1..], scope))
  }

  /** `_conjunct_tables` is not None after s joins. */
  predicate PlacedAt(c: Expr, full: Scope, s: nat)
    requires s < |full|
  {
    NoFunc(c) && Resolved(c, full[..s + 1])
  }

  /** The first stage from s on at which a conjunct is placed, or the last stage. */
  function EarliestFrom(c: Expr, full: Scope, s: nat): (r: nat)
    requires s < |full|
    ensures s <= r < |full|
    ensures r + 1 < |full| ==> PlacedAt(c, full, r)
    ensures forall x :: s <= x < r ==> !PlacedAt(c, full, x)
    decreases |full| - s
  {
    if s + 1 == |full| || PlacedAt(c, full, s) then s else EarliestFrom(c, full, s + 1)
  }

  /** `assign_filter_stages`, for one conjunct */
  function StageOf(c: Expr, full: Scope): (s: nat)
    requires full != []
    ensures s < |full|
    ensures s + 1 < |full| ==> PlacedAt(c, full, s) && Resolved(c, full)
  {
    if NoFunc(c) && Resolved(c, full) then EarliestFrom(c, full, 0) else |full| - 1
  }

  /** Joining more tables does not move a column that was resolved before, as long as it
      still resolves. */
  lemma ResolvePrefix(full: Scope, m: nat, table: Option<string>, name: string)
    requires m <= |full| && Resolve(full[..m], table, name).Some? && Resolve(full, table, name).Some?
    ensures Resolve(full, table, name) == Resolve(full[..m], table, name)
    ensures Resolve(full, table, name).value.0 < m
  {
    hide SourceOf, Hits, IndexOf;
    if table.Some? {
      SourceOfPrefix(full, m, table.value);
    } else {
      var a, b := Hits(full[..m], name, 0), Hits(full, name, 0);
      assert a[0] in a && b[0] in b;
      assert a[0] in b;
      var k :| 0 <= k < |b| && b[k] == a[0];
    }
  }

  lemma {:induction false} SourceOfPrefix(full: Scope, m: nat, alias: string)
    requires m <= |full| && SourceOf(full[..m], alias).Some?
    ensures SourceOf(full, alias) == SourceOf(full[..m], alias) && SourceOf(full, alias).value < m
    decreases m
  {
    if m > 0 && full[0].alias != alias {
      assert full[..m][1..] == full[1..][..m - 1];
      SourceOfPrefix(full[1..], m - 1, alias);
    }
  }

  /** Checking a conjunct early: on the first m parts it has the value that it has on all
      of them. */
  lemma {:induction false} EarlyIsLate(e: Expr, full: Scope, m: nat, parts: Parts)
    requires m <= |full| && m <= |parts| && Resolved(e, full[..m]) && Resolved(e, full)
    ensures Compile(e, full).Some? && Compile(e, full[..m]).Some?
    ensures Compile(e, full).value(parts) == Compile(e, full[..m]).value(parts[..m])
    decreases e, 0
  {
    hide Resolve;
    match e {
      case Col(table, name) =>
        ResolvePrefix(full, m, table, name);
      case Bin(_, l, r) =>
        EarlyIsLate(l, full, m, parts);
        EarlyIsLate(r, full, m, parts);
      case Not(x) => EarlyIsLate(x, full, m, parts);
      case Neg(x) => EarlyIsLate(x, full, m, parts);
      case IsNull(x, _) => EarlyIsLate(x, full, m, parts);
      case Between(x, lo, hi, _) =>
        EarlyIsLate(x, full, m, parts);
        EarlyIsLate(lo, full, m, parts);
        EarlyIsLate(hi, full, m, parts);
      case InList(x, items, negated) =>
        EarlyIsLate(x, full, m, parts);
        var a := Compile(x, full).value(parts);
        EarlyItems(items, full, m, parts, if a.Val? then a.v else Null, false, negated);
      case _ =>
    }
  }

  lemma {:induction false} EarlyItems(items: seq<Expr>, full: Scope, m: nat, parts: Parts, v: Value, sawNull: bool,
                                      negated: bool)
    requires m <= |full| && m <= |parts| && ResolvedAll(items, full[..m]) && ResolvedAll(items, full)
    ensures CompileAll(items, full).Some? && CompileAll(items, full[..m]).Some?
    ensures RunItems(CompileAll(items, full).value, v, parts, sawNull, negated) ==
            RunItems(CompileAll(items, full[..m]).value, v, parts[..m], sawNull, negated)
    decreases items, 1
  {
    if items != [] {
      EarlyIsLate(items[0], full, m, parts);
      EarlyItems(items[1..], full, m, parts, v, true, negated);
      EarlyItems(items[1..], full, m, parts, v, sawNull, negated);
      hide Compile, Resolved;
      var f, g := CompileAll(items, full).value, CompileAll(items, full[..m]).value;
      assert f[1..] == CompileAll(items[1..], full).value && g[1..] == CompileAll(items[1..], full[..m]).value;
    }
  }

  /** The same for filters: at its stage a conjunct keeps what it would keep at the end. */
  lemma StageIsEnough(c: Expr, full: Scope, parts: Parts)
    requires full != [] && |full| <= |parts|
    ensures var m := StageOf(c, full) + 1;
      Keeps(c, parts[..m], full[..m]) <==> Keeps(c, parts[..|full|], full)
  {
    var m := StageOf(c, full) + 1;
    if m < |full| {
      EarlyIsLate(c, full, m, parts[..|full|]);
      assert parts[..|full|][..m] == parts[..m];
    } else {
      assert full[..m] == full;
    }
  }
}
