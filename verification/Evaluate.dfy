// The two evaluators of SQL expressions (leafdb/executor.py): the interpreter that
// UPDATE and DELETE fall back on, and the closures that SELECT compiles to.

module Evaluate {
  import opened Bytes
  import opened Sql

  // ---- eval_expr --------------------------------------------------------------------

  /** The answer of an IN list, once it is known whether the value was found. */
  function InAnswer(found: bool, sawNull: bool, negated: bool): Value {
    if found then Bool(!negated) else if sawNull then Null else Bool(negated)
  }

  /** `eval_expr` without an aggregate environment. LIKE is not part of this model. */
  function Eval(e: Expr, parts: Parts, scope: Scope): Out
    decreases e, 0
  {
    match e
    case Lit(v) => Val(v)
    case Col(table, name) =>
      var slot := Resolve(scope, table, name);
      if slot.None? then Fail else ReadCol(parts, slot.value.0, slot.value.1)
    case Bin(op, l, r) =>
      var a := Eval(l, parts, scope);
      if a.Fail? then Fail else
      var b := Eval(r, parts, scope);
      if b.Fail? then Fail
      else if op.AndOp? || op.OrOp? then Val(Kleene(op, a.v, b.v))
      else Strict(op, a.v, b.v)
    case Not(x) =>
      var a := Eval(x, parts, scope);
      if a.Fail? then Fail else if a.v == Null then Val(Null) else Val(Bool(!Truthy(a.v)))
    case Neg(x) =>
      var a := Eval(x, parts, scope);
      if a.Fail? then Fail else if a.v == Null then Val(Null)
      else if a.v.Int? then Val(Int(-a.v.i)) else Fail
    case IsNull(x, negated) =>
      var a := Eval(x, parts, scope);
      if a.Fail? then Fail else Val(Bool((a.v == Null) != negated))
    case Between(x, lo, hi, negated) =>
      var a := Eval(x, parts, scope);
      if a.Fail? then Fail else
      var b := Eval(lo, parts, scope);
      if b.Fail? then Fail else
      var c := Eval(hi, parts, scope);
      if c.Fail? then Fail
      else if a.v == Null || b.v == Null || c.v == Null then Val(Null)
      else Inside(a.v, b.v, c.v, negated)
    case InList(x, items, negated) =>
      var a := Eval(x, parts, scope);
      if a.Fail? then Fail else if a.v == Null then Val(Null)
      else EvalItems(items, a.v, parts, scope, false, negated)
    case Like(_, _, _) => Fail
    case Func(_, _, _) => Fail
  }

  /** The loop over the items of an IN list, which stops at the first match. */
  function EvalItems(items: seq<Expr>, v: Value, parts: Parts, scope: Scope, sawNull: bool, negated: bool): Out
    decreases items, 1
  {
    if items == [] then Val(InAnswer(false, sawNull, negated))
    else
      var c := Eval(items[0], parts, scope);
      if c.Fail? then Fail
      else if c.v == Null then EvalItems(items[1..], v, parts, scope, true, negated)
      else if Equal(v, c.v) then Val(InAnswer(true, sawNull, negated))
      else EvalItems(items[1..], v, parts, scope, sawNull, negated)
  }

  // ---- compile_expr -----------------------------------------------------------------

  type Closure = Parts -> Out

  function AndThen(l: Closure, r: Closure): Closure {
    (parts: Parts) =>
      var a := l(parts);
      if a.Fail? then Fail
      else if a.v != Null && !Truthy(a.v) then Val(Bool(false))
      else
        var b := r(parts);
        if b.Fail? then Fail
        else if b.v != Null && !Truthy(b.v) then Val(Bool(false))
        else if a.v == Null || b.v == Null then Val(Null)
        else Val(Bool(true))
  }

  function OrElse(l: Closure, r: Closure): Closure {
    (parts: Parts) =>
      var a := l(parts);
      if a.Fail? then Fail
      else if a.v != Null && Truthy(a.v) then Val(Bool(true))
      else
        var b := r(parts);
        if b.Fail? then Fail
        else if b.v != Null && Truthy(b.v) then Val(Bool(true))
        else if a.v == Null || b.v == Null then Val(Null)
        else Val(Bool(false))
  }

  function Both(op: Op, l: Closure, r: Closure): Closure
    requires !op.AndOp? && !op.OrOp?
  {
    (parts: Parts) =>
      var a := l(parts);
      if a.Fail? then Fail else
      var b := r(parts);
      if b.Fail? then Fail else Strict(op, a.v, b.v)
  }

  function NotOf(x: Closure): Closure {
    (parts: Parts) =>
      var a := x(parts);
      if a.Fail? then Fail else if a.v == Null then Val(Null) else Val(Bool(!Truthy(a.v)))
  }

  function NegOf(x: Closure): Closure {
    (parts: Parts) =>
      var a := x(parts);
      if a.Fail? then Fail else if a.v == Null then Val(Null)
      else if a.v.Int? then Val(Int(-a.v.i)) else Fail
  }

  function NullTest(x: Closure, negated: bool): Closure {
    (parts: Parts) =>
      var a := x(parts);
      if a.Fail? then Fail else Val(Bool((a.v == Null) != negated))
  }

  function BetweenOf(x: Closure, lo: Closure, hi: Closure, negated: bool): Closure {
    (parts: Parts) =>
      var a := x(parts);
      if a.Fail? then Fail
      else if a.v == Null then Val(Null)
      else
        var b := lo(parts);
        if b.Fail? then Fail else
        var c := hi(parts);
        if c.Fail? then Fail
        else if b.v == Null || c.v == Null then Val(Null)
        else Inside(a.v, b.v, c.v, negated)
  }

  function RunItems(items: seq<Closure>, v: Value, parts: Parts, sawNull: bool, negated: bool): Out {
    if items == [] then (if sawNull then Val(Null) else Val(Bool(negated)))
    else
      var c := items[0](parts);
      if c.Fail? then Fail
      else if c.v == Null then RunItems(items[1..], v, parts, true, negated)
      else if Equal(v, c.v) then Val(Bool(!negated))
      else RunItems(items[1..], v, parts, sawNull, negated)
  }

  function InOf(x: Closure, items: seq<Closure>, negated: bool): Closure {
    (parts: Parts) =>
      var a := x(parts);
      if a.Fail? then Fail else if a.v == Null then Val(Null)
      else RunItems(items, a.v, parts, false, negated)
  }

  /** `compile_expr`; None is the exception for a column that does not resolve. */
  function Compile(e: Expr, scope: Scope): Option<Closure>
    decreases e, 0
  {
    match e
    case Lit(v) => Some((parts: Parts) => Val(v))
    case Col(table, name) =>
      var slot := Resolve(scope, table, name);
      if slot.None? then None else Some((parts: Parts) => ReadCol(parts, slot.value.0, slot.value.1))
    case Bin(op, l, r) =>
      var f := Compile(l, scope);
      if f.None? then None else
      var g := Compile(r, scope);
      if g.None? then None
      else Some(if op.AndOp? then AndThen(f.value, g.value)
                else if op.OrOp? then OrElse(f.value, g.value)
                else Both(op, f.value, g.value))
    case Not(x) =>
      var f := Compile(x, scope);
      if f.None? then None else Some(NotOf(f.value))
    case Neg(x) =>
      var f := Compile(x, scope);
      if f.None? then None else Some(NegOf(f.value))
    case IsNull(x, negated) =>
      var f := Compile(x, scope);
      if f.None? then None else Some(NullTest(f.value, negated))
    case Between(x, lo, hi, negated) =>
      var f := Compile(x, scope);
      if f.None? then None else
      var g := Compile(lo, scope);
      if g.None? then None else
      var h := Compile(hi, scope);
      if h.None? then None else Some(BetweenOf(f.value, g.value, h.value, negated))
    case InList(x, items, negated) =>
      var f := Compile(x, scope);
      if f.None? then None else
      var fs := CompileAll(items, scope);
      if fs.None? then None else Some(InOf(f.value, fs.value, negated))
    case Like(_, _, _) => Some((parts: Parts) => Fail)
    case Func(_, _, _) => Some((parts: Parts) => Fail)
  }

  function CompileAll(items: seq<Expr>, scope: Scope): Option<seq<Closure>>
    decreases items, 1
  {
    if items == [] then Some([])
    else
      var f := Compile(items[0], scope);
      if f.None? then None else
      var rest := CompileAll(items[1..], scope);
      if rest.None? then None else Some([f.value] + rest.value)
  }

  // ---- the two agree --------------------------------------------------------------------

  /** Whenever the interpreter returns a value, the closure returns the same one; so a
      closure fails only where the interpreter fails. */
  lemma {:induction false} CompileRefinesEval(e: Expr, parts: Parts, scope: Scope)
    requires Compile(e, scope).Some?
    ensures Eval(e, parts, scope).Val? ==> Compile(e, scope).value(parts) == Eval(e, parts, scope)
    decreases e, 0
  {
    match e {
      case Bin(op, l, r) =>
        CompileRefinesEval(l, parts, scope);
        CompileRefinesEval(r, parts, scope);
      case Not(x) => CompileRefinesEval(x, parts, scope);
      case Neg(x) => CompileRefinesEval(x, parts, scope);
      case IsNull(x, _) => CompileRefinesEval(x, parts, scope);
      case Between(x, lo, hi, _) =>
        CompileRefinesEval(x, parts, scope);
        CompileRefinesEval(lo, parts, scope);
        CompileRefinesEval(hi, parts, scope);
      case InList(x, items, negated) =>
        CompileRefinesEval(x, parts, scope);
        var a := Eval(x, parts, scope);
        if a.Val? && a.v != Null {
          ItemsRefine(items, a.v, parts, scope, false, negated);
        }
      case _ =>
    }
  }

  lemma {:induction false} ItemsRefine(items: seq<Expr>, v: Value, parts: Parts, scope: Scope, sawNull: bool,
                                       negated: bool)
    requires CompileAll(items, scope).Some?
    ensures var r := EvalItems(items, v, parts, scope, sawNull, negated);
      r.Val? ==> RunItems(CompileAll(items, scope).value, v, parts, sawNull, negated) == r
    decreases items, 1
  {
    if items != [] {
      CompileRefinesEval(items[0], parts, scope);
      var fs := CompileAll(items, scope).value;
      assert fs[1..] == CompileAll(items[1..], scope).value;
      ItemsRefine(items[1..], v, parts, scope, true, negated);
      ItemsRefine(items[1..], v, parts, scope, sawNull, negated);
    }
  }

  /** The interpreter may fail where the closure answers: a false left side keeps AND
      from looking at its right side. */
  lemma ClosureAnswersMore()
    ensures var e := Bin(AndOp, Lit(Int(0)), Bin(Lt, Lit(Int(1)), Lit(Str("a"))));
      && Compile(e, []).Some?
      && Eval(e, [], []).Fail? && Compile(e, []).value([]) == Val(Bool(false))
  {
    var l, r := Lit(Int(0)), Bin(Lt, Lit(Int(1)), Lit(Str("a")));
    assert Compile(l, []).value([]) == Val(Int(0));
    assert Compile(Bin(AndOp, l, r), []).value == AndThen(Compile(l, []).value, Compile(r, []).value);
  }

  /** What the interpreter says when it says something. */
  lemma {:induction false} EvalAnd(l: Expr, r: Expr, parts: Parts, scope: Scope)
    requires Compile(Bin(AndOp, l, r), scope).Some?
    ensures Compile(l, scope).Some? && Compile(r, scope).Some?
    ensures Compile(Bin(AndOp, l, r), scope).value(parts) == Val(Bool(true)) <==>
            Holds(Compile(l, scope).value(parts)) && Holds(Compile(r, scope).value(parts))
  {
  }

  predicate Holds(o: Out) {
    o.Val? && o.v != Null && Truthy(o.v)
  }

  // ---- WHERE, conjunct by conjunct -----------------------------------------------------------

  /** `flatten_and` */
  function FlattenAnd(e: Expr): (cs: seq<Expr>)
    ensures cs != []
  {
    match e
    case Bin(AndOp, l, r) => FlattenAnd(l) + FlattenAnd(r)
    case _ => [e]
  }

  ghost predicate AllHold(cs: seq<Expr>, parts: Parts, scope: Scope) {
    forall c :: c in cs ==> Compile(c, scope).Some? && Holds(Compile(c, scope).value(parts))
  }

  /** A filter keeps a row when its closure returns True itself. */
  predicate Keeps(c: Expr, parts: Parts, scope: Scope) {
    Compile(c, scope).Some? && Compile(c, scope).value(parts) == Val(Bool(true))
  }

  /** The closure raises an exception. */
  predicate Raises(c: Expr, parts: Parts, scope: Scope) {
    Compile(c, scope).Some? && Compile(c, scope).value(parts) == Fail
  }

  ghost predicate AllKeep(cs: seq<Expr>, parts: Parts, scope: Scope) {
    forall c :: c in cs ==> Keeps(c, parts, scope)
  }

  /** A condition holds if and only if each of its conjuncts does; whether or not any of
      them fails. */
  lemma {:induction false} ConjunctsHold(e: Expr, parts: Parts, scope: Scope)
    requires Compile(e, scope).Some?
    ensures Holds(Compile(e, scope).value(parts)) <==> AllHold(FlattenAnd(e), parts, scope)
    decreases e
  {
    match e
    case Bin(AndOp, l, r) =>
      EvalAnd(l, r, parts, scope);
      ConjunctsHold(l, parts, scope);
      ConjunctsHold(r, parts, scope);
      AndIsBoolean(e, parts, scope);
      hide Compile, Holds;
    case _ =>
  }

  lemma AndIsBoolean(e: Expr, parts: Parts, scope: Scope)
    requires e.Bin? && e.op.AndOp? && Compile(e, scope).Some?
    ensures Holds(Compile(e, scope).value(parts)) <==> Compile(e, scope).value(parts) == Val(Bool(true))
  {
  }

  /** Some conjunct is true to Python without being True, as in WHERE 1 AND 2. */
  ghost predicate LooseConjunct(cs: seq<Expr>, parts: Parts, scope: Scope) {
    exists c :: c in cs && Compile(c, scope).Some? && Holds(Compile(c, scope).value(parts)) && !Keeps(c, parts, scope)
  }

  /** Filtering by the whole WHERE and filtering by its conjuncts one after the other keep
      the same rows, if and only if it is not the case that all conjuncts hold and one
      of them is not a Boolean. Without an AND there is no difference. */
  lemma WhereByConjuncts(e: Expr, parts: Parts, scope: Scope)
    requires Compile(e, scope).Some?
    ensures AllKeep(FlattenAnd(e), parts, scope) ==> Keeps(e, parts, scope)
    ensures (Keeps(e, parts, scope) <==> AllKeep(FlattenAnd(e), parts, scope)) <==>
            !(e.Bin? && e.op.AndOp? && AllHold(FlattenAnd(e), parts, scope) &&
              LooseConjunct(FlattenAnd(e), parts, scope))
  {
    ConjunctsHold(e, parts, scope);
    if e.Bin? && e.op.AndOp? {
      AndIsBoolean(e, parts, scope);
      hide Compile, Holds, FlattenAnd;
    } else {
      assert FlattenAnd(e) == [e];
    }
  }

  lemma LooseWhere()
    ensures var e := Bin(AndOp, Lit(Int(1)), Lit(Int(2)));
      Keeps(e, [], []) && !AllKeep(FlattenAnd(e), [], [])
  {
    assert FlattenAnd(Bin(AndOp, Lit(Int(1)), Lit(Int(2)))) == [Lit(Int(1)), Lit(Int(2))];
    assert !Keeps(Lit(Int(1)), [], []);
  }

  /** Comparisons, tests and connectives are Boolean. */
  predicate BooleanValued(e: Expr) {
    match e
    case Bin(op, _, _) => !op.Add? && !op.Sub? && !op.Mul? && !op.Div?
    case Not(_) => true
    case IsNull(_, _) => true
    case Between(_, _, _, _) => true
    case InList(_, _, _) => true
    case _ => false
  }

  lemma {:induction false} ItemsBoolean(items: seq<Closure>, v: Value, parts: Parts, sawNull: bool, negated: bool)
    ensures var r := RunItems(items, v, parts, sawNull, negated); r.Val? ==> r.v.Null? || r.v.Bool?
    decreases |items|
  {
    if items != [] {
      ItemsBoolean(items[1..], v, parts, true, negated);
      ItemsBoolean(items[1..], v, parts, sawNull, negated);
    }
  }

  lemma BooleanIsStrict(e: Expr, parts: Parts, scope: Scope)
    requires Compile(e, scope).Some? && BooleanValued(e)
    ensures Holds(Compile(e, scope).value(parts)) <==> Keeps(e, parts, scope)
  {
    match e
    case InList(x, items, negated) =>
      var a := Compile(x, scope).value(parts);
      if a.Val? && a.v != Null {
        ItemsBoolean(CompileAll(items, scope).value, a.v, parts, false, negated);
      }
    case Between(x, lo, hi, negated) =>
      var f, g, h := Compile(x, scope).value, Compile(lo, scope).value, Compile(hi, scope).value;
      BetweenIsBoolean(f, g, h, negated, parts);
      assert Compile(e, scope).value == BetweenOf(f, g, h, negated);
    case Bin(op, l, r) =>
      var f, g := Compile(l, scope).value, Compile(r, scope).value;
      if !op.AndOp? && !op.OrOp? {
        StrictIsBoolean(op, f, g, parts);
        assert Compile(e, scope).value == Both(op, f, g);
      }
    case _ =>
  }

  lemma StrictIsBoolean(op: Op, l: Closure, r: Closure, parts: Parts)
    requires op.Eq? || op.Ne? || op.Lt? || op.Le? || op.Gt? || op.Ge?
    ensures var o := Both(op, l, r)(parts); o.Val? ==> o.v.Null? || o.v.Bool?
  {
    var a, b := l(parts), r(parts);
    if a.Val? && b.Val? {
      assert Both(op, l, r)(parts) == Strict(op, a.v, b.v);
    }
  }

  lemma BetweenIsBoolean(f: Closure, g: Closure, h: Closure, negated: bool, parts: Parts)
    ensures var o := BetweenOf(f, g, h, negated)(parts); o.Val? ==> o.v.Null? || o.v.Bool?
  {
    var a, b, c := f(parts), g(parts), h(parts);
    if a.Val? && b.Val? && c.Val? && a.v != Null && b.v != Null && c.v != Null {
      assert BetweenOf(f, g, h, negated)(parts) == Sql.Inside(a.v, b.v, c.v, negated);
    }
  }

  /** With Boolean conjuncts the two filters are the same on every row. */
  lemma BooleanWhere(e: Expr, parts: Parts, scope: Scope)
    requires Compile(e, scope).Some? && forall c :: c in FlattenAnd(e) ==> BooleanValued(c)
    ensures Keeps(e, parts, scope) <==> AllKeep(FlattenAnd(e), parts, scope)
  {
    WhereByConjuncts(e, parts, scope);
    forall c | c in FlattenAnd(e) && Compile(c, scope).Some?
      ensures Holds(Compile(c, scope).value(parts)) <==> Keeps(c, parts, scope)
    {
      BooleanIsStrict(c, parts, scope);
    }
    hide Compile, Holds, FlattenAnd, Keeps;
  }

  // ---- where a chain of conjuncts stops ------------------------------------------------------

  /** The closure says False (or a value that Python takes for it): an AND stops there. */
  predicate Cuts(c: Expr, parts: Parts, scope: Scope) {
    Compile(c, scope).Some? &&
    var o := Compile(c, scope).value(parts);
    o.Val? && o.v != Null && !Truthy(o.v)
  }

  datatype Fate = Raised | Cut | Through

  /** Conjuncts from left to right: one raises, one is False, or all are passed. */
  function FateOf(cs: seq<Expr>, parts: Parts, scope: Scope): Fate {
    if cs == [] then Through
    else if Raises(cs[0], parts, scope) then Raised
    else if Cuts(cs[0], parts, scope) then Cut
    else FateOf(cs[1..], parts, scope)
  }

  lemma {:induction false} FateConcat(a: seq<Expr>, b: seq<Expr>, parts: Parts, scope: Scope)
    ensures FateOf(a + b, parts, scope) ==
            if FateOf(a, parts, scope).Through? then FateOf(b, parts, scope) else FateOf(a, parts, scope)
    decreases |a|
  {
    hide Raises, Cuts;
    if a == [] {
      assert a + b == b;
    } else {
      assert (a + b)[1..] == a[1..] + b;
      FateConcat(a[1..], b, parts, scope);
    }
  }

  /** Evaluating a condition is evaluating its conjuncts from left to right, up to the first
      one that raises or is False. */
  lemma {:induction false} ChainStops(e: Expr, parts: Parts, scope: Scope)
    requires Compile(e, scope).Some?
    ensures Raises(e, parts, scope) <==> FateOf(FlattenAnd(e), parts, scope).Raised?
    ensures Cuts(e, parts, scope) <==> FateOf(FlattenAnd(e), parts, scope).Cut?
    decreases e
  {
    if e.Bin? && e.op.AndOp? {
      var f, g := Compile(e.left, scope).value, Compile(e.right, scope).value;
      ChainStops(e.left, parts, scope);
      ChainStops(e.right, parts, scope);
      FateConcat(FlattenAnd(e.left), FlattenAnd(e.right), parts, scope);
      assert Compile(e, scope).value == AndThen(f, g);
      hide FateOf, FlattenAnd, Compile;
    } else {
      assert FlattenAnd(e) == [e];
      assert [e][1..] == [];
    }
  }

  /** A chain raises if and only if one of its conjuncts does and none in front of it is
      False. */
  lemma {:induction false} RaisedUncut(cs: seq<Expr>, parts: Parts, scope: Scope)
    ensures FateOf(cs, parts, scope).Raised? <==>
      exists i :: 0 <= i < |cs| && RaisesUncut(cs, i, parts, scope)
    decreases |cs|
  {
    if cs != [] {
      var rest := cs[1..];
      RaisedUncut(rest, parts, scope);
      hide Raises, Cuts;
      if i :| 0 <= i < |cs| && RaisesUncut(cs, i, parts, scope) {
        if i > 0 {
          assert RaisesUncut(rest, i - 1, parts, scope);
        }
      }
      if Raises(cs[0], parts, scope) {
        assert RaisesUncut(cs, 0, parts, scope);
      } else if i :| 0 <= i < |rest| && RaisesUncut(rest, i, parts, scope) && !Cuts(cs[0], parts, scope) {
        assert forall k :: 0 < k <= i ==> cs[k] == rest[k - 1];
        assert RaisesUncut(cs, i + 1, parts, scope);
      }
    }
  }

  /** Conjunct i raises, and no conjunct in front of it is False. */
  predicate RaisesUncut(cs: seq<Expr>, i: nat, parts: Parts, scope: Scope)
    requires i < |cs|
  {
    Raises(cs[i], parts, scope) && forall k :: 0 <= k < i ==> !Cuts(cs[k], parts, scope)
  }
}
