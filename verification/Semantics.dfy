// What the operators of SQL say (eval_expr and compile_expr in leafdb/executor.py), for any
// operands and for both evaluators: the comparisons, the arithmetic, the three-valued
// tables, BETWEEN, IN, and the column a name refers to.

module Semantics {
  import opened Bytes
  import opened Sql
  import opened Evaluate
  import opened Values

  // ---- comparisons and arithmetic -------------------------------------------------------------

  /** The answer of an operator on two values, neither of them NULL. */
  ghost predicate Answers(op: Op, v: Value, w: Value, o: Out) {
    match op
    case Eq => o == Val(Bool(Same(v, w)))
    case Ne => o == Val(Bool(!Same(v, w)))
    case Lt => o == if Comparable(v, w) then Val(Bool(Less(v, w))) else Fail
    case Le => o == if Comparable(v, w) then Val(Bool(Less(v, w) || Same(v, w))) else Fail
    case Gt => o == if Comparable(v, w) then Val(Bool(Less(w, v))) else Fail
    case Ge => o == if Comparable(v, w) then Val(Bool(Less(w, v) || Same(v, w))) else Fail
    case Add => o == if v.Int? && w.Int? then Val(Int(v.i + w.i)) else Fail
    case Sub => o == if v.Int? && w.Int? then Val(Int(v.i - w.i)) else Fail
    case Mul => o == if v.Int? && w.Int? then Val(Int(v.i * w.i)) else Fail
    case _ => true
  }

  /** The answer on two operands: an exception of either passes on, and a NULL makes NULL. */
  ghost predicate BinaryMeans(op: Op, a: Out, b: Out, o: Out) {
    if a.Fail? || b.Fail? then o == Fail
    else if a.v == Null || b.v == Null then o == Val(Null)
    else Answers(op, a.v, b.v, o)
  }

  predicate Plain(op: Op) {
    !op.AndOp? && !op.OrOp? && !op.Div?
  }

  lemma StrictAnswers(op: Op, v: Value, w: Value)
    requires Plain(op) && v != Null && w != Null
    ensures Answers(op, v, w, Strict(op, v, w))
  {
    EqualIs(v, w);
    OrderCmpIs(v, w);
    hide Equal, OrderCmp, Less, Same, Comparable;
  }

  /** Comparisons and arithmetic as SELECT compiles them */
  lemma CompiledBinary(op: Op, l: Expr, r: Expr, parts: Parts, scope: Scope)
    requires Plain(op) && Compile(Bin(op, l, r), scope).Some?
    ensures Compile(l, scope).Some? && Compile(r, scope).Some?
    ensures BinaryMeans(op, Compile(l, scope).value(parts), Compile(r, scope).value(parts),
                        Compile(Bin(op, l, r), scope).value(parts))
  {
    var f, g := Compile(l, scope).value, Compile(r, scope).value;
    assert Compile(Bin(op, l, r), scope).value == Both(op, f, g);
    var a, b := f(parts), g(parts);
    hide Strict, Answers;
    if a.Val? && b.Val? {
      assert Both(op, f, g)(parts) == Strict(op, a.v, b.v);
      if a.v != Null && b.v != Null {
        StrictAnswers(op, a.v, b.v);
      } else {
        NullIsNull(op, a.v, b.v);
      }
    }
  }

  lemma NullIsNull(op: Op, v: Value, w: Value)
    requires Plain(op) && (v == Null || w == Null)
    ensures Strict(op, v, w) == Val(Null)
  {
  }

  /** And as UPDATE and DELETE interpret them */
  lemma EvaluatedBinary(op: Op, l: Expr, r: Expr, parts: Parts, scope: Scope)
    requires Plain(op)
    ensures BinaryMeans(op, Eval(l, parts, scope), Eval(r, parts, scope), Eval(Bin(op, l, r), parts, scope))
  {
    var a, b := Eval(l, parts, scope), Eval(r, parts, scope);
    hide Strict, Answers;
    if a.Val? && b.Val? {
      if a.v != Null && b.v != Null {
        StrictAnswers(op, a.v, b.v);
      } else {
        NullIsNull(op, a.v, b.v);
      }
    }
  }

  /** Unary minus, and IS NULL, on what the operand says */
  ghost predicate MinusMeans(a: Out, o: Out) {
    if a.Fail? then o == Fail
    else match a.v
         case Null => o == Val(Null)
         case Int(i) => o == Val(Int(-i))
         case _ => o == Fail
  }

  ghost predicate NullTestMeans(negated: bool, a: Out, o: Out) {
    if a.Fail? then o == Fail
    else if a.v == Null then o == Val(Bool(!negated))
    else o == Val(Bool(negated))
  }

  lemma UnaryMeans(x: Expr, negated: bool, parts: Parts, scope: Scope)
    ensures MinusMeans(Eval(x, parts, scope), Eval(Neg(x), parts, scope))
    ensures NullTestMeans(negated, Eval(x, parts, scope), Eval(IsNull(x, negated), parts, scope))
    ensures Compile(Neg(x), scope).Some? <==> Compile(x, scope).Some?
    ensures Compile(IsNull(x, negated), scope).Some? <==> Compile(x, scope).Some?
    ensures Compile(x, scope).Some? ==>
      var a := Compile(x, scope).value(parts);
      && MinusMeans(a, Compile(Neg(x), scope).value(parts))
      && NullTestMeans(negated, a, Compile(IsNull(x, negated), scope).value(parts))
  {
    if Compile(x, scope).Some? {
      var f := Compile(x, scope).value;
      assert Compile(Neg(x), scope).value == NegOf(f);
      assert Compile(IsNull(x, negated), scope).value == NullTest(f, negated);
    }
  }

  // ---- AND, OR and NOT ------------------------------------------------------------------------

  datatype Truth = Yes | No | Unknown

  /** What a value says as a condition: NULL is unknown, and so is nothing else; 0 and the empty
      text are false. */
  function TruthOf(v: Value): Truth {
    match v
    case Null => Unknown
    case Bool(b) => if b then Yes else No
    case Int(i) => if i == 0 then No else Yes
    case Str(s) => if |s| == 0 then No else Yes
  }

  function Said(t: Truth): Value {
    match t
    case Yes => Bool(true)
    case No => Bool(false)
    case Unknown => Null
  }

  function AndTable(a: Truth, b: Truth): Truth {
    match (a, b)
    case (Yes, Yes) => Yes
    case (Yes, No) => No
    case (Yes, Unknown) => Unknown
    case (No, Yes) => No
    case (No, No) => No
    case (No, Unknown) => No
    case (Unknown, Yes) => Unknown
    case (Unknown, No) => No
    case (Unknown, Unknown) => Unknown
  }

  function OrTable(a: Truth, b: Truth): Truth {
    match (a, b)
    case (Yes, Yes) => Yes
    case (Yes, No) => Yes
    case (Yes, Unknown) => Yes
    case (No, Yes) => Yes
    case (No, No) => No
    case (No, Unknown) => Unknown
    case (Unknown, Yes) => Yes
    case (Unknown, No) => Unknown
    case (Unknown, Unknown) => Unknown
  }

  function NotTable(a: Truth): Truth {
    match a
    case Yes => No
    case No => Yes
    case Unknown => Unknown
  }

  function TableOf(op: Op, a: Truth, b: Truth): Truth
    requires op.AndOp? || op.OrOp?
  {
    if op.AndOp? then AndTable(a, b) else OrTable(a, b)
  }

  /** The interpreter looks at both sides. */
  lemma EvaluatedConnective(op: Op, l: Expr, r: Expr, parts: Parts, scope: Scope)
    requires op.AndOp? || op.OrOp?
    ensures var a, b := Eval(l, parts, scope), Eval(r, parts, scope);
      Eval(Bin(op, l, r), parts, scope) ==
      if a.Fail? || b.Fail? then Fail else Val(Said(TableOf(op, TruthOf(a.v), TruthOf(b.v))))
  {
  }

  /** The closure does not look at the right side when the left one decides. */
  lemma CompiledConnective(op: Op, l: Expr, r: Expr, parts: Parts, scope: Scope)
    requires (op.AndOp? || op.OrOp?) && Compile(Bin(op, l, r), scope).Some?
    ensures Compile(l, scope).Some? && Compile(r, scope).Some?
    ensures var a, b := Compile(l, scope).value(parts), Compile(r, scope).value(parts);
      Compile(Bin(op, l, r), scope).value(parts) ==
      if a.Fail? then Fail
      else if TruthOf(a.v) == (if op.AndOp? then No else Yes) then Val(Bool(op.OrOp?))
      else if b.Fail? then Fail
      else Val(Said(TableOf(op, TruthOf(a.v), TruthOf(b.v))))
  {
    var f, g := Compile(l, scope).value, Compile(r, scope).value;
    assert Compile(Bin(op, l, r), scope).value == if op.AndOp? then AndThen(f, g) else OrElse(f, g);
  }

  lemma NotMeans(x: Expr, parts: Parts, scope: Scope)
    ensures var a := Eval(x, parts, scope);
      Eval(Not(x), parts, scope) == if a.Fail? then Fail else Val(Said(NotTable(TruthOf(a.v))))
    ensures Compile(Not(x), scope).Some? <==> Compile(x, scope).Some?
    ensures Compile(x, scope).Some? ==>
      var a := Compile(x, scope).value(parts);
      Compile(Not(x), scope).value(parts) == if a.Fail? then Fail else Val(Said(NotTable(TruthOf(a.v))))
  {
    if Compile(x, scope).Some? {
      assert Compile(Not(x), scope).value == NotOf(Compile(x, scope).value);
    }
  }

  // ---- BETWEEN ---------------------------------------------------------------------------------

  /** Whether a value lies between two others, both ends included. */
  ghost predicate Between3(v: Value, lo: Value, hi: Value) {
    (Less(lo, v) || Same(lo, v)) && (Less(v, hi) || Same(v, hi))
  }

  /** The answer on three values: NULL if any is, the exception if they do not compare. */
  ghost function BetweenAnswer(v: Value, lo: Value, hi: Value, negated: bool): Out {
    if v == Null || lo == Null || hi == Null then Val(Null)
    else if !Comparable(v, lo) || !Comparable(v, hi) then Fail
    else Val(Bool(if negated then !Between3(v, lo, hi) else Between3(v, lo, hi)))
  }

  lemma InsideIs(v: Value, lo: Value, hi: Value, negated: bool)
    requires v != Null && lo != Null && hi != Null
    ensures Sql.Inside(v, lo, hi, negated) == BetweenAnswer(v, lo, hi, negated)
  {
    OrderCmpIs(v, lo);
    OrderCmpIs(v, hi);
    SameSymmetric(v, lo);
    hide OrderCmp, Less, Same, Comparable;
  }

  lemma SameSymmetric(v: Value, w: Value)
    ensures Same(v, w) <==> Same(w, v)
  {
  }

  lemma EvaluatedBetween(x: Expr, lo: Expr, hi: Expr, negated: bool, parts: Parts, scope: Scope)
    ensures var a, b, c := Eval(x, parts, scope), Eval(lo, parts, scope), Eval(hi, parts, scope);
      Eval(Between(x, lo, hi, negated), parts, scope) ==
      if a.Fail? || b.Fail? || c.Fail? then Fail else BetweenAnswer(a.v, b.v, c.v, negated)
  {
    var a, b, c := Eval(x, parts, scope), Eval(lo, parts, scope), Eval(hi, parts, scope);
    if a.Val? && b.Val? && c.Val? && a.v != Null && b.v != Null && c.v != Null {
      InsideIs(a.v, b.v, c.v, negated);
    }
    hide Sql.Inside, Less, Same, Comparable;
  }

  /** The closure does not look at the ends when the value is NULL. */
  lemma CompiledBetween(x: Expr, lo: Expr, hi: Expr, negated: bool, parts: Parts, scope: Scope)
    requires Compile(Between(x, lo, hi, negated), scope).Some?
    ensures Compile(x, scope).Some? && Compile(lo, scope).Some? && Compile(hi, scope).Some?
    ensures var a := Compile(x, scope).value(parts);
      var b, c := Compile(lo, scope).value(parts), Compile(hi, scope).value(parts);
      Compile(Between(x, lo, hi, negated), scope).value(parts) ==
      if a.Fail? then Fail
      else if a.v == Null then Val(Null)
      else if b.Fail? || c.Fail? then Fail
      else BetweenAnswer(a.v, b.v, c.v, negated)
  {
    var f, g, h := Compile(x, scope).value, Compile(lo, scope).value, Compile(hi, scope).value;
    assert Compile(Between(x, lo, hi, negated), scope).value == BetweenOf(f, g, h, negated);
    var a, b, c := f(parts), g(parts), h(parts);
    hide Sql.Inside, Less, Same, Comparable, Compile;
    if a.Val? && b.Val? && c.Val? && a.v != Null && b.v != Null && c.v != Null {
      InsideIs(a.v, b.v, c.v, negated);
      assert BetweenOf(f, g, h, negated)(parts) == Sql.Inside(a.v, b.v, c.v, negated);
    }
  }

  /** Where nothing is NULL and everything compares, x BETWEEN lo AND hi is
      lo <= x AND x <= hi. */
  lemma BetweenIsAnd(x: Expr, lo: Expr, hi: Expr, parts: Parts, scope: Scope)
    requires Compile(Between(x, lo, hi, false), scope).Some?
    requires Compile(x, scope).Some? && Compile(lo, scope).Some? && Compile(hi, scope).Some?
    requires var a, b := Compile(x, scope).value(parts), Compile(lo, scope).value(parts);
      var c := Compile(hi, scope).value(parts);
      && a.Val? && b.Val? && c.Val? && a.v != Null && b.v != Null && c.v != Null
      && Comparable(a.v, b.v) && Comparable(a.v, c.v)
    ensures var both := Bin(AndOp, Bin(Le, lo, x), Bin(Le, x, hi));
      && Compile(both, scope).Some?
      && Compile(Between(x, lo, hi, false), scope).value(parts) == Compile(both, scope).value(parts)
  {
    var first, second := Bin(Le, lo, x), Bin(Le, x, hi);
    assert Compile(first, scope).Some? && Compile(second, scope).Some?;
    assert Compile(Bin(AndOp, first, second), scope).Some?;
    CompiledBinary(Le, lo, x, parts, scope);
    CompiledBinary(Le, x, hi, parts, scope);
    CompiledConnective(AndOp, first, second, parts, scope);
    CompiledBetween(x, lo, hi, false, parts, scope);
    hide Compile, Less, Same;
  }

  // ---- IN --------------------------------------------------------------------------------------

  /** The item is the value. */
  predicate Hit(v: Value, o: Out) {
    o.Val? && o.v != Null && Same(v, o.v)
  }

  /** The items in front of number k are values, and none is the one looked for. */
  predicate Missed(v: Value, outs: seq<Out>, k: nat)
    requires k <= |outs|
  {
    forall j :: 0 <= j < k ==> outs[j].Val? && !Hit(v, outs[j])
  }

  /** The answer of an IN list: the first item that is the value or raises decides; if there
      is none, a NULL among the items makes NULL. */
  ghost predicate ListMeans(v: Value, outs: seq<Out>, sawNull: bool, negated: bool, o: Out) {
    && (forall k :: 0 <= k < |outs| && Missed(v, outs, k) && Hit(v, outs[k]) ==> o == Val(Bool(!negated)))
    && (forall k :: 0 <= k < |outs| && Missed(v, outs, k) && outs[k].Fail? ==> o == Fail)
    && (Missed(v, outs, |outs|) ==>
          o == Val(if sawNull || SomeNull(outs) then Null else Bool(negated)))
  }

  ghost predicate SomeNull(outs: seq<Out>) {
    exists k :: 0 <= k < |outs| && outs[k] == Val(Null)
  }

  lemma FirstItem(v: Value, outs: seq<Out>, sawNull: bool, negated: bool, o: Out)
    requires outs != []
    ensures var first, rest := outs[0], outs[1..];
      ListMeans(v, outs, sawNull, negated, o) <==>
      if first.Fail? then o == Fail
      else if Hit(v, first) then o == Val(Bool(!negated))
      else ListMeans(v, rest, sawNull || first.v == Null, negated, o)
  {
    var first, rest := outs[0], outs[1..];
    hide Same;
    assert Missed(v, outs, 0);
    if first.Fail? || Hit(v, first) {
      assert forall k :: 0 < k <= |outs| ==> !Missed(v, outs, k);
    } else {
      forall k | 0 <= k <= |rest|
        ensures Missed(v, rest, k) <==> Missed(v, outs, k + 1)
      {
        assert forall j :: 0 <= j < k ==> rest[j] == outs[j + 1];
        if Missed(v, rest, k) {
          forall j | 0 <= j < k + 1
            ensures outs[j].Val? && !Hit(v, outs[j])
          {
            assert j > 0 ==> outs[j] == rest[j - 1];
          }
        }
      }
      RestOfItems(v, outs, sawNull, negated, o);
    }
  }

  lemma NullInFront(outs: seq<Out>)
    requires outs != []
    ensures SomeNull(outs) <==> outs[0] == Val(Null) || SomeNull(outs[1..])
  {
    var rest := outs[1..];
    if k :| 0 <= k < |outs| && outs[k] == Val(Null) {
      assert k > 0 ==> rest[k - 1] == outs[k];
    }
    if k :| 0 <= k < |rest| && rest[k] == Val(Null) {
      assert outs[k + 1] == rest[k];
    }
  }

  lemma RestOfItems(v: Value, outs: seq<Out>, sawNull: bool, negated: bool, o: Out)
    requires outs != [] && outs[0].Val? && !Hit(v, outs[0])
    requires forall k :: 0 <= k <= |outs[1..]| ==> (Missed(v, outs[1..], k) <==> Missed(v, outs, k + 1))
    ensures ListMeans(v, outs, sawNull, negated, o) <==>
            ListMeans(v, outs[1..], sawNull || outs[0].v == Null, negated, o)
  {
    var rest := outs[1..];
    NullInFront(outs);
    hide Hit, Missed, SomeNull;
    assert forall k :: 0 <= k < |rest| ==> rest[k] == outs[k + 1];
    if ListMeans(v, rest, sawNull || outs[0].v == Null, negated, o) {
      forall k | 0 <= k < |outs| && Missed(v, outs, k)
        ensures Hit(v, outs[k]) ==> o == Val(Bool(!negated))
        ensures outs[k].Fail? ==> o == Fail
      {
        if k > 0 {
          assert rest[k - 1] == outs[k] && Missed(v, rest, k - 1);
        }
      }
    }
  }

  /** The items of a list, each as it is compiled. */
  ghost predicate CompiledItems(items: seq<Expr>, outs: seq<Out>, parts: Parts, scope: Scope) {
    |outs| == |items| && forall k :: 0 <= k < |items| ==>
      Compile(items[k], scope).Some? && outs[k] == Compile(items[k], scope).value(parts)
  }

  lemma {:induction false} RunItemsMeans(items: seq<Expr>, v: Value, outs: seq<Out>, parts: Parts, scope: Scope,
                                         sawNull: bool, negated: bool)
    requires v != Null && CompileAll(items, scope).Some? && CompiledItems(items, outs, parts, scope)
    ensures ListMeans(v, outs, sawNull, negated,
                      RunItems(CompileAll(items, scope).value, v, parts, sawNull, negated))
    decreases |items|
  {
    if items != [] {
      var fs := CompileAll(items, scope).value;
      assert fs[0] == Compile(items[0], scope).value && fs[1..] == CompileAll(items[1..], scope).value;
      hide Compile, ListMeans;
      FirstItem(v, outs, sawNull, negated, RunItems(fs, v, parts, sawNull, negated));
      assert CompiledItems(items[1..], outs[1..], parts, scope);
      RunItemsMeans(items[1..], v, outs[1..], parts, scope, sawNull, negated);
      RunItemsMeans(items[1..], v, outs[1..], parts, scope, true, negated);
      if outs[0].Val? && outs[0].v != Null {
        EqualIs(v, outs[0].v);
      }
      hide Equal, Same, CompileAll;
    }
  }

  lemma CompiledIn(x: Expr, items: seq<Expr>, negated: bool, outs: seq<Out>, parts: Parts, scope: Scope)
    requires Compile(InList(x, items, negated), scope).Some? && CompiledItems(items, outs, parts, scope)
    ensures Compile(x, scope).Some?
    ensures var a, o := Compile(x, scope).value(parts), Compile(InList(x, items, negated), scope).value(parts);
      if a.Fail? then o == Fail else if a.v == Null then o == Val(Null) else ListMeans(a.v, outs, false, negated, o)
  {
    var f, fs := Compile(x, scope).value, CompileAll(items, scope).value;
    assert Compile(InList(x, items, negated), scope).value == InOf(f, fs, negated);
    var a := f(parts);
    hide Compile, CompileAll, ListMeans;
    if a.Val? && a.v != Null {
      RunItemsMeans(items, a.v, outs, parts, scope, false, negated);
    }
  }

  ghost predicate EvaluatedItems(items: seq<Expr>, outs: seq<Out>, parts: Parts, scope: Scope) {
    |outs| == |items| && forall k :: 0 <= k < |items| ==> outs[k] == Eval(items[k], parts, scope)
  }

  lemma {:induction false} EvalItemsMeans(items: seq<Expr>, v: Value, outs: seq<Out>, parts: Parts, scope: Scope,
                                          sawNull: bool, negated: bool)
    requires v != Null && EvaluatedItems(items, outs, parts, scope)
    ensures ListMeans(v, outs, sawNull, negated, EvalItems(items, v, parts, scope, sawNull, negated))
    decreases |items|
  {
    if items != [] {
      hide Eval, ListMeans;
      FirstItem(v, outs, sawNull, negated, EvalItems(items, v, parts, scope, sawNull, negated));
      assert EvaluatedItems(items[1..], outs[1..], parts, scope);
      EvalItemsMeans(items[1..], v, outs[1..], parts, scope, sawNull, negated);
      EvalItemsMeans(items[1..], v, outs[1..], parts, scope, true, negated);
      if outs[0].Val? && outs[0].v != Null {
        EqualIs(v, outs[0].v);
      }
      hide Equal, Same;
    }
  }

  lemma EvaluatedIn(x: Expr, items: seq<Expr>, negated: bool, outs: seq<Out>, parts: Parts, scope: Scope)
    requires EvaluatedItems(items, outs, parts, scope)
    ensures var a, o := Eval(x, parts, scope), Eval(InList(x, items, negated), parts, scope);
      if a.Fail? then o == Fail else if a.v == Null then o == Val(Null) else ListMeans(a.v, outs, false, negated, o)
  {
    var a := Eval(x, parts, scope);
    hide ListMeans;
    if a.Val? && a.v != Null {
      EvalItemsMeans(items, a.v, outs, parts, scope, false, negated);
    }
  }

  // ---- columns ---------------------------------------------------------------------------------

  /** A name refers to column j of source i: with a table name, of the first source of that
      name; without, of the only source that has such a column. */
  ghost predicate RefersTo(scope: Scope, table: Option<string>, name: string, i: nat, j: nat) {
    && i < |scope| && j < |scope[i].cols|
    && scope[i].cols[j] == name && (forall k :: 0 <= k < j ==> scope[i].cols[k] != name)
    && match table
       case Some(alias) => scope[i].alias == alias && forall k :: 0 <= k < i ==> scope[k].alias != alias
       case None => forall k :: 0 <= k < |scope| && name in scope[k].cols ==> k == i
  }

  lemma {:induction false} IndexOfIs(names: seq<string>, name: string)
    requires name in names
    ensures forall k :: 0 <= k < IndexOf(names, name) ==> names[k] != name
    decreases |names|
  {
    if names[0] != name {
      IndexOfIs(names[1..], name);
    }
  }

  lemma {:induction false} SourceOfMeans(scope: Scope, alias: string)
    ensures match SourceOf(scope, alias)
            case Some(i) => i < |scope| && scope[i].alias == alias && forall k :: 0 <= k < i ==> scope[k].alias != alias
            case None => forall k :: 0 <= k < |scope| ==> scope[k].alias != alias
    decreases |scope|
  {
    if scope != [] && scope[0].alias != alias {
      SourceOfMeans(scope[1..], alias);
    }
  }

  /** Resolving a name finds the column it refers to, and fails if there is none. */
  lemma ResolveMeans(scope: Scope, table: Option<string>, name: string, i: nat, j: nat)
    ensures Resolve(scope, table, name) == Some((i, j)) <==> RefersTo(scope, table, name, i, j)
  {
    hide SourceOf, Hits, IndexOf;
    if i < |scope| && name in scope[i].cols {
      IndexOfIs(scope[i].cols, name);
    }
    if table.Some? {
      SourceOfMeans(scope, table.value);
    } else {
      OnlyHit(scope, name, i);
    }
  }

  lemma OnlyHit(scope: Scope, name: string, i: nat)
    ensures Hits(scope, name, 0) == [i] <==>
            i < |scope| && name in scope[i].cols && forall k :: 0 <= k < |scope| && name in scope[k].cols ==> k == i
  {
    var hits := Hits(scope, name, 0);
    HitsOnce(scope, name, 0);
    hide Hits;
    if hits == [i] {
      assert i in hits;
    }
    if i < |scope| && name in scope[i].cols && forall k :: 0 <= k < |scope| && name in scope[k].cols ==> k == i {
      assert i in hits;
      forall x | 0 <= x < |hits|
        ensures hits[x] == i
      {
        assert hits[x] in hits;
      }
      if |hits| > 1 {
        TwoDiffer(hits);
      }
    }
  }

  lemma TwoDiffer(s: seq<nat>)
    requires Climbs(s, 0) && |s| > 1
    ensures s[0] < s[1]
  {
  }

  /** Ascending numbers, from i on. */
  ghost predicate Climbs(s: seq<nat>, i: nat) {
    && (forall x :: 0 <= x < |s| ==> i <= s[x])
    && (forall x, y :: 0 <= x < y < |s| ==> s[x] < s[y])
  }

  lemma {:induction false} HitsOnce(scope: Scope, name: string, i: nat)
    ensures Climbs(Hits(scope, name, i), i)
    decreases |scope| - i
  {
    if i < |scope| {
      HitsOnce(scope, name, i + 1);
      var first := if name in scope[i].cols then [i] else [];
      assert Hits(scope, name, i) == first + Hits(scope, name, i + 1);
      hide Hits;
      OneInFront(first, Hits(scope, name, i + 1), i);
    }
  }

  lemma OneInFront(first: seq<nat>, rest: seq<nat>, i: nat)
    requires (first == [] || first == [i]) && Climbs(rest, i + 1)
    ensures Climbs(first + rest, i)
  {
  }

  /** A column that does not resolve is an exception; one that does is the value in its place
      of the row at hand, and NULL where an outer join has no row. */
  lemma ColumnMeans(table: Option<string>, name: string, i: nat, j: nat, parts: Parts, scope: Scope)
    requires RefersTo(scope, table, name, i, j) && i < |parts| && (parts[i].Some? ==> j < |parts[i].value|)
    ensures var here := Val(if parts[i].None? then Null else parts[i].value[j]);
      && Eval(Col(table, name), parts, scope) == here
      && Compile(Col(table, name), scope).Some?
      && Compile(Col(table, name), scope).value(parts) == here
  {
    ResolveMeans(scope, table, name, i, j);
    hide Resolve, RefersTo;
  }

  lemma NoColumn(table: Option<string>, name: string, parts: Parts, scope: Scope)
    requires forall i, j :: !RefersTo(scope, table, name, i, j)
    ensures Compile(Col(table, name), scope).None? && Eval(Col(table, name), parts, scope) == Fail
  {
    hide RefersTo, Resolve;
    if Resolve(scope, table, name).Some? {
      var (i, j) := Resolve(scope, table, name).value;
      ResolveMeans(scope, table, name, i, j);
    }
  }

  // ---- a comparison with a literal ---------------------------------------------------------------

  /** WHERE column < number keeps a row if and only if its value in the column is a smaller
      number. */
  lemma BelowKeeps(base: Source, row: Row, j: nat, n: int)
    requires j < |base.cols| == |row| && RefersTo([base], None, base.cols[j], 0, j)
    ensures Keeps(Bin(Lt, Col(None, base.cols[j]), Lit(Int(n))), [Some(row)], [base]) <==>
            Numeric(row[j]) && Number(row[j]) < n
  {
    var col, lit, parts := Col(None, base.cols[j]), Lit(Int(n)), [Some(row)];
    ColumnMeans(None, base.cols[j], 0, j, parts, [base]);
    assert Compile(lit, [base]).Some? && Compile(lit, [base]).value(parts) == Val(Int(n));
    assert Compile(Bin(Lt, col, lit), [base]).Some?;
    CompiledBinary(Lt, col, lit, parts, [base]);
    hide Compile, RefersTo;
  }
}
