// SQL expressions and values (the AST classes of leafdb/sqlparse.py; the value
// operations of leafdb/executor.py).

module Sql {
  import opened Bytes

  datatype Value = Null | Bool(b: bool) | Int(i: int) | Str(s: string)

  datatype Op = OrOp | AndOp | Eq | Ne | Lt | Le | Gt | Ge | Add | Sub | Mul | Div

  datatype Expr =
    | Lit(value: Value)
    | Col(table: Option<string>, name: string)
    | Bin(op: Op, left: Expr, right: Expr)
    | Not(operand: Expr)
    | Neg(operand: Expr)
    | IsNull(operand: Expr, negated: bool)
    | Between(operand: Expr, lo: Expr, hi: Expr, negated: bool)
    | InList(operand: Expr, items: seq<Expr>, negated: bool)
    | Like(operand: Expr, pattern: Expr, negated: bool)
    | Func(name: string, distinct: bool, arg: Option<Expr>)

  /** No LIKE and no division: what this model covers of the language. */
  predicate Covered(e: Expr)
    decreases e, 0
  {
    match e
    case Lit(_) => true
    case Col(_, _) => true
    case Bin(op, l, r) => !op.Div? && Covered(l) && Covered(r)
    case Not(x) => Covered(x)
    case Neg(x) => Covered(x)
    case IsNull(x, _) => Covered(x)
    case Between(x, lo, hi, _) => Covered(x) && Covered(lo) && Covered(hi)
    case InList(x, items, _) => Covered(x) && CoveredAll(items)
    case Like(_, _, _) => false
    case Func(_, _, arg) => arg.None? || Covered(arg.value)
  }

  predicate CoveredAll(items: seq<Expr>)
    decreases items, 1
  {
    items == [] || (Covered(items[0]) && CoveredAll(items[1..]))
  }

  /** A value, or an exception */
  datatype Out = Val(v: Value) | Fail

  // ---- Python's values -------------------------------------------------------------

  /** `bool(v)` */
  predicate Truthy(v: Value) {
    match v
    case Null => false
    case Bool(b) => b
    case Int(i) => i != 0
    case Str(s) => s != ""
  }

  /** A Boolean is the integer 0 or 1 to every comparison. */
  function AsInt(v: Value): int {
    match v
    case Bool(b) => if b then 1 else 0
    case Int(i) => i
    case _ => 0
  }

  /** Strings in code point order: negative, zero or positive. */
  function StrCmp(a: string, b: string): int {
    if a == [] then (if b == [] then 0 else -1)
    else if b == [] then 1
    else if a[0] != b[0] then (if a[0] < b[0] then -1 else 1)
    else StrCmp(a[1..], b[1..])
  }

  /** `_eq`, on values other than None */
  predicate Equal(l: Value, r: Value) {
    if l.Str? != r.Str? then false
    else if l.Str? then l.s == r.s
    else AsInt(l) == AsInt(r)
  }

  /** `_order_cmp`, on values other than None; None is the ExecutionError. */
  function OrderCmp(l: Value, r: Value): Option<int> {
    if l.Str? != r.Str? then None
    else if l.Str? then Some(StrCmp(l.s, r.s))
    else
      var a, b := AsInt(l), AsInt(r);
      Some(if a < b then -1 else if a > b then 1 else 0)
  }

  /** `_kleene` */
  function Kleene(op: Op, l: Value, r: Value): Value
    requires op.AndOp? || op.OrOp?
  {
    if op.AndOp? then
      if (l != Null && !Truthy(l)) || (r != Null && !Truthy(r)) then Bool(false)
      else if l == Null || r == Null then Null
      else Bool(true)
    else
      if (l != Null && Truthy(l)) || (r != Null && Truthy(r)) then Bool(true)
      else if l == Null || r == Null then Null
      else Bool(false)
  }

  /** The operators that take two values and give None if either is None. Division is
      not part of this model. */
  function Strict(op: Op, l: Value, r: Value): (o: Out)
    requires !op.AndOp? && !op.OrOp?
    ensures !op.Add? && !op.Sub? && !op.Mul? && !op.Div? && o.Val? ==> o.v.Null? || o.v.Bool?
  {
    if l == Null || r == Null then Val(Null)
    else if op.Eq? then Val(Bool(Equal(l, r)))
    else if op.Ne? then Val(Bool(!Equal(l, r)))
    else if op.Add? then (if l.Int? && r.Int? then Val(Int(l.i + r.i)) else Fail)
    else if op.Sub? then (if l.Int? && r.Int? then Val(Int(l.i - r.i)) else Fail)
    else if op.Mul? then (if l.Int? && r.Int? then Val(Int(l.i * r.i)) else Fail)
    else if op.Div? || OrderCmp(l, r).None? then Fail
    else
      var c := OrderCmp(l, r).value;
      Val(Bool(if op.Lt? then c < 0 else if op.Le? then c <= 0 else if op.Gt? then c > 0 else c >= 0))
  }

  /** BETWEEN on three values other than None */
  function Inside(v: Value, lo: Value, hi: Value, negated: bool): (o: Out)
    ensures o.Val? ==> o.v.Bool?
  {
    var a, b := OrderCmp(v, lo), OrderCmp(v, hi);
    if a.None? || b.None? then Fail
    else Val(Bool((a.value >= 0 && b.value <= 0) != negated))
  }

  // ---- rows and names ----------------------------------------------------------------

  type Row = seq<Value>

  /** One row per source; None where an outer join found no partner. */
  type Parts = seq<Option<Row>>

  datatype Source = Source(alias: string, cols: seq<string>)

  type Scope = seq<Source>

  function IndexOf(names: seq<string>, name: string): (i: nat)
    requires name in names
    ensures i < |names| && names[i] == name
  {
    if names[0] == name then 0 else 1 + IndexOf(names[1..], name)
  }

  /** The sources that have a column of this name, from position i on. */
  function Hits(scope: Scope, name: string, i: nat): (r: seq<nat>)
    ensures forall h :: h in r <==> i <= h < |scope| && name in scope[h].cols
    decreases |scope| - i
  {
    if i >= |scope| then []
    else (if name in scope[i].cols then [i] else []) + Hits(scope, name, i + 1)
  }

  /** Where an alias stands, if it does. */
  function SourceOf(scope: Scope, alias: string): Option<nat> {
    if scope == [] then None
    else if scope[0].alias == alias then Some(0)
    else match SourceOf(scope[1..], alias)
         case None => None
         case Some(i) => Some(i + 1)
  }

  /** `Scope.resolve`; None is the ExecutionError. */
  function Resolve(scope: Scope, table: Option<string>, name: string): Option<(nat, nat)> {
    if table.Some? then
      var i := SourceOf(scope, table.value);
      if i.Some? && i.value < |scope| && name in scope[i.value].cols
      then Some((i.value, IndexOf(scope[i.value].cols, name)))
      else None
    else
      var hits := Hits(scope, name, 0);
      if |hits| == 1 && hits[0] < |scope| && name in scope[hits[0]].cols
      then Some((hits[0], IndexOf(scope[hits[0]].cols, name)))
      else None
  }

  /** Reading a resolved column of the rows at hand. */
  function ReadCol(parts: Parts, i: nat, j: nat): Out {
    if i >= |parts| then Fail
    else match parts[i]
         case None => Val(Null)
         case Some(row) => if j < |row| then Val(row[j]) else Fail
  }
}
