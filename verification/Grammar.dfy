// The expression grammar (parse_expression down to _parse_primary in
// leafdb/sqlparse.py), as functions of a token list and a position.

module Grammar {
  import opened Bytes
  import opened Sql

  datatype Keyword =
    | KwOr | KwAnd | KwNot | KwNull | KwIs | KwIn | KwBetween | KwLike | KwDistinct
    | KwInt | KwText | KwCount | KwSum | KwAvg | KwMin | KwMax | KwOther

  datatype Symbol =
    | SymEq | SymNe | SymBang | SymLe | SymGe | SymLt | SymGt
    | SymOpen | SymClose | SymComma | SymDot | SymPlus | SymMinus | SymStar | SymSlash | SymSemi

  /** Identifiers are in lower case, as the tokenizer leaves them. */
  datatype Token = Num(i: nat) | Text(s: string) | Kw(kw: Keyword) | Ident(name: string) | Sym(sym: Symbol) | Eof

  /** A list of tokens ends with Eof. */
  predicate Tokens(ts: seq<Token>) {
    ts != [] && ts[|ts| - 1] == Eof
  }

  /** `AGGREGATES`, by name */
  function AggregateName(k: Keyword): Option<string> {
    match k
    case KwCount => Some("COUNT")
    case KwSum => Some("SUM")
    case KwAvg => Some("AVG")
    case KwMin => Some("MIN")
    case KwMax => Some("MAX")
    case _ => None
  }

  /** A token that may be a name: an identifier, or a keyword in `IDENT_OK_KEYWORDS`. */
  function NameOf(t: Token): Option<string> {
    match t
    case Ident(name) => Some(name)
    case Kw(KwInt) => Some("int")
    case Kw(KwText) => Some("text")
    case Kw(KwCount) => Some("count")
    case Kw(KwSum) => Some("sum")
    case Kw(KwAvg) => Some("avg")
    case Kw(KwMin) => Some("min")
    case Kw(KwMax) => Some("max")
    case _ => None
  }

  /** The comparison a symbol stands for; != is <>. */
  function Comparison(t: Token): Option<Op> {
    match t
    case Sym(SymEq) => Some(Eq)
    case Sym(SymNe) => Some(Ne)
    case Sym(SymBang) => Some(Ne)
    case Sym(SymLe) => Some(Le)
    case Sym(SymGe) => Some(Ge)
    case Sym(SymLt) => Some(Lt)
    case Sym(SymGt) => Some(Gt)
    case _ => None
  }

  function AddOp(t: Token): Option<Op> {
    match t
    case Sym(SymPlus) => Some(Add)
    case Sym(SymMinus) => Some(Sub)
    case _ => None
  }

  function MulOp(t: Token): Option<Op> {
    match t
    case Sym(SymStar) => Some(Mul)
    case Sym(SymSlash) => Some(Div)
    case _ => None
  }

  /** An expression and the position behind it; None is a ParseError. */
  type Parsed = Option<(Expr, nat)>

  /** `peek(1)` */
  function Ahead(ts: seq<Token>, i: nat): Token
    requires Tokens(ts) && i < |ts|
  {
    if i + 1 < |ts| then ts[i + 1] else ts[|ts| - 1]
  }

  function ParseOr(ts: seq<Token>, i: nat): (r: Parsed)
    requires Tokens(ts) && i < |ts|
    ensures r.Some? ==> i < r.value.1 < |ts|
    decreases |ts| - i, 9
  {
    match ParseAnd(ts, i)
    case None => None
    case Some((x, j)) => OrLoop(ts, x, j)
  }

  function OrLoop(ts: seq<Token>, left: Expr, i: nat): (r: Parsed)
    requires Tokens(ts) && i < |ts|
    ensures r.Some? ==> i <= r.value.1 < |ts|
    decreases |ts| - i, 1
  {
    if ts[i] != Kw(KwOr) then Some((left, i))
    else match ParseAnd(ts, i + 1)
         case None => None
         case Some((x, j)) => OrLoop(ts, Bin(OrOp, left, x), j)
  }

  function ParseAnd(ts: seq<Token>, i: nat): (r: Parsed)
    requires Tokens(ts) && i < |ts|
    ensures r.Some? ==> i < r.value.1 < |ts|
    decreases |ts| - i, 8
  {
    match ParseNot(ts, i)
    case None => None
    case Some((x, j)) => AndLoop(ts, x, j)
  }

  function AndLoop(ts: seq<Token>, left: Expr, i: nat): (r: Parsed)
    requires Tokens(ts) && i < |ts|
    ensures r.Some? ==> i <= r.value.1 < |ts|
    decreases |ts| - i, 1
  {
    if ts[i] != Kw(KwAnd) then Some((left, i))
    else match ParseNot(ts, i + 1)
         case None => None
         case Some((x, j)) => AndLoop(ts, Bin(AndOp, left, x), j)
  }

  function ParseNot(ts: seq<Token>, i: nat): (r: Parsed)
    requires Tokens(ts) && i < |ts|
    ensures r.Some? ==> i < r.value.1 < |ts|
    decreases |ts| - i, 7
  {
    if ts[i] == Kw(KwNot) then
      match ParseNot(ts, i + 1)
      case None => None
      case Some((x, j)) => Some((Not(x), j))
    else ParsePredicate(ts, i)
  }

  function ParsePredicate(ts: seq<Token>, i: nat): (r: Parsed)
    requires Tokens(ts) && i < |ts|
    ensures r.Some? ==> i < r.value.1 < |ts|
    decreases |ts| - i, 6
  {
    match ParseAdditive(ts, i)
    case None => None
    case Some((x, j)) => Tail(ts, x, j)
  }

  /** What may follow the first operand of a predicate. */
  function Tail(ts: seq<Token>, left: Expr, i: nat): (r: Parsed)
    requires Tokens(ts) && i < |ts|
    ensures r.Some? ==> i <= r.value.1 < |ts|
    decreases |ts| - i, 2
  {
    if ts[i] == Kw(KwIs) then
      var negated := ts[i + 1] == Kw(KwNot);
      var j := if negated then i + 2 else i + 1;
      if ts[j] == Kw(KwNull) then Some((IsNull(left, negated), j + 1)) else None
    else if ts[i] == Kw(KwNot) then
      Listed(ts, left, i + 1, true)
    else if ts[i] in {Kw(KwBetween), Kw(KwIn), Kw(KwLike)} then
      Listed(ts, left, i, false)
    else if Comparison(ts[i]).Some? then
      match ParseAdditive(ts, i + 1)
      case None => None
      case Some((x, j)) => Some((Bin(Comparison(ts[i]).value, left, x), j))
    else Some((left, i))
  }

  /** BETWEEN, IN and LIKE, after the optional NOT; anything else is a dangling NOT. */
  function Listed(ts: seq<Token>, left: Expr, i: nat, negated: bool): (r: Parsed)
    requires Tokens(ts) && i < |ts|
    ensures r.Some? ==> i < r.value.1 < |ts|
    decreases |ts| - i, 1
  {
    match ts[i]
    case Kw(KwBetween) => (
      match ParseAdditive(ts, i + 1)
      case None => None
      case Some((lo, j)) =>
        if ts[j] != Kw(KwAnd) then None
        else match ParseAdditive(ts, j + 1)
             case None => None
             case Some((hi, k)) => Some((Between(left, lo, hi, negated), k))
    )
    case Kw(KwIn) => (
      if ts[i + 1] != Sym(SymOpen) then None
      else match ParseAdditive(ts, i + 2)
           case None => None
           case Some((x, j)) =>
             match ItemLoop(ts, [x], j)
             case None => None
             case Some((items, k)) =>
               if ts[k] == Sym(SymClose) then Some((InList(left, items, negated), k + 1)) else None
    )
    case Kw(KwLike) => (
      match ParseAdditive(ts, i + 1)
      case None => None
      case Some((x, j)) => Some((Like(left, x, negated), j))
    )
    case _ => None
  }

  function ItemLoop(ts: seq<Token>, items: seq<Expr>, i: nat): (r: Option<(seq<Expr>, nat)>)
    requires Tokens(ts) && i < |ts|
    ensures r.Some? ==> i <= r.value.1 < |ts|
    decreases |ts| - i, 1
  {
    if ts[i] != Sym(SymComma) then Some((items, i))
    else match ParseAdditive(ts, i + 1)
         case None => None
         case Some((x, j)) => ItemLoop(ts, items + [x], j)
  }

  function ParseAdditive(ts: seq<Token>, i: nat): (r: Parsed)
    requires Tokens(ts) && i < |ts|
    ensures r.Some? ==> i < r.value.1 < |ts|
    decreases |ts| - i, 5
  {
    match ParseMultiplicative(ts, i)
    case None => None
    case Some((x, j)) => AddLoop(ts, x, j)
  }

  function AddLoop(ts: seq<Token>, left: Expr, i: nat): (r: Parsed)
    requires Tokens(ts) && i < |ts|
    ensures r.Some? ==> i <= r.value.1 < |ts|
    decreases |ts| - i, 1
  {
    if AddOp(ts[i]).None? then Some((left, i))
    else match ParseMultiplicative(ts, i + 1)
         case None => None
         case Some((x, j)) => AddLoop(ts, Bin(AddOp(ts[i]).value, left, x), j)
  }

  function ParseMultiplicative(ts: seq<Token>, i: nat): (r: Parsed)
    requires Tokens(ts) && i < |ts|
    ensures r.Some? ==> i < r.value.1 < |ts|
    decreases |ts| - i, 4
  {
    match ParseUnary(ts, i)
    case None => None
    case Some((x, j)) => MulLoop(ts, x, j)
  }

  function MulLoop(ts: seq<Token>, left: Expr, i: nat): (r: Parsed)
    requires Tokens(ts) && i < |ts|
    ensures r.Some? ==> i <= r.value.1 < |ts|
    decreases |ts| - i, 1
  {
    if MulOp(ts[i]).None? then Some((left, i))
    else match ParseUnary(ts, i + 1)
         case None => None
         case Some((x, j)) => MulLoop(ts, Bin(MulOp(ts[i]).value, left, x), j)
  }

  function ParseUnary(ts: seq<Token>, i: nat): (r: Parsed)
    requires Tokens(ts) && i < |ts|
    ensures r.Some? ==> i < r.value.1 < |ts|
    decreases |ts| - i, 3
  {
    if ts[i] == Sym(SymMinus) then
      match ParseUnary(ts, i + 1)
      case None => None
      case Some((x, j)) => Some((Neg(x), j))
    else if ts[i] == Sym(SymPlus) then ParseUnary(ts, i + 1)
    else ParsePrimary(ts, i)
  }

  function ParsePrimary(ts: seq<Token>, i: nat): (r: Parsed)
    requires Tokens(ts) && i < |ts|
    ensures r.Some? ==> i < r.value.1 < |ts|
    decreases |ts| - i, 2
  {
    var t := ts[i];
    if t.Num? then Some((Lit(Int(t.i)), i + 1))
    else if t.Text? then Some((Lit(Str(t.s)), i + 1))
    else if t == Kw(KwNull) then Some((Lit(Null), i + 1))
    else if t.Kw? && AggregateName(t.kw).Some? && Ahead(ts, i) == Sym(SymOpen) then
      ParseCall(ts, AggregateName(t.kw).value, i + 2)
    else if NameOf(t).Some? then
      if ts[i + 1] == Sym(SymDot) && Ahead(ts, i + 1).Ident? then Some((Col(NameOf(t), Ahead(ts, i + 1).name), i + 3))
      else Some((Col(None, NameOf(t).value), i + 1))
    else if t == Sym(SymOpen) then
      match ParseOr(ts, i + 1)
      case None => None
      case Some((x, j)) => if ts[j] == Sym(SymClose) then Some((x, j + 1)) else None
    else None
  }

  /** An aggregate call, behind its opening parenthesis. */
  function ParseCall(ts: seq<Token>, name: string, i: nat): (r: Parsed)
    requires Tokens(ts) && i < |ts|
    ensures r.Some? ==> i < r.value.1 < |ts|
    decreases |ts| - i, 10
  {
    if name == "COUNT" && ts[i] == Sym(SymStar) then
      if ts[i + 1] == Sym(SymClose) then Some((Func("COUNT", false, None), i + 2)) else None
    else
      var distinct := ts[i] == Kw(KwDistinct);
      var start := if distinct then i + 1 else i;
      match ParseOr(ts, start)
      case None => None
      case Some((x, j)) => if ts[j] == Sym(SymClose) then Some((Func(name, distinct, Some(x)), j + 1)) else None
  }
}
