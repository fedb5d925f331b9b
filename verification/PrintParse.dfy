// Printing an expression with only the parentheses that precedence asks for, and
// parsing it back.

module PrintParse {
  import opened Bytes
  import opened Sql
  import opened Grammar

  // ---- printing ------------------------------------------------------------------------

  /** OR < AND < NOT < predicate < additive < multiplicative < unary < primary */
  function Level(e: Expr): nat {
    match e
    case Bin(op, _, _) =>
      (match op
       case OrOp => 0
       case AndOp => 1
       case Add => 4
       case Sub => 4
       case Mul => 5
       case Div => 5
       case _ => 3)
    case Not(_) => 2
    case IsNull(_, _) => 3
    case Between(_, _, _, _) => 3
    case InList(_, _, _) => 3
    case Like(_, _, _) => 3
    case Neg(_) => 6
    case _ => 7
  }

  function OpToken(op: Op): Token {
    match op
    case OrOp => Kw(KwOr)
    case AndOp => Kw(KwAnd)
    case Eq => Sym(SymEq)
    case Ne => Sym(SymNe)
    case Lt => Sym(SymLt)
    case Le => Sym(SymLe)
    case Gt => Sym(SymGt)
    case Ge => Sym(SymGe)
    case Add => Sym(SymPlus)
    case Sub => Sym(SymMinus)
    case Mul => Sym(SymStar)
    case Div => Sym(SymSlash)
  }

  function Keywords(negated: bool, k: Keyword): seq<Token> {
    (if negated then [Kw(KwNot)] else []) + [Kw(k)]
  }

  /** The keyword of an aggregate */
  function CallKeyword(name: string): Keyword {
    if name == "COUNT" then KwCount
    else if name == "SUM" then KwSum
    else if name == "AVG" then KwAvg
    else if name == "MIN" then KwMin
    else KwMax
  }

  /** The tokens of an expression; an operand whose level is below what its place needs is
      put in parentheses. */
  function Print(e: Expr): seq<Token>
    decreases e, 0
  {
    match e
    case Lit(Null) => [Kw(KwNull)]
    case Lit(Int(i)) => if i >= 0 then [Num(i)] else []
    case Lit(Str(s)) => [Text(s)]
    case Lit(Bool(_)) => []
    case Col(None, name) => [Ident(name)]
    case Col(Some(table), name) => [Ident(table), Sym(SymDot), Ident(name)]
    case Bin(op, l, r) =>
      var left := if Level(e) == 3 then 4 else Level(e);
      Wrap(l, left) + [OpToken(op)] + Wrap(r, Level(e) + 1)
    case Not(x) => [Kw(KwNot)] + Wrap(x, 2)
    case Neg(x) => [Sym(SymMinus)] + Wrap(x, 6)
    case IsNull(x, negated) => Wrap(x, 4) + [Kw(KwIs)] + Keywords(negated, KwNull)
    case Between(x, lo, hi, negated) => Wrap(x, 4) + Keywords(negated, KwBetween) +
      (Wrap(lo, 4) + [Kw(KwAnd)] + Wrap(hi, 4))
    case InList(x, items, negated) =>
      Wrap(x, 4) + Keywords(negated, KwIn) + ([Sym(SymOpen)] + PrintItems(items) + [Sym(SymClose)])
    case Like(x, pattern, negated) => Wrap(x, 4) + Keywords(negated, KwLike) + Wrap(pattern, 4)
    case Func(name, distinct, None) => [Kw(CallKeyword(name)), Sym(SymOpen), Sym(SymStar), Sym(SymClose)]
    case Func(name, distinct, Some(x)) =>
      [Kw(CallKeyword(name)), Sym(SymOpen)] + (if distinct then [Kw(KwDistinct)] else []) + Print(x) + [Sym(SymClose)]
  }

  function Wrap(e: Expr, level: nat): seq<Token>
    decreases e, 1
  {
    if Level(e) >= level then Print(e) else [Sym(SymOpen)] + Print(e) + [Sym(SymClose)]
  }

  function PrintItems(items: seq<Expr>): seq<Token>
    decreases items, 1
  {
    if items == [] then []
    else if |items| == 1 then Wrap(items[0], 4)
    else Wrap(items[0], 4) + [Sym(SymComma)] + PrintItems(items[1..])
  }

  /** What the grammar can say: literals are NULL, numbers without a sign and strings; an
      IN list is not empty; a call is of one of the five aggregates, and * goes with
      COUNT alone. */
  predicate Sayable(e: Expr)
    decreases e, 0
  {
    match e
    case Lit(v) => v.Null? || v.Str? || (v.Int? && v.i >= 0)
    case Col(_, _) => true
    case Bin(_, l, r) => Sayable(l) && Sayable(r)
    case Not(x) => Sayable(x)
    case Neg(x) => Sayable(x)
    case IsNull(x, _) => Sayable(x)
    case Between(x, lo, hi, _) => Sayable(x) && Sayable(lo) && Sayable(hi)
    case InList(x, items, _) => Sayable(x) && items != [] && SayableAll(items)
    case Like(x, pattern, _) => Sayable(x) && Sayable(pattern)
    case Func(name, distinct, arg) =>
      && AggregateName(CallKeyword(name)) == Some(name)
      && (arg.None? ==> name == "COUNT" && !distinct)
      && (arg.Some? ==> Sayable(arg.value))
  }

  predicate SayableAll(items: seq<Expr>)
    decreases items, 1
  {
    items == [] || (Sayable(items[0]) && SayableAll(items[1..]))
  }

  // ---- parsing by level -------------------------------------------------------------------

  function ParseLevel(level: nat, ts: seq<Token>, i: nat): (r: Parsed)
    requires Tokens(ts) && i < |ts| && level <= 7
    ensures r.Some? ==> i < r.value.1 < |ts|
  {
    if level == 0 then ParseOr(ts, i)
    else if level == 1 then ParseAnd(ts, i)
    else if level == 2 then ParseNot(ts, i)
    else if level == 3 then ParsePredicate(ts, i)
    else if level == 4 then ParseAdditive(ts, i)
    else if level == 5 then ParseMultiplicative(ts, i)
    else if level == 6 then ParseUnary(ts, i)
    else ParsePrimary(ts, i)
  }

  /** The token does not go on with an expression of this level or of a tighter one. */
  predicate Stops(t: Token, level: nat) {
    && (level == 0 ==> t != Kw(KwOr))
    && (level <= 1 ==> t != Kw(KwAnd))
    && (level <= 3 ==> t !in {Kw(KwIs), Kw(KwNot), Kw(KwBetween), Kw(KwIn), Kw(KwLike)} && Comparison(t).None?)
    && (level <= 4 ==> AddOp(t).None?)
    && (level <= 5 ==> MulOp(t).None?)
    && t != Sym(SymDot)
  }

  /** What may begin an expression of this level. */
  predicate Begins(t: Token, level: nat) {
    && t !in {Kw(KwDistinct), Sym(SymStar), Sym(SymPlus)}
    && (level >= 3 ==> t != Kw(KwNot))
    && (level >= 7 ==> t != Sym(SymMinus))
  }

  lemma {:induction false} PrintBegins(e: Expr)
    requires Sayable(e)
    ensures Print(e) != [] && Begins(Print(e)[0], Level(e))
    decreases e, 0
  {
    match e {
      case Bin(op, l, r) => WrapBegins(l, if Level(e) == 3 then 4 else Level(e));
      case IsNull(x, _) => WrapBegins(x, 4);
      case Between(x, _, _, _) => WrapBegins(x, 4);
      case InList(x, _, _) => WrapBegins(x, 4);
      case Like(x, _, _) => WrapBegins(x, 4);
      case _ =>
    }
  }

  lemma {:induction false} WrapBegins(e: Expr, level: nat)
    requires Sayable(e) && level <= 7
    ensures Wrap(e, level) != [] && Begins(Wrap(e, level)[0], level)
    decreases e, 1
  {
    PrintBegins(e);
  }

  /** An expression stands at position i. */
  predicate StandsAt(ts: seq<Token>, i: nat, piece: seq<Token>) {
    i + |piece| < |ts| && ts[i..i + |piece|] == piece
  }

  lemma StandsParts(ts: seq<Token>, i: nat, a: seq<Token>, b: seq<Token>)
    requires StandsAt(ts, i, a + b)
    ensures StandsAt(ts, i, a) && StandsAt(ts, i + |a|, b)
  {
    Halves(ts, i, a, b);
  }

  lemma StandsThree(ts: seq<Token>, i: nat, a: seq<Token>, b: seq<Token>, c: seq<Token>)
    requires StandsAt(ts, i, a + b + c)
    ensures StandsAt(ts, i, a) && StandsAt(ts, i + |a|, b) && StandsAt(ts, i + |a| + |b|, c)
  {
    hide StandsAt;
    StandsParts(ts, i, a + b, c);
    StandsParts(ts, i, a, b);
  }

  lemma StandsInside(ts: seq<Token>, i: nat, piece: seq<Token>)
    requires StandsAt(ts, i, piece)
    ensures i + |piece| < |ts|
  {
  }

  lemma StandsFirst(ts: seq<Token>, i: nat, piece: seq<Token>)
    requires StandsAt(ts, i, piece) && piece != []
    ensures ts[i] == piece[0]
  {
    assert ts[i..i + |piece|][0] == ts[i];
  }

  /** What a tighter level has parsed, a looser level leaves as it is. */
  lemma Climb(level: nat, ts: seq<Token>, i: nat, e: Expr, j: nat)
    requires Tokens(ts) && i < j < |ts| && level <= 6
    requires ParseLevel(level + 1, ts, i) == Some((e, j)) && Begins(ts[i], level + 1) && Stops(ts[j], level)
    ensures ParseLevel(level, ts, i) == Some((e, j))
  {
    if level == 0 {
      assert OrLoop(ts, e, j) == Some((e, j));
    } else if level == 1 {
      assert AndLoop(ts, e, j) == Some((e, j));
    } else if level == 3 {
      assert Tail(ts, e, j) == Some((e, j));
    } else if level == 4 {
      assert AddLoop(ts, e, j) == Some((e, j));
    } else if level == 5 {
      assert MulLoop(ts, e, j) == Some((e, j));
    }
  }

  lemma {:induction false} ClimbTo(level: nat, high: nat, ts: seq<Token>, i: nat, e: Expr, j: nat)
    requires Tokens(ts) && i < j < |ts| && level <= high <= 7
    requires ParseLevel(high, ts, i) == Some((e, j)) && Begins(ts[i], high) && Stops(ts[j], level)
    ensures ParseLevel(level, ts, i) == Some((e, j))
    decreases high - level
  {
    hide ParseLevel;
    if level < high {
      Climb(high - 1, ts, i, e, j);
      ClimbTo(level, high - 1, ts, i, e, j);
    }
  }

  // ---- the left-associative loops ---------------------------------------------------------

  predicate LoopLevel(level: nat) {
    level == 0 || level == 1 || level == 4 || level == 5
  }

  function Loop(level: nat, ts: seq<Token>, left: Expr, i: nat): Parsed
    requires Tokens(ts) && i < |ts| && LoopLevel(level)
  {
    if level == 0 then OrLoop(ts, left, i)
    else if level == 1 then AndLoop(ts, left, i)
    else if level == 4 then AddLoop(ts, left, i)
    else MulLoop(ts, left, i)
  }

  lemma LoopStart(level: nat, ts: seq<Token>, i: nat, e: Expr, j: nat)
    requires Tokens(ts) && i < |ts| && j < |ts| && LoopLevel(level) && level <= 5 &&
      ParseLevel(level + 1, ts, i) == Some((e, j))
    ensures ParseLevel(level, ts, i) == Loop(level, ts, e, j)
  {
  }

  lemma LoopStep(ts: seq<Token>, e: Expr, i: nat, j: nat)
    requires Tokens(ts) && e.Bin? && LoopLevel(Level(e)) && i + 1 < |ts| && j < |ts| && ts[i] == OpToken(e.op)
    requires ParseLevel(Level(e) + 1, ts, i + 1) == Some((e.right, j))
    ensures Loop(Level(e), ts, e.left, i) == Loop(Level(e), ts, e, j)
  {
  }

  lemma LoopStop(level: nat, ts: seq<Token>, e: Expr, j: nat)
    requires Tokens(ts) && j < |ts| && LoopLevel(level) && Stops(ts[j], level)
    ensures Loop(level, ts, e, j) == Some((e, j))
  {
  }

  lemma StopsHigher(t: Token, level: nat, high: nat)
    requires Stops(t, level) && level <= high
    ensures Stops(t, high)
  {
  }

  /** An operator does not continue its own left operand. */
  lemma OpStops(e: Expr)
    requires e.Bin?
    ensures Stops(OpToken(e.op), Level(e) + 1)
  {
  }

  // ---- parsing what was printed -------------------------------------------------------------

  /** At its own level. */
  lemma {:induction false} OwnLevel(e: Expr, ts: seq<Token>, i: nat)
    requires Tokens(ts) && Sayable(e) && StandsAt(ts, i, Print(e)) && Stops(ts[i + |Print(e)|], Level(e))
    ensures Print(e) != [] && ParseLevel(Level(e), ts, i) == Some((e, i + |Print(e)|))
    decreases e, 10
  {
    hide *;
    PrintBegins(e);
    LevelKinds(e);
    StandsInside(ts, i, Print(e));
    if e.Bin? && LoopLevel(Level(e)) {
      StopsHigher(ts[i + |Print(e)|], Level(e), Level(e) + 1);
      Chain(e, ts, i);
      LoopStop(Level(e), ts, e, i + |Print(e)|);
    } else if Level(e) == 3 {
      PredicateParses(e, ts, i);
      PredicateLevel(ts, i);
    } else if e.Not? || e.Neg? {
      var t := if e.Not? then Kw(KwNot) else Sym(SymMinus);
      StandsParts(ts, i, [t], Wrap(e.operand, Level(e)));
      StandsFirst(ts, i, [t]);
      StandsInside(ts, i + 1, Wrap(e.operand, Level(e)));
      WrapParses(e.operand, Level(e), ts, i + 1);
      PrefixParses(e, ts, i, i + |Print(e)|);
    } else {
      PrimaryParses(e, ts, i);
      PrimaryLevel(ts, i);
    }
  }

  lemma LevelKinds(e: Expr)
    requires Sayable(e)
    ensures Level(e) <= 7 && (e.Bin? && !LoopLevel(Level(e)) ==> Level(e) == 3)
    ensures e.Not? ==> Level(e) == 2 && Sayable(e.operand) && Print(e) == [Kw(KwNot)] + Wrap(e.operand, 2)
    ensures e.Neg? ==> Level(e) == 6 && Sayable(e.operand) && Print(e) == [Sym(SymMinus)] + Wrap(e.operand, 6)
    ensures !e.Bin? && !e.Not? && !e.Neg? && Level(e) != 3 ==> Level(e) == 7
  {
    hide Wrap;
  }

  lemma PredicateLevel(ts: seq<Token>, i: nat)
    requires Tokens(ts) && i < |ts|
    ensures ParseLevel(3, ts, i) == ParsePredicate(ts, i)
  {
  }

  lemma PrimaryLevel(ts: seq<Token>, i: nat)
    requires Tokens(ts) && i < |ts|
    ensures ParseLevel(7, ts, i) == ParsePrimary(ts, i)
  {
  }

  lemma PrefixParses(e: Expr, ts: seq<Token>, i: nat, j: nat)
    requires Tokens(ts) && (e.Not? || e.Neg?) && i + 1 < |ts|
    requires ts[i] == if e.Not? then Kw(KwNot) else Sym(SymMinus)
    requires ParseLevel(Level(e), ts, i + 1) == Some((e.operand, j))
    ensures ParseLevel(Level(e), ts, i) == Some((e, j))
  {
  }

  /** At a looser level. */
  lemma {:induction false} Parses(e: Expr, level: nat, ts: seq<Token>, i: nat)
    requires Tokens(ts) && Sayable(e) && level <= Level(e) && StandsAt(ts, i, Print(e)) &&
      Stops(ts[i + |Print(e)|], level)
    ensures Print(e) != [] && ParseLevel(level, ts, i) == Some((e, i + |Print(e)|))
    decreases e, 20
  {
    hide *;
    PrintBegins(e);
    StandsFirst(ts, i, Print(e));
    StandsEnd(ts, i, Print(e));
    LevelBound(e);
    StopsHigher(ts[i + |Print(e)|], level, Level(e));
    OwnLevel(e, ts, i);
    ClimbTo(level, Level(e), ts, i, e, i + |Print(e)|);
  }

  lemma StandsEnd(ts: seq<Token>, i: nat, piece: seq<Token>)
    requires StandsAt(ts, i, piece)
    ensures i + |piece| < |ts|
  {
  }

  lemma LevelBound(e: Expr)
    ensures Level(e) <= 7
  {
  }

  /** In its place, with parentheses if it needs them. */
  lemma {:induction false} WrapParses(e: Expr, level: nat, ts: seq<Token>, i: nat)
    requires Tokens(ts) && Sayable(e) && level <= 7 && StandsAt(ts, i, Wrap(e, level)) &&
      Stops(ts[i + |Wrap(e, level)|], level)
    ensures Wrap(e, level) != [] && ParseLevel(level, ts, i) == Some((e, i + |Wrap(e, level)|))
    decreases e, 30
  {
    hide *;
    WrapBegins(e, level);
    WrapParts(e, level);
    if Level(e) >= level {
      Parses(e, level, ts, i);
    } else {
      InParentheses(e, level, ts, i);
    }
  }

  lemma WrapParts(e: Expr, level: nat)
    ensures Wrap(e, level) == if Level(e) >= level then Print(e) else [Sym(SymOpen)] + Print(e) + [Sym(SymClose)]
  {
    hide Print;
  }

  lemma {:induction false} InParentheses(e: Expr, level: nat, ts: seq<Token>, i: nat)
    requires Tokens(ts) && Sayable(e) && level <= 7
    requires StandsAt(ts, i, [Sym(SymOpen)] + Print(e) + [Sym(SymClose)]) && Stops(ts[i + |Print(e)| + 2], level)
    ensures ParseLevel(level, ts, i) == Some((e, i + |Print(e)| + 2))
    decreases e, 25
  {
    hide *;
    var open, close := [Sym(SymOpen)], [Sym(SymClose)];
    StandsThree(ts, i, open, Print(e), close);
    StandsFirst(ts, i, open);
    StandsFirst(ts, i + 1 + |Print(e)|, close);
    StandsInside(ts, i + 1 + |Print(e)|, close);
    CloseStops();
    Parses(e, 0, ts, i + 1);
    PrimaryOpen(e, ts, i, i + 1 + |Print(e)|);
    ClimbTo(level, 7, ts, i, e, i + |Print(e)| + 2);
  }

  lemma CloseStops()
    ensures Stops(Sym(SymClose), 0) && Begins(Sym(SymOpen), 7)
  {
  }

  lemma PrimaryOpen(e: Expr, ts: seq<Token>, i: nat, j: nat)
    requires Tokens(ts) && i + 1 < |ts| && j + 1 < |ts| && ts[i] == Sym(SymOpen) && ts[j] == Sym(SymClose)
    requires ParseLevel(0, ts, i + 1) == Some((e, j))
    ensures ParseLevel(7, ts, i) == Some((e, j + 1))
  {
    hide ParseOr;
  }

  /** The first operand of a loop. */
  lemma {:induction false} First(level: nat, e: Expr, ts: seq<Token>, i: nat)
    requires Tokens(ts) && Sayable(e) && LoopLevel(level)
    requires StandsAt(ts, i, Wrap(e, level)) && Stops(ts[i + |Wrap(e, level)|], level + 1)
    ensures ParseLevel(level, ts, i) == Loop(level, ts, e, i + |Wrap(e, level)|)
    decreases e, 40
  {
    hide *;
    WrapParts(e, level);
    WrapParts(e, level + 1);
    LoopLevels(level);
    if Level(e) == level {
      Chain(e, ts, i);
    } else {
      WrapParses(e, level + 1, ts, i);
      LoopStart(level, ts, i, e, i + |Wrap(e, level)|);
    }
  }

  lemma LoopLevels(level: nat)
    requires LoopLevel(level)
    ensures level <= 5
  {
  }

  /** A chain of operators of one level is read from the left. */
  lemma {:induction false} Chain(e: Expr, ts: seq<Token>, i: nat)
    requires Tokens(ts) && Sayable(e) && LoopLevel(Level(e))
    requires StandsAt(ts, i, Print(e)) && Stops(ts[i + |Print(e)|], Level(e) + 1)
    ensures ParseLevel(Level(e), ts, i) == Loop(Level(e), ts, e, i + |Print(e)|)
    decreases e, 0
  {
    hide *;
    ChainParts(e);
    var level, left, op, right := Level(e), Wrap(e.left, Level(e)), [OpToken(e.op)], Wrap(e.right, Level(e) + 1);
    OpStops(e);
    StandsThree(ts, i, left, op, right);
    StandsFirst(ts, i + |left|, op);
    StandsInside(ts, i + |left| + 1, right);
    First(level, e.left, ts, i);
    WrapParses(e.right, level + 1, ts, i + |left| + 1);
    LoopStep(ts, e, i + |left|, i + |Print(e)|);
  }

  lemma ChainParts(e: Expr)
    requires Sayable(e) && LoopLevel(Level(e))
    ensures e.Bin? && Level(e) <= 5 && Sayable(e.left) && Sayable(e.right)
    ensures Print(e) == Wrap(e.left, Level(e)) + [OpToken(e.op)] + Wrap(e.right, Level(e) + 1)
  {
    hide Wrap;
  }

  lemma {:induction false} PrimaryParses(e: Expr, ts: seq<Token>, i: nat)
    requires Tokens(ts) && Sayable(e) && Level(e) == 7 && StandsAt(ts, i, Print(e)) && Stops(ts[i + |Print(e)|], 7)
    ensures Print(e) != [] && ParsePrimary(ts, i) == Some((e, i + |Print(e)|))
    decreases e, 8
  {
    PrintBegins(e);
    if e.Func? && e.arg.Some? {
      CallParses(e, ts, i);
    } else {
      AtomParses(e, ts, i);
    }
    hide *;
  }

  lemma AtomParses(e: Expr, ts: seq<Token>, i: nat)
    requires Tokens(ts) && Sayable(e) && (e.Lit? || e.Col? || (e.Func? && e.arg.None?))
    requires StandsAt(ts, i, Print(e)) && Stops(ts[i + |Print(e)|], 7)
    ensures ParsePrimary(ts, i) == Some((e, i + |Print(e)|))
  {
    var p := Print(e);
    assert 1 <= |p| <= 4;
    assert ts[i] == ts[i..i + |p|][0];
    assert |p| > 1 ==> ts[i + 1] == ts[i..i + |p|][1];
    assert |p| > 2 ==> ts[i + 2] == ts[i..i + |p|][2];
    assert |p| > 3 ==> ts[i + 3] == ts[i..i + |p|][3];
  }

  lemma {:induction false} CallParses(e: Expr, ts: seq<Token>, i: nat)
    requires Tokens(ts) && Sayable(e) && e.Func? && e.arg.Some? && StandsAt(ts, i, Print(e))
    ensures ParsePrimary(ts, i) == Some((e, i + |Print(e)|))
    decreases e, 4
  {
    hide *;
    CallParts(e);
    var x := e.arg.value;
    var head, flag, body, close := CallHead(e.name), CallFlag(e.distinct), Print(x), [Sym(SymClose)];
    StandsThree(ts, i, head + flag, body, close);
    StandsParts(ts, i, head, flag);
    var start := i + 2 + |flag|;
    PrintBegins(x);
    StandsFirst(ts, start, body);
    StandsFirst(ts, start + |body|, close);
    StandsInside(ts, start + |body|, close);
    HeadStands(ts, i, e.name);
    FlagStands(ts, i + 2, e.distinct);
    CloseStops();
    Parses(x, 0, ts, start);
    CallEnds(e, ts, i, start, start + |body|);
  }

  function CallHead(name: string): (r: seq<Token>)
    ensures |r| == 2
  {
    [Kw(CallKeyword(name)), Sym(SymOpen)]
  }

  function CallFlag(distinct: bool): (r: seq<Token>)
    ensures |r| == if distinct then 1 else 0
  {
    if distinct then [Kw(KwDistinct)] else []
  }

  lemma CallParts(e: Expr)
    requires Sayable(e) && e.Func? && e.arg.Some?
    ensures Sayable(e.arg.value)
    ensures Print(e) == CallHead(e.name) + CallFlag(e.distinct) + Print(e.arg.value) + [Sym(SymClose)]
  {
  }

  lemma HeadStands(ts: seq<Token>, i: nat, name: string)
    requires StandsAt(ts, i, CallHead(name))
    ensures ts[i] == Kw(CallKeyword(name)) && ts[i + 1] == Sym(SymOpen)
  {
    assert ts[i..i + 2][0] == ts[i] && ts[i..i + 2][1] == ts[i + 1];
  }

  lemma FlagStands(ts: seq<Token>, i: nat, distinct: bool)
    requires StandsAt(ts, i, CallFlag(distinct))
    ensures distinct ==> ts[i] == Kw(KwDistinct)
  {
    if distinct {
      assert ts[i..i + 1][0] == ts[i];
    }
  }

  /** The argument of a call begins with no * and no DISTINCT, so it is read as such. */
  lemma CallEnds(e: Expr, ts: seq<Token>, i: nat, start: nat, j: nat)
    requires Tokens(ts) && Sayable(e) && e.Func? && e.arg.Some? && i + 2 <= start < j && j + 1 < |ts|
    requires ts[i] == Kw(CallKeyword(e.name)) && ts[i + 1] == Sym(SymOpen) && ts[j] == Sym(SymClose)
    requires start == i + 2 + (if e.distinct then 1 else 0) && (e.distinct ==> ts[i + 2] == Kw(KwDistinct))
    requires Begins(ts[start], Level(e.arg.value)) && ParseLevel(0, ts, start) == Some((e.arg.value, j))
    ensures ParsePrimary(ts, i) == Some((e, j + 1))
  {
    hide ParseOr, Print;
    assert ParseCall(ts, e.name, i + 2) == Some((e, j + 1));
  }

  // ---- predicates ------------------------------------------------------------------------------

  lemma {:induction false} PredicateParses(e: Expr, ts: seq<Token>, i: nat)
    requires Tokens(ts) && Sayable(e) && Level(e) == 3 && StandsAt(ts, i, Print(e)) && Stops(ts[i + |Print(e)|], 3)
    ensures ParsePredicate(ts, i) == Some((e, i + |Print(e)|))
    decreases e, 8
  {
    hide *;
    var x, tail := PredicateParts(e);
    StandsParts(ts, i, Wrap(x, 4), tail);
    StandsFirst(ts, i + |Wrap(x, 4)|, tail);
    StandsInside(ts, i + |Wrap(x, 4)|, tail);
    StopsHigher(ts[i + |Print(e)|], 3, 4);
    Additive(x, ts, i);
    TailParses(e, x, tail, ts, i + |Wrap(x, 4)|);
    PredicateStart(ts, i, x, i + |Wrap(x, 4)|);
  }

  /** The first operand of a predicate, and the tokens behind it. */
  ghost predicate Parted(e: Expr, x: Expr, tail: seq<Token>) {
    match e
    case Bin(op, l, r) => x == l && tail == [OpToken(op)] + Wrap(r, 4) && Level(e) == 3
    case IsNull(y, negated) => x == y && tail == [Kw(KwIs)] + Keywords(negated, KwNull)
    case Between(y, lo, hi, negated) => x == y &&
      tail == Keywords(negated, KwBetween) + (Wrap(lo, 4) + [Kw(KwAnd)] + Wrap(hi, 4))
    case InList(y, items, negated) => x == y &&
      tail == Keywords(negated, KwIn) + ([Sym(SymOpen)] + PrintItems(items) + [Sym(SymClose)])
    case Like(y, pattern, negated) => x == y && tail == Keywords(negated, KwLike) + Wrap(pattern, 4)
    case _ => false
  }

  lemma PredicateParts(e: Expr) returns (x: Expr, tail: seq<Token>)
    requires Sayable(e) && Level(e) == 3
    ensures Parted(e, x, tail) && Sayable(x) && x < e && Print(e) == Wrap(x, 4) + tail
    ensures tail != [] && Stops(tail[0], 4)
  {
    hide Wrap, PrintItems;
    match e {
      case Bin(op, l, r) =>
        x, tail := l, [OpToken(op)] + Wrap(r, 4);
        assert Print(e) == Wrap(x, 4) + tail;
      case IsNull(y, negated) =>
        x, tail := y, [Kw(KwIs)] + Keywords(negated, KwNull);
        assert Print(e) == Wrap(x, 4) + tail;
      case Between(y, lo, hi, negated) =>
        x, tail := y, Keywords(negated, KwBetween) + (Wrap(lo, 4) + [Kw(KwAnd)] + Wrap(hi, 4));
        assert Print(e) == Wrap(x, 4) + tail;
      case InList(y, items, negated) =>
        x, tail := y, Keywords(negated, KwIn) + ([Sym(SymOpen)] + PrintItems(items) + [Sym(SymClose)]);
        assert Print(e) == Wrap(x, 4) + tail;
      case Like(y, pattern, negated) =>
        x, tail := y, Keywords(negated, KwLike) + Wrap(pattern, 4);
        assert Print(e) == Wrap(x, 4) + tail;
    }
  }

  lemma PredicateStart(ts: seq<Token>, i: nat, x: Expr, j: nat)
    requires Tokens(ts) && i < |ts| && j < |ts| && ParseAdditive(ts, i) == Some((x, j))
    ensures ParsePredicate(ts, i) == Tail(ts, x, j)
  {
    hide Tail, ParseAdditive;
  }

  lemma {:induction false} TailParses(e: Expr, x: Expr, tail: seq<Token>, ts: seq<Token>, i: nat)
    requires Tokens(ts) && Sayable(e) && Parted(e, x, tail) && StandsAt(ts, i, tail) && Stops(ts[i + |tail|], 4)
    ensures Tail(ts, x, i) == Some((e, i + |tail|))
    decreases e, 6
  {
    hide *;
    PartedCases(e, x, tail);
    if e.Bin? {
      CompareParses(e, ts, i);
    } else if e.IsNull? {
      StandsParts(ts, i, [Kw(KwIs)], Keywords(e.negated, KwNull));
      StandsFirst(ts, i, [Kw(KwIs)]);
      StandsInside(ts, i, tail);
      KeywordsStand(ts, i + 1, e.negated, KwNull);
      NullEnds(e, ts, i);
    } else if e.Between? {
      BetweenParses(e, ts, i);
    } else if e.InList? {
      InParses(e, ts, i);
    } else {
      LikeParses(e, ts, i);
    }
  }

  lemma PartedCases(e: Expr, x: Expr, tail: seq<Token>)
    requires Sayable(e) && Parted(e, x, tail)
    ensures e.Bin? ==> x == e.left && Level(e) == 3 && tail == [OpToken(e.op)] + Wrap(e.right, 4)
    ensures e.IsNull? ==> x == e.operand && tail == [Kw(KwIs)] + Keywords(e.negated, KwNull)
    ensures e.IsNull? ==> |Keywords(e.negated, KwNull)| == if e.negated then 2 else 1
    ensures e.Between? ==>
      x == e.operand && tail == Keywords(e.negated, KwBetween) + (Wrap(e.lo, 4) + [Kw(KwAnd)] + Wrap(e.hi, 4))
    ensures e.InList? ==>
      x == e.operand && tail == Keywords(e.negated, KwIn) + ([Sym(SymOpen)] + PrintItems(e.items) + [Sym(SymClose)])
    ensures e.Like? ==> x == e.operand && tail == Keywords(e.negated, KwLike) + Wrap(e.pattern, 4)
    ensures e.Bin? || e.IsNull? || e.Between? || e.InList? || e.Like?
  {
    hide Wrap, PrintItems, Sayable;
  }

  lemma NullEnds(e: Expr, ts: seq<Token>, i: nat)
    requires Tokens(ts) && e.IsNull? && i + (if e.negated then 3 else 2) < |ts| && ts[i] == Kw(KwIs)
    requires if e.negated then ts[i + 1] == Kw(KwNot) && ts[i + 2] == Kw(KwNull) else ts[i + 1] == Kw(KwNull)
    ensures Tail(ts, e.operand, i) == Some((e, i + if e.negated then 3 else 2))
  {
  }

  lemma {:induction false} CompareParses(e: Expr, ts: seq<Token>, i: nat)
    requires Tokens(ts) && Sayable(e) && e.Bin? && Level(e) == 3
    requires var tail := [OpToken(e.op)] + Wrap(e.right, 4); StandsAt(ts, i, tail) && Stops(ts[i + |tail|], 4)
    ensures Tail(ts, e.left, i) == Some((e, i + 1 + |Wrap(e.right, 4)|))
    decreases e, 4
  {
    assert Comparison(OpToken(e.op)) == Some(e.op);
    hide Wrap, ParseAdditive, StandsAt, Stops;
    StandsParts(ts, i, [OpToken(e.op)], Wrap(e.right, 4));
    StandsFirst(ts, i, [OpToken(e.op)]);
    StandsInside(ts, i + 1, Wrap(e.right, 4));
    Additive(e.right, ts, i + 1);
  }

  lemma {:induction false} BetweenParses(e: Expr, ts: seq<Token>, i: nat)
    requires Tokens(ts) && Sayable(e) && e.Between?
    requires var tail := Keywords(e.negated, KwBetween) + (Wrap(e.lo, 4) + [Kw(KwAnd)] + Wrap(e.hi, 4));
      StandsAt(ts, i, tail) && Stops(ts[i + |tail|], 4)
    ensures Tail(ts, e.operand, i) == Some((e, i + |Keywords(e.negated, KwBetween)| + |Wrap(e.lo, 4)| + 1 +
      |Wrap(e.hi, 4)|))
    decreases e, 4
  {
    hide *;
    BetweenParts(e);
    var mid, a, b, c := Keywords(e.negated, KwBetween), Wrap(e.lo, 4), [Kw(KwAnd)], Wrap(e.hi, 4);
    StandsParts(ts, i, mid, a + b + c);
    var k := i + |mid|;
    StandsThree(ts, k, a, b, c);
    StandsFirst(ts, k + |a|, b);
    StandsInside(ts, k + |a| + 1, c);
    KeywordsStand(ts, i, e.negated, KwBetween);
    Additive(e.lo, ts, k);
    Additive(e.hi, ts, k + |a| + 1);
    BetweenEnds(e, ts, i, k, k + |a|, k + |a| + 1 + |c|);
  }

  lemma BetweenParts(e: Expr)
    requires Sayable(e) && e.Between?
    ensures Sayable(e.lo) && Sayable(e.hi) && Stops(Kw(KwAnd), 4)
    ensures |Keywords(e.negated, KwBetween)| == if e.negated then 2 else 1
  {
  }

  lemma BetweenEnds(e: Expr, ts: seq<Token>, i: nat, k: nat, a: nat, n: nat)
    requires Tokens(ts) && e.Between? && k == i + (if e.negated then 2 else 1) && k < |ts| && a + 1 < |ts| && n < |ts|
    requires if e.negated then ts[i] == Kw(KwNot) && ts[i + 1] == Kw(KwBetween) else ts[i] == Kw(KwBetween)
    requires ParseAdditive(ts, k) == Some((e.lo, a)) && ts[a] == Kw(KwAnd) &&
      ParseAdditive(ts, a + 1) == Some((e.hi, n))
    ensures Tail(ts, e.operand, i) == Some((e, n))
  {
    hide ParseAdditive;
    assert Listed(ts, e.operand, k - 1, e.negated) == Some((e, n));
  }

  lemma {:induction false} LikeParses(e: Expr, ts: seq<Token>, i: nat)
    requires Tokens(ts) && Sayable(e) && e.Like?
    requires var tail := Keywords(e.negated, KwLike) + Wrap(e.pattern, 4);
      StandsAt(ts, i, tail) && Stops(ts[i + |tail|], 4)
    ensures Tail(ts, e.operand, i) == Some((e, i + |Keywords(e.negated, KwLike)| + |Wrap(e.pattern, 4)|))
    decreases e, 4
  {
    assert Sayable(e.pattern);
    hide Wrap, ParseAdditive, StandsAt, Stops, Sayable;
    var mid, c := Keywords(e.negated, KwLike), Wrap(e.pattern, 4);
    StandsParts(ts, i, mid, c);
    StandsInside(ts, i + |mid|, c);
    KeywordsStand(ts, i, e.negated, KwLike);
    Additive(e.pattern, ts, i + |mid|);
    assert Listed(ts, e.operand, i + |mid| - 1, e.negated) == Some((e, i + |mid| + |c|));
  }

  lemma {:induction false} InParses(e: Expr, ts: seq<Token>, i: nat)
    requires Tokens(ts) && Sayable(e) && e.InList?
    requires var tail := Keywords(e.negated, KwIn) + ([Sym(SymOpen)] + PrintItems(e.items) + [Sym(SymClose)]);
      StandsAt(ts, i, tail)
    ensures Tail(ts, e.operand, i) == Some((e, i + |Keywords(e.negated, KwIn)| + |PrintItems(e.items)| + 2))
    decreases e, 4
  {
    hide *;
    InParts(e);
    var mid, a, b, c := Keywords(e.negated, KwIn), [Sym(SymOpen)], PrintItems(e.items), [Sym(SymClose)];
    StandsParts(ts, i, mid, a + b + c);
    var k := i + |mid|;
    StandsThree(ts, k, a, b, c);
    StandsFirst(ts, k, a);
    StandsFirst(ts, k + 1 + |b|, c);
    StandsInside(ts, k + 1 + |b|, c);
    StandsInside(ts, k + 1, b);
    KeywordsStand(ts, i, e.negated, KwIn);
    ItemsParse(e.items, [], ts, k + 1);
    assert [] + [e.items[0]] == [e.items[0]] && [] + e.items == e.items;
    InEnds(e, ts, i, k, ParseAdditive(ts, k + 1).value.1, k + 1 + |b|);
  }

  lemma InParts(e: Expr)
    requires Sayable(e) && e.InList?
    ensures SayableAll(e.items) && e.items != [] && |Keywords(e.negated, KwIn)| == if e.negated then 2 else 1
  {
  }

  lemma InEnds(e: Expr, ts: seq<Token>, i: nat, k: nat, a: nat, n: nat)
    requires Tokens(ts) && e.InList? && e.items != [] && k == i + (if e.negated then 2 else 1)
    requires k + 1 < |ts| && a < |ts| && n + 1 < |ts|
    requires if e.negated then ts[i] == Kw(KwNot) && ts[i + 1] == Kw(KwIn) else ts[i] == Kw(KwIn)
    requires ts[k] == Sym(SymOpen) && ParseAdditive(ts, k + 1) == Some((e.items[0], a))
    requires ItemLoop(ts, [e.items[0]], a) == Some((e.items, n)) && ts[n] == Sym(SymClose)
    ensures Tail(ts, e.operand, i) == Some((e, n + 1))
  {
    hide ParseAdditive, ItemLoop;
    assert Listed(ts, e.operand, k - 1, e.negated) == Some((e, n + 1));
  }

  lemma KeywordsStand(ts: seq<Token>, i: nat, negated: bool, k: Keyword)
    requires StandsAt(ts, i, Keywords(negated, k))
    ensures if negated then ts[i] == Kw(KwNot) && ts[i + 1] == Kw(k) else ts[i] == Kw(k)
  {
    var p := Keywords(negated, k);
    assert ts[i..i + |p|][0] == ts[i];
    if negated {
      assert ts[i..i + |p|][1] == ts[i + 1];
    }
  }

  /** An operand of a predicate. */
  lemma {:induction false} Additive(e: Expr, ts: seq<Token>, i: nat)
    requires Tokens(ts) && Sayable(e) && StandsAt(ts, i, Wrap(e, 4)) && Stops(ts[i + |Wrap(e, 4)|], 4)
    ensures ParseAdditive(ts, i) == Some((e, i + |Wrap(e, 4)|))
    decreases e, 50
  {
    WrapParses(e, 4, ts, i);
  }

  lemma {:induction false} ItemsParse(items: seq<Expr>, done: seq<Expr>, ts: seq<Token>, i: nat)
    requires Tokens(ts) && items != [] && SayableAll(items) && StandsAt(ts, i, PrintItems(items))
    requires ts[i + |PrintItems(items)|] == Sym(SymClose)
    ensures var r := ParseAdditive(ts, i);
      && r.Some? && r.value.0 == items[0]
      && ItemLoop(ts, done + [items[0]], r.value.1) == Some((done + items, i + |PrintItems(items)|))
    decreases items, 60
  {
    hide *;
    ItemsParts(items, done);
    if |items| == 1 {
      CloseStopsAdditive();
      Additive(items[0], ts, i);
      ItemsEnd(items, done, ts, i + |PrintItems(items)|);
    } else {
      var a, b, c := Wrap(items[0], 4), [Sym(SymComma)], PrintItems(items[1..]);
      StandsThree(ts, i, a, b, c);
      StandsFirst(ts, i + |a|, b);
      StandsInside(ts, i + |a| + 1, c);
      CloseStopsAdditive();
      Additive(items[0], ts, i);
      ItemsParse(items[1..], done + [items[0]], ts, i + |a| + 1);
      ItemsStep(items, done, ts, i + |a|);
    }
  }

  lemma CloseStopsAdditive()
    ensures Stops(Sym(SymClose), 4) && Stops(Sym(SymComma), 4)
  {
  }

  lemma ItemsParts(items: seq<Expr>, done: seq<Expr>)
    requires items != [] && SayableAll(items)
    ensures Sayable(items[0]) && SayableAll(items[1..])
    ensures |items| == 1 ==> PrintItems(items) == Wrap(items[0], 4) && done + [items[0]] == done + items
    ensures |items| > 1 ==> PrintItems(items) == Wrap(items[0], 4) + [Sym(SymComma)] + PrintItems(items[1..])
    ensures done + [items[0]] + items[1..] == done + items
  {
    hide *;
    ItemsPrinted(items);
    OneByOne(items, done);
  }

  lemma OneByOne<T>(items: seq<T>, done: seq<T>)
    requires items != []
    ensures done + [items[0]] + items[1..] == done + items
    ensures |items| == 1 ==> done + [items[0]] == done + items
  {
  }

  lemma ItemsPrinted(items: seq<Expr>)
    requires items != [] && SayableAll(items)
    ensures Sayable(items[0]) && SayableAll(items[1..])
    ensures |items| == 1 ==> PrintItems(items) == Wrap(items[0], 4)
    ensures |items| > 1 ==> PrintItems(items) == Wrap(items[0], 4) + [Sym(SymComma)] + PrintItems(items[1..])
  {
    hide Wrap, Sayable;
  }

  lemma ItemsEnd(items: seq<Expr>, done: seq<Expr>, ts: seq<Token>, j: nat)
    requires Tokens(ts) && j < |ts| && ts[j] == Sym(SymClose) && |items| == 1
    ensures ItemLoop(ts, done + [items[0]], j) == Some((done + items, j))
  {
    assert [items[0]] == items;
  }

  lemma ItemsStep(items: seq<Expr>, done: seq<Expr>, ts: seq<Token>, j: nat)
    requires Tokens(ts) && j + 1 < |ts| && ts[j] == Sym(SymComma) && |items| > 1
    requires ParseAdditive(ts, j + 1).Some? && ParseAdditive(ts, j + 1).value.0 == items[1..][0]
    ensures ItemLoop(ts, done + [items[0]], j) ==
            ItemLoop(ts, done + [items[0]] + [items[1..][0]], ParseAdditive(ts, j + 1).value.1)
  {
    hide ParseAdditive;
  }

  /** Printing an expression and parsing the tokens gives the expression back, with every
      token used up. */
  lemma RoundTrip(e: Expr)
    requires Sayable(e)
    ensures var ts := Print(e) + [Eof];
      Tokens(ts) && ParseOr(ts, 0) == Some((e, |ts| - 1))
  {
    var ts := Print(e) + [Eof];
    hide *;
    AtTheStart(Print(e));
    Parses(e, 0, ts, 0);
    LoosestLevel(ts);
  }

  lemma AtTheStart(piece: seq<Token>)
    ensures var ts := piece + [Eof];
      Tokens(ts) && StandsAt(ts, 0, piece) && Stops(ts[|piece|], 0)
  {
    var ts := piece + [Eof];
    assert ts[0..|piece|] == piece;
  }

  lemma LoosestLevel(ts: seq<Token>)
    requires Tokens(ts)
    ensures ParseLevel(0, ts, 0) == ParseOr(ts, 0)
  {
    hide ParseOr;
  }
}
