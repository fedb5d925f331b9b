// The language of SQL expressions (parse_expression in leafdb/sqlparse.py): which tokens say
// which expression, one rule a production, and that the parser finds exactly that.

module Language {
  import opened Bytes
  import opened Sql
  import opened Grammar
  import opened PrintParse

  // ---- tokens ------------------------------------------------------------------------------------

  /** A token spells an operator; there are two spellings of <>. */
  predicate Spells(t: Token, op: Op) {
    match op
    case OrOp => t == Kw(KwOr)
    case AndOp => t == Kw(KwAnd)
    case Eq => t == Sym(SymEq)
    case Ne => t == Sym(SymNe) || t == Sym(SymBang)
    case Lt => t == Sym(SymLt)
    case Le => t == Sym(SymLe)
    case Gt => t == Sym(SymGt)
    case Ge => t == Sym(SymGe)
    case Add => t == Sym(SymPlus)
    case Sub => t == Sym(SymMinus)
    case Mul => t == Sym(SymStar)
    case Div => t == Sym(SymSlash)
  }

  /** How tightly an operator binds. */
  function Strength(op: Op): nat {
    match op
    case OrOp => 0
    case AndOp => 1
    case Add => 4
    case Sub => 4
    case Mul => 5
    case Div => 5
    case _ => 3
  }

  /** A token is a name: an identifier, or one of the keywords that may be one. */
  predicate Names(t: Token, name: string) {
    || t == Ident(name)
    || (t == Kw(KwInt) && name == "int")
    || (t == Kw(KwText) && name == "text")
    || (t == Kw(KwCount) && name == "count")
    || (t == Kw(KwSum) && name == "sum")
    || (t == Kw(KwAvg) && name == "avg")
    || (t == Kw(KwMin) && name == "min")
    || (t == Kw(KwMax) && name == "max")
  }

  /** A keyword is an aggregate. */
  predicate Calls(t: Token, name: string) {
    || (t == Kw(KwCount) && name == "COUNT")
    || (t == Kw(KwSum) && name == "SUM")
    || (t == Kw(KwAvg) && name == "AVG")
    || (t == Kw(KwMin) && name == "MIN")
    || (t == Kw(KwMax) && name == "MAX")
  }

  // ---- what tokens say ---------------------------------------------------------------------------

  /** These tokens, all of them, say this expression at this level: 0 for OR, 1 for AND, 2 for
      NOT, 3 for predicates, 4 and 5 for sums and products, 6 for signs, 7 for the rest. */
  ghost predicate Says(level: nat, s: seq<Token>, e: Expr)
    requires level <= 7
    decreases |s|, 20 - level
  {
    match level
    case 2 => Says(3, s, e) || SaysNot(s, e)
    case 3 => Says(4, s, e) || exists k :: 0 <= k < |s| && SaysPredicate(s, e, k)
    case 6 => Says(7, s, e) || SaysSigned(s, e)
    case 7 => SaysAtom(s, e) || SaysCall(s, e) || SaysParenthesized(s, e)
    case _ => Says(level + 1, s, e) || exists k :: 0 <= k < |s| && SaysInfix(level, s, e, k)
  }

  /** Operators of one level, from the left: token k is the last one. */
  ghost predicate SaysInfix(level: nat, s: seq<Token>, e: Expr, k: nat)
    requires level <= 5 && k < |s|
    decreases |s|, 0
  {
    && e.Bin? && Spells(s[k], e.op) && Strength(e.op) == level
    && Says(level, s[..k], e.left) && Says(level + 1, s[k + 1..], e.right)
  }

  ghost predicate SaysNot(s: seq<Token>, e: Expr)
    decreases |s|, 0
  {
    s != [] && s[0] == Kw(KwNot) && e.Not? && Says(2, s[1..], e.operand)
  }

  /** A minus is a negation, a plus is nothing. */
  ghost predicate SaysSigned(s: seq<Token>, e: Expr)
    decreases |s|, 0
  {
    || (s != [] && s[0] == Sym(SymMinus) && e.Neg? && Says(6, s[1..], e.operand))
    || (s != [] && s[0] == Sym(SymPlus) && Says(6, s[1..], e))
  }

  /** A sum, and behind it, from token k on, what makes it a predicate. */
  ghost predicate SaysPredicate(s: seq<Token>, e: Expr, k: nat)
    requires k < |s|
    decreases |s|, 5
  {
    match e
    case Bin(op, l, r) => Spells(s[k], op) && Strength(op) == 3 && Says(4, s[..k], l) && Says(4, s[k + 1..], r)
    case IsNull(x, negated) =>
      && Says(4, s[..k], x)
      && s[k..] == if negated then [Kw(KwIs), Kw(KwNot), Kw(KwNull)] else [Kw(KwIs), Kw(KwNull)]
    case Between(x, lo, hi, negated) =>
      Says(4, s[..k], x) && Leads(s, k, negated, KwBetween) &&
      exists m :: Behind(k, negated) < m < |s| && SaysRange(s, Behind(k, negated), m, lo, hi)
    case InList(x, items, negated) =>
      && Says(4, s[..k], x) && Leads(s, k, negated, KwIn)
      && var p := Behind(k, negated);
         p + 2 < |s| && s[p] == Sym(SymOpen) && s[|s| - 1] == Sym(SymClose) && SaysItems(s[p + 1..|s| - 1], items)
    case Like(x, pattern, negated) =>
      Says(4, s[..k], x) && Leads(s, k, negated, KwLike) && Says(4, s[Behind(k, negated)..], pattern)
    case _ => false
  }

  /** NOT, if it is negated, and the keyword; something follows. */
  predicate Leads(s: seq<Token>, k: nat, negated: bool, kw: Keyword) {
    && Behind(k, negated) < |s| && s[Behind(k, negated) - 1] == Kw(kw)
    && (negated ==> s[k] == Kw(KwNot))
  }

  /** The position behind them */
  function Behind(k: nat, negated: bool): (p: nat)
    ensures p > k
  {
    if negated then k + 2 else k + 1
  }

  /** From token p on: a sum, AND at token m, and another sum. */
  ghost predicate SaysRange(s: seq<Token>, p: nat, m: nat, lo: Expr, hi: Expr)
    requires 0 < p < m < |s|
    decreases |s|, 0
  {
    s[m] == Kw(KwAnd) && Says(4, s[p..m], lo) && Says(4, s[m + 1..], hi)
  }

  /** Sums with commas between them */
  ghost predicate SaysItems(s: seq<Token>, items: seq<Expr>)
    decreases |s|, 30
  {
    if |items| == 1 then Says(4, s, items[0])
    else |items| > 1 && exists k :: 0 <= k < |s| && SaysLastItem(s, items, k)
  }

  ghost predicate SaysLastItem(s: seq<Token>, items: seq<Expr>, k: nat)
    requires k < |s| && |items| > 1
    decreases |s|, 0
  {
    s[k] == Sym(SymComma) && SaysItems(s[..k], items[..|items| - 1]) && Says(4, s[k + 1..], items[|items| - 1])
  }

  predicate SaysAtom(s: seq<Token>, e: Expr) {
    match e
    case Lit(Int(i)) => i >= 0 && s == [Num(i)]
    case Lit(Str(text)) => s == [Text(text)]
    case Lit(Null) => s == [Kw(KwNull)]
    case Col(None, name) => |s| == 1 && Names(s[0], name)
    case Col(Some(table), name) => |s| == 3 && Names(s[0], table) && s[1] == Sym(SymDot) && s[2] == Ident(name)
    case _ => false
  }

  /** COUNT(*), or an aggregate of an expression, maybe with DISTINCT */
  ghost predicate SaysCall(s: seq<Token>, e: Expr)
    decreases |s|, 0
  {
    match e
    case Func(name, distinct, None) =>
      name == "COUNT" && !distinct && s == [Kw(KwCount), Sym(SymOpen), Sym(SymStar), Sym(SymClose)]
    case Func(name, distinct, Some(x)) =>
      && |s| > 3 && Calls(s[0], name) && s[1] == Sym(SymOpen) && s[|s| - 1] == Sym(SymClose)
      && if distinct then s[2] == Kw(KwDistinct) && Says(0, s[3..|s| - 1], x) else Says(0, s[2..|s| - 1], x)
    case _ => false
  }

  ghost predicate SaysParenthesized(s: seq<Token>, e: Expr)
    decreases |s|, 0
  {
    |s| > 2 && s[0] == Sym(SymOpen) && s[|s| - 1] == Sym(SymClose) && Says(0, s[1..|s| - 1], e)
  }

  // ---- what is parsed is said --------------------------------------------------------------------

  /** The parts of a stretch of tokens */
  lemma Stretches(ts: seq<Token>, i: nat, j: nat, k: nat)
    requires i <= j < k <= |ts|
    ensures var s := ts[i..k];
      s[j - i] == ts[j] && s[..j - i] == ts[i..j] && s[j - i..] == ts[j..k] && s[j - i + 1..] == ts[j + 1..k]
  {
  }

  lemma Within(ts: seq<Token>, i: nat, a: nat, b: nat, k: nat)
    requires i <= a <= b <= k <= |ts|
    ensures ts[i..k][a - i..b - i] == ts[a..b]
  {
    Subslice(ts, i, k, a - i, b - i);
  }

  /** The operator that a loop goes on with. */
  function LoopOp(level: nat, t: Token): Option<Op> {
    if level == 0 then (if t == Kw(KwOr) then Some(OrOp) else None)
    else if level == 1 then (if t == Kw(KwAnd) then Some(AndOp) else None)
    else if level == 4 then AddOp(t)
    else MulOp(t)
  }

  lemma LoopOpSpells(level: nat, t: Token)
    requires LoopLevel(level)
    ensures LoopOp(level, t).Some? ==>
      Spells(t, LoopOp(level, t).value) && Strength(LoopOp(level, t).value) == level
  {
  }

  lemma LoopUnfolds(level: nat, ts: seq<Token>, left: Expr, j: nat)
    requires Tokens(ts) && j < |ts| && LoopLevel(level)
    ensures LoopOp(level, ts[j]).None? ==> Loop(level, ts, left, j) == Some((left, j))
    ensures LoopOp(level, ts[j]).Some? ==>
      && j + 1 < |ts|
      && var r := ParseLevel(level + 1, ts, j + 1);
         Loop(level, ts, left, j) ==
         if r.None? then None else Loop(level, ts, Bin(LoopOp(level, ts[j]).value, left, r.value.0), r.value.1)
  {
  }

  lemma InfixSays(level: nat, ts: seq<Token>, i: nat, j: nat, k: nat, op: Op, l: Expr, r: Expr)
    requires LoopLevel(level) && i < j < k <= |ts| && Spells(ts[j], op) && Strength(op) == level
    requires Says(level, ts[i..j], l) && Says(level + 1, ts[j + 1..k], r)
    ensures Says(level, ts[i..k], Bin(op, l, r))
  {
    Stretches(ts, i, j, k);
    var s := ts[i..k];
    hide Says, Spells, Strength;
    assert SaysInfix(level, s, Bin(op, l, r), j - i);
    SaysByInfix(level, s, Bin(op, l, r), j - i);
  }

  lemma SaysByInfix(level: nat, s: seq<Token>, e: Expr, k: nat)
    requires LoopLevel(level) && k < |s| && SaysInfix(level, s, e, k)
    ensures Says(level, s, e)
  {
    hide SaysInfix;
  }

  lemma SaysTighter(level: nat, s: seq<Token>, e: Expr)
    requires level < 7 && Says(level + 1, s, e)
    ensures Says(level, s, e)
  {
    hide SaysInfix, SaysPredicate, SaysNot, SaysSigned;
  }

  /** If a loop ends, what it has read is said. */
  lemma {:induction false} SoundLoop(level: nat, ts: seq<Token>, i: nat, left: Expr, j: nat)
    requires Tokens(ts) && i < j < |ts| && LoopLevel(level) && Says(level, ts[i..j], left)
    ensures var r := Loop(level, ts, left, j);
      r.Some? ==> i < r.value.1 < |ts| && Says(level, ts[i..r.value.1], r.value.0)
    decreases |ts| - j, 20
  {
    hide *;
    LoopUnfolds(level, ts, left, j);
    LoopOpSpells(level, ts[j]);
    LoopLevels(level);
    if LoopOp(level, ts[j]).Some? {
      var r := ParseLevel(level + 1, ts, j + 1);
      if r.Some? {
        Sound(level + 1, ts, j + 1);
        InfixSays(level, ts, i, j, r.value.1, LoopOp(level, ts[j]).value, left, r.value.0);
        SoundLoop(level, ts, i, Bin(LoopOp(level, ts[j]).value, left, r.value.0), r.value.1);
      }
    }
  }

  /** What the parser reads at a level is said at that level by the tokens it has read. */
  lemma {:induction false} Sound(level: nat, ts: seq<Token>, i: nat)
    requires Tokens(ts) && i < |ts| && level <= 7
    ensures var r := ParseLevel(level, ts, i);
      r.Some? ==> Says(level, ts[i..r.value.1], r.value.0)
    decreases |ts| - i, 40 - 4 * level
  {
    hide *;
    if LoopLevel(level) {
      LoopLevels(level);
      Sound(level + 1, ts, i);
      var r := ParseLevel(level + 1, ts, i);
      LoopFirst(level, ts, i);
      if r.Some? {
        SaysTighter(level, ts[i..r.value.1], r.value.0);
        SoundLoop(level, ts, i, r.value.0, r.value.1);
      }
    } else if level == 2 {
      SoundNot(ts, i);
    } else if level == 3 {
      SoundPredicate(ts, i);
    } else if level == 6 {
      SoundUnary(ts, i);
    } else {
      OtherLevels(level);
      SoundPrimary(ts, i);
    }
  }

  lemma OtherLevels(level: nat)
    requires level <= 7 && !LoopLevel(level) && level != 2 && level != 3 && level != 6
    ensures level == 7
  {
  }

  lemma LoopFirst(level: nat, ts: seq<Token>, i: nat)
    requires Tokens(ts) && i < |ts| && LoopLevel(level) && level <= 5
    ensures var r := ParseLevel(level + 1, ts, i);
      ParseLevel(level, ts, i) == if r.None? then None else Loop(level, ts, r.value.0, r.value.1)
  {
  }

  lemma {:induction false} SoundNot(ts: seq<Token>, i: nat)
    requires Tokens(ts) && i < |ts|
    ensures var r := ParseLevel(2, ts, i);
      r.Some? ==> Says(2, ts[i..r.value.1], r.value.0)
    decreases |ts| - i, 31
  {
    hide *;
    NotUnfolds(ts, i);
    if ts[i] == Kw(KwNot) {
      Sound(2, ts, i + 1);
      var r := ParseLevel(2, ts, i + 1);
      if r.Some? {
        PrefixSays(ts, i, r.value.1, r.value.0);
      }
    } else {
      Sound(3, ts, i);
      var r := ParseLevel(3, ts, i);
      if r.Some? {
        SaysTighter(2, ts[i..r.value.1], r.value.0);
      }
    }
  }

  lemma NotUnfolds(ts: seq<Token>, i: nat)
    requires Tokens(ts) && i < |ts|
    ensures ts[i] == Kw(KwNot) ==>
      && i + 1 < |ts|
      && var r := ParseLevel(2, ts, i + 1);
         ParseLevel(2, ts, i) == if r.None? then None else Some((Not(r.value.0), r.value.1))
    ensures ts[i] != Kw(KwNot) ==> ParseLevel(2, ts, i) == ParseLevel(3, ts, i)
  {
    hide ParsePredicate;
  }

  /** NOT, a minus or a plus in front of what is said. */
  lemma PrefixSays(ts: seq<Token>, i: nat, j: nat, x: Expr)
    requires i + 1 < j <= |ts|
    ensures ts[i] == Kw(KwNot) && Says(2, ts[i + 1..j], x) ==> Says(2, ts[i..j], Not(x))
    ensures ts[i] == Sym(SymMinus) && Says(6, ts[i + 1..j], x) ==> Says(6, ts[i..j], Neg(x))
    ensures ts[i] == Sym(SymPlus) && Says(6, ts[i + 1..j], x) ==> Says(6, ts[i..j], x)
  {
    Stretches(ts, i, i, j);
    hide SaysPredicate, SaysAtom, SaysCall, SaysParenthesized;
  }

  lemma {:induction false} SoundUnary(ts: seq<Token>, i: nat)
    requires Tokens(ts) && i < |ts|
    ensures var r := ParseLevel(6, ts, i);
      r.Some? ==> Says(6, ts[i..r.value.1], r.value.0)
    decreases |ts| - i, 15
  {
    hide *;
    UnaryUnfolds(ts, i);
    if ts[i] == Sym(SymMinus) || ts[i] == Sym(SymPlus) {
      Sound(6, ts, i + 1);
      var r := ParseLevel(6, ts, i + 1);
      if r.Some? {
        PrefixSays(ts, i, r.value.1, r.value.0);
      }
    } else {
      Sound(7, ts, i);
      var r := ParseLevel(7, ts, i);
      if r.Some? {
        SaysTighter(6, ts[i..r.value.1], r.value.0);
      }
    }
  }

  lemma UnaryUnfolds(ts: seq<Token>, i: nat)
    requires Tokens(ts) && i < |ts|
    ensures ts[i] == Sym(SymMinus) ==>
      && i + 1 < |ts|
      && var r := ParseLevel(6, ts, i + 1);
         ParseLevel(6, ts, i) == if r.None? then None else Some((Neg(r.value.0), r.value.1))
    ensures ts[i] == Sym(SymPlus) ==> i + 1 < |ts| && ParseLevel(6, ts, i) == ParseLevel(6, ts, i + 1)
    ensures ts[i] != Sym(SymMinus) && ts[i] != Sym(SymPlus) ==> ParseLevel(6, ts, i) == ParseLevel(7, ts, i)
  {
    hide ParsePrimary;
  }

  // ---- predicates ----------------------------------------------------------------------------------

  lemma {:induction false} SoundPredicate(ts: seq<Token>, i: nat)
    requires Tokens(ts) && i < |ts|
    ensures var r := ParseLevel(3, ts, i);
      r.Some? ==> Says(3, ts[i..r.value.1], r.value.0)
    decreases |ts| - i, 27
  {
    hide *;
    Sound(4, ts, i);
    PredicateUnfolds(ts, i);
    var r := ParseLevel(4, ts, i);
    if r.Some? {
      SoundTail(ts, i, r.value.0, r.value.1);
    }
  }

  lemma PredicateUnfolds(ts: seq<Token>, i: nat)
    requires Tokens(ts) && i < |ts|
    ensures var r := ParseLevel(4, ts, i);
      ParseLevel(3, ts, i) == if r.None? then None else Tail(ts, r.value.0, r.value.1)
  {
    hide Tail, ParseAdditive;
  }

  lemma SaysByPredicate(ts: seq<Token>, i: nat, j: nat, k: nat, e: Expr)
    requires i <= j < k <= |ts| && SaysPredicate(ts[i..k], e, j - i)
    ensures Says(3, ts[i..k], e)
  {
    hide SaysPredicate;
  }

  lemma {:induction false} SoundTail(ts: seq<Token>, i: nat, left: Expr, j: nat)
    requires Tokens(ts) && i < j < |ts| && Says(4, ts[i..j], left)
    ensures var r := Tail(ts, left, j);
      r.Some? ==> i < r.value.1 <= |ts| && Says(3, ts[i..r.value.1], r.value.0)
    decreases |ts| - j, 60
  {
    hide *;
    TailUnfolds(ts, left, j);
    if ts[j] == Kw(KwIs) {
      NullSays(ts, i, left, j);
    } else if ts[j] == Kw(KwNot) {
      SoundListed(ts, i, left, j, true);
    } else if ts[j] in {Kw(KwBetween), Kw(KwIn), Kw(KwLike)} {
      SoundListed(ts, i, left, j, false);
    } else if Comparison(ts[j]).Some? {
      Sound(4, ts, j + 1);
      var r := ParseLevel(4, ts, j + 1);
      if r.Some? {
        CompareSays(ts, i, left, j, r.value.0, r.value.1);
      }
    } else {
      SaysTighter(3, ts[i..j], left);
    }
  }

  lemma TailUnfolds(ts: seq<Token>, left: Expr, j: nat)
    requires Tokens(ts) && j < |ts|
    ensures ts[j] == Kw(KwNot) ==> j + 1 < |ts| && Tail(ts, left, j) == Listed(ts, left, j + 1, true)
    ensures ts[j] in {Kw(KwBetween), Kw(KwIn), Kw(KwLike)} ==> Tail(ts, left, j) == Listed(ts, left, j, false)
    ensures ts[j] != Kw(KwIs) && ts[j] != Kw(KwNot) && ts[j] !in {Kw(KwBetween), Kw(KwIn), Kw(KwLike)} ==>
      if Comparison(ts[j]).None? then Tail(ts, left, j) == Some((left, j))
      else
        && j + 1 < |ts|
        && var r := ParseLevel(4, ts, j + 1);
           Tail(ts, left, j) ==
           if r.None? then None else Some((Bin(Comparison(ts[j]).value, left, r.value.0), r.value.1))
  {
    hide Listed, ParseAdditive;
  }

  lemma NullSays(ts: seq<Token>, i: nat, left: Expr, j: nat)
    requires Tokens(ts) && i < j < |ts| && Says(4, ts[i..j], left) && ts[j] == Kw(KwIs)
    ensures var r := Tail(ts, left, j);
      r.Some? ==> i < r.value.1 <= |ts| && Says(3, ts[i..r.value.1], r.value.0)
  {
    var r := Tail(ts, left, j);
    if r.Some? {
      var k := r.value.1;
      Stretches(ts, i, j, k);
      hide Says;
      assert ts[j..k] == if k == j + 3 then [Kw(KwIs), Kw(KwNot), Kw(KwNull)] else [Kw(KwIs), Kw(KwNull)];
      SaysByPredicate(ts, i, j, k, r.value.0);
    }
    hide *;
  }

  lemma CompareSays(ts: seq<Token>, i: nat, left: Expr, j: nat, right: Expr, k: nat)
    requires i < j < j + 1 < k <= |ts| && Comparison(ts[j]).Some?
    requires Says(4, ts[i..j], left) && Says(4, ts[j + 1..k], right)
    ensures Says(3, ts[i..k], Bin(Comparison(ts[j]).value, left, right))
  {
    var op := Comparison(ts[j]).value;
    assert Spells(ts[j], op) && Strength(op) == 3;
    Stretches(ts, i, j, k);
    hide Says, Spells, Strength, Comparison;
    assert SaysPredicate(ts[i..k], Bin(op, left, right), j - i);
    SaysByPredicate(ts, i, j, k, Bin(op, left, right));
  }

  /** BETWEEN, IN and LIKE; token j is the NOT, if there is one, or else the keyword. */
  lemma {:induction false} SoundListed(ts: seq<Token>, i: nat, left: Expr, j: nat, negated: bool)
    requires Tokens(ts) && i < j < |ts| && Says(4, ts[i..j], left)
    requires negated ==> ts[j] == Kw(KwNot) && j + 1 < |ts|
    ensures var r := Listed(ts, left, if negated then j + 1 else j, negated);
      r.Some? ==> i < r.value.1 <= |ts| && Says(3, ts[i..r.value.1], r.value.0)
    decreases |ts| - j, 55
  {
    hide *;
    var p := Behind(j, negated) - 1;
    BehindIs(j, negated);
    ListedUnfolds(ts, left, p, negated);
    if ts[p] == Kw(KwBetween) {
      Sound(4, ts, p + 1);
      var a := ParseLevel(4, ts, p + 1);
      if a.Some? && ts[a.value.1] == Kw(KwAnd) {
        BetweenUnfolds(ts, left, p, negated, a.value.1);
        Sound(4, ts, a.value.1 + 1);
        var b := ParseLevel(4, ts, a.value.1 + 1);
        if b.Some? {
          BetweenSays(ts, i, left, j, negated, a.value.0, a.value.1, b.value.0, b.value.1);
        }
      }
    } else if ts[p] == Kw(KwIn) {
      SoundIn(ts, i, left, j, negated);
    } else if ts[p] == Kw(KwLike) {
      Sound(4, ts, p + 1);
      var a := ParseLevel(4, ts, p + 1);
      if a.Some? {
        LikeSays(ts, i, left, j, negated, a.value.0, a.value.1);
      }
    }
  }

  lemma BehindIs(j: nat, negated: bool)
    ensures Behind(j, negated) == if negated then j + 2 else j + 1
  {
  }

  lemma ListedUnfolds(ts: seq<Token>, left: Expr, p: nat, negated: bool)
    requires Tokens(ts) && p < |ts|
    ensures ts[p] !in {Kw(KwBetween), Kw(KwIn), Kw(KwLike)} ==> Listed(ts, left, p, negated).None?
    ensures ts[p] != Kw(KwBetween) && ts[p] != Kw(KwIn) && ts[p] != Kw(KwLike) ==> Listed(ts, left, p, negated).None?
    ensures ts[p] != Eof ==> p + 1 < |ts|
    ensures ts[p] == Kw(KwBetween) ==>
      var a := ParseLevel(4, ts, p + 1);
      (a.None? || ts[a.value.1] != Kw(KwAnd) ==> Listed(ts, left, p, negated).None?)
    ensures ts[p] == Kw(KwLike) ==>
      var a := ParseLevel(4, ts, p + 1);
      Listed(ts, left, p, negated) == if a.None? then None else Some((Like(left, a.value.0, negated), a.value.1))
  {
    hide ParseAdditive, ItemLoop;
  }

  lemma BetweenUnfolds(ts: seq<Token>, left: Expr, p: nat, negated: bool, m: nat)
    requires Tokens(ts) && p + 1 < |ts| && ts[p] == Kw(KwBetween) && m < |ts| && ts[m] == Kw(KwAnd)
    requires ParseLevel(4, ts, p + 1).Some? && ParseLevel(4, ts, p + 1).value.1 == m
    ensures m + 1 < |ts|
    ensures var a, b := ParseLevel(4, ts, p + 1), ParseLevel(4, ts, m + 1);
      Listed(ts, left, p, negated) ==
      if b.None? then None else Some((Between(left, a.value.0, b.value.0, negated), b.value.1))
  {
    hide ParseAdditive;
  }

  lemma LeadsAt(ts: seq<Token>, i: nat, j: nat, k: nat, negated: bool, kw: Keyword)
    requires i <= j && Behind(j, negated) < k <= |ts| && ts[Behind(j, negated) - 1] == Kw(kw)
    requires negated ==> ts[j] == Kw(KwNot)
    ensures Leads(ts[i..k], j - i, negated, kw) && Behind(j - i, negated) == Behind(j, negated) - i
  {
  }

  lemma BetweenSays(ts: seq<Token>, i: nat, left: Expr, j: nat, negated: bool, lo: Expr, m: nat, hi: Expr, k: nat)
    requires i < j && Behind(j, negated) < m < m + 1 < k <= |ts|
    requires ts[Behind(j, negated) - 1] == Kw(KwBetween) && ts[m] == Kw(KwAnd) && (negated ==> ts[j] == Kw(KwNot))
    requires Says(4, ts[i..j], left) && Says(4, ts[Behind(j, negated)..m], lo) && Says(4, ts[m + 1..k], hi)
    ensures Says(3, ts[i..k], Between(left, lo, hi, negated))
  {
    var s, p := ts[i..k], Behind(j, negated);
    LeadsAt(ts, i, j, k, negated, KwBetween);
    Stretches(ts, i, j, k);
    Stretches(ts, i, m, k);
    Within(ts, i, p, m, k);
    hide Says, Leads, Behind;
    assert SaysRange(s, p - i, m - i, lo, hi);
    hide SaysRange;
    assert SaysPredicate(s, Between(left, lo, hi, negated), j - i);
    SaysByPredicate(ts, i, j, k, Between(left, lo, hi, negated));
  }

  lemma LikeSays(ts: seq<Token>, i: nat, left: Expr, j: nat, negated: bool, pattern: Expr, k: nat)
    requires i < j && Behind(j, negated) < k <= |ts|
    requires ts[Behind(j, negated) - 1] == Kw(KwLike) && (negated ==> ts[j] == Kw(KwNot))
    requires Says(4, ts[i..j], left) && Says(4, ts[Behind(j, negated)..k], pattern)
    ensures Says(3, ts[i..k], Like(left, pattern, negated))
  {
    LeadsAt(ts, i, j, k, negated, KwLike);
    Stretches(ts, i, j, k);
    Stretches(ts, i, Behind(j, negated), k);
    hide Says, Leads, Behind;
    assert SaysPredicate(ts[i..k], Like(left, pattern, negated), j - i);
    SaysByPredicate(ts, i, j, k, Like(left, pattern, negated));
  }

  // ---- IN lists ------------------------------------------------------------------------------------

  lemma {:induction false} SoundIn(ts: seq<Token>, i: nat, left: Expr, j: nat, negated: bool)
    requires Tokens(ts) && i < j && Behind(j, negated) < |ts| && Says(4, ts[i..j], left)
    requires ts[Behind(j, negated) - 1] == Kw(KwIn) && (negated ==> ts[j] == Kw(KwNot))
    ensures var r := Listed(ts, left, Behind(j, negated) - 1, negated);
      r.Some? ==> i < r.value.1 <= |ts| && Says(3, ts[i..r.value.1], r.value.0)
    decreases |ts| - j, 50
  {
    hide *;
    var p := Behind(j, negated);
    BehindIs(j, negated);
    InUnfolds(ts, left, p, negated);
    if ts[p] == Sym(SymOpen) {
      Sound(4, ts, p + 1);
      var a := ParseLevel(4, ts, p + 1);
      if a.Some? {
        OneItem(ts[p + 1..a.value.1], a.value.0);
        SoundItems(ts, p + 1, [a.value.0], a.value.1);
        var b := ItemLoop(ts, [a.value.0], a.value.1);
        if b.Some? && ts[b.value.1] == Sym(SymClose) {
          InSays(ts, i, left, j, negated, b.value.0, b.value.1);
        }
      }
    }
  }

  lemma InUnfolds(ts: seq<Token>, left: Expr, p: nat, negated: bool)
    requires Tokens(ts) && 0 < p < |ts| && ts[p - 1] == Kw(KwIn)
    ensures ts[p] != Sym(SymOpen) ==> Listed(ts, left, p - 1, negated).None?
    ensures ts[p] == Sym(SymOpen) ==>
      && p + 1 < |ts|
      && var a := ParseLevel(4, ts, p + 1);
         if a.None? then Listed(ts, left, p - 1, negated).None?
         else
           var b := ItemLoop(ts, [a.value.0], a.value.1);
           && (b.Some? ==> a.value.1 <= b.value.1 < |ts|)
           && Listed(ts, left, p - 1, negated) ==
             if b.None? || ts[b.value.1] != Sym(SymClose) then None
             else Some((InList(left, b.value.0, negated), b.value.1 + 1))
  {
    hide ParseAdditive, ItemLoop;
  }

  lemma OneItem(s: seq<Token>, x: Expr)
    requires Says(4, s, x)
    ensures SaysItems(s, [x])
  {
    hide Says;
  }

  lemma MoreItems(ts: seq<Token>, i: nat, items: seq<Expr>, j: nat, x: Expr, k: nat)
    requires i < j < k <= |ts| && items != [] && ts[j] == Sym(SymComma)
    requires SaysItems(ts[i..j], items) && Says(4, ts[j + 1..k], x)
    ensures SaysItems(ts[i..k], items + [x])
  {
    Stretches(ts, i, j, k);
    var more, s := items + [x], ts[i..k];
    assert more[..|more| - 1] == items;
    hide Says;
    assert SaysLastItem(s, more, j - i);
    ItemsByLast(s, more, j - i);
  }

  lemma ItemsByLast(s: seq<Token>, items: seq<Expr>, k: nat)
    requires k < |s| && |items| > 1 && SaysLastItem(s, items, k)
    ensures SaysItems(s, items)
  {
    hide SaysLastItem;
  }

  lemma {:induction false} SoundItems(ts: seq<Token>, i: nat, items: seq<Expr>, j: nat)
    requires Tokens(ts) && i < j < |ts| && items != [] && SaysItems(ts[i..j], items)
    ensures var r := ItemLoop(ts, items, j);
      r.Some? ==> r.value.0 != [] && i < r.value.1 < |ts| && SaysItems(ts[i..r.value.1], r.value.0)
    decreases |ts| - j, 20
  {
    hide *;
    ItemsUnfold(ts, items, j);
    if ts[j] == Sym(SymComma) {
      Sound(4, ts, j + 1);
      var r := ParseLevel(4, ts, j + 1);
      if r.Some? {
        MoreItems(ts, i, items, j, r.value.0, r.value.1);
        SoundItems(ts, i, items + [r.value.0], r.value.1);
      }
    }
  }

  lemma ItemsUnfold(ts: seq<Token>, items: seq<Expr>, j: nat)
    requires Tokens(ts) && j < |ts|
    ensures ts[j] != Sym(SymComma) ==> ItemLoop(ts, items, j) == Some((items, j))
    ensures ts[j] == Sym(SymComma) ==>
      && j + 1 < |ts|
      && var r := ParseLevel(4, ts, j + 1);
         ItemLoop(ts, items, j) == if r.None? then None else ItemLoop(ts, items + [r.value.0], r.value.1)
  {
    hide ParseAdditive;
  }

  lemma InSays(ts: seq<Token>, i: nat, left: Expr, j: nat, negated: bool, items: seq<Expr>, k: nat)
    requires i < j && Behind(j, negated) + 1 < k < |ts|
    requires ts[Behind(j, negated) - 1] == Kw(KwIn) && (negated ==> ts[j] == Kw(KwNot))
    requires ts[Behind(j, negated)] == Sym(SymOpen) && ts[k] == Sym(SymClose)
    requires Says(4, ts[i..j], left) && SaysItems(ts[Behind(j, negated) + 1..k], items)
    ensures Says(3, ts[i..k + 1], InList(left, items, negated))
  {
    var p, s := Behind(j, negated), ts[i..k + 1];
    LeadsAt(ts, i, j, k + 1, negated, KwIn);
    Stretches(ts, i, j, k + 1);
    Stretches(ts, i, p, k + 1);
    Within(ts, i, p + 1, k, k + 1);
    assert s[|s| - 1] == ts[k];
    hide Says, SaysItems, Leads, Behind;
    assert SaysPredicate(s, InList(left, items, negated), j - i);
    SaysByPredicate(ts, i, j, k + 1, InList(left, items, negated));
  }

  // ---- primaries -----------------------------------------------------------------------------------

  lemma SaysByPrimary(s: seq<Token>, e: Expr)
    requires SaysAtom(s, e) || SaysCall(s, e) || SaysParenthesized(s, e)
    ensures Says(7, s, e)
  {
    hide SaysAtom, SaysCall, SaysParenthesized;
  }

  /** The token begins a call. */
  predicate Calling(ts: seq<Token>, i: nat)
    requires Tokens(ts) && i < |ts|
  {
    ts[i].Kw? && AggregateName(ts[i].kw).Some? && Ahead(ts, i) == Sym(SymOpen)
  }

  lemma {:induction false} SoundPrimary(ts: seq<Token>, i: nat)
    requires Tokens(ts) && i < |ts|
    ensures var r := ParseLevel(7, ts, i);
      r.Some? ==> Says(7, ts[i..r.value.1], r.value.0)
    decreases |ts| - i, 11
  {
    hide *;
    PrimaryLevel(ts, i);
    if Calling(ts, i) {
      CallUnfolds(ts, i);
      CallNameIs(ts, i);
      SoundCall(ts, i);
    } else if ts[i] == Sym(SymOpen) {
      OpenUnfolds(ts, i);
      Sound(0, ts, i + 1);
      var r := ParseLevel(0, ts, i + 1);
      if r.Some? && ts[r.value.1] == Sym(SymClose) {
        ParenthesesSay(ts, i, r.value.1, r.value.0);
      }
    } else {
      AtomSays(ts, i);
    }
  }

  lemma OpenUnfolds(ts: seq<Token>, i: nat)
    requires Tokens(ts) && i < |ts| && ts[i] == Sym(SymOpen)
    ensures i + 1 < |ts|
    ensures var r := ParseLevel(0, ts, i + 1);
      ParsePrimary(ts, i) ==
      if r.None? || ts[r.value.1] != Sym(SymClose) then None else Some((r.value.0, r.value.1 + 1))
  {
    hide ParseOr;
  }

  lemma ParenthesesSay(ts: seq<Token>, i: nat, j: nat, e: Expr)
    requires i + 1 < j < |ts| && ts[i] == Sym(SymOpen) && ts[j] == Sym(SymClose) && Says(0, ts[i + 1..j], e)
    ensures Says(7, ts[i..j + 1], e)
  {
    var s := ts[i..j + 1];
    Within(ts, i, i + 1, j, j + 1);
    assert s[0] == ts[i] && s[|s| - 1] == ts[j];
    hide Says;
    assert SaysParenthesized(s, e);
    SaysByPrimary(s, e);
  }

  lemma AtomSays(ts: seq<Token>, i: nat)
    requires Tokens(ts) && i < |ts| && !Calling(ts, i) && ts[i] != Sym(SymOpen)
    ensures var r := ParsePrimary(ts, i);
      r.Some? ==> Says(7, ts[i..r.value.1], r.value.0)
  {
    var r := ParsePrimary(ts, i);
    hide Says;
    if r.Some? {
      var s := ts[i..r.value.1];
      assert |s| == 1 || |s| == 3;
      assert s[0] == ts[i] && (|s| == 3 ==> s[1] == ts[i + 1] && s[2] == ts[i + 2]);
      assert SaysAtom(s, r.value.0);
      SaysByPrimary(s, r.value.0);
    }
    hide *;
  }

  lemma CallUnfolds(ts: seq<Token>, i: nat)
    requires Tokens(ts) && i < |ts| && Calling(ts, i)
    ensures i + 2 < |ts| && ts[i + 1] == Sym(SymOpen)
    ensures ParsePrimary(ts, i) == ParseCall(ts, AggregateName(ts[i].kw).value, i + 2)
  {
    hide ParseCall;
  }

  /** The position of the argument of a call */
  function ArgumentAt(ts: seq<Token>, i: nat): nat
    requires i < |ts|
  {
    if ts[i] == Kw(KwDistinct) then i + 1 else i
  }

  lemma CallReads(ts: seq<Token>, name: string, i: nat)
    requires Tokens(ts) && i < |ts|
    ensures name == "COUNT" && ts[i] == Sym(SymStar) ==>
      && i + 1 < |ts|
      && var closed := ts[i + 1] == Sym(SymClose);
         ParseCall(ts, name, i) == if closed then Some((Func("COUNT", false, None), i + 2)) else None
    ensures !(name == "COUNT" && ts[i] == Sym(SymStar)) ==>
      && ArgumentAt(ts, i) < |ts|
      && var r := ParseLevel(0, ts, ArgumentAt(ts, i));
         ParseCall(ts, name, i) ==
         if r.None? || ts[r.value.1] != Sym(SymClose) then None
         else Some((Func(name, ts[i] == Kw(KwDistinct), Some(r.value.0)), r.value.1 + 1))
  {
    hide ParseOr;
  }

  lemma {:induction false} SoundCall(ts: seq<Token>, i: nat)
    requires Tokens(ts) && i + 2 < |ts| && Calling(ts, i) && ts[i + 1] == Sym(SymOpen)
    ensures var r := ParseCall(ts, CallName(ts, i), i + 2);
      r.Some? ==> Says(7, ts[i..r.value.1], r.value.0)
    decreases |ts| - i, 10
  {
    hide *;
    var name := CallName(ts, i);
    CallNameIs(ts, i);
    CallReads(ts, name, i + 2);
    if name == "COUNT" && ts[i + 2] == Sym(SymStar) {
      StarSays(ts, i);
    } else {
      ArgumentIs(ts, i + 2);
      Sound(0, ts, ArgumentAt(ts, i + 2));
      var r := ParseLevel(0, ts, ArgumentAt(ts, i + 2));
      if r.Some? && ts[r.value.1] == Sym(SymClose) {
        CallSays(ts, i, name, r.value.1, r.value.0);
      }
    }
  }

  function CallName(ts: seq<Token>, i: nat): string
    requires Tokens(ts) && i < |ts| && Calling(ts, i)
  {
    AggregateName(ts[i].kw).value
  }

  lemma CallNameIs(ts: seq<Token>, i: nat)
    requires Tokens(ts) && i < |ts| && Calling(ts, i)
    ensures CallName(ts, i) == AggregateName(ts[i].kw).value && Calls(ts[i], CallName(ts, i))
    ensures CallName(ts, i) == "COUNT" ==> ts[i] == Kw(KwCount)
  {
  }

  lemma ArgumentIs(ts: seq<Token>, i: nat)
    requires i < |ts|
    ensures ArgumentAt(ts, i) == if ts[i] == Kw(KwDistinct) then i + 1 else i
  {
  }

  lemma StarSays(ts: seq<Token>, i: nat)
    requires i + 3 < |ts| && ts[i] == Kw(KwCount) && ts[i + 1] == Sym(SymOpen) && ts[i + 2] == Sym(SymStar)
    ensures ts[i + 3] == Sym(SymClose) ==> Says(7, ts[i..i + 4], Func("COUNT", false, None))
  {
    var s := ts[i..i + 4];
    hide Says;
    if ts[i + 3] == Sym(SymClose) {
      assert s == [Kw(KwCount), Sym(SymOpen), Sym(SymStar), Sym(SymClose)];
      assert SaysCall(s, Func("COUNT", false, None));
      SaysByPrimary(s, Func("COUNT", false, None));
    }
  }

  lemma CallSays(ts: seq<Token>, i: nat, name: string, j: nat, x: Expr)
    requires i + 2 < |ts| && ArgumentAt(ts, i + 2) < j < |ts| && Calls(ts[i], name)
    requires ts[i + 1] == Sym(SymOpen) && ts[j] == Sym(SymClose) && Says(0, ts[ArgumentAt(ts, i + 2)..j], x)
    ensures Says(7, ts[i..j + 1], Func(name, ts[i + 2] == Kw(KwDistinct), Some(x)))
  {
    var s, a := ts[i..j + 1], ArgumentAt(ts, i + 2);
    Within(ts, i, a, j, j + 1);
    assert s[0] == ts[i] && s[1] == ts[i + 1] && s[2] == ts[i + 2] && s[|s| - 1] == ts[j];
    hide Says, Calls;
    var e := Func(name, ts[i + 2] == Kw(KwDistinct), Some(x));
    assert SaysCall(s, e);
    SaysByPrimary(s, e);
  }

  // ---- what is said is parsed ----------------------------------------------------------------------

  /** An expression of this level does not go on with this token. */
  predicate Ends(t: Token, level: nat) {
    && t != Sym(SymDot) && t != Sym(SymOpen)
    && (level == 0 ==> t != Kw(KwOr))
    && (level <= 1 ==> t != Kw(KwAnd))
    && (level <= 3 ==>
          && t !in {Kw(KwIs), Kw(KwNot), Kw(KwBetween), Kw(KwIn), Kw(KwLike)}
          && t !in {Sym(SymEq), Sym(SymNe), Sym(SymBang), Sym(SymLe), Sym(SymGe), Sym(SymLt), Sym(SymGt)})
    && (level <= 4 ==> t != Sym(SymPlus) && t != Sym(SymMinus))
    && (level <= 5 ==> t != Sym(SymStar) && t != Sym(SymSlash))
  }

  /** It may begin with this one. */
  predicate Starting(t: Token, level: nat) {
    && t != Kw(KwDistinct) && t != Sym(SymStar)
    && (level >= 3 ==> t != Kw(KwNot))
    && (level >= 7 ==> t != Sym(SymPlus) && t != Sym(SymMinus))
  }

  lemma EndsTighter(t: Token, level: nat, high: nat)
    requires Ends(t, level) && level <= high
    ensures Ends(t, high)
  {
  }

  /** The rules of one level, one by one */
  lemma SaysCases(level: nat, s: seq<Token>, e: Expr) returns (k: nat)
    requires level <= 7 && Says(level, s, e)
    ensures LoopLevel(level) && !Says(level + 1, s, e) ==>
      && k < |s| && e.Bin? && Spells(s[k], e.op) && Strength(e.op) == level
      && Says(level, s[..k], e.left) && Says(level + 1, s[k + 1..], e.right)
    ensures level == 2 && !Says(3, s, e) ==>
      s != [] && s[0] == Kw(KwNot) && e.Not? && Says(2, s[1..], e.operand)
    ensures level == 3 && !Says(4, s, e) ==> k < |s| && SaysPredicate(s, e, k)
    ensures level == 6 && !Says(7, s, e) ==>
      && s != [] && (s[0] == Sym(SymMinus) || s[0] == Sym(SymPlus))
      && (s[0] == Sym(SymMinus) ==> e.Neg? && Says(6, s[1..], e.operand))
      && (s[0] == Sym(SymPlus) ==> Says(6, s[1..], e))
    ensures level == 7 ==> SaysAtom(s, e) || SaysCall(s, e) || SaysParenthesized(s, e)
  {
    k := 0;
    if LoopLevel(level) && !Says(level + 1, s, e) {
      k := InfixCase(level, s, e);
    } else if level == 3 && !Says(4, s, e) {
      k :| 0 <= k < |s| && SaysPredicate(s, e, k);
    }
    hide SaysPredicate, SaysAtom, SaysCall, SaysParenthesized, SaysInfix, Spells, Strength;
  }

  lemma InfixCase(level: nat, s: seq<Token>, e: Expr) returns (k: nat)
    requires LoopLevel(level) && Says(level, s, e) && !Says(level + 1, s, e)
    ensures k < |s| && e.Bin? && Spells(s[k], e.op) && Strength(e.op) == level
    ensures Says(level, s[..k], e.left) && Says(level + 1, s[k + 1..], e.right)
  {
    hide SaysPredicate, Spells, Strength;
    k :| 0 <= k < |s| && SaysInfix(level, s, e, k);
  }

  /** What a predicate consists of */
  lemma PredicateParts3(s: seq<Token>, e: Expr, k: nat)
    requires k < |s| && SaysPredicate(s, e, k)
    ensures e.Bin? || e.IsNull? || e.Between? || e.InList? || e.Like?
    ensures Says(4, s[..k], FirstOf(e)) && GoesOn(s[k])
  {
    hide Says, SaysItems, SaysRange;
  }

  /** The first operand of a predicate */
  function FirstOf(e: Expr): Expr {
    match e
    case Bin(_, l, _) => l
    case IsNull(x, _) => x
    case Between(x, _, _, _) => x
    case InList(x, _, _) => x
    case Like(x, _, _) => x
    case _ => e
  }

  /** A token that makes a predicate of the sum in front of it */
  predicate GoesOn(t: Token) {
    || t in {Kw(KwIs), Kw(KwNot), Kw(KwBetween), Kw(KwIn), Kw(KwLike)}
    || t in {Sym(SymEq), Sym(SymNe), Sym(SymBang), Sym(SymLe), Sym(SymGe), Sym(SymLt), Sym(SymGt)}
  }

  lemma GoesOnEnds(t: Token)
    requires GoesOn(t)
    ensures Ends(t, 4)
  {
  }

  lemma StartsLooser(t: Token, level: nat)
    requires Starting(t, level + 1)
    ensures Starting(t, level)
  {
  }

  lemma {:induction false} SaysStarts(level: nat, s: seq<Token>, e: Expr)
    requires level <= 7 && Says(level, s, e)
    ensures s != [] && Starting(s[0], level)
    decreases |s|, 20 - level
  {
    hide *;
    var k := SaysCases(level, s, e);
    if LoopLevel(level) {
      LoopLevels(level);
    }
    if level < 7 && Says(level + 1, s, e) {
      SaysStarts(level + 1, s, e);
      StartsLooser(s[0], level);
    } else if LoopLevel(level) {
      SaysStarts(level, s[..k], e.left);
    } else if level == 3 {
      PredicateParts3(s, e, k);
      SaysStarts(4, s[..k], FirstOf(e));
      StartsLooser(s[0], 3);
    } else {
      FirstTokens(level, s, e);
    }
  }

  lemma FirstTokens(level: nat, s: seq<Token>, e: Expr)
    requires level <= 7 && !LoopLevel(level) && level != 3
    requires Says(level, s, e) && (level < 7 ==> !Says(level + 1, s, e))
    ensures s != [] && Starting(s[0], level)
  {
    hide SaysInfix, SaysPredicate;
  }

  lemma SpellsLoopOp(level: nat, t: Token, op: Op)
    requires LoopLevel(level) && Spells(t, op) && Strength(op) == level
    ensures LoopOp(level, t) == Some(op) && Ends(t, level + 1)
  {
  }

  lemma LoopEnds(level: nat, ts: seq<Token>, e: Expr, j: nat)
    requires Tokens(ts) && j < |ts| && LoopLevel(level) && Ends(ts[j], level)
    ensures Loop(level, ts, e, j) == Some((e, j))
  {
  }

  /** At the levels of operators: reading from the left comes to the end of what is said. */
  lemma {:induction false} Looped(level: nat, ts: seq<Token>, i: nat, j: nat, e: Expr)
    requires Tokens(ts) && i < j < |ts| && LoopLevel(level) && level <= 5
    requires Says(level, ts[i..j], e) && Ends(ts[j], level + 1)
    ensures ParseLevel(level, ts, i) == Loop(level, ts, e, j)
    decreases j - i, 40 - 4 * level
  {
    hide *;
    if Says(level + 1, ts[i..j], e) {
      Complete(level + 1, ts, i, j, e);
      LoopFirst(level, ts, i);
    } else {
      var k := SaysCases(level, ts[i..j], e);
      var m := i + k;
      Stretches(ts, i, m, j);
      SaysStarts(level, ts[i..m], e.left);
      SaysStarts(level + 1, ts[m + 1..j], e.right);
      SpellsLoopOp(level, ts[m], e.op);
      Looped(level, ts, i, m, e.left);
      Complete(level + 1, ts, m + 1, j, e.right);
      LoopUnfolds(level, ts, e.left, m);
    }
  }

  /** Whatever is said at a level is what the parser reads there, if the next token does not go
      on with it. */
  lemma {:induction false} Complete(level: nat, ts: seq<Token>, i: nat, j: nat, e: Expr)
    requires Tokens(ts) && i < j < |ts| && level <= 7 && Says(level, ts[i..j], e) && Ends(ts[j], level)
    ensures ParseLevel(level, ts, i) == Some((e, j))
    decreases j - i, 41 - 4 * level
  {
    hide *;
    if LoopLevel(level) {
      LoopLevels(level);
      EndsTighter(ts[j], level, level + 1);
      Looped(level, ts, i, j, e);
      LoopEnds(level, ts, e, j);
    } else if level == 2 {
      CompleteNot(ts, i, j, e);
    } else if level == 3 {
      CompletePredicate(ts, i, j, e);
    } else if level == 6 {
      CompleteUnary(ts, i, j, e);
    } else {
      OtherLevels(level);
      CompletePrimary(ts, i, j, e);
    }
  }

  lemma {:induction false} CompleteNot(ts: seq<Token>, i: nat, j: nat, e: Expr)
    requires Tokens(ts) && i < j < |ts| && Says(2, ts[i..j], e) && Ends(ts[j], 2)
    ensures ParseLevel(2, ts, i) == Some((e, j))
    decreases j - i, 32
  {
    hide *;
    var k := SaysCases(2, ts[i..j], e);
    NotUnfolds(ts, i);
    Stretches(ts, i, i, j);
    if Says(3, ts[i..j], e) {
      SaysStarts(3, ts[i..j], e);
      StartingKinds(ts[i], 3);
      EndsTighter(ts[j], 2, 3);
      Complete(3, ts, i, j, e);
    } else {
      SaysStarts(2, ts[i + 1..j], e.operand);
      Complete(2, ts, i + 1, j, e.operand);
      NotBack(e);
    }
  }

  lemma StartingKinds(t: Token, level: nat)
    requires Starting(t, level)
    ensures level >= 3 ==> t != Kw(KwNot)
    ensures level >= 7 ==> t != Sym(SymMinus) && t != Sym(SymPlus)
  {
  }

  lemma NotBack(e: Expr)
    ensures e.Not? ==> e == Not(e.operand)
    ensures e.Neg? ==> e == Neg(e.operand)
  {
  }

  lemma {:induction false} CompleteUnary(ts: seq<Token>, i: nat, j: nat, e: Expr)
    requires Tokens(ts) && i < j < |ts| && Says(6, ts[i..j], e) && Ends(ts[j], 6)
    ensures ParseLevel(6, ts, i) == Some((e, j))
    decreases j - i, 16
  {
    hide *;
    var k := SaysCases(6, ts[i..j], e);
    UnaryUnfolds(ts, i);
    Stretches(ts, i, i, j);
    if Says(7, ts[i..j], e) {
      SaysStarts(7, ts[i..j], e);
      StartingKinds(ts[i], 7);
      EndsTighter(ts[j], 6, 7);
      Complete(7, ts, i, j, e);
    } else if ts[i] == Sym(SymMinus) {
      SaysStarts(6, ts[i + 1..j], e.operand);
      Complete(6, ts, i + 1, j, e.operand);
      NotBack(e);
    } else {
      SaysStarts(6, ts[i + 1..j], e);
      Complete(6, ts, i + 1, j, e);
    }
  }

  lemma {:induction false} CompletePredicate(ts: seq<Token>, i: nat, j: nat, e: Expr)
    requires Tokens(ts) && i < j < |ts| && Says(3, ts[i..j], e) && Ends(ts[j], 3)
    ensures ParseLevel(3, ts, i) == Some((e, j))
    decreases j - i, 28
  {
    hide *;
    var k := SaysCases(3, ts[i..j], e);
    PredicateUnfolds(ts, i);
    EndsTighter(ts[j], 3, 4);
    if Says(4, ts[i..j], e) {
      Complete(4, ts, i, j, e);
      TailEnds(ts, e, j);
    } else {
      var m := i + k;
      Stretches(ts, i, m, j);
      PredicateParts3(ts[i..j], e, k);
      SaysStarts(4, ts[i..m], FirstOf(e));
      GoesOnEnds(ts[m]);
      Complete(4, ts, i, m, FirstOf(e));
      CompleteTail(ts, i, m, j, e);
    }
  }

  lemma TailEnds(ts: seq<Token>, e: Expr, j: nat)
    requires Tokens(ts) && j < |ts| && Ends(ts[j], 3)
    ensures Tail(ts, e, j) == Some((e, j))
  {
  }

  /** What follows the sum at token m makes the predicate. */
  lemma {:induction false} CompleteTail(ts: seq<Token>, i: nat, m: nat, j: nat, e: Expr)
    requires Tokens(ts) && i < m < j < |ts| && SaysPredicate(ts[i..j], e, m - i) && Ends(ts[j], 4)
    ensures Tail(ts, FirstOf(e), m) == Some((e, j))
    decreases j - i, 10
  {
    hide *;
    PredicateParts3(ts[i..j], e, m - i);
    if e.Bin? {
      CompleteCompare(ts, i, m, j, e);
    } else if e.IsNull? {
      CompleteNull(ts, i, m, j, e);
    } else if e.Between? {
      CompleteBetween(ts, i, m, j, e);
    } else if e.InList? {
      CompleteIn(ts, i, m, j, e);
    } else {
      CompleteLike(ts, i, m, j, e);
    }
  }

  lemma {:induction false} CompleteCompare(ts: seq<Token>, i: nat, m: nat, j: nat, e: Expr)
    requires Tokens(ts) && i < m < j < |ts| && e.Bin? && SaysPredicate(ts[i..j], e, m - i) && Ends(ts[j], 4)
    ensures Tail(ts, FirstOf(e), m) == Some((e, j))
    decreases j - i, 5
  {
    hide *;
    ComparisonParts(ts, i, m, j, e);
    SaysStarts(4, ts[m + 1..j], e.right);
    Complete(4, ts, m + 1, j, e.right);
    TailUnfolds(ts, e.left, m);
  }

  lemma ComparisonParts(ts: seq<Token>, i: nat, m: nat, j: nat, e: Expr)
    requires i < m < j <= |ts| && e.Bin? && SaysPredicate(ts[i..j], e, m - i)
    ensures FirstOf(e) == e.left && e == Bin(e.op, e.left, e.right) && Comparison(ts[m]) == Some(e.op)
    ensures ts[m] != Kw(KwIs) && ts[m] != Kw(KwNot) && ts[m] !in {Kw(KwBetween), Kw(KwIn), Kw(KwLike)}
    ensures Says(4, ts[m + 1..j], e.right)
  {
    Stretches(ts, i, m, j);
    hide Says;
  }

  lemma CompleteNull(ts: seq<Token>, i: nat, m: nat, j: nat, e: Expr)
    requires Tokens(ts) && i < m < j < |ts| && e.IsNull? && SaysPredicate(ts[i..j], e, m - i)
    ensures Tail(ts, FirstOf(e), m) == Some((e, j))
  {
    Stretches(ts, i, m, j);
    hide Says;
    var tail := if e.negated then [Kw(KwIs), Kw(KwNot), Kw(KwNull)] else [Kw(KwIs), Kw(KwNull)];
    assert ts[m..j] == tail && |tail| == j - m;
    assert ts[m] == tail[0] && ts[m + 1] == tail[1] && (e.negated ==> ts[m + 2] == tail[2]);
  }

  /** The keyword, behind NOT or not, in the whole list of tokens */
  lemma KeywordAt(ts: seq<Token>, i: nat, m: nat, j: nat, negated: bool, kw: Keyword)
    requires Tokens(ts) && i < m < j < |ts| && Leads(ts[i..j], m - i, negated, kw)
    requires kw == KwBetween || kw == KwIn || kw == KwLike
    ensures Behind(m, negated) < j && Behind(m, negated) - i == Behind(m - i, negated)
    ensures ts[Behind(m, negated) - 1] == Kw(kw)
    ensures forall left :: Tail(ts, left, m) == Listed(ts, left, Behind(m, negated) - 1, negated)
  {
    var s := ts[i..j];
    assert s[Behind(m - i, negated) - 1] == ts[Behind(m, negated) - 1] && s[m - i] == ts[m];
    hide Listed;
  }

  lemma {:induction false} CompleteBetween(ts: seq<Token>, i: nat, m: nat, j: nat, e: Expr)
    requires Tokens(ts) && i < m < j < |ts| && e.Between? && SaysPredicate(ts[i..j], e, m - i) && Ends(ts[j], 4)
    ensures Tail(ts, FirstOf(e), m) == Some((e, j))
    decreases j - i, 5
  {
    hide *;
    var p, x := RangeParts(ts, i, m, j, e);
    SaysStarts(4, ts[p..x], e.lo);
    SaysStarts(4, ts[x + 1..j], e.hi);
    KeywordAt(ts, i, m, j, e.negated, KwBetween);
    AndEnds();
    Complete(4, ts, p, x, e.lo);
    Complete(4, ts, x + 1, j, e.hi);
    BetweenUnfolds(ts, e.operand, p - 1, e.negated, x);
  }

  lemma AndEnds()
    ensures Ends(Kw(KwAnd), 4) && Ends(Sym(SymComma), 4) && Ends(Sym(SymClose), 4) && Ends(Sym(SymClose), 0)
  {
  }

  lemma RangeParts(ts: seq<Token>, i: nat, m: nat, j: nat, e: Expr) returns (p: nat, x: nat)
    requires i < m < j <= |ts| && e.Between? && SaysPredicate(ts[i..j], e, m - i)
    ensures FirstOf(e) == e.operand && e == Between(e.operand, e.lo, e.hi, e.negated)
    ensures Leads(ts[i..j], m - i, e.negated, KwBetween) && p == Behind(m, e.negated) && m < p < x < j
    ensures ts[x] == Kw(KwAnd) && Says(4, ts[p..x], e.lo) && Says(4, ts[x + 1..j], e.hi)
  {
    var s := ts[i..j];
    hide Says, Leads;
    p := Behind(m, e.negated);
    assert p - i == Behind(m - i, e.negated);
    var y :| p - i < y < |s| && SaysRange(s, p - i, y, e.lo, e.hi);
    x := i + y;
    Within(ts, i, p, x, j);
    Stretches(ts, i, x, j);
  }

  lemma {:induction false} CompleteLike(ts: seq<Token>, i: nat, m: nat, j: nat, e: Expr)
    requires Tokens(ts) && i < m < j < |ts| && e.Like? && SaysPredicate(ts[i..j], e, m - i) && Ends(ts[j], 4)
    ensures Tail(ts, FirstOf(e), m) == Some((e, j))
    decreases j - i, 5
  {
    hide *;
    var p := PatternParts(ts, i, m, j, e);
    SaysStarts(4, ts[p..j], e.pattern);
    KeywordAt(ts, i, m, j, e.negated, KwLike);
    Complete(4, ts, p, j, e.pattern);
    ListedUnfolds(ts, e.operand, p - 1, e.negated);
  }

  lemma PatternParts(ts: seq<Token>, i: nat, m: nat, j: nat, e: Expr) returns (p: nat)
    requires i < m < j <= |ts| && e.Like? && SaysPredicate(ts[i..j], e, m - i)
    ensures FirstOf(e) == e.operand && e == Like(e.operand, e.pattern, e.negated)
    ensures Leads(ts[i..j], m - i, e.negated, KwLike) && p == Behind(m, e.negated) && m < p < j
    ensures Says(4, ts[p..j], e.pattern)
  {
    hide Says;
    p := Behind(m, e.negated);
    Stretches(ts, i, p, j);
  }

  lemma {:induction false} CompleteIn(ts: seq<Token>, i: nat, m: nat, j: nat, e: Expr)
    requires Tokens(ts) && i < m < j < |ts| && e.InList? && SaysPredicate(ts[i..j], e, m - i)
    ensures Tail(ts, FirstOf(e), m) == Some((e, j))
    decreases j - i, 5
  {
    hide *;
    var p := ListParts(ts, i, m, j, e);
    AndEnds();
    KeywordAt(ts, i, m, j, e.negated, KwIn);
    var f := CompleteItems(ts, p + 1, j - 1, e.items);
    ItemsUnfold(ts, e.items, j - 1);
    CloseIsNoComma();
    InUnfolds(ts, e.operand, p, e.negated);
  }

  lemma CloseIsNoComma()
    ensures Sym(SymClose) != Sym(SymComma)
  {
  }

  lemma ListParts(ts: seq<Token>, i: nat, m: nat, j: nat, e: Expr) returns (p: nat)
    requires i < m < j <= |ts| && e.InList? && SaysPredicate(ts[i..j], e, m - i)
    ensures FirstOf(e) == e.operand && e == InList(e.operand, e.items, e.negated)
    ensures Leads(ts[i..j], m - i, e.negated, KwIn) && p == Behind(m, e.negated) && m < p && p + 1 < j - 1
    ensures ts[p] == Sym(SymOpen) && ts[j - 1] == Sym(SymClose) && SaysItems(ts[p + 1..j - 1], e.items)
  {
    hide Says, SaysItems, Leads;
    p := Behind(m, e.negated);
    Stretches(ts, i, p, j);
    Within(ts, i, p + 1, j - 1, j);
    assert ts[i..j][j - i - 1] == ts[j - 1];
  }

  /** The first item, and how far the loop over the others comes. */
  lemma {:induction false} CompleteItems(ts: seq<Token>, i: nat, j: nat, items: seq<Expr>) returns (f: nat)
    requires Tokens(ts) && i < j < |ts| && SaysItems(ts[i..j], items) && Ends(ts[j], 4)
    ensures items != [] && ParseLevel(4, ts, i) == Some((items[0], f)) && f < |ts|
    ensures ItemLoop(ts, [items[0]], f) == ItemLoop(ts, items, j)
    decreases j - i, 30
  {
    hide *;
    var k := ItemCases(ts[i..j], items);
    if |items| == 1 {
      Complete(4, ts, i, j, items[0]);
      return j;
    }
    var m, n := i + k, |items| - 1;
    Stretches(ts, i, m, j);
    SaysStarts(4, ts[m + 1..j], items[n]);
    ItemsNonEmpty(ts[i..m], items[..n]);
    AndEnds();
    f := CompleteItems(ts, i, m, items[..n]);
    Complete(4, ts, m + 1, j, items[n]);
    ItemsUnfold(ts, items[..n], m);
    assert items[..n] + [items[n]] == items && items[..n][0] == items[0];
  }

  lemma ItemCases(s: seq<Token>, items: seq<Expr>) returns (k: nat)
    requires SaysItems(s, items)
    ensures items != [] && (|items| == 1 ==> Says(4, s, items[0]) && [items[0]] == items)
    ensures |items| > 1 ==>
      && k < |s| && s[k] == Sym(SymComma)
      && SaysItems(s[..k], items[..|items| - 1]) && Says(4, s[k + 1..], items[|items| - 1])
  {
    k := 0;
    hide Says;
    if |items| > 1 {
      k :| 0 <= k < |s| && SaysLastItem(s, items, k);
    }
    hide SaysItems;
  }

  lemma {:induction false} ItemsNonEmpty(s: seq<Token>, items: seq<Expr>)
    requires SaysItems(s, items)
    ensures s != []
  {
    hide *;
    var k := ItemCases(s, items);
    if |items| == 1 {
      SaysStarts(4, s, items[0]);
    }
  }

  lemma {:induction false} CompletePrimary(ts: seq<Token>, i: nat, j: nat, e: Expr)
    requires Tokens(ts) && i < j < |ts| && Says(7, ts[i..j], e) && Ends(ts[j], 7)
    ensures ParseLevel(7, ts, i) == Some((e, j))
    decreases j - i, 12
  {
    hide *;
    var k := SaysCases(7, ts[i..j], e);
    PrimaryLevel(ts, i);
    if SaysAtom(ts[i..j], e) {
      CompleteAtom(ts, i, j, e);
    } else if SaysParenthesized(ts[i..j], e) {
      InnerParts(ts, i, j, e);
      SaysStarts(0, ts[i + 1..j - 1], e);
      AndEnds();
      Complete(0, ts, i + 1, j - 1, e);
      OpenUnfolds(ts, i);
    } else {
      CompleteCall(ts, i, j, e);
    }
  }

  lemma InnerParts(ts: seq<Token>, i: nat, j: nat, e: Expr)
    requires i < j <= |ts| && SaysParenthesized(ts[i..j], e)
    ensures i + 1 < j - 1 && ts[i] == Sym(SymOpen) && ts[j - 1] == Sym(SymClose) && Says(0, ts[i + 1..j - 1], e)
  {
    hide Says;
    Within(ts, i, i + 1, j - 1, j);
    assert ts[i..j][0] == ts[i] && ts[i..j][j - i - 1] == ts[j - 1];
  }

  lemma CompleteAtom(ts: seq<Token>, i: nat, j: nat, e: Expr)
    requires Tokens(ts) && i < j < |ts| && SaysAtom(ts[i..j], e) && Ends(ts[j], 7)
    ensures ParsePrimary(ts, i) == Some((e, j))
  {
    var s := ts[i..j];
    assert |s| == 1 || |s| == 3;
    assert s[0] == ts[i] && (|s| == 3 ==> s[1] == ts[i + 1] && s[2] == ts[i + 2]);
    NamesAre(ts[i]);
  }

  lemma NamesAre(t: Token)
    ensures forall name :: Names(t, name) ==> NameOf(t) == Some(name)
  {
  }

  lemma {:induction false} CompleteCall(ts: seq<Token>, i: nat, j: nat, e: Expr)
    requires Tokens(ts) && i < j < |ts| && SaysCall(ts[i..j], e)
    ensures ParsePrimary(ts, i) == Some((e, j))
    decreases j - i, 8
  {
    hide *;
    CallSplit(ts, i, j, e);
    CallUnfolds(ts, i);
    CallNameIs(ts, i);
    CallReads(ts, e.name, i + 2);
    ArgumentIs(ts, i + 2);
    if e.arg.Some? {
      var a := ArgumentAt(ts, i + 2);
      ArgumentSaid(ts, i, j, e);
      AndEnds();
      Complete(0, ts, a, j - 1, e.arg.value);
    }
  }

  lemma CallSplit(ts: seq<Token>, i: nat, j: nat, e: Expr)
    requires Tokens(ts) && i < j < |ts| && SaysCall(ts[i..j], e)
    ensures i + 3 < j && e.Func? && Calling(ts, i) && AggregateName(ts[i].kw) == Some(e.name)
    ensures ts[j - 1] == Sym(SymClose) && (e.arg.Some? ==> e == Func(e.name, e.distinct, Some(e.arg.value)))
    ensures e.arg.None? ==> e == Func("COUNT", false, None) && ts[i + 2] == Sym(SymStar) && j == i + 4
  {
    var s := ts[i..j];
    hide Says;
    assert |s| > 3 && s[0] == ts[i] && s[1] == ts[i + 1] && s[2] == ts[i + 2] && s[|s| - 1] == ts[j - 1];
  }

  /** The argument does not begin with * or DISTINCT, so it is not taken for either. */
  lemma {:induction false} ArgumentSaid(ts: seq<Token>, i: nat, j: nat, e: Expr)
    requires Tokens(ts) && i < j < |ts| && SaysCall(ts[i..j], e) && e.Func? && e.arg.Some?
    ensures i + 2 < |ts| && ts[i + 2] != Sym(SymStar) && (ts[i + 2] == Kw(KwDistinct) <==> e.distinct)
    ensures var a := ArgumentAt(ts, i + 2); a < j - 1 && Says(0, ts[a..j - 1], e.arg.value)
  {
    var s, x := ts[i..j], e.arg.value;
    assert |s| > 3 && s[2] == ts[i + 2];
    Within(ts, i, i + 2, j - 1, j);
    if e.distinct {
      Within(ts, i, i + 3, j - 1, j);
      SaysStarts(0, s[3..|s| - 1], x);
    } else {
      SaysStarts(0, s[2..|s| - 1], x);
      assert s[2..|s| - 1][0] == ts[i + 2];
    }
    hide Says;
  }

  // ---- the language of the parser --------------------------------------------------------------------

  /** In front of a token that does not go on with an expression, the parser reads an
      expression if and only if the tokens up to there say it. */
  lemma ParsesWhatIsSaid(ts: seq<Token>, i: nat, j: nat, e: Expr)
    requires Tokens(ts) && i < j < |ts| && Ends(ts[j], 0)
    ensures ParseOr(ts, i) == Some((e, j)) <==> Says(0, ts[i..j], e)
  {
    LooseLevel(ts, i);
    hide *;
    Sound(0, ts, i);
    if Says(0, ts[i..j], e) {
      Complete(0, ts, i, j, e);
    }
  }

  /** The same, from one position: whatever is read is said, and whatever is said is read. */
  lemma ReadsWhatIsSaid(ts: seq<Token>, i: nat)
    requires Tokens(ts) && i < |ts|
    ensures var r := ParseOr(ts, i);
      r.Some? ==> Says(0, ts[i..r.value.1], r.value.0)
    ensures forall e, j :: i < j < |ts| && Ends(ts[j], 0) && Says(0, ts[i..j], e) ==> ParseOr(ts, i) == Some((e, j))
  {
    LooseLevel(ts, i);
    hide *;
    Sound(0, ts, i);
    forall e, j | i < j < |ts| && Ends(ts[j], 0) && Says(0, ts[i..j], e)
      ensures ParseOr(ts, i) == Some((e, j))
    {
      Complete(0, ts, i, j, e);
    }
  }

  lemma LooseLevel(ts: seq<Token>, i: nat)
    requires Tokens(ts) && i < |ts|
    ensures ParseLevel(0, ts, i) == ParseOr(ts, i)
  {
    hide ParseOr;
  }

  /** Tokens say at most one expression. */
  lemma SaysOnlyOne(s: seq<Token>, e: Expr, e': Expr)
    requires Says(0, s, e) && Says(0, s, e')
    ensures e == e'
  {
    var ts := s + [Eof];
    SaysStarts(0, s, e);
    assert ts[0..|s|] == s;
    hide *;
    EofEnds(s);
    ParsesWhatIsSaid(ts, 0, |s|, e);
    ParsesWhatIsSaid(ts, 0, |s|, e');
  }

  lemma EofEnds(s: seq<Token>)
    ensures Tokens(s + [Eof]) && Ends((s + [Eof])[|s|], 0)
  {
  }
}
