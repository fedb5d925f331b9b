// The expression parser as it runs (class Parser in leafdb/sqlparse.py): a cursor over
// the tokens, and one method a precedence level.

module Parser {
  import opened Bytes
  import opened Sql
  import opened Grammar
  import opened PrintParse
  import Language

  class Parser {
    const tokens: seq<Token>
    var i: nat

    ghost predicate Valid()
      reads this
    {
      Tokens(tokens) && i < |tokens|
    }

    constructor (tokens: seq<Token>)
      requires Tokens(tokens)
      ensures Valid() && this.tokens == tokens && i == 0
    {
      this.tokens, i := tokens, 0;
    }

    /** The parse of what starts at the old position; on success the cursor stands behind
        it. None is the ParseError. */
    twostate predicate Moved(new r: Option<Expr>, new spec: Parsed)
      reads this
    {
      Valid() && old(i) <= i && (if spec.None? then r.None? else r == Some(spec.value.0) && i == spec.value.1)
    }

    /** `peek` */
    function Peek(ahead: nat): Token
      requires Valid()
      reads this
    {
      if i + ahead < |tokens| then tokens[i + ahead] else tokens[|tokens| - 1]
    }

    /** `next`: the cursor never leaves the end. */
    method Next() returns (t: Token)
      requires Valid()
      modifies this
      ensures Valid() && t == tokens[old(i)] && i == old(i) + if t == Eof then 0 else 1
    {
      t := tokens[i];
      if t != Eof {
        i := i + 1;
      }
    }

    /** `accept_kw` and `accept_op` */
    method Accept(t: Token) returns (found: bool)
      requires Valid() && t != Eof
      modifies this
      ensures Valid() && found == (tokens[old(i)] == t) && i == old(i) + if found then 1 else 0
    {
      found := Peek(0) == t;
      if found {
        var _ := Next();
      }
    }

    /** `parse_expression`: what is read is what the tokens up to the cursor say; and whatever
        they say in front of a token that does not go on with it is read. */
    method ParseExpression() returns (r: Option<Expr>)
      requires Valid()
      modifies this
      ensures Moved(r, Grammar.ParseOr(tokens, old(i)))
      ensures r.Some? ==> old(i) < i && Language.Says(0, tokens[old(i)..i], r.value)
      ensures forall e, j :: old(i) < j < |tokens| && Language.Ends(tokens[j], 0) ==>
        (Language.Says(0, tokens[old(i)..j], e) ==> r == Some(e) && i == j)
    {
      r := ParseOr();
      Language.ReadsWhatIsSaid(tokens, old(i));
    }

    /** `_parse_or` */
    method ParseOr() returns (r: Option<Expr>)
      requires Valid()
      modifies this
      ensures Moved(r, Grammar.ParseOr(tokens, old(i)))
      decreases |tokens| - i, 9
    {
      r := ParseAnd();
      while r.Some? && tokens[i] == Kw(KwOr)
        invariant Valid() && old(i) <= i && (r.Some? ==> old(i) < i)
        invariant Grammar.ParseOr(tokens, old(i)) == if r.None? then None else OrLoop(tokens, r.value, i)
        decreases |tokens| - i
      {
        var _ := Next();
        var right := ParseAnd();
        r := if right.None? then None else Some(Bin(OrOp, r.value, right.value));
      }
    }

    /** `_parse_and` */
    method ParseAnd() returns (r: Option<Expr>)
      requires Valid()
      modifies this
      ensures Moved(r, Grammar.ParseAnd(tokens, old(i)))
      decreases |tokens| - i, 8
    {
      r := ParseNot();
      while r.Some? && tokens[i] == Kw(KwAnd)
        invariant Valid() && old(i) <= i && (r.Some? ==> old(i) < i)
        invariant Grammar.ParseAnd(tokens, old(i)) == if r.None? then None else AndLoop(tokens, r.value, i)
        decreases |tokens| - i
      {
        var _ := Next();
        var right := ParseNot();
        r := if right.None? then None else Some(Bin(AndOp, r.value, right.value));
      }
    }

    /** `_parse_not` */
    method ParseNot() returns (r: Option<Expr>)
      requires Valid()
      modifies this
      ensures Moved(r, Grammar.ParseNot(tokens, old(i)))
      decreases |tokens| - i, 7
    {
      var negated := Accept(Kw(KwNot));
      if negated {
        var x := ParseNot();
        return if x.None? then None else Some(Not(x.value));
      }
      r := ParsePredicate();
    }

    /** `_parse_predicate` */
    method ParsePredicate() returns (r: Option<Expr>)
      requires Valid()
      modifies this
      ensures Moved(r, Grammar.ParsePredicate(tokens, old(i)))
      decreases |tokens| - i, 6
    {
      var left := ParseAdditive();
      if left.None? {
        return None;
      }
      ghost var start := i;
      assert Grammar.ParsePredicate(tokens, old(i)) == Tail(tokens, left.value, start);
      var isNull := Accept(Kw(KwIs));
      if isNull {
        var negated := Accept(Kw(KwNot));
        var isThere := Accept(Kw(KwNull));
        return if isThere then Some(IsNull(left.value, negated)) else None;
      }
      var negated := Accept(Kw(KwNot));
      if tokens[i] in {Kw(KwBetween), Kw(KwIn), Kw(KwLike)} || negated {
        r := ParseListed(left.value, negated);
        return;
      }
      if Comparison(tokens[i]).Some? {
        var t := Next();
        var right := ParseAdditive();
        return if right.None? then None else Some(Bin(Comparison(t).value, left.value, right.value));
      }
      return left;
    }

    /** The part of `_parse_predicate` for BETWEEN, IN and LIKE; anything else is the
        dangling NOT. */
    method ParseListed(left: Expr, negated: bool) returns (r: Option<Expr>)
      requires Valid()
      modifies this
      ensures Moved(r, Listed(tokens, left, old(i), negated))
      decreases |tokens| - i, 5
    {
      var t := Next();
      match t {
        case Kw(KwBetween) =>
          var lo := ParseAdditive();
          if lo.None? {
            return None;
          }
          var joined := Accept(Kw(KwAnd));
          if !joined {
            return None;
          }
          var hi := ParseAdditive();
          return if hi.None? then None else Some(Between(left, lo.value, hi.value, negated));
        case Kw(KwIn) =>
          r := ParseItems(left, negated);
        case Kw(KwLike) =>
          var pattern := ParseAdditive();
          return if pattern.None? then None else Some(Like(left, pattern.value, negated));
        case _ =>
          return None;
      }
    }

    /** The list of an IN, behind the keyword */
    method ParseItems(left: Expr, negated: bool) returns (r: Option<Expr>)
      requires Valid() && i > 0 && tokens[i - 1] == Kw(KwIn)
      modifies this
      ensures Moved(r, Listed(tokens, left, old(i) - 1, negated))
      decreases |tokens| - i, 6
    {
      hide Grammar.ParseAdditive;
      var open := Accept(Sym(SymOpen));
      if !open {
        return None;
      }
      ghost var start := i;
      var x := ParseAdditive();
      if x.None? {
        return None;
      }
      var items := [x.value];
      ghost var first := i;
      while tokens[i] == Sym(SymComma)
        invariant Valid() && old(i) < i && first <= i
        invariant ItemLoop(tokens, [x.value], first) == ItemLoop(tokens, items, i)
        decreases |tokens| - i
      {
        var _ := Next();
        var y := ParseAdditive();
        if y.None? {
          return None;
        }
        items := items + [y.value];
      }
      var close := Accept(Sym(SymClose));
      return if close then Some(InList(left, items, negated)) else None;
    }

    /** `_parse_additive` */
    method ParseAdditive() returns (r: Option<Expr>)
      requires Valid()
      modifies this
      ensures Moved(r, Grammar.ParseAdditive(tokens, old(i)))
      decreases |tokens| - i, 5
    {
      r := ParseMultiplicative();
      while r.Some? && AddOp(tokens[i]).Some?
        invariant Valid() && old(i) <= i && (r.Some? ==> old(i) < i)
        invariant Grammar.ParseAdditive(tokens, old(i)) == if r.None? then None else AddLoop(tokens, r.value, i)
        decreases |tokens| - i
      {
        var t := Next();
        var right := ParseMultiplicative();
        r := if right.None? then None else Some(Bin(AddOp(t).value, r.value, right.value));
      }
    }

    /** `_parse_multiplicative` */
    method ParseMultiplicative() returns (r: Option<Expr>)
      requires Valid()
      modifies this
      ensures Moved(r, Grammar.ParseMultiplicative(tokens, old(i)))
      decreases |tokens| - i, 4
    {
      r := ParseUnary();
      while r.Some? && MulOp(tokens[i]).Some?
        invariant Valid() && old(i) <= i && (r.Some? ==> old(i) < i)
        invariant Grammar.ParseMultiplicative(tokens, old(i)) == if r.None? then None else MulLoop(tokens, r.value, i)
        decreases |tokens| - i
      {
        var t := Next();
        var right := ParseUnary();
        r := if right.None? then None else Some(Bin(MulOp(t).value, r.value, right.value));
      }
    }

    /** `_parse_unary` */
    method ParseUnary() returns (r: Option<Expr>)
      requires Valid()
      modifies this
      ensures Moved(r, Grammar.ParseUnary(tokens, old(i)))
      decreases |tokens| - i, 3
    {
      var minus := Accept(Sym(SymMinus));
      if minus {
        var x := ParseUnary();
        return if x.None? then None else Some(Neg(x.value));
      }
      var plus := Accept(Sym(SymPlus));
      if plus {
        r := ParseUnary();
        return;
      }
      r := ParsePrimary();
    }

    /** `_parse_primary` */
    method ParsePrimary() returns (r: Option<Expr>)
      requires Valid()
      modifies this
      ensures Moved(r, Grammar.ParsePrimary(tokens, old(i)))
      decreases |tokens| - i, 2
    {
      hide Grammar.ParseOr;
      var t := Peek(0);
      if t.Num? {
        var _ := Next();
        return Some(Lit(Int(t.i)));
      }
      if t.Text? {
        var _ := Next();
        return Some(Lit(Str(t.s)));
      }
      if t == Kw(KwNull) {
        var _ := Next();
        return Some(Lit(Null));
      }
      if t.Kw? && AggregateName(t.kw).Some? && Peek(1) == Sym(SymOpen) {
        var _ := Next();
        var _ := Next();
        r := ParseCall(AggregateName(t.kw).value);
        return;
      }
      if NameOf(t).Some? {
        var _ := Next();
        if tokens[i] == Sym(SymDot) && Peek(1).Ident? {
          var _ := Next();
          var col := Next();
          return Some(Col(NameOf(t), col.name));
        }
        return Some(Col(None, NameOf(t).value));
      }
      if t == Sym(SymOpen) {
        var _ := Next();
        var x := ParseOr();
        if x.None? {
          return None;
        }
        var close := Accept(Sym(SymClose));
        return if close then x else None;
      }
      return None;
    }

    /** An aggregate call, behind its opening parenthesis */
    method ParseCall(name: string) returns (r: Option<Expr>)
      requires Valid()
      modifies this
      ensures Moved(r, Grammar.ParseCall(tokens, name, old(i)))
      decreases |tokens| - i, 10
    {
      if name == "COUNT" && tokens[i] == Sym(SymStar) {
        var _ := Next();
        var close := Accept(Sym(SymClose));
        return if close then Some(Func("COUNT", false, None)) else None;
      }
      var distinct := Accept(Kw(KwDistinct));
      var x := ParseOr();
      if x.None? {
        return None;
      }
      var close := Accept(Sym(SymClose));
      return if close then Some(Func(name, distinct, x)) else None;
    }
  }

  /** An expression printed with the fewest parentheses, parsed by the parser. */
  method ParsePrinted(e: Expr) returns (r: Option<Expr>, rest: nat)
    requires Sayable(e)
    ensures r == Some(e) && rest == |Print(e)|
  {
    RoundTrip(e);
    var parser := new Parser(Print(e) + [Eof]);
    r := parser.ParseExpression();
    rest := parser.i;
  }
}
