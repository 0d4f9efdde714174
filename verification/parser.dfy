/** The recursive-descent parser over a position in a token list. */
module Parser {
  import opened Base
  import opened Documents
  import opened Ast
  import G = Grammar
  import opened Grammar

  /** A step that started on `ts` ended as the grammar says, and the position is where the rest begins. */
  ghost predicate Agrees<T(!new)>(r: Option<T>, o: Outcome<T>, rest: seq<Token>) {
    match o
    case Fail => r == None
    case Done(v, left) => r == Some(v) && rest == left
  }

  class TokenParser {
    const tokens: seq<Token>
    var position: nat

    /** The current token exists: the parser never moves past the end of input. */
    ghost predicate Valid()
      reads this
    {
      position < |tokens| && tokens[|tokens| - 1] == Eof
    }

    function Rest(): (ts: seq<Token>)
      requires Valid()
      reads this
      ensures Terminated(ts) && ts[0] == tokens[position] && |ts| == |tokens| - position
    {
      tokens[position..]
    }

    constructor (tokens: seq<Token>)
      requires Terminated(tokens)
      ensures Valid() && this.tokens == tokens && position == 0
    {
      this.tokens := tokens;
      position := 0;
    }

    /** Takes the current token, but stays on the end of input. */
    method Advance() returns (token: Token)
      requires Valid()
      modifies this
      ensures Valid() && token == old(Rest())[0]
      ensures Rest() == if token == Eof then old(Rest()) else old(Rest())[1..]
    {
      token := tokens[position];
      if token != Eof {
        position := position + 1;
      }
    }

    /** Takes the current token if it is the given one. */
    method Consume(kind: Token) returns (taken: bool)
      requires Valid() && kind != Eof
      modifies this
      ensures Valid() && taken == (old(Rest())[0] == kind)
      ensures Rest() == if taken then old(Rest())[1..] else old(Rest())
    {
      taken := tokens[position] == kind;
      if taken {
        position := position + 1;
      }
    }

    method ParseExpression(minimum: nat) returns (r: Option<Expr>)
      requires Valid()
      modifies this
      ensures Valid() && Agrees(r, G.ParseExpression(old(Rest()), minimum), Rest())
      decreases |tokens| - position, 4
    {
      hide G.ParseUnary, G.ParseExpression, ParseOperators;
      ghost var ts := Rest();
      ExpressionSteps(ts, minimum);
      var first := ParseUnary();
      if first.None? {
        return None;
      }
      var left := first.value;
      while BinaryOperator(tokens[position]).Some? && BinaryOperator(tokens[position]).value.1 >= minimum
        invariant Valid() && |Rest()| < |ts|
        invariant G.ParseExpression(ts, minimum) == ParseOperators(left, Rest(), minimum)
        decreases |tokens| - position
      {
        OperatorsStep(left, Rest(), minimum);
        var (operator, precedence) := BinaryOperator(tokens[position]).value;
        var _ := Advance();
        var right := ParseExpression(precedence + 1);
        if right.None? {
          return None;
        }
        left := Binary(left, operator, right.value);
      }
      OperatorsStep(left, Rest(), minimum);
      return Some(left);
    }

    method ParseUnary() returns (r: Option<Expr>)
      requires Valid()
      modifies this
      ensures Valid() && Agrees(r, G.ParseUnary(old(Rest())), Rest())
      decreases |tokens| - position, 3
    {
      hide G.ParsePrimary;
      var operator := UnaryOperator(tokens[position]);
      if operator.Some? {
        var _ := Advance();
        var operand := ParseUnary();
        return if operand.None? then None else Some(Unary(operator.value, operand.value));
      }
      r := ParsePrimary();
    }

    method ParsePrimary() returns (r: Option<Expr>)
      requires Valid()
      modifies this
      ensures Valid() && Agrees(r, G.ParsePrimary(old(Rest())), Rest())
      decreases |tokens| - position, 2
    {
      hide G.ParseExpression, G.ParsePath, G.ParsePrimary;
      ghost var ts := Rest();
      PrimaryStep(ts);
      var token := Advance();
      match token
      case Integer(v) => return Some(Lit(IntLit(v)));
      case FloatToken(bits) => return Some(Lit(FloatLit(bits)));
      case StringToken(t) => return Some(Lit(StrLit(t)));
      case TrueWord => return Some(Lit(BoolLit(true)));
      case FalseWord => return Some(Lit(BoolLit(false)));
      case NullWord => return Some(Lit(NullLit));
      case Identifier(first) => r := ParsePath(first);
      case LeftParen =>
        var inner := ParseExpression(1);
        if inner.None? {
          return None;
        }
        var closed := Consume(RightParen);
        return if closed then inner else None;
      case LeftBracket => r := ParseArray(ts);
      case LeftBrace => r := ParseObject(ts);
      case _ => return None;
    }

    method ParsePath(first: Text) returns (r: Option<Expr>)
      requires Valid()
      modifies this
      ensures Valid() && Agrees(r, G.ParsePath([first], old(Rest())), Rest())
    {
      hide G.ParsePath;
      var segments := [first];
      while tokens[position] == Dot
        invariant Valid() && G.ParsePath([first], old(Rest())) == G.ParsePath(segments, Rest())
        decreases |tokens| - position
      {
        PathStep(segments, Rest());
        var _ := Advance();
        if !tokens[position].Identifier? {
          return None;
        }
        segments := segments + [tokens[position].name];
        var _ := Advance();
      }
      PathStep(segments, Rest());
      return Some(Path(segments));
    }

    /** After an item: more items, or the closing token, possibly after a last comma. */
    method Separator(close: Token) returns (more: Option<bool>)
      requires Valid() && close != Eof
      modifies this
      ensures Valid() && more == Continues(old(Rest()), close)
      ensures more.Some? ==> Rest() == AfterSeparator(old(Rest()), close)
    {
      var comma := Consume(Comma);
      if !comma || tokens[position] == close {
        var closed := Consume(close);
        return if closed then Some(false) else None;
      }
      return Some(true);
    }

    /** An array after its bracket. */
    method ParseArray(ghost ts: seq<Token>) returns (r: Option<Expr>)
      requires Valid() && Terminated(ts) && ts[0] == LeftBracket && ts[1..] == Rest()
      modifies this
      ensures Valid() && Agrees(r, G.ParsePrimary(ts), Rest())
      decreases |tokens| - position, 5
    {
      hide G.ParseExpression, G.ParseItems, G.ParsePrimary, Continues, AfterSeparator;
      PrimaryStep(ts);
      var items := [];
      if tokens[position] == RightBracket {
        var _ := Advance();
        return Some(ArrayExpr([]));
      }
      while true
        invariant Valid() && |Rest()| < |ts| && G.ParsePrimary(ts) == G.ParseItems(items, Rest())
        decreases |tokens| - position
      {
        ItemsStep(items, Rest());
        var item := ParseExpression(1);
        if item.None? {
          return None;
        }
        items := items + [item.value];
        var more := Separator(RightBracket);
        if more.None? {
          return None;
        }
        if !more.value {
          return Some(ArrayExpr(items));
        }
      }
    }

    /** An object after its brace. */
    method ParseObject(ghost ts: seq<Token>) returns (r: Option<Expr>)
      requires Valid() && Terminated(ts) && ts[0] == LeftBrace && ts[1..] == Rest()
      modifies this
      ensures Valid() && Agrees(r, G.ParsePrimary(ts), Rest())
      decreases |tokens| - position, 6
    {
      hide G.ParseExpression, G.ParseMembers, G.ParsePrimary, Named, Continues, AfterSeparator, MemberOf;
      PrimaryStep(ts);
      NoNames();
      var members: seq<Member> := [];
      var names: set<Text> := {};
      if tokens[position] == RightBrace {
        var _ := Advance();
        return Some(ObjectExpr([]));
      }
      while true
        invariant Valid() && |Rest()| < |ts| && G.ParsePrimary(ts) == G.ParseMembers(members, Rest())
        invariant forall name :: name in names <==> Named(members, name)
        decreases |tokens| - position
      {
        MembersStep(members, Rest());
        var m := ParseMember(members, names);
        if m.None? {
          return None;
        }
        NamedMore(members, m.value);
        names := names + {m.value.name};
        members := members + [m.value];
        var more := Separator(RightBrace);
        if more.None? {
          return None;
        }
        if !more.value {
          return Some(ObjectExpr(members));
        }
      }
    }

    /** A key that is not yet used, a colon and a value. */
    method ParseMember(ghost members: seq<Member>, names: set<Text>) returns (r: Option<Member>)
      requires Valid() && forall name :: name in names <==> Named(members, name)
      modifies this
      ensures Valid() && Agrees(r, MemberOf(members, old(Rest())), Rest())
      decreases |tokens| - position, 5
    {
      hide G.ParseExpression, Named;
      var key := Advance();
      var name := KeyName(key);
      if name.None? || name.value in names {
        return None;
      }
      var colon := Consume(Colon);
      if !colon {
        return None;
      }
      var value := ParseExpression(1);
      return if value.None? then None else Some(Member(name.value, value.value));
    }
  }

  /** Whether items continue after `ts`, end there, or are malformed. */
  ghost function Continues(ts: seq<Token>, close: Token): Option<bool>
    requires Terminated(ts) && close != Eof
  {
    if ts[0] == Comma then (if ts[1..][0] == close then Some(false) else Some(true))
    else if ts[0] == close then Some(false)
    else None
  }

  ghost function AfterSeparator(ts: seq<Token>, close: Token): (rest: seq<Token>)
    requires Terminated(ts) && close != Eof && Continues(ts, close).Some?
    ensures Terminated(rest) && |rest| < |ts|
  {
    if ts[0] == Comma && ts[1..][0] == close then ts[1..][1..] else ts[1..]
  }

  ghost function MemberOf(members: seq<Member>, ts: seq<Token>): (r: Outcome<Member>)
    requires Terminated(ts)
    ensures Leaves(r, ts)
  {
    var name := KeyName(ts[0]);
    if name.None? || Named(members, name.value) || ts[1..][0] != Colon then Fail
    else match G.ParseExpression(ts[1..][1..], 1)
      case Fail => Fail
      case Done(value, rest) => Done(Member(name.value, value), rest)
  }

  lemma NoNames()
    ensures forall name :: !Named([], name)
  {
  }

  lemma NamedMore(members: seq<Member>, m: Member)
    ensures forall name :: Named(members + [m], name) <==> name == m.name || Named(members, name)
  {
    var all := members + [m];
    assert all[|members|] == m;
    assert forall i :: 0 <= i < |members| ==> all[i] == members[i];
  }

  lemma ExpressionSteps(ts: seq<Token>, minimum: nat)
    requires Terminated(ts)
    ensures G.ParseExpression(ts, minimum) == match G.ParseUnary(ts)
              case Fail => Fail
              case Done(left, rest) => ParseOperators(left, rest, minimum)
  {
  }

  // ---------- the grammar, one token at a time ----------

  ghost function OperatorsFrom(left: Expr, op: BinaryOp, right: Outcome<Expr>, minimum: nat): Outcome<Expr>
    requires right.Done? ==> Terminated(right.rest)
  {
    if right.Fail? then Fail else ParseOperators(Binary(left, op, right.value), right.rest, minimum)
  }

  lemma OperatorsStep(left: Expr, ts: seq<Token>, minimum: nat)
    requires Terminated(ts)
    ensures BinaryOperator(ts[0]).Some? ==> Terminated(ts[1..])
    ensures ParseOperators(left, ts, minimum) ==
            if BinaryOperator(ts[0]).None? || BinaryOperator(ts[0]).value.1 < minimum then Done(left, ts)
            else OperatorsFrom(left, BinaryOperator(ts[0]).value.0, G.ParseExpression(ts[1..], BinaryOperator(ts[0]).value.1 + 1), minimum)
  {
    hide G.ParseExpression;
  }

  lemma PathStep(segments: seq<Text>, ts: seq<Token>)
    requires Terminated(ts)
    ensures ts[0] != Dot ==> G.ParsePath(segments, ts) == Done(Path(segments), ts)
    ensures ts[0] == Dot ==> Terminated(ts[1..])
    ensures ts[0] == Dot && ts[1..][0].Identifier? ==>
              G.ParsePath(segments, ts) == G.ParsePath(segments + [ts[1..][0].name], ts[1..][1..])
    ensures ts[0] == Dot && !ts[1..][0].Identifier? ==> G.ParsePath(segments, ts) == Fail
  {
    if ts[0] == Dot {
      assert ts[1..][1..] == ts[2..];
    }
  }

  /** A primary expression, by its first token. */
  ghost function PrimaryFrom(token: Token, after: seq<Token>): Outcome<Expr>
    requires token != Eof ==> Terminated(after)
  {
    match token
    case Integer(v) => Done(Lit(IntLit(v)), after)
    case FloatToken(bits) => Done(Lit(FloatLit(bits)), after)
    case StringToken(t) => Done(Lit(StrLit(t)), after)
    case TrueWord => Done(Lit(BoolLit(true)), after)
    case FalseWord => Done(Lit(BoolLit(false)), after)
    case NullWord => Done(Lit(NullLit), after)
    case Identifier(first) => G.ParsePath([first], after)
    case LeftParen =>
      (match G.ParseExpression(after, 1)
       case Fail => Fail
       case Done(inner, rest) => if rest[0] == RightParen then Done(inner, rest[1..]) else Fail)
    case LeftBracket => if after[0] == RightBracket then Done(ArrayExpr([]), after[1..]) else G.ParseItems([], after)
    case LeftBrace => if after[0] == RightBrace then Done(ObjectExpr([]), after[1..]) else G.ParseMembers([], after)
    case _ => Fail
  }

  lemma PrimaryStep(ts: seq<Token>)
    requires Terminated(ts)
    ensures ts[0] != Eof ==> Terminated(ts[1..])
    ensures G.ParsePrimary(ts) == PrimaryFrom(ts[0], ts[1..])
  {
    hide G.ParseExpression, G.ParseItems, G.ParseMembers, G.ParsePath;
    if ts[0] != Eof {
      assert ts[1..][1..] == ts[2..];
    }
  }

  ghost function ItemsFrom(items: seq<Expr>, item: Outcome<Expr>): Outcome<Expr>
    requires item.Done? ==> Terminated(item.rest)
  {
    if item.Fail? || Continues(item.rest, RightBracket).None? then Fail
    else
      var all, rest := items + [item.value], AfterSeparator(item.rest, RightBracket);
      if Continues(item.rest, RightBracket).value then G.ParseItems(all, rest) else Done(ArrayExpr(all), rest)
  }

  lemma ItemsStep(items: seq<Expr>, ts: seq<Token>)
    requires Terminated(ts)
    ensures G.ParseItems(items, ts) == ItemsFrom(items, G.ParseExpression(ts, 1))
  {
    hide G.ParseExpression;
    var item := G.ParseExpression(ts, 1);
    if item.Done? && item.rest[0] == Comma {
      assert item.rest[1..][1..] == item.rest[2..];
    }
  }

  ghost function MembersFrom(members: seq<Member>, m: Outcome<Member>): Outcome<Expr>
    requires m.Done? ==> Terminated(m.rest)
  {
    if m.Fail? || Continues(m.rest, RightBrace).None? then Fail
    else
      var all, rest := members + [m.value], AfterSeparator(m.rest, RightBrace);
      if Continues(m.rest, RightBrace).value then G.ParseMembers(all, rest) else Done(ObjectExpr(all), rest)
  }

  lemma MembersStep(members: seq<Member>, ts: seq<Token>)
    requires Terminated(ts)
    ensures G.ParseMembers(members, ts) == MembersFrom(members, MemberOf(members, ts))
  {
    hide G.ParseExpression, Named;
    if KeyName(ts[0]).Some? && ts[1] == Colon {
      assert ts[1..][1..] == ts[2..];
      var value := G.ParseExpression(ts[2..], 1);
      if value.Done? && value.rest[0] == Comma {
        assert value.rest[1..][1..] == value.rest[2..];
      }
    }
  }
}
