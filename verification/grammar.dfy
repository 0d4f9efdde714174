/** The expression grammar of NovaQL over tokens, as a recursive descent over the rest of a token list. */
module Grammar {
  import opened Base
  import opened Documents
  import opened Ast

  datatype Token =
    | Identifier(name: Text)
    | StringToken(text: Text)
    | Integer(int64: i64)
    | FloatToken(bits: u64)
    | OrWord | AndWord | NotWord | ContainsWord | TrueWord | FalseWord | NullWord
    | OtherWord(name: Text)
    | LeftBrace | RightBrace | LeftBracket | RightBracket | LeftParen | RightParen
    | Comma | Colon | Dot | Semicolon | Pipe
    | Assign | EqualEqual | Bang | BangEqual | LessThan | LessThanEqual | GreaterThan | GreaterThanEqual
    | Plus | Minus | Star | Slash | Percent
    | Eof

  /** Token lists end with the end-of-input token. */
  predicate Terminated(ts: seq<Token>) {
    ts != [] && ts[|ts| - 1] == Eof
  }

  datatype Outcome<+T> = Fail | Done(value: T, rest: seq<Token>)

  function BinaryOperator(token: Token): Option<(BinaryOp, nat)> {
    match token
    case OrWord => Some((Or, 1))
    case AndWord => Some((And, 2))
    case Assign => Some((Equal, 3))
    case EqualEqual => Some((Equal, 3))
    case BangEqual => Some((NotEqual, 3))
    case LessThan => Some((Less, 3))
    case LessThanEqual => Some((LessEqual, 3))
    case GreaterThan => Some((Greater, 3))
    case GreaterThanEqual => Some((GreaterEqual, 3))
    case ContainsWord => Some((Contains, 3))
    case Plus => Some((Add, 4))
    case Minus => Some((Subtract, 4))
    case Star => Some((Multiply, 5))
    case Slash => Some((Divide, 5))
    case Percent => Some((Remainder, 5))
    case _ => None
  }

  function UnaryOperator(token: Token): Option<UnaryOp> {
    match token
    case NotWord => Some(Not)
    case Bang => Some(Not)
    case Minus => Some(Negate)
    case Plus => Some(Positive)
    case _ => None
  }

  /** The parser takes at least one token, and never the end of input. */
  ghost predicate Leaves<T>(r: Outcome<T>, ts: seq<Token>) {
    r.Done? ==> Terminated(r.rest) && |r.rest| < |ts|
  }

  function ParseExpression(ts: seq<Token>, minimum: nat): (r: Outcome<Expr>)
    requires Terminated(ts)
    ensures Leaves(r, ts)
    decreases |ts|, 3
  {
    match ParseUnary(ts)
    case Fail => Fail
    case Done(left, rest) => ParseOperators(left, rest, minimum)
  }

  /** The loop over the operators that bind at least as tightly as `minimum`. */
  function ParseOperators(left: Expr, ts: seq<Token>, minimum: nat): (r: Outcome<Expr>)
    requires Terminated(ts)
    ensures r.Done? ==> Terminated(r.rest) && |r.rest| <= |ts|
    decreases |ts|, 0
  {
    match BinaryOperator(ts[0])
    case None => Done(left, ts)
    case Some((op, precedence)) =>
      if precedence < minimum then Done(left, ts)
      else match ParseExpression(ts[1..], precedence + 1)
        case Fail => Fail
        case Done(right, rest) => ParseOperators(Binary(left, op, right), rest, minimum)
  }

  function ParseUnary(ts: seq<Token>): (r: Outcome<Expr>)
    requires Terminated(ts)
    ensures Leaves(r, ts)
    decreases |ts|, 2
  {
    match UnaryOperator(ts[0])
    case None => ParsePrimary(ts)
    case Some(op) =>
      match ParseUnary(ts[1..])
      case Fail => Fail
      case Done(operand, rest) => Done(Unary(op, operand), rest)
  }

  function ParsePrimary(ts: seq<Token>): (r: Outcome<Expr>)
    requires Terminated(ts)
    ensures Leaves(r, ts)
    decreases |ts|, 1
  {
    match ts[0]
    case Integer(v) => Done(Lit(IntLit(v)), ts[1..])
    case FloatToken(bits) => Done(Lit(FloatLit(bits)), ts[1..])
    case StringToken(t) => Done(Lit(StrLit(t)), ts[1..])
    case TrueWord => Done(Lit(BoolLit(true)), ts[1..])
    case FalseWord => Done(Lit(BoolLit(false)), ts[1..])
    case NullWord => Done(Lit(NullLit), ts[1..])
    case Identifier(first) => ParsePath([first], ts[1..])
    case LeftParen =>
      (match ParseExpression(ts[1..], 1)
       case Fail => Fail
       case Done(inner, rest) => if rest[0] == RightParen then Done(inner, rest[1..]) else Fail)
    case LeftBracket => if ts[1] == RightBracket then Done(ArrayExpr([]), ts[2..]) else ParseItems([], ts[1..])
    case LeftBrace => if ts[1] == RightBrace then Done(ObjectExpr([]), ts[2..]) else ParseMembers([], ts[1..])
    case _ => Fail
  }

  function ParsePath(segments: seq<Text>, ts: seq<Token>): (r: Outcome<Expr>)
    requires Terminated(ts)
    ensures r.Done? ==> Terminated(r.rest) && |r.rest| <= |ts|
    decreases |ts|, 0
  {
    if ts[0] != Dot then Done(Path(segments), ts)
    else if ts[1].Identifier? then ParsePath(segments + [ts[1].name], ts[2..])
    else Fail
  }

  /** One or more array items, and the closing bracket; a comma may follow the last item. */
  function ParseItems(items: seq<Expr>, ts: seq<Token>): (r: Outcome<Expr>)
    requires Terminated(ts)
    ensures Leaves(r, ts)
    decreases |ts|, 4
  {
    match ParseExpression(ts, 1)
    case Fail => Fail
    case Done(item, rest) =>
      if rest[0] == RightBracket then Done(ArrayExpr(items + [item]), rest[1..])
      else if rest[0] != Comma then Fail
      else if rest[1] == RightBracket then Done(ArrayExpr(items + [item]), rest[2..])
      else ParseItems(items + [item], rest[1..])
  }

  function KeyName(token: Token): Option<Text> {
    match token
    case Identifier(name) => Some(name)
    case StringToken(name) => Some(name)
    case _ => None
  }

  predicate Named(members: seq<Member>, name: Text) {
    exists i :: 0 <= i < |members| && members[i].name == name
  }

  /** One or more object members with new names, and the closing brace. */
  function ParseMembers(members: seq<Member>, ts: seq<Token>): (r: Outcome<Expr>)
    requires Terminated(ts)
    ensures Leaves(r, ts)
    decreases |ts|, 4
  {
    var name := KeyName(ts[0]);
    if name.None? || Named(members, name.value) || ts[1] != Colon then Fail
    else match ParseExpression(ts[2..], 1)
      case Fail => Fail
      case Done(value, rest) =>
        var all := members + [Member(name.value, value)];
        if rest[0] == RightBrace then Done(ObjectExpr(all), rest[1..])
        else if rest[0] != Comma then Fail
        else if rest[1] == RightBrace then Done(ObjectExpr(all), rest[2..])
        else ParseMembers(all, rest[1..])
  }
}
