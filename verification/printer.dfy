/** Expressions printed with only the parentheses they need, and read back. */
module Printer {
  import opened Base
  import opened Documents
  import opened Ast
  import opened Grammar
  import opened Forms

  function OperatorToken(op: BinaryOp): Token {
    match op
    case Or => OrWord
    case And => AndWord
    case Equal => EqualEqual
    case NotEqual => BangEqual
    case Less => LessThan
    case LessEqual => LessThanEqual
    case Greater => GreaterThan
    case GreaterEqual => GreaterThanEqual
    case Contains => ContainsWord
    case Add => Plus
    case Subtract => Minus
    case Multiply => Star
    case Divide => Slash
    case Remainder => Percent
  }

  function UnaryToken(op: UnaryOp): Token {
    match op
    case Not => Bang
    case Negate => Minus
    case Positive => Plus
  }

  function LiteralToken(literal: Literal): Token {
    match literal
    case NullLit => NullWord
    case BoolLit(flag) => if flag then TrueWord else FalseWord
    case IntLit(v) => Integer(v)
    case FloatLit(bits) => FloatToken(bits)
    case StrLit(t) => StringToken(t)
  }

  /** Expressions the parser can build: paths have a segment, object keys are distinct. */
  ghost predicate Printable(e: Expr) {
    match e
    case Lit(_) => true
    case Path(segments) => segments != []
    case ArrayExpr(items) => forall i :: 0 <= i < |items| ==> Printable(items[i])
    case ObjectExpr(members) =>
      DistinctNames(members) && forall i :: 0 <= i < |members| ==> Printable(members[i].value)
    case Unary(_, operand) => Printable(operand)
    case Binary(left, _, right) => Printable(left) && Printable(right)
  }

  /** How `e` is printed where operators must bind at least as tightly as `p`. */
  function Minimal(e: Expr, p: nat): Form
    decreases e, 1
  {
    if e.Binary? && Precedence(e.op) < p then Group(Plain(e)) else Plain(e)
  }

  /** Without parentheses around the whole. */
  function Plain(e: Expr): Form
    decreases e, 0
  {
    match e
    case Lit(literal) => Word(LiteralToken(literal))
    case Path(segments) => Dotted(segments)
    case ArrayExpr(items) => Listed(MinimalItems(items), false)
    case ObjectExpr(members) => Record(MinimalEntries(members), false)
    case Unary(op, operand) => Prefix(UnaryToken(op), Minimal(operand, TIGHTEST))
    case Binary(left, op, right) => Infix(Minimal(left, Precedence(op)), OperatorToken(op), Minimal(right, Precedence(op) + 1))
  }

  function MinimalItems(items: seq<Expr>): seq<Form>
    decreases items, 0
  {
    if items == [] then [] else [Minimal(items[0], 1)] + MinimalItems(items[1..])
  }

  function MinimalEntries(members: seq<Member>): seq<Entry>
    decreases members, 0
  {
    if members == [] then [] else [Entry(members[0].name, true, Minimal(members[0].value, 1))] + MinimalEntries(members[1..])
  }

  /** The tokens of `e` in its place, followed by `t`. */
  function Printed(e: Expr, p: nat, t: seq<Token>): seq<Token> {
    Tokens(Minimal(e, p), t)
  }

  function Bare(e: Expr, t: seq<Token>): seq<Token> {
    Tokens(Plain(e), t)
  }

  // ---------- the printed form is a form ----------

  lemma {:induction false} MinimalDenotes(e: Expr, p: nat)
    requires Printable(e)
    ensures Denotes(Minimal(e, p), e) && Fits(Minimal(e, p), e, p)
    decreases e, 1
  {
    PlainDenotes(e);
  }

  lemma {:induction false} PlainDenotes(e: Expr)
    requires Printable(e)
    ensures Denotes(Plain(e), e)
    decreases e, 0
  {
    hide Minimal, Precedence;
    match e
    case ArrayExpr(items) => ItemsDenote(items);
    case ObjectExpr(members) => MembersDenote(members);
    case Unary(op, operand) => MinimalDenotes(operand, TIGHTEST);
    case Binary(left, op, right) =>
      MinimalDenotes(left, Precedence(op));
      MinimalDenotes(right, Precedence(op) + 1);
    case _ =>
  }

  lemma {:induction false} ItemsDenote(items: seq<Expr>)
    requires forall i :: 0 <= i < |items| ==> Printable(items[i])
    ensures AllDenote(MinimalItems(items), items)
    decreases items, 0
  {
    hide Denotes, Printable, Minimal;
    if items != [] {
      MinimalDenotes(items[0], 1);
      ItemsDenote(items[1..]);
    }
  }

  lemma {:induction false} MembersDenote(members: seq<Member>)
    requires forall i :: 0 <= i < |members| ==> Printable(members[i].value)
    ensures EntriesDenote(MinimalEntries(members), members)
    decreases members, 0
  {
    hide Denotes, Printable, Minimal;
    if members != [] {
      var Member(name, value) := members[0];
      MinimalDenotes(value, 1);
      MembersDenote(members[1..]);
    }
  }

  /** What follows does not extend an expression of precedence `p`, except as its left operand. */
  ghost predicate FollowsAt(t: seq<Token>, p: nat) {
    Terminated(t) && t[0] != Dot && (BinaryOperator(t[0]).Some? ==> BinaryOperator(t[0]).value.1 <= p)
  }

  /** An operand in its place is read up to the operators that follow it. */
  lemma ReadPrinted(e: Expr, p: nat, minimum: nat, t: seq<Token>)
    requires Printable(e) && minimum <= p && FollowsAt(t, p)
    ensures ParseExpression(Printed(e, p, t), minimum) == ParseOperators(e, t, minimum)
  {
    hide ParseExpression, ParseOperators, Minimal, Denotes, Tokens;
    MinimalDenotes(e, p);
    ReadForm(Minimal(e, p), e, minimum, t);
  }

  /**
   * Printing any expression with only the parentheses that precedence and left associativity require, and parsing
   * at the lowest precedence, gives the expression back and stops right after it.
   */
  lemma PrintedReadsBack(e: Expr, t: seq<Token>)
    requires Printable(e) && Terminated(t) && t[0] != Dot && BinaryOperator(t[0]).None?
    ensures ParseExpression(Printed(e, 1, t), 1) == Done(e, t)
  {
    hide ParseExpression, Printed;
    ReadPrinted(e, 1, 1, t);
    StopsAt(e, t);
  }

  // ---------- whatever is parsed can be printed ----------

  lemma {:induction false} DenotedPrintable(f: Form, e: Expr)
    requires Denotes(f, e)
    ensures Printable(e)
    decreases f
  {
    hide SpellsBinary, SpellsUnary, SpellsLiteral, Precedence;
    match f
    case Group(inner) => DenotedPrintable(inner, e);
    case Listed(items, _) =>
      forall i | 0 <= i < |items|
        ensures Printable(e.items[i])
      {
        DenotedPrintable(items[i], e.items[i]);
      }
    case Record(entries, _) =>
      forall i | 0 <= i < |entries|
        ensures Printable(e.members[i].value)
      {
        var Entry(name, quoted, value) := entries[i];
        DenotedPrintable(value, e.members[i].value);
      }
    case Prefix(_, operand) => DenotedPrintable(operand, e.operand);
    case Infix(left, _, right) =>
      DenotedPrintable(left, e.left);
      DenotedPrintable(right, e.right);
    case _ =>
  }

  lemma ExpressionPrintable(ts: seq<Token>, minimum: nat)
    requires Terminated(ts) && ParseExpression(ts, minimum).Done?
    ensures Printable(ParseExpression(ts, minimum).value)
  {
    hide ParseExpression, Denotes, Tokens;
    var f := ParsedExpression(ts, minimum);
    DenotedPrintable(f, ParseExpression(ts, minimum).value);
  }

  /** Whatever parses, however it was written, prints to tokens that parse to the same expression. */
  lemma Reprinted(ts: seq<Token>, t: seq<Token>)
    requires Terminated(ts) && ParseExpression(ts, 1).Done? && Terminated(t) && t[0] != Dot && BinaryOperator(t[0]).None?
    ensures var e := ParseExpression(ts, 1).value; ParseExpression(Printed(e, 1, t), 1) == Done(e, t)
  {
    hide ParseExpression, Printed;
    ExpressionPrintable(ts, 1);
    PrintedReadsBack(ParseExpression(ts, 1).value, t);
  }
}
