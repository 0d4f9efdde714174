/** Every way to write an expression, and that the parser accepts exactly these ways. */
module Forms {
  import opened Base
  import opened Documents
  import opened Ast
  import opened Grammar

  // ---------- how operators, literals and keys are spelled ----------

  predicate SpellsBinary(token: Token, op: BinaryOp) {
    match op
    case Or => token == OrWord
    case And => token == AndWord
    case Equal => token == EqualEqual || token == Assign
    case NotEqual => token == BangEqual
    case Less => token == LessThan
    case LessEqual => token == LessThanEqual
    case Greater => token == GreaterThan
    case GreaterEqual => token == GreaterThanEqual
    case Contains => token == ContainsWord
    case Add => token == Plus
    case Subtract => token == Minus
    case Multiply => token == Star
    case Divide => token == Slash
    case Remainder => token == Percent
  }

  function Precedence(op: BinaryOp): nat {
    match op
    case Or => 1
    case And => 2
    case Equal => 3
    case NotEqual => 3
    case Less => 3
    case LessEqual => 3
    case Greater => 3
    case GreaterEqual => 3
    case Contains => 3
    case Add => 4
    case Subtract => 4
    case Multiply => 5
    case Divide => 5
    case Remainder => 5
  }

  predicate SpellsUnary(token: Token, op: UnaryOp) {
    match op
    case Not => token == Bang || token == NotWord
    case Negate => token == Minus
    case Positive => token == Plus
  }

  predicate SpellsLiteral(token: Token, literal: Literal) {
    match literal
    case NullLit => token == NullWord
    case BoolLit(flag) => token == if flag then TrueWord else FalseWord
    case IntLit(v) => token == Integer(v)
    case FloatLit(bits) => token == FloatToken(bits)
    case StrLit(t) => token == StringToken(t)
  }

  /** Object keys are written with or without quotes. */
  function KeyToken(name: Text, quoted: bool): Token {
    if quoted then StringToken(name) else Identifier(name)
  }

  // ---------- written forms ----------

  datatype Form =
    | Word(token: Token)
    | Dotted(segments: seq<Text>)
    | Group(inner: Form)
    | Listed(items: seq<Form>, trailing: bool)
    | Record(entries: seq<Entry>, trailing: bool)
    | Prefix(token: Token, operand: Form)
    | Infix(left: Form, token: Token, right: Form)

  datatype Entry = Entry(name: Text, quoted: bool, value: Form)

  ghost predicate DistinctNames(members: seq<Member>) {
    forall i, j :: 0 <= i < j < |members| ==> members[i].name != members[j].name
  }

  /** Tighter than every binary operator: the place of a unary operand. */
  const TIGHTEST: nat := 6

  /** An operator outside of parentheses binds at least as tightly as its place asks. */
  predicate Fits(f: Form, e: Expr, p: nat) {
    f.Infix? && e.Binary? ==> Precedence(e.op) >= p
  }

  /** The form is a way to write the expression: left operands bind as tightly as their operator, and right ones more. */
  ghost predicate Denotes(f: Form, e: Expr)
    decreases f
  {
    match f
    case Word(token) => e.Lit? && SpellsLiteral(token, e.literal)
    case Dotted(segments) => segments != [] && e == Path(segments)
    case Group(inner) => Denotes(inner, e)
    case Listed(items, trailing) =>
      && e.ArrayExpr? && |items| == |e.items| && (trailing ==> items != [])
      && forall i :: 0 <= i < |items| ==> Denotes(items[i], e.items[i])
    case Record(entries, trailing) =>
      && e.ObjectExpr? && |entries| == |e.members| && (trailing ==> entries != []) && DistinctNames(e.members)
      && forall i :: 0 <= i < |entries| ==> entries[i].name == e.members[i].name && Denotes(entries[i].value, e.members[i].value)
    case Prefix(token, operand) =>
      e.Unary? && SpellsUnary(token, e.unaryOp) && Denotes(operand, e.operand) && Fits(operand, e.operand, TIGHTEST)
    case Infix(left, token, right) =>
      && e.Binary? && SpellsBinary(token, e.op) && Denotes(left, e.left) && Denotes(right, e.right)
      && Fits(left, e.left, Precedence(e.op)) && Fits(right, e.right, Precedence(e.op) + 1)
  }

  // ---------- their tokens ----------

  /** The tokens of the form, followed by `t`. */
  function Tokens(f: Form, t: seq<Token>): (r: seq<Token>)
    ensures Terminated(t) ==> Terminated(r)
    decreases f
  {
    match f
    case Word(token) => [token] + t
    case Dotted(segments) => if segments == [] then t else [Identifier(segments[0])] + Segments(segments[1..], t)
    case Group(inner) => [LeftParen] + Tokens(inner, [RightParen] + t)
    case Listed(items, trailing) => [LeftBracket] + ItemTokens(items, Closing(trailing, RightBracket, t))
    case Record(entries, trailing) => [LeftBrace] + EntryTokens(entries, Closing(trailing, RightBrace, t))
    case Prefix(token, operand) => [token] + Tokens(operand, t)
    case Infix(left, token, right) => Tokens(left, [token] + Tokens(right, t))
  }

  function Segments(segments: seq<Text>, t: seq<Token>): (r: seq<Token>)
    ensures Terminated(t) ==> Terminated(r)
  {
    if segments == [] then t else [Dot, Identifier(segments[0])] + Segments(segments[1..], t)
  }

  /** The closing bracket or brace, with a comma before it or not. */
  function Closing(trailing: bool, closer: Token, t: seq<Token>): (r: seq<Token>)
    ensures Terminated(t) ==> Terminated(r)
  {
    if trailing then [Comma, closer] + t else [closer] + t
  }

  function ItemTokens(items: seq<Form>, t: seq<Token>): (r: seq<Token>)
    ensures Terminated(t) ==> Terminated(r)
    decreases items
  {
    if items == [] then t
    else Tokens(items[0], if |items| == 1 then t else [Comma] + ItemTokens(items[1..], t))
  }

  function EntryTokens(entries: seq<Entry>, t: seq<Token>): (r: seq<Token>)
    ensures Terminated(t) ==> Terminated(r)
    decreases entries
  {
    if entries == [] then t
    else
      var Entry(name, quoted, value) := entries[0];
      [KeyToken(name, quoted), Colon] + Tokens(value, if |entries| == 1 then t else [Comma] + EntryTokens(entries[1..], t))
  }

  lemma Tail<T>(x: T, s: seq<T>)
    ensures ([x] + s)[1..] == s
  {
  }

  lemma Split<T>(s: seq<T>)
    requires s != []
    ensures s == [s[0]] + s[1..]
  {
  }

  lemma Regroup<T>(a: seq<T>, x: T, s: seq<T>)
    ensures (a + [x]) + s == a + ([x] + s)
  {
  }

  // ---------- every form is read as what it denotes ----------

  lemma SpelledBinary(token: Token, op: BinaryOp)
    requires SpellsBinary(token, op)
    ensures BinaryOperator(token) == Some((op, Precedence(op))) && token != Dot && token != LeftParen
  {
  }

  lemma SpelledUnary(token: Token, op: UnaryOp)
    ensures SpellsUnary(token, op) <==> UnaryOperator(token) == Some(op)
    ensures SpellsUnary(token, op) ==> token != LeftParen
  {
  }

  /** What follows does not extend the form, except as its left operand. */
  ghost predicate Follows(t: seq<Token>, f: Form, e: Expr) {
    Terminated(t) && t[0] != Dot && (f.Infix? && e.Binary? && BinaryOperator(t[0]).Some? ==> BinaryOperator(t[0]).value.1 <= Precedence(e.op))
  }

  /** No form starts with a closing bracket or brace. */
  lemma {:induction false} FirstToken(f: Form, e: Expr, t: seq<Token>)
    requires Denotes(f, e)
    ensures var r := Tokens(f, t); r != [] && r[0] != RightBracket && r[0] != RightBrace
    decreases f
  {
    if f.Infix? {
      FirstToken(f.left, e.left, [f.token] + Tokens(f.right, t));
    }
  }

  /** A form in its place is read completely, up to the operators that follow it. */
  lemma {:induction false} ReadForm(f: Form, e: Expr, minimum: nat, t: seq<Token>)
    requires Denotes(f, e) && Fits(f, e, minimum) && Follows(t, f, e)
    ensures ParseExpression(Tokens(f, t), minimum) == ParseOperators(e, t, minimum)
    decreases f, 1
  {
    if f.Infix? {
      ReadInfix(f, e, minimum, t);
    } else {
      hide Denotes, Tokens, ParseUnary;
      ReadTight(f, e, t);
    }
  }

  lemma {:induction false} ReadInfix(f: Form, e: Expr, minimum: nat, t: seq<Token>)
    requires f.Infix? && Denotes(f, e) && Fits(f, e, minimum) && Follows(t, f, e)
    ensures ParseExpression(Tokens(f, t), minimum) == ParseOperators(e, t, minimum)
    decreases f, 0
  {
    hide ParseExpression, SpellsBinary, BinaryOperator, ParseOperators;
    var p := Precedence(e.op);
    SpelledBinary(f.token, e.op);
    var right := Tokens(f.right, t);
    var middle := [f.token] + right;
    assert middle[1..] == right;
    ReadForm(f.left, e.left, minimum, middle);
    ReadForm(f.right, e.right, p + 1, t);
    OperatorRead(e.left, e.op, e.right, middle, minimum, t);
  }

  lemma OperatorRead(left: Expr, op: BinaryOp, right: Expr, ts: seq<Token>, minimum: nat, t: seq<Token>)
    requires Terminated(ts) && BinaryOperator(ts[0]) == Some((op, Precedence(op))) && Precedence(op) >= minimum && Terminated(t)
    requires BinaryOperator(t[0]).Some? ==> BinaryOperator(t[0]).value.1 <= Precedence(op)
    requires ParseExpression(ts[1..], Precedence(op) + 1) == ParseOperators(right, t, Precedence(op) + 1)
    ensures ParseOperators(left, ts, minimum) == ParseOperators(Binary(left, op, right), t, minimum)
  {
    hide ParseExpression, BinaryOperator;
  }

  /** Anything but an operator with its operands is read by itself. */
  lemma {:induction false} ReadTight(f: Form, e: Expr, t: seq<Token>)
    requires !f.Infix? && Denotes(f, e) && Terminated(t) && t[0] != Dot
    ensures ParseUnary(Tokens(f, t)) == Done(e, t)
    decreases f, 0
  {
    hide ParsePrimary, ItemTokens, EntryTokens, Segments, SpellsUnary, UnaryOperator;
    match f
    case Word(token) => ReadWord(token, e.literal, t);
    case Dotted(segments) => ReadDotted(segments, t);
    case Group(inner) =>
      var ts := Tokens(f, t);
      assert ts[1..] == Tokens(inner, [RightParen] + t);
      ReadForm(inner, e, 1, [RightParen] + t) by {
        FitsLowest(inner, e);
      }
      ReadGroup(ts, e, t);
    case Listed(items, trailing) => ReadList(items, e.items, trailing, t);
    case Record(entries, trailing) => ReadRecord(entries, e.members, trailing, t);
    case Prefix(token, operand) =>
      SpelledUnary(token, e.unaryOp);
      assert Tokens(f, t)[1..] == Tokens(operand, t);
      if operand.Infix? {
        NeverTightest(e.operand);
      }
      ReadTight(operand, e.operand, t);
  }

  lemma FitsLowest(f: Form, e: Expr)
    ensures Fits(f, e, 1)
  {
  }

  lemma NeverTightest(e: Expr)
    ensures e.Binary? ==> Precedence(e.op) < TIGHTEST
  {
  }

  lemma ReadWord(token: Token, literal: Literal, t: seq<Token>)
    requires Terminated(t) && SpellsLiteral(token, literal)
    ensures ParseUnary([token] + t) == Done(Lit(literal), t)
  {
    assert ([token] + t)[1..] == t;
  }

  /** A token that is no unary operator begins a primary expression. */
  lemma ReadPrimary(ts: seq<Token>)
    requires Terminated(ts) && UnaryOperator(ts[0]).None?
    ensures ParseUnary(ts) == ParsePrimary(ts)
  {
    hide ParsePrimary;
  }

  lemma ReadBracket(ts: seq<Token>)
    requires Terminated(ts) && ts[0] == LeftBracket
    ensures ParsePrimary(ts) == ParseUnary(ts)
    ensures ParseUnary(ts) == if ts[1] == RightBracket then Done(ArrayExpr([]), ts[2..]) else ParseItems([], ts[1..])
  {
    hide ParseItems;
    ReadPrimary(ts);
  }

  lemma ReadBrace(ts: seq<Token>)
    requires Terminated(ts) && ts[0] == LeftBrace
    ensures ParsePrimary(ts) == ParseUnary(ts)
    ensures ParseUnary(ts) == if ts[1] == RightBrace then Done(ObjectExpr([]), ts[2..]) else ParseMembers([], ts[1..])
  {
    hide ParseMembers;
    ReadPrimary(ts);
  }

  lemma ReadGroup(ts: seq<Token>, e: Expr, t: seq<Token>)
    requires Terminated(t) && Terminated(ts) && ts[0] == LeftParen
    requires ParseExpression(ts[1..], 1) == ParseOperators(e, [RightParen] + t, 1)
    ensures ParseUnary(ts) == Done(e, t)
  {
    hide ParseExpression;
    ReadPrimary(ts);
    StopsAt(e, [RightParen] + t);
    hide ParseUnary, ParseOperators;
    assert ([RightParen] + t)[1..] == t;
  }

  lemma ReadDotted(segments: seq<Text>, t: seq<Token>)
    requires segments != [] && Terminated(t) && t[0] != Dot
    ensures ParseUnary([Identifier(segments[0])] + Segments(segments[1..], t)) == Done(Path(segments), t)
  {
    hide ParsePath, Segments;
    var ts := [Identifier(segments[0])] + Segments(segments[1..], t);
    assert ts[1..] == Segments(segments[1..], t);
    ReadSegments([segments[0]], segments[1..], t);
    assert [segments[0]] + segments[1..] == segments;
  }

  lemma {:induction false} ReadSegments(done: seq<Text>, segments: seq<Text>, t: seq<Token>)
    requires Terminated(t) && t[0] != Dot
    ensures ParsePath(done, Segments(segments, t)) == Done(Path(done + segments), t)
    decreases segments
  {
    hide ParsePath;
    if segments == [] {
      PathEnds(done, t);
      assert done + segments == done;
    } else {
      SegmentRead(done, segments[0], Segments(segments[1..], t));
      ReadSegments(done + [segments[0]], segments[1..], t);
      assert done + [segments[0]] + segments[1..] == done + segments;
    }
  }

  lemma PathEnds(done: seq<Text>, t: seq<Token>)
    requires Terminated(t) && t[0] != Dot
    ensures ParsePath(done, t) == Done(Path(done), t)
  {
  }

  lemma SegmentRead(done: seq<Text>, name: Text, rest: seq<Token>)
    requires Terminated(rest)
    ensures ParsePath(done, [Dot, Identifier(name)] + rest) == ParsePath(done + [name], rest)
  {
    assert ([Dot, Identifier(name)] + rest)[2..] == rest;
  }

  lemma {:induction false} ReadList(items: seq<Form>, es: seq<Expr>, trailing: bool, t: seq<Token>)
    requires Terminated(t) && |items| == |es| && (trailing ==> items != [])
    requires forall i :: 0 <= i < |items| ==> Denotes(items[i], es[i])
    ensures ParseUnary([LeftBracket] + ItemTokens(items, Closing(trailing, RightBracket, t))) == Done(ArrayExpr(es), t)
    decreases items, 1
  {
    hide Denotes, ParseItems, ParseUnary, ItemTokens, Closing;
    var close := Closing(trailing, RightBracket, t);
    var inside := ItemTokens(items, close);
    var ts := [LeftBracket] + inside;
    Tail(LeftBracket, inside);
    ReadBracket(ts);
    FirstItem(items, es, close);
    ClosingRead(trailing, RightBracket, t);
    if items == [] {
      assert ts[2..] == inside[1..];
    } else {
      ReadItems([], items, es, trailing, t);
      assert [] + es == es;
    }
  }

  lemma FirstItem(items: seq<Form>, es: seq<Expr>, close: seq<Token>)
    requires |items| == |es| && (items != [] ==> Denotes(items[0], es[0])) && close != []
    ensures var r := ItemTokens(items, close);
            r != [] && if items == [] then r == close else r[0] != RightBracket
  {
    hide Denotes, Tokens;
    if items != [] {
      FirstToken(items[0], es[0], if |items| == 1 then close else [Comma] + ItemTokens(items[1..], close));
    }
  }

  /** A token that is no operator ends the expression. */
  lemma StopsAt(e: Expr, t: seq<Token>)
    requires Terminated(t) && BinaryOperator(t[0]).None?
    ensures ParseOperators(e, t, 1) == Done(e, t)
  {
  }

  /** Reading one item, up to the comma or bracket after it. */
  lemma ItemRead(done: seq<Expr>, item: Expr, tokens: seq<Token>, after: seq<Token>)
    requires Terminated(tokens) && Terminated(after) && ParseExpression(tokens, 1) == Done(item, after)
    requires after[0] == RightBracket || after[0] == Comma
    ensures ParseItems(done, tokens) ==
            if after[0] == RightBracket then Done(ArrayExpr(done + [item]), after[1..])
            else if after[1] == RightBracket then Done(ArrayExpr(done + [item]), after[2..])
            else ParseItems(done + [item], after[1..])
  {
    hide ParseExpression;
  }

  lemma ClosingRead(trailing: bool, closer: Token, t: seq<Token>)
    requires Terminated(t) && (closer == RightBracket || closer == RightBrace)
    ensures var c := Closing(trailing, closer, t);
            && Terminated(c) && BinaryOperator(c[0]).None? && c[0] != Dot && c[0] == (if trailing then Comma else closer)
            && (if trailing then |c| >= 2 && c[1] == closer && c[2..] == t else c[1..] == t)
  {
  }

  lemma {:induction false} ReadItems(done: seq<Expr>, items: seq<Form>, es: seq<Expr>, trailing: bool, t: seq<Token>)
    requires Terminated(t) && |items| == |es| > 0 && forall i :: 0 <= i < |items| ==> Denotes(items[i], es[i])
    ensures ParseItems(done, ItemTokens(items, Closing(trailing, RightBracket, t))) == Done(ArrayExpr(done + es), t)
    decreases items, 0
  {
    hide Denotes, Tokens, ParseExpression, ParseItems, ParseOperators, Closing, BinaryOperator;
    var close := Closing(trailing, RightBracket, t);
    ClosingRead(trailing, RightBracket, t);
    if |items| == 1 {
      ReadItem(done, items[0], es[0], close);
      assert es == [es[0]];
    } else {
      var later := ItemTokens(items[1..], close);
      ReadItem(done, items[0], es[0], [Comma] + later);
      Tail(Comma, later);
      Split(es);
      Regroup(done, es[0], es[1..]);
      FirstItem(items[1..], es[1..], close);
      ReadItems(done + [es[0]], items[1..], es[1..], trailing, t);
    }
  }

  lemma ReadItem(done: seq<Expr>, f: Form, e: Expr, after: seq<Token>)
    requires Denotes(f, e) && Terminated(after) && (after[0] == RightBracket || after[0] == Comma)
    ensures ParseItems(done, Tokens(f, after)) ==
            if after[0] == RightBracket then Done(ArrayExpr(done + [e]), after[1..])
            else if after[1] == RightBracket then Done(ArrayExpr(done + [e]), after[2..])
            else ParseItems(done + [e], after[1..])
    decreases f, 2
  {
    hide Denotes, Tokens, ParseExpression, ParseItems, ParseOperators;
    FitsLowest(f, e);
    ReadForm(f, e, 1, after);
    StopsAt(e, after);
    ItemRead(done, e, Tokens(f, after), after);
  }

  lemma {:induction false} ReadRecord(entries: seq<Entry>, members: seq<Member>, trailing: bool, t: seq<Token>)
    requires Terminated(t) && |entries| == |members| && (trailing ==> entries != []) && DistinctNames(members)
    requires forall i :: 0 <= i < |entries| ==> entries[i].name == members[i].name && Denotes(entries[i].value, members[i].value)
    ensures ParseUnary([LeftBrace] + EntryTokens(entries, Closing(trailing, RightBrace, t))) == Done(ObjectExpr(members), t)
    decreases entries, 1
  {
    hide Denotes, ParseMembers, ParseUnary, EntryTokens, Closing, DistinctNames;
    var close := Closing(trailing, RightBrace, t);
    var inside := EntryTokens(entries, close);
    var ts := [LeftBrace] + inside;
    Tail(LeftBrace, inside);
    ReadBrace(ts);
    FirstKey(entries, close);
    ClosingRead(trailing, RightBrace, t);
    if entries == [] {
      assert ts[2..] == inside[1..];
    } else {
      assert [] + members == members;
      ReadEntries([], entries, members, trailing, t);
    }
  }

  lemma FirstKey(entries: seq<Entry>, close: seq<Token>)
    requires close != []
    ensures var r := EntryTokens(entries, close);
            r != [] && if entries == [] then r == close else r[0] != RightBrace
  {
    hide Tokens;
  }

  lemma NewName(done: seq<Member>, members: seq<Member>)
    requires members != [] && DistinctNames(done + members)
    ensures !Named(done, members[0].name)
  {
    var all := done + members;
    forall i | 0 <= i < |done|
      ensures done[i].name != members[0].name
    {
      assert all[i] == done[i] && all[|done|] == members[0];
    }
  }

  /** Reading one member, up to the comma or brace after it. */
  lemma MemberRead(done: seq<Member>, quoted: bool, m: Member, value: seq<Token>, after: seq<Token>)
    requires Terminated(value) && Terminated(after) && ParseExpression(value, 1) == Done(m.value, after)
    requires !Named(done, m.name) && (after[0] == RightBrace || after[0] == Comma)
    ensures ParseMembers(done, [KeyToken(m.name, quoted), Colon] + value) ==
            if after[0] == RightBrace then Done(ObjectExpr(done + [m]), after[1..])
            else if after[1] == RightBrace then Done(ObjectExpr(done + [m]), after[2..])
            else ParseMembers(done + [m], after[1..])
  {
    hide ParseExpression, Named;
    assert ([KeyToken(m.name, quoted), Colon] + value)[2..] == value;
    assert Member(m.name, m.value) == m;
  }

  lemma {:induction false} ReadEntries(done: seq<Member>, entries: seq<Entry>, members: seq<Member>, trailing: bool, t: seq<Token>)
    requires Terminated(t) && |entries| == |members| > 0 && DistinctNames(done + members)
    requires forall i :: 0 <= i < |entries| ==> entries[i].name == members[i].name && Denotes(entries[i].value, members[i].value)
    ensures ParseMembers(done, EntryTokens(entries, Closing(trailing, RightBrace, t))) == Done(ObjectExpr(done + members), t)
    decreases entries, 0
  {
    hide Denotes, Tokens, ParseExpression, ParseMembers, ParseOperators, DistinctNames, Closing, BinaryOperator;
    var close := Closing(trailing, RightBrace, t);
    var Entry(name, quoted, value) := entries[0];
    ClosingRead(trailing, RightBrace, t);
    NewName(done, members);
    if |entries| == 1 {
      ReadEntry(done, quoted, value, members[0], close);
      assert members == [members[0]];
    } else {
      var later := EntryTokens(entries[1..], close);
      ReadEntry(done, quoted, value, members[0], [Comma] + later);
      Tail(Comma, later);
      Split(members);
      Regroup(done, members[0], members[1..]);
      ReadEntries(done + [members[0]], entries[1..], members[1..], trailing, t);
    }
  }

  lemma ReadEntry(done: seq<Member>, quoted: bool, f: Form, m: Member, after: seq<Token>)
    requires Denotes(f, m.value) && !Named(done, m.name) && Terminated(after) && (after[0] == RightBrace || after[0] == Comma)
    ensures ParseMembers(done, [KeyToken(m.name, quoted), Colon] + Tokens(f, after)) ==
            if after[0] == RightBrace then Done(ObjectExpr(done + [m]), after[1..])
            else if after[1] == RightBrace then Done(ObjectExpr(done + [m]), after[2..])
            else ParseMembers(done + [m], after[1..])
    decreases f, 2
  {
    hide Denotes, Tokens, ParseExpression, ParseMembers, ParseOperators, Named;
    FitsLowest(f, m.value);
    ReadForm(f, m.value, 1, after);
    StopsAt(m.value, after);
    MemberRead(done, quoted, m, Tokens(f, after), after);
  }

  // ---------- whatever is parsed is a form ----------

  /** These tokens are the form in its place, up to `rest`. */
  ghost predicate Written(ts: seq<Token>, f: Form, e: Expr, p: nat, rest: seq<Token>) {
    Denotes(f, e) && Fits(f, e, p) && Tokens(f, rest) == ts
  }

  /** No operator that binds as tightly as `minimum` follows. */
  ghost predicate Stops(ts: seq<Token>, minimum: nat)
    requires Terminated(ts)
  {
    BinaryOperator(ts[0]).Some? ==> BinaryOperator(ts[0]).value.1 < minimum
  }

  /** If an operator follows, the form can be its left operand. */
  ghost predicate Extends(ts: seq<Token>, f: Form, e: Expr)
    requires Terminated(ts)
  {
    BinaryOperator(ts[0]).Some? ==> Fits(f, e, BinaryOperator(ts[0]).value.1)
  }

  lemma {:induction false} ParsedExpression(ts: seq<Token>, minimum: nat) returns (f: Form)
    requires Terminated(ts) && ParseExpression(ts, minimum).Done?
    ensures var r := ParseExpression(ts, minimum); Written(ts, f, r.value, minimum, r.rest) && Stops(r.rest, minimum)
    decreases |ts|, 3
  {
    hide ParseUnary, ParseOperators, Tokens, Denotes;
    var left := ParseUnary(ts);
    var l := ParsedUnary(ts);
    f := ParsedOperators(l, left.value, left.rest, minimum);
  }

  lemma {:induction false} ParsedOperators(l: Form, left: Expr, ts: seq<Token>, minimum: nat) returns (f: Form)
    requires Terminated(ts) && Denotes(l, left) && Fits(l, left, minimum) && Extends(ts, l, left) && ParseOperators(left, ts, minimum).Done?
    ensures var r := ParseOperators(left, ts, minimum); Written(Tokens(l, ts), f, r.value, minimum, r.rest) && Stops(r.rest, minimum)
    decreases |ts|, 0
  {
    hide ParseExpression, Tokens, Denotes, BinaryOperator, Precedence;
    f := l;
    if BinaryOperator(ts[0]).Some? && BinaryOperator(ts[0]).value.1 >= minimum {
      var (op, p) := BinaryOperator(ts[0]).value;
      var right := ParseExpression(ts[1..], p + 1);
      var r := ParsedExpression(ts[1..], p + 1);
      InfixWritten(l, left, ts, op, p, r, right.value, right.rest);
      f := ParsedOperators(Infix(l, ts[0], r), Binary(left, op, right.value), right.rest, minimum);
    }
  }

  lemma InfixWritten(l: Form, left: Expr, ts: seq<Token>, op: BinaryOp, p: nat, r: Form, right: Expr, rest: seq<Token>)
    requires Terminated(ts) && Denotes(l, left) && BinaryOperator(ts[0]) == Some((op, p)) && Fits(l, left, p)
    requires Terminated(rest) && Written(ts[1..], r, right, p + 1, rest) && Stops(rest, p + 1)
    ensures var f, e := Infix(l, ts[0], r), Binary(left, op, right);
            Denotes(f, e) && Tokens(f, rest) == Tokens(l, ts) && Extends(rest, f, e) && Precedence(op) == p
  {
    hide BinaryOperator, SpellsBinary, Denotes, Tokens;
    KnownBinary(ts[0]);
    assert ts == [ts[0]] + ts[1..];
    InfixDenotes(l, left, ts[0], op, r, right);
    InfixTokens(l, ts[0], r, rest);
  }

  lemma InfixDenotes(l: Form, left: Expr, token: Token, op: BinaryOp, r: Form, right: Expr)
    requires Denotes(l, left) && Fits(l, left, Precedence(op)) && SpellsBinary(token, op)
    requires Denotes(r, right) && Fits(r, right, Precedence(op) + 1)
    ensures Denotes(Infix(l, token, r), Binary(left, op, right))
  {
    hide SpellsBinary, Precedence;
  }

  lemma InfixTokens(l: Form, token: Token, r: Form, rest: seq<Token>)
    ensures Tokens(Infix(l, token, r), rest) == Tokens(l, [token] + Tokens(r, rest))
  {
  }

  lemma KnownBinary(token: Token)
    requires BinaryOperator(token).Some?
    ensures var (op, p) := BinaryOperator(token).value; SpellsBinary(token, op) && p == Precedence(op)
  {
  }

  lemma {:induction false} ParsedUnary(ts: seq<Token>) returns (f: Form)
    requires Terminated(ts) && ParseUnary(ts).Done?
    ensures var r := ParseUnary(ts); Written(ts, f, r.value, TIGHTEST, r.rest) && !f.Infix?
    decreases |ts|, 2
  {
    hide ParsePrimary;
    if UnaryOperator(ts[0]).Some? {
      var operand := ParsedUnary(ts[1..]);
      f := Prefix(ts[0], operand);
      SpelledUnary(ts[0], UnaryOperator(ts[0]).value);
      assert ts == [ts[0]] + ts[1..];
    } else {
      f := ParsedPrimary(ts);
    }
  }

  lemma {:induction false} ParsedPrimary(ts: seq<Token>) returns (f: Form)
    requires Terminated(ts) && ParsePrimary(ts).Done?
    ensures var r := ParsePrimary(ts); Written(ts, f, r.value, TIGHTEST, r.rest) && !f.Infix?
    decreases |ts|, 1
  {
    hide ParseExpression, ParseItems, ParseMembers, ParsePath;
    assert ts == [ts[0]] + ts[1..];
    f := Word(ts[0]);
    match ts[0]
    case Identifier(first) => f := ParsedDotted(first, ts);
    case LeftParen =>
      var inner := ParsedExpression(ts[1..], 1);
      f := Group(inner);
      var rest := ParseExpression(ts[1..], 1).rest;
      assert rest == [RightParen] + rest[1..];
    case LeftBracket => f := ParsedList(ts);
    case LeftBrace => f := ParsedRecord(ts);
    case _ =>
  }

  lemma ParsedDotted(first: Text, ts: seq<Token>) returns (f: Form)
    requires Terminated(ts) && ts[0] == Identifier(first) && ParsePath([first], ts[1..]).Done?
    ensures var r := ParsePath([first], ts[1..]); Written(ts, f, r.value, TIGHTEST, r.rest) && !f.Infix?
  {
    var more := ParsedPath([first], ts[1..]);
    f := Dotted([first] + more);
    assert ([first] + more)[1..] == more && ts == [ts[0]] + ts[1..];
  }

  lemma {:induction false} ParsedPath(segments: seq<Text>, ts: seq<Token>) returns (more: seq<Text>)
    requires Terminated(ts) && ParsePath(segments, ts).Done?
    ensures var r := ParsePath(segments, ts); r.value == Path(segments + more) && ts == Segments(more, r.rest)
    decreases |ts|
  {
    more := [];
    if ts[0] == Dot {
      var name := ts[1].name;
      var later := ParsedPath(segments + [name], ts[2..]);
      more := [name] + later;
      Regroup(segments, name, later);
      Tail(name, later);
      assert ts == [ts[0], ts[1]] + ts[2..];
    } else {
      assert segments + [] == segments;
    }
  }

  lemma {:induction false} ParsedList(ts: seq<Token>) returns (f: Form)
    requires Terminated(ts) && ts[0] == LeftBracket && ParsePrimary(ts).Done?
    ensures var r := ParsePrimary(ts); Written(ts, f, r.value, TIGHTEST, r.rest) && !f.Infix?
    decreases |ts|, 0
  {
    hide ParseItems, ParsePrimary, ParseUnary;
    ReadBracket(ts);
    assert ts == [ts[0]] + ts[1..];
    if ts[1] == RightBracket {
      f := Listed([], false);
      assert ts[1..] == [ts[1]] + ts[2..];
      ListWritten(ts, [], [], false, ts[2..]);
    } else {
      var items, es, trailing := ParsedItems([], ts[1..]);
      assert [] + es == es;
      f := Listed(items, trailing);
      ListWritten(ts, items, es, trailing, ParsePrimary(ts).rest);
    }
  }

  lemma ListWritten(ts: seq<Token>, items: seq<Form>, es: seq<Expr>, trailing: bool, rest: seq<Token>)
    requires AllDenote(items, es) && (trailing ==> items != [])
    requires ts == [LeftBracket] + ItemTokens(items, Closing(trailing, RightBracket, rest))
    ensures Written(ts, Listed(items, trailing), ArrayExpr(es), TIGHTEST, rest)
  {
    hide ItemTokens;
  }

  lemma RecordWritten(ts: seq<Token>, entries: seq<Entry>, members: seq<Member>, trailing: bool, rest: seq<Token>)
    requires EntriesDenote(entries, members) && DistinctNames(members) && (trailing ==> entries != [])
    requires ts == [LeftBrace] + EntryTokens(entries, Closing(trailing, RightBrace, rest))
    ensures Written(ts, Record(entries, trailing), ObjectExpr(members), TIGHTEST, rest)
  {
    hide EntryTokens, DistinctNames;
  }

  /** One round of `ParseItems`. */
  lemma ItemsRound(items: seq<Expr>, ts: seq<Token>)
    requires Terminated(ts) && ParseItems(items, ts).Done?
    ensures ParseExpression(ts, 1).Done?
    ensures var item := ParseExpression(ts, 1);
            && (item.rest[0] == RightBracket || item.rest[0] == Comma)
            && (item.rest[0] == Comma && item.rest[1] != RightBracket ==> Terminated(item.rest[1..]))
            && ParseItems(items, ts) ==
               if item.rest[0] == RightBracket then Done(ArrayExpr(items + [item.value]), item.rest[1..])
               else if item.rest[1] == RightBracket then Done(ArrayExpr(items + [item.value]), item.rest[2..])
               else ParseItems(items + [item.value], item.rest[1..])
  {
    hide ParseExpression;
  }

  ghost predicate AllDenote(items: seq<Form>, es: seq<Expr>) {
    |items| == |es| && forall i :: 0 <= i < |items| ==> Denotes(items[i], es[i])
  }

  lemma {:induction false} ParsedItems(done: seq<Expr>, ts: seq<Token>) returns (items: seq<Form>, es: seq<Expr>, trailing: bool)
    requires Terminated(ts) && ParseItems(done, ts).Done?
    ensures var r := ParseItems(done, ts);
            && items != [] && AllDenote(items, es) && r.value == ArrayExpr(done + es)
            && ts == ItemTokens(items, Closing(trailing, RightBracket, r.rest))
    decreases |ts|, 4
  {
    hide ParseExpression, ParseItems, Tokens, Denotes, ItemTokens, AllDenote;
    ItemsRound(done, ts);
    var item := ParseExpression(ts, 1);
    var f := ParsedExpression(ts, 1);
    var rest := item.rest;
    Split(rest);
    if rest[0] == RightBracket || rest[1] == RightBracket {
      items, es, trailing := [f], [item.value], rest[0] != RightBracket;
      assert rest[0] == Comma ==> rest == [Comma, RightBracket] + rest[2..];
      LastItem(ts, f, item.value, rest);
    } else {
      var later, others, comma := ParsedItems(done + [item.value], rest[1..]);
      items, es, trailing := [f] + later, [item.value] + others, comma;
      Regroup(done, item.value, others);
      MoreItems(ts, f, item.value, later, others, rest, Closing(trailing, RightBracket, ParseItems(done, ts).rest));
    }
  }

  lemma LastItem(ts: seq<Token>, f: Form, e: Expr, rest: seq<Token>)
    requires ts == Tokens(f, rest) && Denotes(f, e)
    ensures AllDenote([f], [e]) && ts == ItemTokens([f], rest)
  {
    hide Tokens, Denotes;
  }

  lemma MoreItems(ts: seq<Token>, f: Form, e: Expr, later: seq<Form>, others: seq<Expr>, rest: seq<Token>, close: seq<Token>)
    requires ts == Tokens(f, rest) && Denotes(f, e) && AllDenote(later, others) && later != []
    requires rest == [Comma] + ItemTokens(later, close)
    ensures AllDenote([f] + later, [e] + others) && ts == ItemTokens([f] + later, close)
  {
    hide Tokens, Denotes;
    Tail(f, later);
  }

  lemma {:induction false} ParsedRecord(ts: seq<Token>) returns (f: Form)
    requires Terminated(ts) && ts[0] == LeftBrace && ParsePrimary(ts).Done?
    ensures var r := ParsePrimary(ts); Written(ts, f, r.value, TIGHTEST, r.rest) && !f.Infix?
    decreases |ts|, 0
  {
    hide ParseMembers, ParsePrimary, ParseUnary;
    ReadBrace(ts);
    assert ts == [ts[0]] + ts[1..];
    if ts[1] == RightBrace {
      f := Record([], false);
      assert ts[1..] == [ts[1]] + ts[2..];
      RecordWritten(ts, [], [], false, ts[2..]);
    } else {
      var entries, members, trailing := ParsedEntries([], ts[1..]);
      assert [] + members == members;
      f := Record(entries, trailing);
      RecordWritten(ts, entries, members, trailing, ParsePrimary(ts).rest);
    }
  }

  /** One round of `ParseMembers`. */
  lemma MembersRound(members: seq<Member>, ts: seq<Token>)
    requires Terminated(ts) && ParseMembers(members, ts).Done?
    ensures |ts| >= 2 && ts[1] == Colon && KeyName(ts[0]).Some? && !Named(members, KeyName(ts[0]).value)
    ensures Terminated(ts[2..]) && ParseExpression(ts[2..], 1).Done?
    ensures var value := ParseExpression(ts[2..], 1);
            var all := members + [Member(KeyName(ts[0]).value, value.value)];
            && (value.rest[0] == RightBrace || value.rest[0] == Comma)
            && (value.rest[0] == Comma && value.rest[1] != RightBrace ==> Terminated(value.rest[1..]))
            && ParseMembers(members, ts) ==
               if value.rest[0] == RightBrace then Done(ObjectExpr(all), value.rest[1..])
               else if value.rest[1] == RightBrace then Done(ObjectExpr(all), value.rest[2..])
               else ParseMembers(all, value.rest[1..])
  {
    hide ParseExpression, Named;
  }

  ghost predicate EntriesDenote(entries: seq<Entry>, members: seq<Member>) {
    && |entries| == |members|
    && forall i :: 0 <= i < |entries| ==> entries[i].name == members[i].name && Denotes(entries[i].value, members[i].value)
  }

  lemma NewDistinct(done: seq<Member>, m: Member)
    requires DistinctNames(done) && !Named(done, m.name)
    ensures DistinctNames(done + [m])
  {
  }

  lemma {:induction false} ParsedEntries(done: seq<Member>, ts: seq<Token>) returns (entries: seq<Entry>, members: seq<Member>, trailing: bool)
    requires Terminated(ts) && ParseMembers(done, ts).Done? && DistinctNames(done)
    ensures var r := ParseMembers(done, ts);
            && entries != [] && EntriesDenote(entries, members) && DistinctNames(done + members) && r.value == ObjectExpr(done + members)
            && ts == EntryTokens(entries, Closing(trailing, RightBrace, r.rest))
    decreases |ts|, 4
  {
    hide ParseExpression, ParseMembers, Tokens, Denotes, DistinctNames, Named, EntryTokens, EntriesDenote;
    MembersRound(done, ts);
    var value := ParseExpression(ts[2..], 1);
    var f := ParsedExpression(ts[2..], 1);
    var name, rest := KeyName(ts[0]).value, value.rest;
    var entry, m := Entry(name, ts[0].StringToken?, f), Member(name, value.value);
    NewDistinct(done, m);
    assert ts == [KeyToken(name, entry.quoted), Colon] + ts[2..] && rest == [rest[0]] + rest[1..];
    if rest[0] == RightBrace || rest[1] == RightBrace {
      entries, members, trailing := [entry], [m], rest[0] != RightBrace;
      assert rest[0] == Comma ==> rest == [Comma, RightBrace] + rest[2..];
      LastEntry(ts, entry, m, rest);
    } else {
      var later, others, comma := ParsedEntries(done + [m], rest[1..]);
      entries, members, trailing := [entry] + later, [m] + others, comma;
      Regroup(done, m, others);
      MoreEntries(ts, entry, m, later, others, rest, Closing(trailing, RightBrace, ParseMembers(done, ts).rest));
    }
  }

  lemma LastEntry(ts: seq<Token>, entry: Entry, m: Member, rest: seq<Token>)
    requires ts == [KeyToken(entry.name, entry.quoted), Colon] + Tokens(entry.value, rest)
    requires entry.name == m.name && Denotes(entry.value, m.value)
    ensures EntriesDenote([entry], [m]) && ts == EntryTokens([entry], rest)
  {
    hide Tokens, Denotes;
  }

  lemma MoreEntries(ts: seq<Token>, entry: Entry, m: Member, later: seq<Entry>, others: seq<Member>, rest: seq<Token>, close: seq<Token>)
    requires ts == [KeyToken(entry.name, entry.quoted), Colon] + Tokens(entry.value, rest)
    requires entry.name == m.name && Denotes(entry.value, m.value) && EntriesDenote(later, others) && later != []
    requires rest == [Comma] + EntryTokens(later, close)
    ensures EntriesDenote([entry] + later, [m] + others) && ts == EntryTokens([entry] + later, close)
  {
    hide Tokens, Denotes;
    Tail(entry, later);
  }

  /**
   * The parser reads an expression from these tokens, and stops before `t`, exactly if they are one of the ways to
   * write that expression.
   */
  lemma ParsesExactly(ts: seq<Token>, e: Expr, t: seq<Token>)
    requires Terminated(ts) && Terminated(t) && t[0] != Dot && BinaryOperator(t[0]).None?
    ensures ParseExpression(ts, 1) == Done(e, t) <==> exists f :: Written(ts, f, e, 1, t)
  {
    hide ParseExpression, Denotes, Tokens;
    if ParseExpression(ts, 1) == Done(e, t) {
      var f := ParsedExpression(ts, 1);
      assert Written(ts, f, e, 1, t);
    }
    if f :| Written(ts, f, e, 1, t) {
      ReadForm(f, e, 1, t);
      StopsAt(e, t);
    }
  }
}
