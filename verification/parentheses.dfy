/** No token list that parses to an expression has fewer parentheses than the printed one. */
module Parentheses {
  import opened Base
  import opened Documents
  import opened Ast
  import opened Grammar
  import opened Forms
  import opened Printer

  /** How many parentheses open in a token list. */
  function Parens(ts: seq<Token>): nat {
    if ts == [] then 0 else (if ts[0] == LeftParen then 1 else 0) + Parens(ts[1..])
  }

  /** How many pairs of parentheses a form has. */
  function Groups(f: Form): nat
    decreases f
  {
    match f
    case Word(_) => 0
    case Dotted(_) => 0
    case Group(inner) => 1 + Groups(inner)
    case Listed(items, _) => GroupsIn(items)
    case Record(entries, _) => GroupsOf(entries)
    case Prefix(_, operand) => Groups(operand)
    case Infix(left, _, right) => Groups(left) + Groups(right)
  }

  function GroupsIn(items: seq<Form>): nat
    decreases items
  {
    if items == [] then 0 else Groups(items[0]) + GroupsIn(items[1..])
  }

  function GroupsOf(entries: seq<Entry>): nat
    decreases entries
  {
    if entries == [] then 0
    else
      var Entry(name, quoted, value) := entries[0];
      Groups(value) + GroupsOf(entries[1..])
  }

  /** The parentheses around and inside `e` where operators must bind at least as tightly as `p`. */
  function Need(e: Expr, p: nat): nat
    decreases e, 1
  {
    (if e.Binary? && Precedence(e.op) < p then 1 else 0) + NeedInside(e)
  }

  function NeedInside(e: Expr): nat
    decreases e, 0
  {
    match e
    case Lit(_) => 0
    case Path(_) => 0
    case ArrayExpr(items) => NeedItems(items)
    case ObjectExpr(members) => NeedMembers(members)
    case Unary(_, operand) => Need(operand, TIGHTEST)
    case Binary(left, op, right) => Need(left, Precedence(op)) + Need(right, Precedence(op) + 1)
  }

  function NeedItems(items: seq<Expr>): nat
    decreases items, 0
  {
    if items == [] then 0 else Need(items[0], 1) + NeedItems(items[1..])
  }

  function NeedMembers(members: seq<Member>): nat
    decreases members, 0
  {
    if members == [] then 0 else Need(members[0].value, 1) + NeedMembers(members[1..])
  }

  // ---------- the parentheses of a form ----------

  lemma Head(token: Token, t: seq<Token>)
    ensures Parens([token] + t) == (if token == LeftParen then 1 else 0) + Parens(t)
  {
    Tail(token, t);
  }

  lemma TwoHeads(a: Token, b: Token, t: seq<Token>)
    requires a != LeftParen && b != LeftParen
    ensures Parens([a, b] + t) == Parens(t)
  {
    assert [a, b] + t == [a] + ([b] + t);
    Head(a, [b] + t);
    Head(b, t);
  }

  /** The form has parentheses in no other place than around groups. */
  ghost predicate Clean(f: Form) {
    match f
    case Word(token) => token != LeftParen
    case Dotted(_) => true
    case Group(inner) => Clean(inner)
    case Listed(items, _) => forall i :: 0 <= i < |items| ==> Clean(items[i])
    case Record(entries, _) => forall i :: 0 <= i < |entries| ==> Clean(entries[i].value)
    case Prefix(token, operand) => token != LeftParen && Clean(operand)
    case Infix(left, token, right) => token != LeftParen && Clean(left) && Clean(right)
  }

  lemma {:induction false} FormClean(f: Form, e: Expr)
    requires Denotes(f, e)
    ensures Clean(f)
    decreases f
  {
    hide Fits, Precedence;
    match f
    case Group(inner) => FormClean(inner, e);
    case Listed(items, _) =>
      forall i | 0 <= i < |items|
        ensures Clean(items[i])
      {
        FormClean(items[i], e.items[i]);
      }
    case Record(entries, _) =>
      forall i | 0 <= i < |entries|
        ensures Clean(entries[i].value)
      {
        var Entry(name, quoted, value) := entries[i];
        FormClean(value, e.members[i].value);
      }
    case Prefix(_, operand) => FormClean(operand, e.operand);
    case Infix(left, _, right) =>
      FormClean(left, e.left);
      FormClean(right, e.right);
    case _ =>
  }

  lemma {:induction false} FormParens(f: Form, t: seq<Token>)
    requires Clean(f)
    ensures Parens(Tokens(f, t)) == Groups(f) + Parens(t)
    decreases f
  {
    hide ItemTokens, EntryTokens, Segments, GroupsIn, GroupsOf, Parens;
    match f
    case Word(token) => Head(token, t);
    case Dotted(segments) =>
      if segments != [] {
        Head(Identifier(segments[0]), Segments(segments[1..], t));
        SegmentsParens(segments[1..], t);
      }
    case Group(inner) =>
      Head(LeftParen, Tokens(inner, [RightParen] + t));
      FormParens(inner, [RightParen] + t);
      Head(RightParen, t);
    case Listed(items, trailing) =>
      var close := Closing(trailing, RightBracket, t);
      Head(LeftBracket, ItemTokens(items, close));
      ItemsParens(items, close);
      ClosingParens(trailing, RightBracket, t);
    case Record(entries, trailing) =>
      var close := Closing(trailing, RightBrace, t);
      Head(LeftBrace, EntryTokens(entries, close));
      EntriesParens(entries, close);
      ClosingParens(trailing, RightBrace, t);
    case Prefix(token, operand) =>
      Head(token, Tokens(operand, t));
      FormParens(operand, t);
    case Infix(left, token, right) =>
      FormParens(left, [token] + Tokens(right, t));
      Head(token, Tokens(right, t));
      FormParens(right, t);
  }

  lemma ClosingParens(trailing: bool, closer: Token, t: seq<Token>)
    requires closer != LeftParen
    ensures Parens(Closing(trailing, closer, t)) == Parens(t)
  {
    hide Parens;
    Head(closer, t);
    TwoHeads(Comma, closer, t);
  }

  lemma {:induction false} SegmentsParens(segments: seq<Text>, t: seq<Token>)
    ensures Parens(Segments(segments, t)) == Parens(t)
    decreases segments
  {
    hide Parens;
    if segments != [] {
      TwoHeads(Dot, Identifier(segments[0]), Segments(segments[1..], t));
      SegmentsParens(segments[1..], t);
    }
  }

  lemma {:induction false} ItemsParens(items: seq<Form>, t: seq<Token>)
    requires forall i :: 0 <= i < |items| ==> Clean(items[i])
    ensures Parens(ItemTokens(items, t)) == GroupsIn(items) + Parens(t)
    decreases items
  {
    hide Parens, Clean, Tokens, Groups;
    if |items| == 1 {
      FormParens(items[0], t);
      assert GroupsIn(items[1..]) == 0;
    } else if items != [] {
      FormParens(items[0], [Comma] + ItemTokens(items[1..], t));
      Head(Comma, ItemTokens(items[1..], t));
      ItemsParens(items[1..], t);
    }
  }

  lemma {:induction false} EntriesParens(entries: seq<Entry>, t: seq<Token>)
    requires forall i :: 0 <= i < |entries| ==> Clean(entries[i].value)
    ensures Parens(EntryTokens(entries, t)) == GroupsOf(entries) + Parens(t)
    decreases entries
  {
    hide Parens, Clean, Tokens, Groups;
    if entries != [] {
      var Entry(name, quoted, value) := entries[0];
      var after := if |entries| == 1 then t else [Comma] + EntryTokens(entries[1..], t);
      TwoHeads(KeyToken(name, quoted), Colon, Tokens(value, after));
      FormParens(value, after);
      if |entries| == 1 {
        assert GroupsOf(entries[1..]) == 0;
      } else {
        Head(Comma, EntryTokens(entries[1..], t));
        EntriesParens(entries[1..], t);
      }
    }
  }

  // ---------- what printing uses ----------

  lemma {:induction false} MinimalGroups(e: Expr, p: nat)
    ensures Groups(Minimal(e, p)) == Need(e, p)
    decreases e, 1
  {
    PlainGroups(e);
  }

  lemma {:induction false} PlainGroups(e: Expr)
    ensures Groups(Plain(e)) == NeedInside(e)
    decreases e, 0
  {
    hide Minimal, Need, Precedence;
    match e
    case ArrayExpr(items) => ItemGroups(items);
    case ObjectExpr(members) => EntryGroups(members);
    case Unary(_, operand) => MinimalGroups(operand, TIGHTEST);
    case Binary(left, op, right) =>
      MinimalGroups(left, Precedence(op));
      MinimalGroups(right, Precedence(op) + 1);
    case _ =>
  }

  lemma {:induction false} ItemGroups(items: seq<Expr>)
    ensures GroupsIn(MinimalItems(items)) == NeedItems(items)
    decreases items, 0
  {
    hide Minimal, Need, Groups;
    if items != [] {
      MinimalGroups(items[0], 1);
      ItemGroups(items[1..]);
      Tail(Minimal(items[0], 1), MinimalItems(items[1..]));
    }
  }

  lemma {:induction false} EntryGroups(members: seq<Member>)
    ensures GroupsOf(MinimalEntries(members)) == NeedMembers(members)
    decreases members, 0
  {
    hide Minimal, Need, Groups;
    if members != [] {
      var Member(name, value) := members[0];
      MinimalGroups(value, 1);
      EntryGroups(members[1..]);
      Tail(Entry(name, true, Minimal(value, 1)), MinimalEntries(members[1..]));
    }
  }

  lemma {:induction false} MinimalClean(e: Expr, p: nat)
    ensures Clean(Minimal(e, p))
    decreases e, 1
  {
    PlainClean(e);
  }

  lemma {:induction false} PlainClean(e: Expr)
    ensures Clean(Plain(e))
    decreases e, 0
  {
    hide Minimal, Precedence;
    match e
    case ArrayExpr(items) => ItemsClean(items);
    case ObjectExpr(members) => EntriesClean(members);
    case Unary(_, operand) => MinimalClean(operand, TIGHTEST);
    case Binary(left, op, right) =>
      MinimalClean(left, Precedence(op));
      MinimalClean(right, Precedence(op) + 1);
    case _ =>
  }

  lemma {:induction false} ItemsClean(items: seq<Expr>)
    ensures forall i :: 0 <= i < |MinimalItems(items)| ==> Clean(MinimalItems(items)[i])
    decreases items, 0
  {
    hide Minimal, Clean;
    if items != [] {
      MinimalClean(items[0], 1);
      ItemsClean(items[1..]);
    }
  }

  lemma {:induction false} EntriesClean(members: seq<Member>)
    ensures forall i :: 0 <= i < |MinimalEntries(members)| ==> Clean(MinimalEntries(members)[i].value)
    decreases members, 0
  {
    hide Minimal, Clean;
    if members != [] {
      var Member(name, value) := members[0];
      MinimalClean(value, 1);
      EntriesClean(members[1..]);
    }
  }

  lemma PrintedParens(e: Expr, p: nat, t: seq<Token>)
    ensures Parens(Printed(e, p, t)) == Need(e, p) + Parens(t)
  {
    hide Parens, Clean, Tokens, Minimal, Need;
    MinimalClean(e, p);
    FormParens(Minimal(e, p), t);
    MinimalGroups(e, p);
  }

  // ---------- what any form needs ----------

  lemma NeedLess(e: Expr, p: nat, q: nat)
    ensures NeedInside(e) <= Need(e, p) <= NeedInside(e) + 1
    ensures p <= q ==> Need(e, p) <= Need(e, q)
  {
    hide NeedInside;
  }

  /** A form has at least the parentheses that its expression needs in its place. */
  lemma {:induction false} FormNeeds(f: Form, e: Expr, p: nat)
    requires Denotes(f, e) && Fits(f, e, p)
    ensures Groups(f) >= Need(e, p)
    decreases f
  {
    hide SpellsUnary, SpellsBinary, SpellsLiteral, Precedence;
    match f
    case Group(inner) =>
      FormNeeds(inner, e, 0);
      NeedLess(e, 0, p);
      NeedLess(e, p, p);
    case Listed(items, _) => ItemsNeed(items, e.items);
    case Record(entries, _) => EntriesNeed(entries, e.members);
    case Prefix(_, operand) => FormNeeds(operand, e.operand, TIGHTEST);
    case Infix(left, _, right) =>
      FormNeeds(left, e.left, Precedence(e.op));
      FormNeeds(right, e.right, Precedence(e.op) + 1);
    case _ =>
  }

  lemma {:induction false} ItemsNeed(items: seq<Form>, es: seq<Expr>)
    requires AllDenote(items, es)
    ensures GroupsIn(items) >= NeedItems(es)
    decreases items
  {
    hide Denotes, Need, Groups;
    if items != [] {
      FitsLowest(items[0], es[0]);
      FormNeeds(items[0], es[0], 1);
      ItemsNeed(items[1..], es[1..]);
    }
  }

  lemma {:induction false} EntriesNeed(entries: seq<Entry>, members: seq<Member>)
    requires EntriesDenote(entries, members)
    ensures GroupsOf(entries) >= NeedMembers(members)
    decreases entries
  {
    hide Denotes, Need, Groups;
    if entries != [] {
      var Entry(name, quoted, value) := entries[0];
      FitsLowest(value, members[0].value);
      FormNeeds(value, members[0].value, 1);
      EntriesNeed(entries[1..], members[1..]);
    }
  }

  // ---------- the printed form is minimal ----------

  lemma ParsedParens(ts: seq<Token>, minimum: nat, e: Expr, t: seq<Token>)
    requires Terminated(ts) && ParseExpression(ts, minimum) == Done(e, t)
    ensures Parens(ts) >= Need(e, minimum) + Parens(t)
  {
    hide ParseExpression, Denotes, Clean, Tokens, Fits, Need, Parens;
    var f := ParsedExpression(ts, minimum);
    FormClean(f, e);
    FormParens(f, t);
    FormNeeds(f, e, minimum);
  }

  /** Every way to write an expression in its place opens at least the parentheses that the printed form opens. */
  lemma FewestParens(ts: seq<Token>, minimum: nat, e: Expr, t: seq<Token>)
    requires Terminated(ts) && ParseExpression(ts, minimum) == Done(e, t)
    ensures Parens(ts) >= Parens(Printed(e, minimum, t))
  {
    hide ParseExpression, Printed, Need, Parens;
    ParsedParens(ts, minimum, e, t);
    PrintedParens(e, minimum, t);
  }

  /** In particular each pair is needed: without it the operand is not read back. */
  lemma ParensNeeded(e: Expr, p: nat, t: seq<Token>)
    requires e.Binary? && Precedence(e.op) < p && Terminated(t)
    ensures ParseExpression(Bare(e, t), p) != Done(e, t)
  {
    hide ParseExpression, Clean, Tokens, Plain, NeedInside, Parens;
    if ParseExpression(Bare(e, t), p) == Done(e, t) {
      ParsedParens(Bare(e, t), p, e, t);
      PlainClean(e);
      FormParens(Plain(e), t);
      PlainGroups(e);
    }
  }
}
