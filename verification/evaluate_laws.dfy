/** What expressions mean, operator by operator, over the values of their operands. */
module EvaluateLaws {
  import opened Base
  import opened IndexKeys
  import opened KeyOrder
  import opened Documents
  import opened Ast
  import opened Evaluate

  // ---------- equality ----------

  /** No NaN anywhere inside. */
  ghost predicate NanFree(v: RuntimeValue) {
    match v
    case RtFloat(bits) => !IsNan(bits)
    case RtArray(values) => forall i :: 0 <= i < |values| ==> NanFree(values[i])
    case RtObject(entries) => forall i :: 0 <= i < |entries| ==> NanFree(entries[i].value)
    case _ => true
  }

  /** The value with every negative zero made positive. */
  ghost function OneZero(v: RuntimeValue): RuntimeValue
    decreases v
  {
    match v
    case RtFloat(bits) => RtFloat(if bits == SIGN_BIT then 0 else bits)
    case RtArray(values) => RtArray(seq(|values|, i requires 0 <= i < |values| => OneZero(values[i])))
    case RtObject(entries) =>
      RtObject(seq(|entries|, i requires 0 <= i < |entries| => RtEntry(entries[i].name, OneZero(entries[i].value))))
    case _ => v
  }

  /** The same value: nowhere a NaN, and no difference but the sign of zeros. */
  ghost predicate SameValue(a: RuntimeValue, b: RuntimeValue) {
    NanFree(a) && NanFree(b) && OneZero(a) == OneZero(b)
  }

  lemma {:induction false} EqualIsSame(a: RuntimeValue, b: RuntimeValue)
    ensures RtEqual(a, b) <==> SameValue(a, b)
    decreases a
  {
    match (a, b)
    case (RtArray(xs), RtArray(ys)) =>
      forall i | 0 <= i < |xs| && i < |ys|
        ensures RtEqual(xs[i], ys[i]) <==> SameValue(xs[i], ys[i])
      {
        EqualIsSame(xs[i], ys[i]);
      }
      SameArrays(xs, ys);
    case (RtObject(xs), RtObject(ys)) =>
      forall i | 0 <= i < |xs| && i < |ys|
        ensures RtEqual(xs[i].value, ys[i].value) <==> SameValue(xs[i].value, ys[i].value)
      {
        EqualIsSame(xs[i].value, ys[i].value);
      }
      SameObjects(xs, ys);
    case _ =>
  }

  lemma SameArrays(xs: seq<RuntimeValue>, ys: seq<RuntimeValue>)
    ensures SameValue(RtArray(xs), RtArray(ys)) <==> |xs| == |ys| && forall i :: 0 <= i < |xs| ==> SameValue(xs[i], ys[i])
  {
    var a, b := OneZero(RtArray(xs)).values, OneZero(RtArray(ys)).values;
    if |xs| == |ys| && forall i :: 0 <= i < |xs| ==> SameValue(xs[i], ys[i]) {
      assert forall i :: 0 <= i < |xs| ==> a[i] == b[i];
      assert a == b;
    }
    if a == b {
      assert forall i :: 0 <= i < |xs| ==> a[i] == OneZero(xs[i]) && b[i] == OneZero(ys[i]);
    }
  }

  lemma SameObjects(xs: seq<RtEntry>, ys: seq<RtEntry>)
    ensures SameValue(RtObject(xs), RtObject(ys)) <==>
            |xs| == |ys| && forall i :: 0 <= i < |xs| ==> xs[i].name == ys[i].name && SameValue(xs[i].value, ys[i].value)
  {
    var a, b := OneZero(RtObject(xs)).entries, OneZero(RtObject(ys)).entries;
    if |xs| == |ys| && forall i :: 0 <= i < |xs| ==> xs[i].name == ys[i].name && SameValue(xs[i].value, ys[i].value) {
      assert forall i :: 0 <= i < |xs| ==> a[i] == b[i];
      assert a == b;
    }
    if a == b {
      assert forall i :: 0 <= i < |xs| ==>
                           a[i] == RtEntry(xs[i].name, OneZero(xs[i].value)) && b[i] == RtEntry(ys[i].name, OneZero(ys[i].value));
    }
  }

  /** Between floats: the same number. */
  lemma FloatsEqual(a: u64, b: u64)
    requires IsFinite(a) && IsFinite(b)
    ensures RtEqual(RtFloat(a), RtFloat(b)) <==> FloatValue(a) == FloatValue(b)
  {
    hide FloatValue;
    if a != b {
      FloatsByValue(a, b);
      FloatsByValue(b, a);
      ZeroValue(a);
      ZeroValue(b);
      RankEmbeds(Float64(a), Float64(b));
    }
  }

  lemma ZeroValue(bits: u64)
    requires IsFinite(bits)
    ensures FloatValue(bits) == 0.0 <==> bits == 0 || bits == SIGN_BIT
  {
    hide Magnitude, Pow2;
    MagnitudeZero(bits);
    QuotientOrder(Units(bits), 0, Pow2(1074));
  }

  // ---------- order ----------

  predicate Orderable(a: RuntimeValue, b: RuntimeValue) {
    (a.RtInt? && b.RtInt?) || (a.RtFloat? && b.RtFloat?) || (a.RtStr? && b.RtStr?) || (a.RtTimestamp? && b.RtTimestamp?) || (a.RtId? && b.RtId?)
  }

  /** Numbers by value, strings by their first difference, times by milliseconds, ids as numbers. */
  ghost predicate Below(a: RuntimeValue, b: RuntimeValue)
    requires Orderable(a, b)
  {
    match a
    case RtInt(x) => x < b.int64
    case RtFloat(x) => FloatBelow(x, b.bits)
    case RtStr(x) => TextBelow(x, b.text)
    case RtTimestamp(x) => x < b.millis
    case RtId(x) => x < b.id
  }

  lemma OrderIsBelow(a: RuntimeValue, b: RuntimeValue)
    ensures ScalarOrder(a, b).Some? <==> Orderable(a, b)
    ensures Orderable(a, b) ==> (ScalarOrder(a, b) == Some(Lt) <==> Below(a, b)) && (ScalarOrder(a, b) == Some(Gt) <==> Below(b, a))
  {
    hide BytesLess, TextBelow, TotalOrder, FloatBelow;
    if a.RtFloat? && b.RtFloat? {
      FloatOrder(a.bits, b.bits);
      FloatOrder(b.bits, a.bits);
    } else if a.RtStr? && b.RtStr? {
      TextOrder(a.text, b.text);
      TextOrder(b.text, a.text);
      FractionEmbeds(a.text, b.text);
      FractionEmbeds(b.text, a.text);
    }
  }

  predicate IsComparison(op: BinaryOp) {
    op.Equal? || op.NotEqual? || op.Less? || op.LessEqual? || op.Greater? || op.GreaterEqual?
  }

  /** What a comparison says, or nothing if it does not apply to such values. */
  ghost function Verdict(op: BinaryOp, a: RuntimeValue, b: RuntimeValue): Option<bool>
    requires IsComparison(op)
  {
    if op.Equal? then Some(SameValue(a, b))
    else if op.NotEqual? then Some(!SameValue(a, b))
    else if !Orderable(a, b) then None
    else Some(if op.Less? then Below(a, b) else if op.Greater? then Below(b, a) else if op.LessEqual? then !Below(b, a) else !Below(a, b))
  }

  ghost function Answer(verdict: Option<bool>): Result<RuntimeValue> {
    match verdict
    case Some(flag) => Ok(RtBool(flag))
    case None => Err(InvalidArgument)
  }

  // ---------- integers ----------

  predicate Fits64(x: int) {
    -0x8000_0000_0000_0000 <= x <= 0x7fff_ffff_ffff_ffff
  }

  /** The exact number, or an overflow error. */
  function Exact(x: int): Result<RuntimeValue> {
    if Fits64(x) then Ok(RtInt(x)) else Err(InvalidArgument)
  }

  function Abs(x: int): nat {
    if x < 0 then -x else x
  }

  /** Division toward zero: the remainder is smaller than the divisor, and has the sign of the dividend. */
  ghost predicate Divides(x: int, y: int, q: int, r: int) {
    x == y * q + r && Abs(r) < Abs(y) && (x >= 0 ==> r >= 0) && (x <= 0 ==> r <= 0)
  }

  lemma TruncatedDivides(x: int, y: int)
    requires y != 0
    ensures Divides(x, y, Truncated(x, y), x - y * Truncated(x, y))
  {
    var m: int, n: int := Abs(x), Abs(y);
    assert m == n * (m / n) + m % n;
    assert (0 - n) * (m / n) == 0 - n * (m / n);
  }

  /** Quotient and remainder are determined. */
  lemma OneQuotient(x: int, y: int, q: int, r: int, p: int, s: int)
    requires y != 0 && Divides(x, y, q, r) && Divides(x, y, p, s)
    ensures q == p && r == s
  {
    Distribute(y, q, p);
    assert Abs(s - r) < Abs(y);
    if q > p {
      SmallMultiple(y, q - p, s - r);
    } else if q < p {
      SmallMultiple(y, p - q, r - s);
    }
  }

  lemma Distribute(y: int, q: int, p: int)
    ensures y * (q - p) == y * q - y * p && y * (p - q) == y * p - y * q
  {
  }

  lemma SmallMultiple(y: int, k: int, d: int)
    requires k >= 1 && d == y * k
    ensures Abs(d) >= Abs(y)
  {
    if y >= 0 {
      assert y * k == y + y * (k - 1) && y * (k - 1) >= 0;
    } else {
      assert y * k == y + y * (k - 1) && y * (k - 1) <= 0;
    }
  }

  /** What an arithmetic operator gives for integers. */
  ghost predicate Computes(op: BinaryOp, x: i64, y: i64, result: Result<RuntimeValue>) {
    match op
    case Add => result == Exact(x + y)
    case Subtract => result == Exact(x - y)
    case Multiply => result == Exact(x * y)
    case Divide => if y == 0 then result == Err(InvalidArgument) else exists q, r :: Divides(x, y, q, r) && result == Exact(q)
    case Remainder =>
      if y == 0 || (y == -1 && !Fits64(0 - x)) then result == Err(InvalidArgument)
      else exists q, r :: Divides(x, y, q, r) && result == Exact(r)
    case _ => false
  }

  predicate IsArithmetic(op: BinaryOp) {
    op.Add? || op.Subtract? || op.Multiply? || op.Divide? || op.Remainder?
  }

  lemma IntegersCompute(op: BinaryOp, x: i64, y: i64)
    requires IsArithmetic(op)
    ensures Computes(op, x, y, IntArithmetic(op, x, y))
  {
    if (op.Divide? || op.Remainder?) && y != 0 {
      var q := Truncated(x, y);
      var r := x - y * q;
      TruncatedDivides(x, y);
      if Abs(y) == 1 {
        OneQuotient(x, y, q, r, if y == 1 then x else 0 - x, 0);
      } else {
        QuotientFits(x, y, q, r);
      }
      assert Divides(x, y, q, r);
    }
  }

  lemma QuotientFits(x: i64, y: i64, q: int, r: int)
    requires Abs(y) >= 2 && Divides(x, y, q, r)
    ensures Fits64(q) && Fits64(r)
  {
    DividesMagnitudes(x, y, q, r);
    Products(Abs(q), Abs(q), 2, Abs(y));
  }

  lemma DividesMagnitudes(x: int, y: int, q: int, r: int)
    requires y != 0 && Divides(x, y, q, r)
    ensures Abs(x) == Abs(q) * Abs(y) + Abs(r)
  {
    var m, n := Abs(q), Abs(y);
    assert y * q == m * n || y * q + m * n == 0;
    if q != 0 {
      Products(1, m, n, n);
    }
  }

  // ---------- expressions ----------

  /** What a unary operator gives. */
  ghost predicate UnaryMeans(op: UnaryOp, v: RuntimeValue, result: Result<RuntimeValue>) {
    match op
    case Not => result == if v.RtBool? then Ok(RtBool(!v.flag)) else Err(InvalidArgument)
    case Negate =>
      if v.RtInt? then result == Exact(0 - v.int64)
      else if v.RtFloat? && IsFinite(v.bits) then
        result.Ok? && result.value.RtFloat? && IsFinite(result.value.bits)
        && Units(result.value.bits) == 0 - Units(v.bits) && (Negative(result.value.bits) <==> !Negative(v.bits))
      else result == Err(InvalidArgument)
    case Positive => result == if v.RtInt? || v.RtFloat? then Ok(v) else Err(InvalidArgument)
  }

  lemma UnaryOk(op: UnaryOp, v: RuntimeValue)
    ensures UnaryMeans(op, v, EvaluateUnary(op, v))
  {
    hide Magnitude;
    if op.Negate? && v.RtFloat? {
      SameMagnitude(FlipSign(v.bits), v.bits);
    }
  }

  ghost predicate Holds(values: seq<RuntimeValue>, b: RuntimeValue) {
    exists v :: v in values && SameValue(v, b)
  }

  /** What a binary operator gives for the values of both operands. */
  ghost predicate BinaryMeans(a: RuntimeValue, op: BinaryOp, b: RuntimeValue, floats: FloatArithmetic, result: Result<RuntimeValue>) {
    if IsComparison(op) then result == Answer(Verdict(op, a, b))
    else if op.And? || op.Or? then result == if a.RtBool? && b.RtBool? then Ok(RtBool(if op.And? then a.flag && b.flag else a.flag || b.flag)) else Err(InvalidArgument)
    else if op.Contains? then
      if a.RtArray? then result == Ok(RtBool(Holds(a.values, b))) else result == Err(InvalidArgument)
    else if a.RtInt? && b.RtInt? then Computes(op, a.int64, b.int64, result)
    else if a.RtFloat? && b.RtFloat? && !((op.Divide? || op.Remainder?) && Units(b.bits) == 0) then
      result == if IsFinite(floats(op, a.bits, b.bits)) then Ok(RtFloat(floats(op, a.bits, b.bits))) else Err(InvalidArgument)
    else result == Err(InvalidArgument)
  }

  /** The left operand alone decides `and` if it is false, and `or` if it is true. */
  predicate Decides(op: BinaryOp, a: RuntimeValue) {
    (op.And? && a == RtBool(false)) || (op.Or? && a == RtBool(true))
  }

  lemma OrderedMeans(a: RuntimeValue, op: BinaryOp, b: RuntimeValue)
    requires IsComparison(op) && !op.Equal? && !op.NotEqual?
    ensures Ordered(op, a, b) == Answer(Verdict(op, a, b))
  {
    hide ScalarOrder, Below, Orderable;
    OrderIsBelow(a, b);
  }

  lemma ArithmeticMeans(a: RuntimeValue, op: BinaryOp, b: RuntimeValue, floats: FloatArithmetic)
    requires IsArithmetic(op)
    ensures BinaryMeans(a, op, b, floats, Arithmetic(floats, a, op, b))
  {
    hide IntArithmetic, Computes, Magnitude;
    if a.RtInt? && b.RtInt? {
      IntegersCompute(op, a.int64, b.int64);
    }
    if b.RtFloat? {
      MagnitudeZero(b.bits);
    }
  }

  lemma StrictMeans(a: RuntimeValue, op: BinaryOp, b: RuntimeValue, floats: FloatArithmetic)
    requires !op.And? && !op.Or?
    ensures BinaryMeans(a, op, b, floats, Strict(floats, a, op, b))
  {
    hide BinaryMeans, RtEqual, Ordered, Arithmetic, ContainsValue;
    if IsArithmetic(op) {
      ArithmeticMeans(a, op, b, floats);
    } else if op.Contains? {
      SearchMeans(a, op, b, floats);
    } else {
      ComparisonMeans(a, op, b, floats);
    }
  }

  lemma ComparisonMeans(a: RuntimeValue, op: BinaryOp, b: RuntimeValue, floats: FloatArithmetic)
    requires IsComparison(op)
    ensures BinaryMeans(a, op, b, floats, Strict(floats, a, op, b))
  {
    hide RtEqual, SameValue, Ordered, Orderable, Below;
    if op.Equal? || op.NotEqual? {
      EqualIsSame(a, b);
    } else {
      OrderedMeans(a, op, b);
    }
  }

  lemma SearchMeans(a: RuntimeValue, op: BinaryOp, b: RuntimeValue, floats: FloatArithmetic)
    requires op.Contains?
    ensures BinaryMeans(a, op, b, floats, Strict(floats, a, op, b))
  {
    hide ContainsValue, Holds;
    ContainsMeans(a, b);
  }

  lemma ContainsMeans(a: RuntimeValue, b: RuntimeValue)
    ensures ContainsValue(a, b) == if a.RtArray? then Ok(RtBool(Holds(a.values, b))) else Err(InvalidArgument)
  {
    if !a.RtArray? {
      return;
    }
    var values := a.values;
    hide RtEqual, SameValue;
    forall i | 0 <= i < |values|
      ensures RtEqual(values[i], b) <==> SameValue(values[i], b)
    {
      EqualIsSame(values[i], b);
    }
  }

  /**
   * A binary expression fails with its left operand; the right one is looked at only if the left one does not decide;
   * and if both have values, the operator says what comes out.
   */
  lemma BinaryOk(left: Expr, op: BinaryOp, right: Expr, document: Document, floats: FloatArithmetic)
    ensures var a, b, result := Eval(left, document, floats), Eval(right, document, floats), Eval(Binary(left, op, right), document, floats);
            && (a.Err? ==> result == a)
            && (a.Ok? && Decides(op, a.value) ==> result == a)
            && (a.Ok? && !Decides(op, a.value) && b.Err? ==> result.Err?)
            && (a.Ok? && !Decides(op, a.value) && b.Ok? ==> BinaryMeans(a.value, op, b.value, floats, result))
  {
    hide BinaryMeans, Strict;
    var a, b := Eval(left, document, floats), Eval(right, document, floats);
    if a.Ok? && b.Ok? {
      if op.And? || op.Or? {
        LogicMeans(left, op, right, document, floats);
      } else {
        StrictMeans(a.value, op, b.value, floats);
      }
    }
  }

  lemma LogicMeans(left: Expr, op: BinaryOp, right: Expr, document: Document, floats: FloatArithmetic)
    requires (op.And? || op.Or?) && Eval(left, document, floats).Ok? && Eval(right, document, floats).Ok?
    ensures BinaryMeans(Eval(left, document, floats).value, op, Eval(right, document, floats).value, floats,
                        Eval(Binary(left, op, right), document, floats))
            || Decides(op, Eval(left, document, floats).value)
  {
    hide Verdict, Computes;
  }

  /** An array has the value that its items have, and fails exactly if one of them does. */
  lemma {:induction false} ArrayMeans(items: seq<Expr>, document: Document, floats: FloatArithmetic)
    ensures var r := EvalAll(items, document, floats);
            && (r.Ok? <==> forall i :: 0 <= i < |items| ==> Eval(items[i], document, floats).Ok?)
            && (r.Ok? ==> |r.value| == |items| && forall i :: 0 <= i < |items| ==> Eval(items[i], document, floats) == Ok(r.value[i]))
    ensures Eval(ArrayExpr(items), document, floats) ==
            if EvalAll(items, document, floats).Ok? then Ok(RtArray(EvalAll(items, document, floats).value))
            else Err(EvalAll(items, document, floats).error)
    decreases |items|
  {
    if items != [] {
      ArrayMeans(items[1..], document, floats);
      assert items == [items[0]] + items[1..];
    }
  }

  ghost predicate NamesRise(entries: seq<RtEntry>) {
    forall i, j :: 0 <= i < j < |entries| ==> BytesLess(entries[i].name, entries[j].name)
  }

  lemma {:induction false} EntryInserted(entries: seq<RtEntry>, entry: RtEntry)
    requires NamesRise(entries)
    ensures NamesRise(InsertEntry(entries, entry))
    ensures forall e :: e in InsertEntry(entries, entry) <==> e == entry || (e in entries && e.name != entry.name)
  {
    var out := InsertEntry(entries, entry);
    if entries != [] {
      var head, rest := entries[0], entries[1..];
      assert entries == [head] + rest;
      NamesApart(entries);
      if head.name == entry.name {
        assert out == [entry] + rest;
      } else if BytesLess(entry.name, head.name) {
        assert out == [entry] + entries;
        forall i | 0 <= i < |entries|
          ensures BytesLess(entry.name, entries[i].name) && entries[i].name != entry.name
        {
          NamesOrder(entry.name, head.name, entries[i].name);
        }
      } else {
        EntryInserted(rest, entry);
        NamesOrder(head.name, entry.name, entry.name);
        assert out == [head] + InsertEntry(rest, entry);
        forall i | 0 <= i < |InsertEntry(rest, entry)|
          ensures BytesLess(head.name, InsertEntry(rest, entry)[i].name)
        {
          assert InsertEntry(rest, entry)[i] in InsertEntry(rest, entry);
        }
      }
    }
  }

  lemma NamesOrder(a: Text, b: Text, c: Text)
    ensures BytesLess(a, b) && (b == c || BytesLess(b, c)) ==> BytesLess(a, c) && a != c
    ensures a != b && !BytesLess(b, a) ==> BytesLess(a, b)
    ensures !BytesLess(a, a)
  {
    FractionEmbeds(a, b);
    FractionEmbeds(b, c);
    FractionEmbeds(a, c);
    FractionEmbeds(b, a);
    FractionEmbeds(a, a);
  }

  lemma NamesApart(entries: seq<RtEntry>)
    requires NamesRise(entries)
    ensures forall i, j :: 0 <= i < j < |entries| ==> entries[i].name != entries[j].name
  {
    forall i, j | 0 <= i < j < |entries|
      ensures entries[i].name != entries[j].name
    {
      NamesOrder(entries[i].name, entries[i].name, entries[i].name);
    }
  }

  /** The value of the last member with this name. */
  ghost predicate LastMember(members: seq<Member>, i: nat) {
    i < |members| && forall j :: i < j < |members| ==> members[j].name != members[i].name
  }

  ghost predicate MemberEntry(members: seq<Member>, entry: RtEntry, document: Document, floats: FloatArithmetic) {
    exists i: nat :: LastMember(members, i) && members[i].name == entry.name && Eval(members[i].value, document, floats) == Ok(entry.value)
  }

  predicate NamedMember(members: seq<Member>, name: Text) {
    exists i :: 0 <= i < |members| && members[i].name == name
  }

  lemma MemberPushed(members: seq<Member>, entry: RtEntry, document: Document, floats: FloatArithmetic)
    requires members != []
    ensures MemberEntry(members, entry, document, floats) <==>
            MemberEntry(members[1..], entry, document, floats)
            || (members[0].name == entry.name && Eval(members[0].value, document, floats) == Ok(entry.value) && !NamedMember(members[1..], entry.name))
    ensures NamedMember(members, entry.name) <==> members[0].name == entry.name || NamedMember(members[1..], entry.name)
  {
    var rest := members[1..];
    assert forall i :: 0 <= i < |rest| ==> members[i + 1] == rest[i];
    if MemberEntry(members, entry, document, floats) {
      var i: nat :| LastMember(members, i) && members[i].name == entry.name && Eval(members[i].value, document, floats) == Ok(entry.value);
      assert i > 0 ==> LastMember(rest, i - 1);
    }
    if MemberEntry(rest, entry, document, floats) {
      var i: nat :| LastMember(rest, i) && rest[i].name == entry.name && Eval(rest[i].value, document, floats) == Ok(entry.value);
      assert LastMember(members, i + 1);
    }
    if members[0].name == entry.name && !NamedMember(rest, entry.name) {
      assert LastMember(members, 0);
    }
  }

  lemma {:induction false} MembersMean(members: seq<Member>, document: Document, floats: FloatArithmetic, entries: seq<RtEntry>)
    requires NamesRise(entries)
    ensures var r := EvalMembers(members, document, floats, entries);
            && (r.Ok? <==> forall i :: 0 <= i < |members| ==> Eval(members[i].value, document, floats).Ok?)
            && (r.Ok? ==> NamesRise(r.value)
                          && forall e :: e in r.value <==> MemberEntry(members, e, document, floats)
                                                           || (e in entries && !NamedMember(members, e.name)))
    decreases |members|
  {
    hide Eval, NamesRise, MemberEntry, NamedMember, InsertEntry;
    if members == [] {
      forall e: RtEntry
        ensures !MemberEntry([], e, document, floats) && !NamedMember([], e.name)
      {
        NoMember(e, document, floats);
      }
    } else {
      assert members == [members[0]] + members[1..];
      var value := Eval(members[0].value, document, floats);
      if value.Ok? {
        var entry := RtEntry(members[0].name, value.value);
        EntryInserted(entries, entry);
        MembersMean(members[1..], document, floats, InsertEntry(entries, entry));
        forall e: RtEntry
          ensures (MemberEntry(members, e, document, floats) <==>
                   MemberEntry(members[1..], e, document, floats) || (e == entry && !NamedMember(members[1..], e.name)))
                  && (NamedMember(members, e.name) <==> entry.name == e.name || NamedMember(members[1..], e.name))
        {
          MemberPushed(members, e, document, floats);
        }
      }
    }
  }

  lemma NoMember(entry: RtEntry, document: Document, floats: FloatArithmetic)
    ensures !MemberEntry([], entry, document, floats) && !NamedMember([], entry.name)
  {
  }

  /** An object has each name once, in order, with the value of the last member of that name, and fails exactly if a member does. */
  lemma ObjectMeans(members: seq<Member>, document: Document, floats: FloatArithmetic)
    ensures var r := Eval(ObjectExpr(members), document, floats);
            && (r.Ok? <==> forall i :: 0 <= i < |members| ==> Eval(members[i].value, document, floats).Ok?)
            && (r.Ok? ==> r.value.RtObject? && NamesRise(r.value.entries)
                          && forall e :: e in r.value.entries <==> MemberEntry(members, e, document, floats))
  {
    MembersMean(members, document, floats, []);
    assert Eval(ObjectExpr(members), document, floats).Ok? <==> EvalMembers(members, document, floats, []).Ok?;
    hide Eval, MemberEntry, NamedMember;
  }

  /** `_id` reads the id, and any other path the value there, or nothing. */
  lemma PathMeans(document: Document, segments: seq<Text>, floats: FloatArithmetic)
    ensures var r, value := Eval(Path(segments), document, floats), LookupParts(document, segments);
            && (segments == ID_PATH ==> r == Ok(RtId(document.id)))
            && (segments != ID_PATH ==> (r == Ok(Missing) <==> value.None?) && (value.Some? ==> r == Ok(FromValue(value.value))))
  {
  }
}