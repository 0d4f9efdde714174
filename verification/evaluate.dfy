/** Expression evaluation over one document. */
module Evaluate {
  import opened Base
  import opened IndexKeys
  import opened Documents
  import opened Ast

  datatype RuntimeValue =
    | Missing
    | RtNull
    | RtBool(flag: bool)
    | RtInt(int64: i64)
    | RtFloat(bits: u64)
    | RtStr(text: Text)
    | RtArray(values: seq<RuntimeValue>)
    | RtObject(entries: seq<RtEntry>)
    | RtTimestamp(millis: i64)
    | RtId(id: NovaId)

  datatype RtEntry = RtEntry(name: Text, value: RuntimeValue)

  /** Hardware float arithmetic, left uninterpreted: any function of the operator and the operand bits. */
  type FloatArithmetic = (BinaryOp, u64, u64) -> u64

  /** The derived `==` of runtime values. */
  predicate RtEqual(a: RuntimeValue, b: RuntimeValue)
    decreases a
  {
    match (a, b)
    case (RtFloat(x), RtFloat(y)) => IeeeEqual(x, y)
    case (RtArray(xs), RtArray(ys)) => |xs| == |ys| && forall i :: 0 <= i < |xs| ==> RtEqual(xs[i], ys[i])
    case (RtObject(xs), RtObject(ys)) =>
      |xs| == |ys| && forall i :: 0 <= i < |xs| ==> xs[i].name == ys[i].name && RtEqual(xs[i].value, ys[i].value)
    case _ => a == b
  }

  function FromValue(value: Value): RuntimeValue
    decreases value
  {
    match value
    case Null => RtNull
    case Boolean(flag) => RtBool(flag)
    case Int(v) => RtInt(v)
    case Float(bits) => RtFloat(bits)
    case Str(text) => RtStr(text)
    case Array(values) => RtArray(seq(|values|, i requires 0 <= i < |values| => FromValue(values[i])))
    case Nested(document) =>
      var fields := document.fields;
      RtObject(seq(|fields|, i requires 0 <= i < |fields| => RtEntry(fields[i].name, FromValue(fields[i].value))))
    case Timestamp(millis) => RtTimestamp(millis)
    case Ref(id) => RtId(id)
  }

  /** The text `_id`. */
  const ID_PATH: seq<Text> := [[95, 105, 100]]

  function ReadPath(document: Document, segments: seq<Text>): RuntimeValue {
    if segments == ID_PATH then RtId(document.id)
    else
      var value := LookupParts(document, segments);
      if value.Some? then FromValue(value.value) else Missing
  }

  function EvaluateLiteral(literal: Literal): RuntimeValue {
    match literal
    case NullLit => RtNull
    case BoolLit(flag) => RtBool(flag)
    case IntLit(v) => RtInt(v)
    case FloatLit(bits) => RtFloat(bits)
    case StrLit(text) => RtStr(text)
  }

  function CheckedInt(v: int): Result<RuntimeValue> {
    if -0x8000_0000_0000_0000 <= v < 0x8000_0000_0000_0000 then Ok(RtInt(v)) else Err(InvalidArgument)
  }

  function FiniteFloat(bits: u64): Result<RuntimeValue> {
    if IsFinite(bits) then Ok(RtFloat(bits)) else Err(InvalidArgument)
  }

  function FlipSign(bits: u64): u64 {
    if bits < SIGN_BIT then bits + SIGN_BIT else bits - SIGN_BIT
  }

  function EvaluateUnary(op: UnaryOp, operand: RuntimeValue): Result<RuntimeValue> {
    match (op, operand)
    case (Not, RtBool(flag)) => Ok(RtBool(!flag))
    case (Negate, RtInt(v)) => CheckedInt(0 - v as int)
    case (Negate, RtFloat(bits)) => FiniteFloat(FlipSign(bits))
    case (Positive, RtInt(_)) => Ok(operand)
    case (Positive, RtFloat(_)) => Ok(operand)
    case _ => Err(InvalidArgument)
  }

  function BooleanOperand(value: RuntimeValue): Result<RuntimeValue> {
    if value.RtBool? then Ok(value) else Err(InvalidArgument)
  }

  function ContainsValue(left: RuntimeValue, right: RuntimeValue): Result<RuntimeValue> {
    if left.RtArray? then Ok(RtBool(exists i :: 0 <= i < |left.values| && RtEqual(left.values[i], right)))
    else Err(InvalidArgument)
  }

  datatype Ordering = Lt | Eq | Gt

  function Compare(less: bool, equal: bool): Ordering {
    if less then Lt else if equal then Eq else Gt
  }

  /** Ordering of two values of one scalar type. */
  function ScalarOrder(left: RuntimeValue, right: RuntimeValue): Option<Ordering> {
    match (left, right)
    case (RtInt(x), RtInt(y)) => Some(Compare(x < y, x == y))
    case (RtFloat(x), RtFloat(y)) => Some(Compare(TotalOrder(x) < TotalOrder(y), TotalOrder(x) == TotalOrder(y)))
    case (RtStr(x), RtStr(y)) => Some(Compare(BytesLess(x, y), x == y))
    case (RtTimestamp(x), RtTimestamp(y)) => Some(Compare(x < y, x == y))
    case (RtId(x), RtId(y)) => Some(Compare(x < y, x == y))
    case _ => None
  }

  function Ordered(op: BinaryOp, left: RuntimeValue, right: RuntimeValue): Result<RuntimeValue> {
    match ScalarOrder(left, right)
    case None => Err(InvalidArgument)
    case Some(order) =>
      Ok(RtBool(match op
                case Less => order.Lt?
                case LessEqual => !order.Gt?
                case Greater => order.Gt?
                case _ => !order.Lt?))
  }

  function IntArithmetic(op: BinaryOp, x: i64, y: i64): Result<RuntimeValue> {
    match op
    case Add => CheckedInt(x + y)
    case Subtract => CheckedInt(x - y)
    case Multiply => CheckedInt(x * y)
    case _ =>
      if y == 0 || (x == -0x8000_0000_0000_0000 && y == -1) then Err(InvalidArgument)
      else if op.Divide? then CheckedInt(Truncated(x, y))
      else CheckedInt(x - y * Truncated(x, y))
  }

  function Arithmetic(floats: FloatArithmetic, left: RuntimeValue, op: BinaryOp, right: RuntimeValue): Result<RuntimeValue> {
    match (left, right)
    case (RtInt(x), RtInt(y)) => IntArithmetic(op, x, y)
    case (RtFloat(x), RtFloat(y)) =>
      if (op.Divide? || op.Remainder?) && IsZero(y) then Err(InvalidArgument) else FiniteFloat(floats(op, x, y))
    case _ => Err(InvalidArgument)
  }

  /** The operators that look at both operands. */
  function Strict(floats: FloatArithmetic, left: RuntimeValue, op: BinaryOp, right: RuntimeValue): Result<RuntimeValue> {
    match op
    case Equal => Ok(RtBool(RtEqual(left, right)))
    case NotEqual => Ok(RtBool(!RtEqual(left, right)))
    case Contains => ContainsValue(left, right)
    case Less => Ordered(op, left, right)
    case LessEqual => Ordered(op, left, right)
    case Greater => Ordered(op, left, right)
    case GreaterEqual => Ordered(op, left, right)
    case _ => Arithmetic(floats, left, op, right)
  }

  /** Inserting into an ordered map of object entries, replacing an equal name. */
  function InsertEntry(entries: seq<RtEntry>, entry: RtEntry): seq<RtEntry> {
    if entries == [] then [entry]
    else if entries[0].name == entry.name then [entry] + entries[1..]
    else if BytesLess(entry.name, entries[0].name) then [entry] + entries
    else [entries[0]] + InsertEntry(entries[1..], entry)
  }

  function Eval(expression: Expr, document: Document, floats: FloatArithmetic): Result<RuntimeValue>
    decreases expression, 1
  {
    match expression
    case Lit(literal) => Ok(EvaluateLiteral(literal))
    case Path(segments) => Ok(ReadPath(document, segments))
    case ArrayExpr(items) =>
      var values :- EvalAll(items, document, floats);
      Ok(RtArray(values))
    case ObjectExpr(members) =>
      var entries :- EvalMembers(members, document, floats, []);
      Ok(RtObject(entries))
    case Unary(op, operand) =>
      var value :- Eval(operand, document, floats);
      EvaluateUnary(op, value)
    case Binary(left, op, right) =>
      var l :- Eval(left, document, floats);
      if op.And? then
        if !l.RtBool? then Err(InvalidArgument)
        else if !l.flag then Ok(RtBool(false))
        else
          var r :- Eval(right, document, floats);
          BooleanOperand(r)
      else if op.Or? then
        if !l.RtBool? then Err(InvalidArgument)
        else if l.flag then Ok(RtBool(true))
        else
          var r :- Eval(right, document, floats);
          BooleanOperand(r)
      else
        var r :- Eval(right, document, floats);
        Strict(floats, l, op, r)
  }

  function EvalAll(items: seq<Expr>, document: Document, floats: FloatArithmetic): Result<seq<RuntimeValue>>
    decreases items, 0
  {
    if items == [] then Ok([])
    else
      var first :- Eval(items[0], document, floats);
      var rest :- EvalAll(items[1..], document, floats);
      Ok([first] + rest)
  }

  function EvalMembers(members: seq<Member>, document: Document, floats: FloatArithmetic, entries: seq<RtEntry>): Result<seq<RtEntry>>
    decreases members, 0
  {
    if members == [] then Ok(entries)
    else
      var value :- Eval(members[0].value, document, floats);
      EvalMembers(members[1..], document, floats, InsertEntry(entries, RtEntry(members[0].name, value)))
  }

  function EvaluatePredicate(expression: Expr, document: Document, floats: FloatArithmetic): Result<bool> {
    var value :- Eval(expression, document, floats);
    if value.RtBool? then Ok(value.flag) else Err(InvalidArgument)
  }
}
