/** The Nova Binary Format: documents as bytes, and back. */
module Nbf {
  import opened Base
  import opened Bytes
  import opened Documents
  import opened IndexKeys
  import opened Varints

  const MAGIC: seq<byte> := [0x4e, 0x4f, 0x56, 0x41]
  const MAX_DEPTH: nat := 254
  const MAX_COUNT: nat := 0x10_0000
  const TWO63: nat := 0x8000_0000_0000_0000
  const TWO64: nat := 0x1_0000_0000_0000_0000

  /** UTF-8 (RFC 3629 section 4). */
  predicate ValidUtf8(t: Text) {
    if t == [] then true
    else if t[0] < 0x80 then ValidUtf8(t[1..])
    else if 0xc2 <= t[0] <= 0xdf then |t| >= 2 && Tail(t[1]) && ValidUtf8(t[2..])
    else if 0xe0 <= t[0] <= 0xef then
      |t| >= 3 && Tail(t[1]) && Tail(t[2]) && (t[0] == 0xe0 ==> t[1] >= 0xa0) && (t[0] == 0xed ==> t[1] < 0xa0) && ValidUtf8(t[3..])
    else if 0xf0 <= t[0] <= 0xf4 then
      |t| >= 4 && Tail(t[1]) && Tail(t[2]) && Tail(t[3]) && (t[0] == 0xf0 ==> t[1] >= 0x90) && (t[0] == 0xf4 ==> t[1] < 0x90)
      && ValidUtf8(t[4..])
    else false
  }

  predicate Tail(b: byte) {
    0x80 <= b < 0xc0
  }

  // ---------- what a document's own types guarantee ----------

  predicate TextOk(t: Text) {
    ValidUtf8(t) && |t| < TWO64
  }

  ghost predicate ValueOk(v: Value) {
    match v
    case Str(t) => TextOk(t)
    case Array(values) => forall i :: 0 <= i < |values| ==> ValueOk(values[i])
    case Nested(d) => DocumentOk(d)
    case _ => true
  }

  ghost predicate DocumentOk(d: Document) {
    Ascending(d.fields) && forall i :: 0 <= i < |d.fields| ==> TextOk(d.fields[i].name) && ValueOk(d.fields[i].value)
  }

  // ---------- encoding ----------

  function Unsigned(v: i64): u64 {
    if v < 0 then v + TWO64 else v
  }

  function Signed(v: u64): i64 {
    if v < TWO63 then v else v - TWO64
  }

  function CanonicalBits(bits: u64): u64 {
    if IsNan(bits) then CANONICAL_NAN else bits
  }

  function TextBytes(t: Text): seq<byte> {
    Leb(|t|) + t
  }

  function EncodeValue(v: Value, depth: nat): (r: Result<seq<byte>>)
    ensures r.Ok? ==> r.value != []
    decreases v
  {
    match v
    case Null => Ok([0])
    case Boolean(flag) => Ok([if flag then 2 else 1])
    case Int(x) => Ok([3] + Be(Unsigned(x), 8))
    case Float(bits) => Ok([4] + Be(CanonicalBits(bits), 8))
    case Str(t) => Ok([5] + TextBytes(t))
    case Array(values) =>
      if depth >= MAX_DEPTH || |values| > MAX_COUNT then Err(InvalidArgument)
      else
        var items :- EncodeValues(values, depth + 1);
        Ok([6] + Leb(|values|) + items)
    case Nested(d) => EncodeDocument(d, depth)
    case Timestamp(x) => Ok([8] + Be(Unsigned(x), 8))
    case Ref(id) => Ok([9] + Be(id, 16))
  }

  function EncodeValues(values: seq<Value>, depth: nat): (r: Result<seq<byte>>)
    ensures r.Ok? ==> |r.value| >= |values|
    decreases values
  {
    if values == [] then Ok([])
    else
      var first :- EncodeValue(values[0], depth);
      var rest :- EncodeValues(values[1..], depth);
      Ok(first + rest)
  }

  function EncodeDocument(d: Document, depth: nat): (r: Result<seq<byte>>)
    ensures r.Ok? ==> r.value != []
    decreases d
  {
    if depth >= MAX_DEPTH || |d.fields| > MAX_COUNT then Err(InvalidArgument)
    else
      var fields :- EncodeFields(d.fields, depth + 1);
      Ok([7] + DocumentBytes(d.id, |d.fields|, fields))
  }

  function DocumentBytes(id: NovaId, count: nat, fields: seq<byte>): seq<byte> {
    Be(id, 16) + Leb(count) + fields
  }

  function EncodeFields(fields: seq<Field>, depth: nat): (r: Result<seq<byte>>)
    ensures r.Ok? ==> |r.value| >= |fields|
    decreases fields
  {
    if fields == [] then Ok([])
    else
      var value :- EncodeValue(fields[0].value, depth);
      var rest :- EncodeFields(fields[1..], depth);
      Ok(TextBytes(fields[0].name) + value + rest)
  }

  function Header(): seq<byte> {
    MAGIC + Be(1, 4)
  }

  function Encode(d: Document): Result<seq<byte>> {
    var body :- EncodeDocument(d, 0);
    Ok(Header() + body)
  }

  // ---------- decoding ----------

  function ReadText(s: seq<byte>): (r: Parse<Text>)
    ensures r.Done? ==> 1 <= r.size <= |s| && TextOk(r.value)
  {
    match ReadVarint(s)
    case Fail => Fail
    case Done(length, k) =>
      if length > |s| - k || !ValidUtf8(s[k..k + length]) then Fail else Done(s[k..k + length], k + length)
  }

  function ReadCount(s: seq<byte>): (r: Parse<nat>)
    ensures r.Done? ==> 1 <= r.size <= |s| && r.value <= MAX_COUNT && r.value <= |s| - r.size
  {
    match ReadVarint(s)
    case Fail => Fail
    case Done(count, k) => if count > MAX_COUNT || count > |s| - k then Fail else Done(count, k)
  }

  function ReadNumber(s: seq<byte>, w: nat): (r: Parse<nat>)
    ensures r.Done? ==> r.size == w + 1 <= |s| && r.value < Span(w)
  {
    if |s| < w + 1 then Fail else Done(Number(s, 1, w), w + 1)
  }

  function ReadValue(s: seq<byte>, depth: nat): (r: Parse<Value>)
    ensures r.Done? ==> 1 <= r.size <= |s|
    decreases |s|, 1, 0
  {
    Spans();
    if s == [] then Fail
    else match s[0]
      case 0 => Done(Null, 1)
      case 1 => Done(Boolean(false), 1)
      case 2 => Done(Boolean(true), 1)
      case 3 => (match ReadNumber(s, 8) case Fail => Fail case Done(x, k) => Done(Int(Signed(x)), k))
      case 4 => (match ReadNumber(s, 8) case Fail => Fail case Done(x, k) => Done(Float(x), k))
      case 5 => (match ReadText(s[1..]) case Fail => Fail case Done(t, k) => Done(Str(t), 1 + k))
      case 6 => ReadArray(s, depth)
      case 7 => (match ReadDocument(s[1..], depth) case Fail => Fail case Done(d, k) => Done(Nested(d), 1 + k))
      case 8 => (match ReadNumber(s, 8) case Fail => Fail case Done(x, k) => Done(Timestamp(Signed(x)), k))
      case 9 => (match ReadNumber(s, 16) case Fail => Fail case Done(x, k) => Done(Ref(x), k))
      case _ => Fail
  }

  function ReadArray(s: seq<byte>, depth: nat): (r: Parse<Value>)
    requires s != []
    ensures r.Done? ==> 1 <= r.size <= |s|
    decreases |s|, 0, 0
  {
    if depth >= MAX_DEPTH then Fail
    else match ReadCount(s[1..])
      case Fail => Fail
      case Done(count, k) =>
        match ReadValues(s[1..][k..], count, depth + 1)
        case Fail => Fail
        case Done(values, m) => Done(Array(values), 1 + k + m)
  }

  function ReadValues(s: seq<byte>, n: nat, depth: nat): (r: Parse<seq<Value>>)
    ensures r.Done? ==> r.size <= |s| && |r.value| == n
    decreases |s|, 2, n
  {
    if n == 0 then Done([], 0)
    else match ReadValue(s, depth)
      case Fail => Fail
      case Done(v, k) =>
        match ReadValues(s[k..], n - 1, depth)
        case Fail => Fail
        case Done(rest, m) => Done([v] + rest, k + m)
  }

  /** A document after its tag. */
  function ReadDocument(s: seq<byte>, depth: nat): (r: Parse<Document>)
    ensures r.Done? ==> 1 <= r.size <= |s|
    decreases |s|, 0, 0
  {
    Spans();
    if depth >= MAX_DEPTH || |s| < 16 then Fail
    else match ReadCount(s[16..])
      case Fail => Fail
      case Done(count, k) =>
        match ReadFields(s[16..][k..], count, [], depth + 1)
        case Fail => Fail
        case Done(fields, m) => Done(Document(Number(s, 0, 16), fields), 16 + k + m)
  }

  function ReadFields(s: seq<byte>, n: nat, done: seq<Field>, depth: nat): (r: Parse<seq<Field>>)
    ensures r.Done? ==> r.size <= |s| && |r.value| == |done| + n
    decreases |s|, 2, n
  {
    if n == 0 then Done(done, 0)
    else match ReadText(s)
      case Fail => Fail
      case Done(name, k) =>
        match ReadValue(s[k..], depth)
        case Fail => Fail
        case Done(v, m) =>
          if GetField(done, name).Some? then Fail
          else match ReadFields(s[k..][m..], n - 1, InsertField(done, Field(name, v)), depth)
            case Fail => Fail
            case Done(fields, rest) => Done(fields, k + m + rest)
  }

  /** `BTreeMap::insert` of a new key. */
  function InsertField(fields: seq<Field>, f: Field): (r: seq<Field>)
    ensures |r| == |fields| + 1
  {
    if fields == [] || BytesLess(f.name, fields[0].name) then [f] + fields
    else [fields[0]] + InsertField(fields[1..], f)
  }

  function Decode(s: seq<byte>): (r: Result<Document>) {
    if |s| < 4 || s[..4] != MAGIC || |s| < 8 then Err(Corruption)
    else if Number(s, 4, 4) != 1 then Err(Unsupported)
    else if |s| == 8 || s[8] != 7 then Err(Corruption)
    else match ReadDocument(s[9..], 0)
      case Fail => Err(Corruption)
      case Done(d, k) => if k < |s| - 9 then Err(Corruption) else Ok(d)
  }
}
