/** Documents and their values. */
module Documents {
  import opened Base
  import opened IndexKeys

  /** UTF-8 text as its bytes. */
  type Text = seq<byte>

  /** Floats are their 64 bits. */
  datatype Value =
    | Null
    | Boolean(flag: bool)
    | Int(int64: i64)
    | Float(bits: u64)
    | Str(text: Text)
    | Array(values: seq<Value>)
    | Nested(document: Document)
    | Timestamp(millis: i64)
    | Ref(novaId: NovaId)

  datatype Field = Field(name: Text, value: Value)

  /** The fields of a document in key order, each key once. */
  datatype Document = Document(id: NovaId, fields: seq<Field>)

  predicate IsZero(bits: u64) {
    bits % SIGN_BIT == 0
  }

  /** IEEE 754 equality: NaN equals nothing, and both zeros are equal. */
  predicate IeeeEqual(a: u64, b: u64) {
    !IsNan(a) && !IsNan(b) && (a == b || (IsZero(a) && IsZero(b)))
  }

  /** The derived `==` of values and documents. */
  predicate EqualValues(a: Value, b: Value)
    decreases a
  {
    match (a, b)
    case (Float(x), Float(y)) => IeeeEqual(x, y)
    case (Array(xs), Array(ys)) => |xs| == |ys| && forall i :: 0 <= i < |xs| ==> EqualValues(xs[i], ys[i])
    case (Nested(x), Nested(y)) => EqualDocuments(x, y)
    case _ => a == b
  }

  predicate EqualDocuments(a: Document, b: Document)
    decreases a
  {
    && a.id == b.id && |a.fields| == |b.fields|
    && forall i :: 0 <= i < |a.fields| ==>
                     a.fields[i].name == b.fields[i].name && EqualValues(a.fields[i].value, b.fields[i].value)
  }

  ghost predicate Ascending(fields: seq<Field>) {
    forall i, j :: 0 <= i < j < |fields| ==> BytesLess(fields[i].name, fields[j].name)
  }

  function GetField(fields: seq<Field>, name: Text): Option<Value> {
    if fields == [] then None
    else if fields[0].name == name then Some(fields[0].value)
    else GetField(fields[1..], name)
  }

  /** `lookup_parts`: descends through nested documents, and through nothing else. */
  function LookupParts(document: Document, parts: seq<Text>): Option<Value>
    decreases |parts|
  {
    if parts == [] then None
    else
      var value := GetField(document.fields, parts[0]);
      if |parts| == 1 then value
      else if value.Some? && value.value.Nested? then LookupParts(value.value.document, parts[1..])
      else None
  }

  const DOT: byte := 46

  /** `join(".")`. */
  function Join(parts: seq<Text>): Text {
    if parts == [] then []
    else if |parts| == 1 then parts[0]
    else parts[0] + [DOT] + Join(parts[1..])
  }

  /** `split('.')`, which never returns an empty list. */
  function Split(path: Text): (parts: seq<Text>)
    ensures parts != []
  {
    if path == [] then [[]]
    else
      var rest := Split(path[1..]);
      if path[0] == DOT then [[]] + rest else [[path[0]] + rest[0]] + rest[1..]
  }

  /** `lookup`: a dotted path. */
  function Lookup(document: Document, path: Text): Option<Value> {
    LookupParts(document, Split(path))
  }

  lemma {:induction false} SplitWord(word: Text, rest: Text)
    requires DOT !in word
    ensures Split(word + [DOT] + rest) == [word] + Split(rest)
    ensures Split(word) == [word]
  {
    var path := word + [DOT] + rest;
    if word == [] {
      assert path[1..] == rest;
    } else {
      SplitWord(word[1..], rest);
      assert path[1..] == word[1..] + [DOT] + rest;
      assert word == [word[0]] + word[1..];
    }
  }

  /** Joining dot-free segments and splitting again gives the segments back. */
  lemma {:induction false} SplitJoin(parts: seq<Text>)
    requires parts != [] && forall i :: 0 <= i < |parts| ==> DOT !in parts[i]
    ensures Split(Join(parts)) == parts
  {
    if |parts| == 1 {
      SplitWord(parts[0], []);
    } else {
      SplitWord(parts[0], Join(parts[1..]));
      SplitJoin(parts[1..]);
    }
  }
}
