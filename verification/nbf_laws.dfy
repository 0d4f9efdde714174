/** The format's promises: round trip, no accepted prefixes, and decoded documents can be encoded. */
module NbfLaws {
  import opened Base
  import opened Bytes
  import opened Documents
  import opened IndexKeys
  import opened Nbf
  import opened Varints

  /** The same value with every NaN replaced by the canonical one. */
  ghost function Canonical(v: Value): Value
    decreases v
  {
    match v
    case Float(bits) => Float(CanonicalBits(bits))
    case Array(values) => Array(CanonicalValues(values))
    case Nested(d) => Nested(CanonicalDocument(d))
    case _ => v
  }

  ghost function CanonicalValues(values: seq<Value>): (r: seq<Value>)
    ensures |r| == |values|
    decreases values
  {
    if values == [] then [] else [Canonical(values[0])] + CanonicalValues(values[1..])
  }

  ghost function CanonicalDocument(d: Document): Document
    decreases d
  {
    Document(d.id, CanonicalFields(d.fields))
  }

  ghost function CanonicalFields(fields: seq<Field>): (r: seq<Field>)
    ensures |r| == |fields|
    ensures forall i :: 0 <= i < |fields| ==> r[i].name == fields[i].name
    decreases fields
  {
    if fields == [] then [] else [Field(fields[0].name, Canonical(fields[0].value))] + CanonicalFields(fields[1..])
  }

  // ---------- parts ----------

  lemma Drop(a: seq<byte>, b: seq<byte>)
    ensures (a + b)[|a|..] == b && (a + b)[..|a|] == a
  {
  }

  lemma TextRoundTrip(t: Text, rest: seq<byte>)
    requires TextOk(t)
    ensures ReadText(TextBytes(t) + rest) == Done(t, |TextBytes(t)|)
  {
    hide ReadVarint, Leb, ValidUtf8;
    VarintRoundTrip(|t|, t + rest);
    assert TextBytes(t) + rest == Leb(|t|) + (t + rest);
    Drop(Leb(|t|), t + rest);
    var s := TextBytes(t) + rest;
    assert s[|Leb(|t|)|..|Leb(|t|)| + |t|] == t;
  }

  lemma CountRoundTrip(count: nat, rest: seq<byte>)
    requires count <= MAX_COUNT && count <= |rest|
    ensures ReadCount(Leb(count) + rest) == Done(count, |Leb(count)|)
  {
    VarintRoundTrip(count, rest);
  }

  lemma NumberRoundTrip(tag: byte, x: nat, w: nat, rest: seq<byte>)
    requires x < Span(w)
    ensures ReadNumber([tag] + Be(x, w) + rest, w) == Done(x, w + 1)
  {
    var s := [tag] + Be(x, w) + rest;
    assert s[1..1 + w] == Be(x, w);
    NumberAt(s, 1, w, x);
  }

  // ---------- the round trip ----------

  lemma {:induction false} ValueRoundTrip(v: Value, depth: nat, rest: seq<byte>)
    requires ValueOk(v) && EncodeValue(v, depth).Ok?
    ensures var bytes := EncodeValue(v, depth).value; ReadValue(bytes + rest, depth) == Done(Canonical(v), |bytes|)
    decreases v, 1
  {
    hide ReadText, ReadArray, ReadDocument, Leb;
    var bytes := EncodeValue(v, depth).value;
    match v
    case Str(t) =>
      TextRoundTrip(t, rest);
      assert (bytes + rest)[1..] == TextBytes(t) + rest;
    case Nested(d) =>
      DocumentRoundTrip(d, depth, rest);
      assert (bytes + rest)[1..] == bytes[1..] + rest;
    case Array(values) => ArrayRoundTrip(values, depth, rest);
    case _ => ScalarRoundTrip(v, depth, rest);
  }

  lemma ScalarRoundTrip(v: Value, depth: nat, rest: seq<byte>)
    requires !v.Str? && !v.Nested? && !v.Array?
    ensures var bytes := EncodeValue(v, depth).value; ReadValue(bytes + rest, depth) == Done(Canonical(v), |bytes|)
  {
    hide ReadNumber, ReadText, ReadArray, ReadDocument, Be;
    Spans();
    match v
    case Int(x) => NumberRoundTrip(3, Unsigned(x), 8, rest);
    case Float(bits) => NumberRoundTrip(4, CanonicalBits(bits), 8, rest);
    case Timestamp(x) => NumberRoundTrip(8, Unsigned(x), 8, rest);
    case Ref(id) => NumberRoundTrip(9, id, 16, rest);
    case _ =>
  }

  lemma {:induction false} ArrayRoundTrip(values: seq<Value>, depth: nat, rest: seq<byte>)
    requires ValueOk(Array(values)) && EncodeValue(Array(values), depth).Ok?
    ensures var bytes := EncodeValue(Array(values), depth).value;
            ReadArray(bytes + rest, depth) == Done(Array(CanonicalValues(values)), |bytes|)
    decreases values, 1
  {
    hide Leb, ReadCount, ReadValue, EncodeValues, CanonicalValues;
    var bytes, items := EncodeValue(Array(values), depth).value, EncodeValues(values, depth + 1).value;
    CountRoundTrip(|values|, items + rest);
    assert (bytes + rest)[1..] == Leb(|values|) + (items + rest);
    Drop(Leb(|values|), items + rest);
    ValuesRoundTrip(values, depth + 1, rest);
  }

  lemma {:induction false} ValuesRoundTrip(values: seq<Value>, depth: nat, rest: seq<byte>)
    requires (forall i :: 0 <= i < |values| ==> ValueOk(values[i])) && EncodeValues(values, depth).Ok?
    ensures var bytes := EncodeValues(values, depth).value;
            ReadValues(bytes + rest, |values|, depth) == Done(CanonicalValues(values), |bytes|)
    decreases values, 0
  {
    hide ReadValue, EncodeValue;
    if values != [] {
      var bytes, first, more := EncodeValues(values, depth).value, EncodeValue(values[0], depth).value, EncodeValues(values[1..], depth).value;
      assert bytes + rest == first + (more + rest);
      ValueRoundTrip(values[0], depth, more + rest);
      Drop(first, more + rest);
      ValuesRoundTrip(values[1..], depth, rest);
    }
  }

  lemma {:induction false} DocumentRoundTrip(d: Document, depth: nat, rest: seq<byte>)
    requires DocumentOk(d) && EncodeDocument(d, depth).Ok?
    ensures var bytes := EncodeDocument(d, depth).value;
            ReadDocument(bytes[1..] + rest, depth) == Done(CanonicalDocument(d), |bytes| - 1) && bytes[0] == 7
    decreases d, 1
  {
    hide Be, Leb, ReadCount, ReadFields, EncodeFields, Number, CanonicalFields, TextOk, ValueOk;
    Spans();
    var fields := EncodeFields(d.fields, depth + 1).value;
    var bytes := EncodeDocument(d, depth).value;
    var s := bytes[1..] + rest;
    var tail := Leb(|d.fields|) + (fields + rest);
    assert s == Be(d.id, 16) + tail;
    Drop(Be(d.id, 16), tail);
    NumberAt(s, 0, 16, d.id);
    CountRoundTrip(|d.fields|, fields + rest);
    Drop(Leb(|d.fields|), fields + rest);
    FieldsRoundTrip(d.fields, [], depth + 1, rest);
    assert [] + CanonicalFields(d.fields) == CanonicalFields(d.fields);
  }

  /** Field names, ascending, all after those already read. */
  ghost predicate Continues(done: seq<Field>, fields: seq<Field>) {
    Ascending(done + fields) && forall i :: 0 <= i < |fields| ==> TextOk(fields[i].name) && ValueOk(fields[i].value)
  }

  lemma {:induction false} FieldsRoundTrip(fields: seq<Field>, done: seq<Field>, depth: nat, rest: seq<byte>)
    requires Continues(done, fields) && EncodeFields(fields, depth).Ok?
    ensures var bytes := EncodeFields(fields, depth).value;
            ReadFields(bytes + rest, |fields|, done, depth) == Done(done + CanonicalFields(fields), |bytes|)
    decreases fields, 0
  {
    hide ReadValue, ReadText, ReadFields, EncodeValue, TextOk, ValueOk, TextBytes, Continues, GetField, InsertField, Canonical;
    if fields != [] {
      var name, v := fields[0].name, fields[0].value;
      var value, more := EncodeValue(v, depth).value, EncodeFields(fields[1..], depth).value;
      var next := Field(name, Canonical(v));
      AppendField(done, fields, next);
      TextRoundTrip(name, value + (more + rest));
      ValueRoundTrip(v, depth, more + rest);
      FieldsRoundTrip(fields[1..], done + [next], depth, rest);
      FieldsStep(TextBytes(name), value, more + rest, |fields|, done, next, depth);
      Regroup(TextBytes(name), value, more, rest);
      Push(done, next, CanonicalFields(fields[1..]));
    } else {
      NoFields([] + rest, done, depth);
    }
  }

  lemma Regroup(a: seq<byte>, b: seq<byte>, c: seq<byte>, d: seq<byte>)
    ensures (a + b + c) + d == a + (b + (c + d))
  {
  }

  lemma Push<T>(a: seq<T>, x: T, b: seq<T>)
    ensures (a + [x]) + b == a + ([x] + b)
  {
  }

  lemma NoFields(s: seq<byte>, done: seq<Field>, depth: nat)
    ensures ReadFields(s, 0, done, depth) == Done(done + [], 0)
  {
    assert done + [] == done;
  }

  /** Reading one more field. */
  lemma FieldsStep(name: seq<byte>, value: seq<byte>, tail: seq<byte>, n: nat, done: seq<Field>, next: Field, depth: nat)
    requires n > 0 && ReadText(name + (value + tail)) == Done(next.name, |name|)
    requires ReadValue(value + tail, depth) == Done(next.value, |value|) && GetField(done, next.name).None?
    requires InsertField(done, next) == done + [next] && ReadFields(tail, n - 1, done + [next], depth).Done?
    ensures var r := ReadFields(tail, n - 1, done + [next], depth);
            ReadFields(name + (value + tail), n, done, depth) == Done(r.value, |name| + |value| + r.size)
  {
    hide ReadText, ReadValue;
    Drop(name, value + tail);
    Drop(value, tail);
  }

  /** In ascending order the next field is new and goes to the end. */
  lemma AppendField(done: seq<Field>, fields: seq<Field>, next: Field)
    requires Continues(done, fields) && fields != [] && next.name == fields[0].name
    ensures TextOk(next.name) && ValueOk(fields[0].value)
    ensures GetField(done, next.name).None? && InsertField(done, next) == done + [next] && Continues(done + [next], fields[1..])
  {
    hide TextOk, ValueOk, BytesLess;
    var all, after := done + fields, (done + [next]) + fields[1..];
    assert forall i :: 0 <= i < |all| ==> after[i].name == all[i].name;
    forall i | 0 <= i < |done|
      ensures BytesLess(done[i].name, next.name)
    {
      assert all[i] == done[i] && all[|done|] == fields[0];
    }
    InsertLast(done, next);
  }

  lemma {:induction false} InsertLast(done: seq<Field>, next: Field)
    requires forall i :: 0 <= i < |done| ==> BytesLess(done[i].name, next.name)
    ensures GetField(done, next.name).None? && InsertField(done, next) == done + [next]
  {
    if done != [] {
      FractionEmbeds(done[0].name, next.name);
      FractionEmbeds(next.name, done[0].name);
      InsertLast(done[1..], next);
      assert [done[0]] + (done[1..] + [next]) == done + [next];
    }
  }

  lemma HeaderRead(body: seq<byte>)
    ensures var s := Header() + body; s[..4] == MAGIC && Number(s, 4, 4) == 1 && s[8..] == body
  {
    Spans();
    var s := Header() + body;
    assert s[4..8] == Be(1, 4);
    NumberAt(s, 4, 4, 1);
  }

  /** Decoding what was encoded gives the document back, its NaNs canonical. */
  lemma RoundTrip(d: Document)
    requires DocumentOk(d) && Encode(d).Ok?
    ensures Decode(Encode(d).value) == Ok(CanonicalDocument(d))
  {
    hide ReadDocument, EncodeDocument, Number, DocumentOk, CanonicalDocument;
    var body := EncodeDocument(d, 0).value;
    HeaderRead(body);
    DocumentRoundTrip(d, 0, []);
    var s := Header() + body;
    assert s[9..] == body[1..] + [] && s[8] == body[0];
  }

  // ---------- no accepted prefixes ----------

  lemma TextExtends(s: seq<byte>, t: seq<byte>)
    requires ReadText(s).Done?
    ensures ReadText(s + t) == ReadText(s)
  {
    hide ReadVarint, ValidUtf8;
    VarintExtends(s, t);
    var r := ReadVarint(s);
    assert (s + t)[r.size..r.size + r.value] == s[r.size..r.size + r.value];
  }

  lemma CountExtends(s: seq<byte>, t: seq<byte>)
    requires ReadCount(s).Done?
    ensures ReadCount(s + t) == ReadCount(s)
  {
    VarintExtends(s, t);
  }

  lemma NumberExtends(s: seq<byte>, w: nat, t: seq<byte>)
    requires ReadNumber(s, w).Done?
    ensures ReadNumber(s + t, w) == ReadNumber(s, w)
  {
    assert (s + t)[1..1 + w] == s[1..1 + w];
  }

  lemma Later(s: seq<byte>, k: nat, t: seq<byte>)
    requires k <= |s|
    ensures (s + t)[k..] == s[k..] + t
  {
  }

  /** What a value is read from does not depend on the bytes after it. */
  lemma {:induction false} ValueExtends(s: seq<byte>, depth: nat, t: seq<byte>)
    requires ReadValue(s, depth).Done?
    ensures ReadValue(s + t, depth) == ReadValue(s, depth)
    decreases |s|, 1, 0
  {
    hide ReadNumber, ReadText, ReadCount;
    assert (s + t)[0] == s[0];
    Later(s, 1, t);
    match s[0]
    case 3 => NumberExtends(s, 8, t);
    case 4 => NumberExtends(s, 8, t);
    case 5 => TextExtends(s[1..], t);
    case 6 => ArrayExtends(s, depth, t);
    case 7 => DocumentExtends(s[1..], depth, t);
    case 8 => NumberExtends(s, 8, t);
    case 9 => NumberExtends(s, 16, t);
    case _ =>
  }

  lemma {:induction false} ArrayExtends(s: seq<byte>, depth: nat, t: seq<byte>)
    requires s != [] && ReadArray(s, depth).Done?
    ensures ReadArray(s + t, depth) == ReadArray(s, depth)
    decreases |s|, 0, 0
  {
    hide ReadCount, ReadValues;
    Later(s, 1, t);
    CountExtends(s[1..], t);
    var c := ReadCount(s[1..]);
    Later(s[1..], c.size, t);
    ValuesExtend(s[1..][c.size..], c.value, depth + 1, t);
  }

  lemma {:induction false} ValuesExtend(s: seq<byte>, n: nat, depth: nat, t: seq<byte>)
    requires ReadValues(s, n, depth).Done?
    ensures ReadValues(s + t, n, depth) == ReadValues(s, n, depth)
    decreases |s|, 2, n
  {
    hide ReadValue;
    if n > 0 {
      ValueExtends(s, depth, t);
      var k := ReadValue(s, depth).size;
      Later(s, k, t);
      ValuesExtend(s[k..], n - 1, depth, t);
    }
  }

  lemma {:induction false} DocumentExtends(s: seq<byte>, depth: nat, t: seq<byte>)
    requires ReadDocument(s, depth).Done?
    ensures ReadDocument(s + t, depth) == ReadDocument(s, depth)
    decreases |s|, 0, 0
  {
    hide ReadCount, ReadFields;
    Later(s, 16, t);
    CountExtends(s[16..], t);
    var c := ReadCount(s[16..]);
    Later(s[16..], c.size, t);
    FieldsExtend(s[16..][c.size..], c.value, [], depth + 1, t);
    assert (s + t)[0..16] == s[0..16];
  }

  lemma {:induction false} FieldsExtend(s: seq<byte>, n: nat, done: seq<Field>, depth: nat, t: seq<byte>)
    requires ReadFields(s, n, done, depth).Done?
    ensures ReadFields(s + t, n, done, depth) == ReadFields(s, n, done, depth)
    decreases |s|, 2, n
  {
    hide ReadText, ReadValue, InsertField;
    if n > 0 {
      TextExtends(s, t);
      var name := ReadText(s);
      Later(s, name.size, t);
      ValueExtends(s[name.size..], depth, t);
      var v := ReadValue(s[name.size..], depth);
      Later(s[name.size..], v.size, t);
      FieldsExtend(s[name.size..][v.size..], n - 1, InsertField(done, Field(name.value, v.value)), depth, t);
    }
  }

  /** Of two byte strings, one a strict prefix of the other, at most one is accepted. */
  lemma NoAcceptedPrefix(s: seq<byte>, k: nat)
    requires k < |s| && Decode(s).Ok?
    ensures Decode(s[..k]).Err?
  {
    hide ReadDocument, Number;
    if k >= 9 && ReadDocument(s[..k][9..], 0).Done? {
      assert s[..k][9..] + s[k..] == s[9..];
      DocumentExtends(s[..k][9..], 0, s[k..]);
    }
  }

  // ---------- what is encodable, and what is accepted ----------

  /** Collections are neither too deep nor too long. */
  ghost predicate FitsValue(v: Value, depth: nat) {
    match v
    case Array(values) => depth < MAX_DEPTH && |values| <= MAX_COUNT && forall i :: 0 <= i < |values| ==> FitsValue(values[i], depth + 1)
    case Nested(d) => FitsDocument(d, depth)
    case _ => true
  }

  ghost predicate FitsDocument(d: Document, depth: nat) {
    depth < MAX_DEPTH && |d.fields| <= MAX_COUNT && forall i :: 0 <= i < |d.fields| ==> FitsValue(d.fields[i].value, depth + 1)
  }

  lemma {:induction false} EncodesExactly(v: Value, depth: nat)
    ensures EncodeValue(v, depth).Ok? <==> FitsValue(v, depth)
    decreases v, 1
  {
    match v
    case Array(values) => ValuesEncode(values, depth + 1);
    case Nested(d) => DocumentEncodes(d, depth);
    case _ =>
  }

  lemma {:induction false} ValuesEncode(values: seq<Value>, depth: nat)
    ensures EncodeValues(values, depth).Ok? <==> forall i :: 0 <= i < |values| ==> FitsValue(values[i], depth)
    decreases values, 0
  {
    hide EncodeValue, FitsValue;
    if values != [] {
      EncodesExactly(values[0], depth);
      ValuesEncode(values[1..], depth);
      assert forall i :: 0 < i < |values| ==> values[i] == values[1..][i - 1];
    }
  }

  lemma {:induction false} DocumentEncodes(d: Document, depth: nat)
    ensures EncodeDocument(d, depth).Ok? <==> FitsDocument(d, depth)
    decreases d, 1
  {
    FieldsEncode(d.fields, depth + 1);
  }

  lemma {:induction false} FieldsEncode(fields: seq<Field>, depth: nat)
    ensures EncodeFields(fields, depth).Ok? <==> forall i :: 0 <= i < |fields| ==> FitsValue(fields[i].value, depth)
    decreases fields, 0
  {
    hide EncodeValue, FitsValue;
    if fields != [] {
      EncodesExactly(fields[0].value, depth);
      FieldsEncode(fields[1..], depth);
      assert forall i :: 0 < i < |fields| ==> fields[i] == fields[1..][i - 1];
    }
  }

  /** The decoder returns only values that a document can hold and that can be encoded at that depth. */
  lemma {:induction false} ValueAccepted(s: seq<byte>, depth: nat)
    requires ReadValue(s, depth).Done?
    ensures ValueOk(ReadValue(s, depth).value) && FitsValue(ReadValue(s, depth).value, depth)
    decreases |s|, 1, 0
  {
    hide ReadNumber, ReadText, ReadCount, TextOk;
    match s[0]
    case 6 =>
      var c := ReadCount(s[1..]);
      ValuesAccepted(s[1..][c.size..], c.value, depth + 1);
    case 7 => DocumentAccepted(s[1..], depth);
    case _ =>
  }

  lemma {:induction false} ValuesAccepted(s: seq<byte>, n: nat, depth: nat)
    requires ReadValues(s, n, depth).Done?
    ensures forall v :: v in ReadValues(s, n, depth).value ==> ValueOk(v) && FitsValue(v, depth)
    decreases |s|, 2, n
  {
    hide ReadValue, ValueOk, FitsValue;
    if n > 0 {
      ValueAccepted(s, depth);
      ValuesAccepted(s[ReadValue(s, depth).size..], n - 1, depth);
    }
  }

  lemma {:induction false} DocumentAccepted(s: seq<byte>, depth: nat)
    requires ReadDocument(s, depth).Done?
    ensures DocumentOk(ReadDocument(s, depth).value) && FitsDocument(ReadDocument(s, depth).value, depth)
    decreases |s|, 0, 0
  {
    hide ReadCount, ReadFields, Number, ValueOk, FitsValue, TextOk;
    var c := ReadCount(s[16..]);
    FieldsAccepted(s[16..][c.size..], c.value, [], depth + 1);
    var fields := ReadDocument(s, depth).value.fields;
    assert forall i :: 0 <= i < |fields| ==> fields[i] in fields && FieldOk(fields[i], depth + 1);
  }

  ghost predicate FieldOk(f: Field, depth: nat) {
    TextOk(f.name) && ValueOk(f.value) && FitsValue(f.value, depth)
  }

  lemma {:induction false} FieldsAccepted(s: seq<byte>, n: nat, done: seq<Field>, depth: nat)
    requires ReadFields(s, n, done, depth).Done?
    requires Ascending(done) && forall f :: f in done ==> FieldOk(f, depth)
    ensures Ascending(ReadFields(s, n, done, depth).value)
    ensures forall f :: f in ReadFields(s, n, done, depth).value ==> FieldOk(f, depth)
    decreases |s|, 2, n
  {
    hide ReadText, ReadValue, TextOk, ValueOk, FitsValue, InsertField, Ascending, GetField;
    if n > 0 {
      var name := ReadText(s);
      ValueAccepted(s[name.size..], depth);
      var v := ReadValue(s[name.size..], depth);
      InsertAscending(done, Field(name.value, v.value));
      FieldsAccepted(s[name.size..][v.size..], n - 1, InsertField(done, Field(name.value, v.value)), depth);
    }
  }

  /** A new name goes to its place. */
  lemma {:induction false} InsertAscending(fields: seq<Field>, f: Field)
    requires Ascending(fields) && GetField(fields, f.name).None?
    ensures Ascending(InsertField(fields, f))
    ensures forall x :: x in InsertField(fields, f) <==> x == f || x in fields
  {
    hide BytesLess;
    if fields != [] {
      var first, after := fields[0], InsertField(fields, f);
      FractionEmbeds(f.name, first.name);
      FractionEmbeds(first.name, f.name);
      InsertAscending(fields[1..], f);
      assert fields == [first] + fields[1..];
      forall j | 0 < j < |after|
        ensures BytesLess(after[0].name, after[j].name)
      {
        if BytesLess(f.name, first.name) {
          var x := fields[j - 1];
          FractionEmbeds(first.name, x.name);
          FractionEmbeds(f.name, x.name);
        } else {
          assert after[j] in InsertField(fields[1..], f);
          if after[j] != f {
            var i :| 0 <= i < |fields[1..]| && fields[1..][i] == after[j];
            assert fields[i + 1] == after[j];
          }
        }
      }
      assert forall i, j :: 0 < i < j < |after| ==> BytesLess(after[i].name, after[j].name);
    }
  }

  /** Every document that is decoded can be encoded, and that encoding decodes to it, its NaNs canonical. */
  lemma AcceptedEncodes(s: seq<byte>)
    requires Decode(s).Ok?
    ensures DocumentOk(Decode(s).value) && Encode(Decode(s).value).Ok?
    ensures Decode(Encode(Decode(s).value).value) == Ok(CanonicalDocument(Decode(s).value))
  {
    hide ReadDocument, EncodeDocument, FitsDocument, DocumentOk, Number, CanonicalDocument;
    var d := Decode(s).value;
    DocumentAccepted(s[9..], 0);
    DocumentEncodes(d, 0);
    RoundTrip(d);
  }

  // ---------- documents that come back bit by bit ----------

  /** No float in the value is a NaN other than the canonical one. */
  ghost predicate NansCanonical(v: Value)
    decreases v
  {
    match v
    case Float(bits) => IsNan(bits) ==> bits == CANONICAL_NAN
    case Array(values) => forall i :: 0 <= i < |values| ==> NansCanonical(values[i])
    case Nested(d) => forall i :: 0 <= i < |d.fields| ==> NansCanonical(d.fields[i].value)
    case _ => true
  }

  ghost predicate DocumentNansCanonical(d: Document) {
    forall i :: 0 <= i < |d.fields| ==> NansCanonical(d.fields[i].value)
  }

  lemma {:induction false} CanonicalSame(v: Value)
    ensures Canonical(v) == v <==> NansCanonical(v)
    decreases v, 1
  {
    match v
    case Array(values) => ValuesSame(values);
    case Nested(d) => FieldsSame(d.fields);
    case _ =>
  }

  lemma {:induction false} ValuesSame(values: seq<Value>)
    ensures CanonicalValues(values) == values <==> forall i :: 0 <= i < |values| ==> NansCanonical(values[i])
    decreases values, 0
  {
    hide Canonical, NansCanonical;
    if values != [] {
      CanonicalSame(values[0]);
      ValuesSame(values[1..]);
      var rest := CanonicalValues(values[1..]);
      assert values == [values[0]] + values[1..] && CanonicalValues(values)[1..] == rest;
      assert forall i :: 0 < i < |values| ==> values[i] == values[1..][i - 1];
    }
  }

  lemma {:induction false} FieldsSame(fields: seq<Field>)
    ensures CanonicalFields(fields) == fields <==> forall i :: 0 <= i < |fields| ==> NansCanonical(fields[i].value)
    decreases fields, 0
  {
    hide Canonical, NansCanonical;
    if fields != [] {
      CanonicalSame(fields[0].value);
      FieldsSame(fields[1..]);
      var rest := CanonicalFields(fields[1..]);
      assert fields == [fields[0]] + fields[1..] && CanonicalFields(fields)[1..] == rest;
      assert forall i :: 0 < i < |fields| ==> fields[i] == fields[1..][i - 1];
    }
  }

  /** A document comes back exactly as it was if and only if each NaN in it is the canonical one. */
  lemma SameDocument(d: Document)
    requires DocumentOk(d) && Encode(d).Ok?
    ensures Decode(Encode(d).value) == Ok(d) <==> DocumentNansCanonical(d)
  {
    hide Decode, Encode, Canonical, NansCanonical;
    RoundTrip(d);
    FieldsSame(d.fields);
  }

  lemma OneFloat(d: Document, bits: u64)
    requires d == Document(1, [Field([120], Float(bits))])
    ensures DocumentOk(d) && Encode(d).Ok?
  {
    assert [120][1..] == [];
    DocumentEncodes(d, 0);
  }

  /** A NaN with another payload comes back as a different document. */
  lemma PayloadLost(d: Document)
    requires d == Document(1, [Field([120], Float(0x7ff8_0000_0000_0001))])
    ensures DocumentOk(d) && Encode(d).Ok?
    ensures Decode(Encode(d).value).Ok? && Decode(Encode(d).value) != Ok(d)
  {
    hide Decode;
    OneFloat(d, 0x7ff8_0000_0000_0001);
    assert !NansCanonical(d.fields[0].value);
    SameDocument(d);
    RoundTrip(d);
  }

  // ---------- documents that come back equal ----------

  ghost predicate NoNan(v: Value)
    decreases v
  {
    match v
    case Float(bits) => !IsNan(bits)
    case Array(values) => forall i :: 0 <= i < |values| ==> NoNan(values[i])
    case Nested(d) => NoNanIn(d)
    case _ => true
  }

  ghost predicate NoNanIn(d: Document)
    decreases d
  {
    forall i :: 0 <= i < |d.fields| ==> NoNan(d.fields[i].value)
  }

  lemma {:induction false} CanonicalAt(values: seq<Value>, i: nat)
    requires i < |values|
    ensures CanonicalValues(values)[i] == Canonical(values[i])
  {
    if i > 0 {
      CanonicalAt(values[1..], i - 1);
    }
  }

  lemma {:induction false} CanonicalFieldAt(fields: seq<Field>, i: nat)
    requires i < |fields|
    ensures CanonicalFields(fields)[i].value == Canonical(fields[i].value)
  {
    if i > 0 {
      CanonicalFieldAt(fields[1..], i - 1);
    }
  }

  /** A value equals its canonical form if and only if it holds no NaN: no NaN equals itself. */
  lemma {:induction false} CanonicalEqual(v: Value)
    ensures EqualValues(Canonical(v), v) <==> NoNan(v)
    decreases v, 1
  {
    match v
    case Array(values) =>
      forall i | 0 <= i < |values|
        ensures EqualValues(CanonicalValues(values)[i], values[i]) <==> NoNan(values[i])
      {
        CanonicalAt(values, i);
        CanonicalEqual(values[i]);
      }
    case Nested(d) => CanonicalDocumentEqual(d);
    case _ =>
  }

  lemma {:induction false} CanonicalDocumentEqual(d: Document)
    ensures EqualDocuments(CanonicalDocument(d), d) <==> NoNanIn(d)
    decreases d, 0
  {
    forall i | 0 <= i < |d.fields|
      ensures EqualValues(CanonicalFields(d.fields)[i].value, d.fields[i].value) <==> NoNan(d.fields[i].value)
    {
      CanonicalFieldAt(d.fields, i);
      CanonicalEqual(d.fields[i].value);
    }
  }

  /** What is decoded is equal to the document, in the code's own `==`, if and only if the document holds no NaN. */
  lemma EqualAgain(d: Document)
    requires DocumentOk(d) && Encode(d).Ok?
    ensures Decode(Encode(d).value).Ok? && (EqualDocuments(Decode(Encode(d).value).value, d) <==> NoNanIn(d))
  {
    hide Decode, Encode;
    RoundTrip(d);
    CanonicalDocumentEqual(d);
  }

  /** The canonical NaN comes back bit by bit, and yet the documents are not equal. */
  lemma CanonicalNanUnequal(d: Document)
    requires d == Document(1, [Field([120], Float(CANONICAL_NAN))])
    ensures DocumentOk(d) && Encode(d).Ok?
    ensures Decode(Encode(d).value) == Ok(d) && !EqualDocuments(Decode(Encode(d).value).value, d)
  {
    hide Decode;
    OneFloat(d, CANONICAL_NAN);
    assert !NoNan(d.fields[0].value);
    SameDocument(d);
    EqualAgain(d);
  }
}
