/** The codec as the source runs it: bytes pushed one part after another, and a position that advances. */
module NbfCodec {
  import opened Base
  import opened Bytes
  import opened Documents
  import opened IndexKeys
  import opened Nbf
  import opened Varints

  // ---------- encoder ----------

  function Pushed(output: seq<byte>, more: Result<seq<byte>>): Result<seq<byte>> {
    match more
    case Ok(bytes) => Ok(output + bytes)
    case Err(e) => Err(e)
  }

  method PushValue(v: Value, output: seq<byte>, depth: nat) returns (r: Result<seq<byte>>)
    ensures r == Pushed(output, EncodeValue(v, depth))
    decreases v, 1
  {
    hide Leb, Be;
    match v
    case Null => return Ok(output + [0]);
    case Boolean(flag) => return Ok(output + [if flag then 2 else 1]);
    case Int(x) => return Ok(output + ([3] + Be(Unsigned(x), 8)));
    case Float(bits) => return Ok(output + ([4] + Be(if IsNan(bits) then CANONICAL_NAN else bits, 8)));
    case Str(t) =>
      var out := PushText(t, output + [5]);
      Join3(output, [5], TextBytes(t));
      return Ok(out);
    case Array(values) => r := PushArray(values, output, depth);
    case Nested(d) => r := PushDocument(d, output, depth);
    case Timestamp(x) => return Ok(output + ([8] + Be(Unsigned(x), 8)));
    case Ref(id) => return Ok(output + ([9] + Be(id, 16)));
  }

  method PushText(t: Text, output: seq<byte>) returns (out: seq<byte>)
    ensures out == output + TextBytes(t)
  {
    out := WriteVarint(|t|, output);
    Join3(output, Leb(|t|), t);
    out := out + t;
  }

  lemma Join3(a: seq<byte>, b: seq<byte>, c: seq<byte>)
    ensures (a + b) + c == a + (b + c)
  {
  }

  method PushArray(values: seq<Value>, output: seq<byte>, depth: nat) returns (r: Result<seq<byte>>)
    ensures r == Pushed(output, EncodeValue(Array(values), depth))
    decreases values, 1
  {
    hide Leb, EncodeValues;
    if depth >= MAX_DEPTH || |values| > MAX_COUNT {
      return Err(InvalidArgument);
    }
    var out := WriteVarint(|values|, output + [6]);
    ghost var head := out;
    var i := 0;
    assert values[0..] == values;
    while i < |values|
      invariant i <= |values|
      invariant Pushed(head, EncodeValues(values, depth + 1)) == Pushed(out, EncodeValues(values[i..], depth + 1))
    {
      ValuesStep(out, values, i, depth + 1);
      out :- PushValue(values[i], out, depth + 1);
      i := i + 1;
    }
    ValuesEnd(out, values, depth + 1);
    if EncodeValues(values, depth + 1).Ok? {
      Join3(output, [6], Leb(|values|));
      Join3(output, [6] + Leb(|values|), EncodeValues(values, depth + 1).value);
    }
    return Ok(out);
  }

  lemma ValuesStep(out: seq<byte>, values: seq<Value>, i: nat, depth: nat)
    requires i < |values|
    ensures Pushed(out, EncodeValues(values[i..], depth)) == match EncodeValue(values[i], depth)
              case Err(e) => Err(e)
              case Ok(bytes) => Pushed(out + bytes, EncodeValues(values[i + 1..], depth))
  {
    assert values[i..][1..] == values[i + 1..];
    if EncodeValue(values[i], depth).Ok? && EncodeValues(values[i + 1..], depth).Ok? {
      Join3(out, EncodeValue(values[i], depth).value, EncodeValues(values[i + 1..], depth).value);
    }
  }

  lemma ValuesEnd(out: seq<byte>, values: seq<Value>, depth: nat)
    ensures Pushed(out, EncodeValues(values[|values|..], depth)) == Ok(out)
  {
    assert values[|values|..] == [] && out + [] == out;
  }

  method PushDocument(d: Document, output: seq<byte>, depth: nat) returns (r: Result<seq<byte>>)
    ensures r == Pushed(output, EncodeDocument(d, depth))
    decreases d, 1
  {
    hide Leb, Be, EncodeFields;
    var fields := d.fields;
    if depth >= MAX_DEPTH || |fields| > MAX_COUNT {
      return Err(InvalidArgument);
    }
    var out := WriteVarint(|fields|, output + [7] + Be(d.id, 16));
    ghost var head := out;
    var i := 0;
    assert fields[0..] == fields;
    while i < |fields|
      invariant i <= |fields|
      invariant Pushed(head, EncodeFields(fields, depth + 1)) == Pushed(out, EncodeFields(fields[i..], depth + 1))
    {
      FieldsStep(out, fields, i, depth + 1);
      out := PushText(fields[i].name, out);
      out :- PushValue(fields[i].value, out, depth + 1);
      i := i + 1;
    }
    FieldsEnd(out, fields, depth + 1);
    if EncodeFields(fields, depth + 1).Ok? {
      HeadJoin(output, Be(d.id, 16), Leb(|fields|), EncodeFields(fields, depth + 1).value);
    }
    return Ok(out);
  }

  lemma HeadJoin(output: seq<byte>, id: seq<byte>, count: seq<byte>, fields: seq<byte>)
    ensures (output + [7] + id + count) + fields == output + ([7] + (id + count + fields))
  {
  }

  lemma FieldsStep(out: seq<byte>, fields: seq<Field>, i: nat, depth: nat)
    requires i < |fields|
    ensures Pushed(out, EncodeFields(fields[i..], depth)) == match EncodeValue(fields[i].value, depth)
              case Err(e) => Err(e)
              case Ok(bytes) => Pushed(out + TextBytes(fields[i].name) + bytes, EncodeFields(fields[i + 1..], depth))
  {
    assert fields[i..][1..] == fields[i + 1..];
    var name := TextBytes(fields[i].name);
    if EncodeValue(fields[i].value, depth).Ok? && EncodeFields(fields[i + 1..], depth).Ok? {
      var value, rest := EncodeValue(fields[i].value, depth).value, EncodeFields(fields[i + 1..], depth).value;
      Join3(out, name, value);
      Join3(out, name + value, rest);
    }
  }

  lemma FieldsEnd(out: seq<byte>, fields: seq<Field>, depth: nat)
    ensures Pushed(out, EncodeFields(fields[|fields|..], depth)) == Ok(out)
  {
    assert fields[|fields|..] == [] && out + [] == out;
  }

  /** `encode`. */
  method EncodeBytes(d: Document) returns (r: Result<seq<byte>>)
    ensures r == Encode(d)
  {
    r := PushDocument(d, MAGIC + Be(1, 4), 0);
  }

  // ---------- decoder ----------

  /** A read that started at `start` ended as the specification says. */
  predicate Agrees<T(==)>(r: Result<T>, p: Parse<T>, start: nat, position: nat) {
    match p
    case Fail => r == Err(Corruption)
    case Done(v, k) => r == Ok(v) && position == start + k
  }

  class Decoder {
    const input: seq<byte>
    var position: nat

    ghost predicate Valid()
      reads this
    {
      position <= |input|
    }

    constructor (input: seq<byte>)
      ensures Valid() && this.input == input && position == 0
    {
      this.input := input;
      position := 0;
    }

    /** What is left to read. */
    function Rest(): seq<byte>
      requires Valid()
      reads this
    {
      input[position..]
    }

    method ReadVarint() returns (r: Result<u64>)
      requires Valid()
      modifies this
      ensures Valid() && position >= old(position) && Agrees(r, Varints.ReadVarint(old(Rest())), old(position), position)
    {
      var parsed := ParseVarint(input[position..]);
      match parsed
      case Fail => return Err(Corruption);
      case Done(value, consumed) =>
        position := position + consumed;
        return Ok(value);
    }

    method ReadText() returns (r: Result<Text>)
      requires Valid()
      modifies this
      ensures Valid() && position >= old(position) && Agrees(r, Nbf.ReadText(old(Rest())), old(position), position)
      ensures r.Ok? ==> position > old(position)
    {
      hide Varints.ReadVarint, ValidUtf8;
      var start := position;
      var length :- ReadVarint();
      if length > |input| - position {
        return Err(Corruption);
      }
      var bytes := input[position..position + length];
      assert bytes == input[start..][position - start..position - start + length];
      position := position + length;
      return if ValidUtf8(bytes) then Ok(bytes) else Err(Corruption);
    }

    method ReadCount() returns (r: Result<nat>)
      requires Valid()
      modifies this
      ensures Valid() && position >= old(position) && Agrees(r, Nbf.ReadCount(old(Rest())), old(position), position)
    {
      hide Varints.ReadVarint;
      var count :- ReadVarint();
      return if count > MAX_COUNT || count > |input| - position then Err(Corruption) else Ok(count);
    }

    /** The `w` bytes after a tag that was just read. */
    method ReadNumber(w: nat) returns (r: Result<nat>)
      requires Valid() && position > 0
      modifies this
      ensures Valid() && position >= old(position)
      ensures Agrees(r, Nbf.ReadNumber(input[old(position) - 1..], w), old(position) - 1, position)
    {
      if |input| - position < w {
        return Err(Corruption);
      }
      assert input[position - 1..][1..1 + w] == input[position..position + w];
      r := Ok(Number(input, position, w));
      position := position + w;
    }

    method ReadValue(depth: nat) returns (r: Result<Value>)
      requires Valid()
      modifies this
      ensures Valid() && position >= old(position) && Agrees(r, Nbf.ReadValue(old(Rest()), depth), old(position), position)
      ensures r.Ok? ==> position > old(position)
      decreases |input| - position, 1, 0
    {
      hide Nbf.ReadNumber, Nbf.ReadText, Nbf.ReadArray, Nbf.ReadDocument, Number;
      Spans();
      if position == |input| {
        return Err(Corruption);
      }
      var tag := input[position];
      ghost var s := Rest();
      assert s[1..] == input[position + 1..] && s[0] == tag;
      position := position + 1;
      match tag
      case 0 => return Ok(Null);
      case 1 => return Ok(Boolean(false));
      case 2 => return Ok(Boolean(true));
      case 3 =>
        var x :- ReadNumber(8);
        return Ok(Int(Signed(x)));
      case 4 =>
        var x :- ReadNumber(8);
        return Ok(Float(x));
      case 5 =>
        var t :- ReadText();
        return Ok(Str(t));
      case 6 => r := ReadArray(depth);
      case 7 =>
        var d :- ReadDocument(depth);
        return Ok(Nested(d));
      case 8 =>
        var x :- ReadNumber(8);
        return Ok(Timestamp(Signed(x)));
      case 9 =>
        var x :- ReadNumber(16);
        return Ok(Ref(x));
      case _ => return Err(Corruption);
    }

    /** An array after its tag. */
    method ReadArray(depth: nat) returns (r: Result<Value>)
      requires Valid() && position > 0
      modifies this
      ensures Valid() && position >= old(position)
      ensures Agrees(r, Nbf.ReadArray(input[old(position) - 1..], depth), old(position) - 1, position)
      decreases |input| - position, 2, 0
    {
      hide Nbf.ReadCount, Nbf.ReadValues, Nbf.ReadValue;
      ghost var start := position;
      assert input[position - 1..][1..] == input[position..];
      if depth >= MAX_DEPTH {
        return Err(Corruption);
      }
      var count :- ReadCount();
      ghost var body := position;
      assert input[start..][body - start..] == input[body..];
      var values := [];
      var i := 0;
      ValuesFrom([], 0, Nbf.ReadValues(Rest(), count, depth + 1));
      while i < count
        invariant i <= count && Valid() && position >= body
        invariant Nbf.ReadValues(input[body..], count, depth + 1)
                  == AfterValues(values, position - body, Nbf.ReadValues(Rest(), count - i, depth + 1))
      {
        ValuesRead(values, position - body, Rest(), count - i, depth + 1);
        ghost var before := position;
        var v :- ReadValue(depth + 1);
        assert input[before..][position - before..] == input[position..];
        values := values + [v];
        i := i + 1;
      }
      ValuesDone(values, position - body, Rest(), depth + 1);
      return Ok(Array(values));
    }

    /** A document after its tag. */
    method ReadDocument(depth: nat) returns (r: Result<Document>)
      requires Valid()
      modifies this
      ensures Valid() && position >= old(position) && Agrees(r, Nbf.ReadDocument(old(Rest()), depth), old(position), position)
      decreases |input| - position, 2, 0
    {
      hide Nbf.ReadCount, Nbf.ReadFields, Nbf.ReadText, Nbf.ReadValue, FromBe;
      Spans();
      ghost var start := position;
      if depth >= MAX_DEPTH || |input| - position < 16 {
        return Err(Corruption);
      }
      assert input[start..][0..16] == input[position..position + 16] && input[start..][16..] == input[start + 16..];
      var id := Number(input, position, 16);
      position := position + 16;
      var count :- ReadCount();
      assert input[start + 16..][position - start - 16..] == input[position..];
      var fields :- ReadFields(count, depth + 1);
      return Ok(Document(id, fields));
    }

    /** The fields of a document, each name once. */
    method ReadFields(count: nat, depth: nat) returns (r: Result<seq<Field>>)
      requires Valid()
      modifies this
      ensures Valid() && position >= old(position)
      ensures Agrees(r, Nbf.ReadFields(old(Rest()), count, [], depth), old(position), position)
      decreases |input| - position, 2, 0
    {
      hide Nbf.ReadFields, Nbf.ReadText, Nbf.ReadValue, GetField, InsertField;
      ghost var start := position;
      var fields := [];
      var i := 0;
      FieldsFrom(0, Nbf.ReadFields(Rest(), count, [], depth));
      while i < count
        invariant i <= count && Valid() && position >= start
        invariant Nbf.ReadFields(input[start..], count, [], depth)
                  == AfterFields(position - start, Nbf.ReadFields(Rest(), count - i, fields, depth))
      {
        FieldsRead(position - start, Rest(), count - i, fields, depth);
        ghost var before := position;
        var name :- ReadText();
        assert input[before..][position - before..] == input[position..];
        ghost var between := position;
        var v :- ReadValue(depth);
        assert input[between..][position - between..] == input[position..];
        if GetField(fields, name).Some? {
          return Err(Corruption);
        }
        fields := InsertField(fields, Field(name, v));
        i := i + 1;
      }
      FieldsDone(position - start, Rest(), fields, depth);
      return Ok(fields);
    }
  }

  function AfterValues(done: seq<Value>, size: nat, rest: Parse<seq<Value>>): Parse<seq<Value>> {
    match rest
    case Fail => Fail
    case Done(values, k) => Done(done + values, size + k)
  }

  lemma ValuesFrom(done: seq<Value>, size: nat, rest: Parse<seq<Value>>)
    ensures AfterValues([], 0, rest) == rest
  {
    if rest.Done? {
      assert [] + rest.value == rest.value;
    }
  }

  lemma ValuesRead(done: seq<Value>, size: nat, s: seq<byte>, n: nat, depth: nat)
    requires n > 0
    ensures AfterValues(done, size, Nbf.ReadValues(s, n, depth)) == match Nbf.ReadValue(s, depth)
              case Fail => Fail
              case Done(v, k) => AfterValues(done + [v], size + k, Nbf.ReadValues(s[k..], n - 1, depth))
  {
    hide Nbf.ReadValue;
    var first := Nbf.ReadValue(s, depth);
    if first.Done? && Nbf.ReadValues(s[first.size..], n - 1, depth).Done? {
      var rest := Nbf.ReadValues(s[first.size..], n - 1, depth).value;
      assert done + ([first.value] + rest) == (done + [first.value]) + rest;
    }
  }

  lemma ValuesDone(done: seq<Value>, size: nat, s: seq<byte>, depth: nat)
    ensures AfterValues(done, size, Nbf.ReadValues(s, 0, depth)) == Done(done, size)
  {
    assert done + [] == done;
  }

  function AfterFields(size: nat, rest: Parse<seq<Field>>): Parse<seq<Field>> {
    match rest
    case Fail => Fail
    case Done(fields, k) => Done(fields, size + k)
  }

  lemma FieldsFrom(size: nat, rest: Parse<seq<Field>>)
    ensures AfterFields(0, rest) == rest
  {
  }

  lemma FieldsRead(size: nat, s: seq<byte>, n: nat, fields: seq<Field>, depth: nat)
    requires n > 0
    ensures AfterFields(size, Nbf.ReadFields(s, n, fields, depth)) == match Nbf.ReadText(s)
              case Fail => Fail
              case Done(name, k) =>
                match Nbf.ReadValue(s[k..], depth)
                case Fail => Fail
                case Done(v, m) =>
                  if GetField(fields, name).Some? then Fail
                  else AfterFields(size + k + m, Nbf.ReadFields(s[k..][m..], n - 1, InsertField(fields, Field(name, v)), depth))
  {
    hide Nbf.ReadText, Nbf.ReadValue, GetField, InsertField;
  }

  lemma FieldsDone(size: nat, s: seq<byte>, fields: seq<Field>, depth: nat)
    ensures AfterFields(size, Nbf.ReadFields(s, 0, fields, depth)) == Done(fields, size)
  {
  }

  /** `decode`. */
  method DecodeBytes(bytes: seq<byte>) returns (r: Result<Document>)
    ensures r == Decode(bytes)
  {
    hide Nbf.ReadDocument, FromBe;
    if |bytes| < 4 || bytes[..4] != MAGIC || |bytes| < 8 {
      return Err(Corruption);
    }
    if Number(bytes, 4, 4) != 1 {
      return Err(Unsupported);
    }
    if |bytes| == 8 || bytes[8] != 7 {
      return Err(Corruption);
    }
    var decoder := new Decoder(bytes);
    decoder.position := 9;
    var d :- decoder.ReadDocument(0);
    return if decoder.position < |bytes| then Err(Corruption) else Ok(d);
  }
}
