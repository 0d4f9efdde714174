/** The file formats byte by byte, as their documents lay them out. */
module Formats {
  import opened Base
  import opened Bytes
  import opened Checksum
  import opened Documents
  import opened IndexKeys
  import opened Varints
  import P = Pages
  import PageLaws
  import WalCodec
  import Snapshot
  import SnapshotLaws
  import Nbf
  import Evaluate
  import Arena
  import CodedLists
  import Leaves

  predicate IsAscii(text: string) {
    forall i :: 0 <= i < |text| ==> text[i] as int < 128
  }

  function Ascii(text: string): (s: seq<byte>)
    requires IsAscii(text)
    ensures |s| == |text| && forall i :: 0 <= i < |s| ==> s[i] == text[i] as int
  {
    seq(|text|, i requires 0 <= i < |text| => text[i] as int)
  }

  /** The unsigned number that these bytes spell, most significant byte first. */
  function Value(s: seq<byte>): nat {
    if s == [] then 0 else s[0] * Pow2(8 * (|s| - 1)) + Value(s[1..])
  }

  lemma {:induction false} ValuePush(s: seq<byte>, b: byte)
    ensures Value(s + [b]) == 256 * Value(s) + b
  {
    if s == [] {
      assert (s + [b])[1..] == [];
    } else {
      ValuePush(s[1..], b);
      assert (s + [b])[1..] == s[1..] + [b];
      EightBits(8 * (|s| - 1));
      Scaled(s[0], Pow2(8 * (|s| - 1)));
    }
  }

  lemma EightBits(k: nat)
    ensures Pow2(k + 8) == 256 * Pow2(k)
  {
    assert Pow2(k + 2) == 4 * Pow2(k) && Pow2(k + 4) == 4 * Pow2(k + 2) && Pow2(k + 6) == 4 * Pow2(k + 4);
  }

  lemma Scaled(b: nat, p: nat)
    ensures b * (256 * p) == 256 * (b * p)
  {
  }

  lemma {:induction false} BigEndian(s: seq<byte>)
    ensures FromBe(s) == Value(s)
  {
    if s != [] {
      BigEndian(s[..|s| - 1]);
      ValuePush(s[..|s| - 1], s[|s| - 1]);
      assert s[..|s| - 1] + [s[|s| - 1]] == s;
    }
  }

  /** The field of `w` bytes at `at` spells `x`. */
  predicate Field(bytes: seq<byte>, at: nat, w: nat, x: nat) {
    at + w <= |bytes| && Value(bytes[at..at + w]) == x
  }

  lemma FieldIs(bytes: seq<byte>, at: nat, w: nat)
    requires at + w <= |bytes|
    ensures Field(bytes, at, w, Number(bytes, at, w))
  {
    BigEndian(bytes[at..at + w]);
  }

  lemma Magics()
    ensures P.MAGIC == Ascii("NVPG") && WalCodec.MAGIC == Ascii("NVWL") && Snapshot.MAGIC == Ascii("NVIX") && Nbf.MAGIC == Ascii("NOVA")
  {
  }

  /** The name of the id, and what joins the segments of a path. */
  lemma Names()
    ensures Evaluate.ID_PATH == [Ascii("_id")] && [DOT] == Ascii(".")
  {
    assert Evaluate.ID_PATH[0] == Ascii("_id");
  }

  // ---------- pages ----------

  /** The header of a page (docs/page-format.md). */
  ghost predicate PageHeader(image: seq<byte>, id: nat, slots: seq<P.Slot>) {
    && |image| == 4096 && image[..4] == P.MAGIC && Field(image, 4, 2, 1) && Field(image, 6, 2, 32) && Field(image, 8, 8, id)
    && Field(image, 16, 4, Crc32(image, 16, 20))
    && Field(image, 20, 2, |slots|) && Field(image, 22, 2, LiveCount(slots))
    && Field(image, 24, 2, 32 + 4 * |slots|) && RecordBytes(slots) <= 4096 && Field(image, 26, 2, 4096 - RecordBytes(slots)) && Field(image, 28, 4, 0)
  }

  ghost function LiveCount(slots: seq<P.Slot>): nat {
    |set i | 0 <= i < |slots| && slots[i].Some?|
  }

  function RecordBytes(slots: seq<P.Slot>): nat {
    if slots == [] then 0
    else RecordBytes(slots[..|slots| - 1]) + match slots[|slots| - 1] case None => 0 case Some(record) => |record|
  }

  /** A directory entry: where the record stands and how long it is, or the mark of a deleted slot. */
  ghost predicate DirectoryEntry(image: seq<byte>, i: nat, slot: P.Slot) {
    match slot
    case None => Field(image, 32 + 4 * i, 2, 0xffff) && Field(image, 34 + 4 * i, 2, 0)
    case Some(record) => exists at :: RecordAt(image, i, record, at)
  }

  ghost predicate RecordAt(image: seq<byte>, i: nat, record: seq<byte>, at: nat) {
    && Field(image, 32 + 4 * i, 2, at) && Field(image, 34 + 4 * i, 2, |record|)
    && at + |record| <= |image| && image[at..at + |record|] == record
  }

  lemma {:induction false} LiveCounts(slots: seq<P.Slot>)
    ensures P.Live(slots) == LiveCount(slots)
  {
    if slots != [] {
      var n := |slots| - 1;
      var front := slots[..n];
      LiveCounts(front);
      var all, before := set i | 0 <= i < |slots| && slots[i].Some?, set i | 0 <= i < |front| && front[i].Some?;
      assert all == before + if slots[n].Some? then {n} else {};
    }
  }

  lemma {:induction false} PayloadBytes(slots: seq<P.Slot>)
    ensures |P.Payload(slots)| == RecordBytes(slots)
  {
    if slots != [] {
      PayloadBytes(slots[..|slots| - 1]);
    }
  }

  lemma PageLayout(p: P.Page)
    requires P.Fits(p.slots)
    ensures PageHeader(P.Image(p), p.id, p.slots)
    ensures forall i :: 0 <= i < |p.slots| ==> DirectoryEntry(P.Image(p), i, p.slots[i])
  {
    hide P.Image, P.Payload, P.Live, Crc32, Number, Value, RecordBytes, DirectoryEntry;
    var image := P.Image(p);
    PageNumbers(p);
    LiveCounts(p.slots);
    PayloadBytes(p.slots);
    FieldIs(image, 4, 2);
    FieldIs(image, 6, 2);
    FieldIs(image, 8, 8);
    FieldIs(image, 16, 4);
    FieldIs(image, 20, 2);
    FieldIs(image, 22, 2);
    FieldIs(image, 24, 2);
    FieldIs(image, 26, 2);
    FieldIs(image, 28, 4);
    forall i | 0 <= i < |p.slots|
      ensures DirectoryEntry(image, i, p.slots[i])
    {
      SlotLayout(p, i);
    }
  }

  lemma PageNumbers(p: P.Page)
    requires P.Fits(p.slots)
    ensures var image, slots := P.Image(p), p.slots;
            && image[..4] == P.MAGIC && Number(image, 4, 2) == 1 && Number(image, 6, 2) == 32 && Number(image, 8, 8) == p.id
            && Number(image, 16, 4) == Crc32(image, 16, 20) && Number(image, 20, 2) == |slots| && Number(image, 22, 2) == P.Live(slots)
            && Number(image, 24, 2) == 32 + 4 * |slots| && Number(image, 26, 2) == 4096 - |P.Payload(slots)| && Number(image, 28, 4) == 0
  {
    hide Crc32, P.Body, P.Live, P.Payload, Be, FromBe, P.Front;
    Spans();
    var image, slots := P.Image(p), p.slots;
    PageLaws.HeaderParts(p);
    PageLaws.FrontNumbers(image, p);
    PageLaws.BackNumbers(image, |slots|, P.Live(slots), 32 + 4 * |slots|, P.Start(slots));
    NumberAt(image, 16, 4, Crc32(P.Sealed(p, 0), 16, 20));
    ChecksumSame(P.Sealed(p, 0), image, 16, 20);
    ZeroNumber();
    NumberAt(image, 28, 4, 0);
  }

  lemma ZeroNumber()
    ensures Zeros(4) == Be(0, 4) && Zeros(2) == Be(0, 2)
  {
  }

  lemma SlotLayout(p: P.Page, i: nat)
    requires P.Fits(p.slots) && i < |p.slots|
    ensures DirectoryEntry(P.Image(p), i, p.slots[i])
  {
    hide P.Image, P.Payload, Value;
    var image, start := P.Image(p), P.Start(p.slots[..i + 1]);
    PageLaws.ImageSlot(p, i);
    PageLaws.EntryNumbers(image, P.HEADER + P.SLOT * i, p.slots[i], start);
    FieldIs(image, 32 + 4 * i, 2);
    FieldIs(image, 34 + 4 * i, 2);
    if p.slots[i].Some? {
      assert RecordAt(image, i, p.slots[i].value, start);
    }
  }

  // ---------- the log ----------

  /** The tags of docs/wal-format.md. */
  predicate LogTag(operation: WalCodec.Operation, tag: byte) {
    || (tag == 0 && operation.Begin?) || (tag == 1 && operation.PageWrite?) || (tag == 2 && operation.Commit?)
    || (tag == 3 && operation.Abort?) || (tag == 4 && operation.Checkpoint?)
  }

  lemma RecordLayout(record: WalCodec.LogRecord)
    requires WalCodec.EncodeRecord(record).Ok?
    ensures var bytes, payload := WalCodec.EncodeRecord(record).value, WalCodec.Payload(record.operation).value;
            && |bytes| == 36 + |payload| && bytes[36..] == payload
            && bytes[..4] == WalCodec.MAGIC && Field(bytes, 4, 2, 1) && LogTag(record.operation, bytes[6]) && bytes[7] == 0
            && Field(bytes, 8, 4, |payload|) && Field(bytes, 12, 8, record.lsn) && Field(bytes, 20, 8, record.transactionId)
            && Field(bytes, 28, 4, Crc32(bytes, 28, 32)) && Field(bytes, 32, 4, 0)
    ensures record.operation.PageWrite? ==>
              var payload := WalCodec.Payload(record.operation).value;
              |payload| == 8 + 4096 && Field(payload, 0, 8, record.operation.pageId) && payload[8..] == P.Image(record.operation.page)
    ensures !record.operation.PageWrite? ==> WalCodec.Payload(record.operation).value == []
  {
    hide P.Image, Crc32, Number, Value, FromBe, Be, WalCodec.Header;
    var payload := WalCodec.Payload(record.operation).value;
    var crc := Crc32(WalCodec.Unsealed(record, payload, 0), 28, 32);
    var bytes := WalCodec.Unsealed(record, payload, crc);
    var header := WalCodec.Header(WalCodec.Tag(record.operation), |payload|, record.lsn, record.transactionId, crc);
    assert [] + header + payload == bytes;
    AtPart([], header, payload);
    WalCodec.HeaderNumbers(bytes, WalCodec.Tag(record.operation), |payload|, record.lsn, record.transactionId, crc);
    WalCodec.SealedAgree(record, payload, crc);
    ChecksumSame(WalCodec.Unsealed(record, payload, 0), bytes, 28, 32);
    FieldIs(bytes, 4, 2);
    FieldIs(bytes, 8, 4);
    FieldIs(bytes, 12, 8);
    FieldIs(bytes, 20, 8);
    FieldIs(bytes, 28, 4);
    ZeroNumber();
    Spans();
    NumberAt(bytes, 32, 4, 0);
    FieldIs(bytes, 32, 4);
    if record.operation.PageWrite? {
      var id := Be(record.operation.pageId, 8);
      assert payload == [] + id + P.Image(record.operation.page);
      AtPart([], id, P.Image(record.operation.page));
      NumberAt(payload, 0, 8, record.operation.pageId);
      FieldIs(payload, 0, 8);
    }
  }

  // ---------- snapshots ----------

  lemma SnapshotLayout(max: nat, root: nat, nodes: seq<Arena.Node>)
    requires max <= Snapshot.MAX_U32 && root <= Snapshot.NONE_NODE && |nodes| <= Snapshot.NONE_NODE
    requires Snapshot.EncodeTree(max, root, nodes).Ok?
    ensures var bytes := Snapshot.EncodeTree(max, root, nodes).value;
            && |bytes| >= 40 && bytes[..4] == Snapshot.MAGIC && Field(bytes, 4, 2, 1) && Field(bytes, 6, 2, 40) && Field(bytes, 8, 4, max)
            && Field(bytes, 12, 4, 0) && Field(bytes, 16, 8, root) && Field(bytes, 24, 8, |nodes|)
            && Field(bytes, 32, 4, Crc32(bytes, 32, 36)) && Field(bytes, 36, 4, 0)
            && bytes[40..] == CodedLists.WriteAll(nodes, Snapshot.WriteNode)
  {
    hide Snapshot.Front, CodedLists.WriteAll, Be, FromBe, Crc32, Snapshot.LengthsFit, Number, Value;
    var bytes, body := Snapshot.EncodeTree(max, root, nodes).value, CodedLists.WriteAll(nodes, Snapshot.WriteNode);
    var crc := Crc32(Snapshot.Sealed(max, root, nodes, 0), 32, 36);
    SnapshotLaws.FrontRead(bytes, max, root, |nodes|, crc, body);
    ChecksumSame(Snapshot.Sealed(max, root, nodes, 0), bytes, 32, 36);
    FieldIs(bytes, 4, 2);
    FieldIs(bytes, 6, 2);
    FieldIs(bytes, 8, 4);
    FieldIs(bytes, 12, 4);
    FieldIs(bytes, 16, 8);
    FieldIs(bytes, 24, 8);
    FieldIs(bytes, 32, 4);
    FieldIs(bytes, 36, 4);
  }

  /** The keys of docs/index-format.md. */
  lemma KeyLayout(key: IndexKey)
    requires Snapshot.KeyFits(key)
    ensures var bytes := Snapshot.WriteKey(key);
            match key
            case Int64(x) => bytes[0] == 0 && Signed64(bytes[1..], x)
            case Float64(bits) => |bytes| == 9 && bytes[0] == 1 && Field(bytes, 1, 8, bits)
            case String(t) => bytes[0] == 2 && Field(bytes, 1, 4, |t|) && bytes[5..] == t
            case Id(id) => |bytes| == 17 && bytes[0] == 3 && Field(bytes, 1, 16, id)
  {
    hide Be, FromBe, Value;
    Spans();
    var bytes := Snapshot.WriteKey(key);
    match key
    case Int64(x) => NumberPayload(Nbf.Unsigned(x), 8);
    case Float64(bits) =>
      NumberPayload(bits, 8);
      assert bytes[1..9] == Be(bits, 8);
    case String(t) =>
      NumberPayload(|t|, 4);
      assert bytes[1..5] == Be(|t|, 4);
    case Id(id) =>
      NumberPayload(id, 16);
      assert bytes[1..17] == Be(id, 16);
  }

  /** What a node starts with: its tag, the next leaf or none as all ones, and how much follows. */
  lemma NodeLayout(node: Arena.Node)
    requires Snapshot.LengthsFit(node) && (node.LeafNode? && node.next.Some? ==> node.next.value < Span(8))
    ensures var bytes := Snapshot.WriteNode(node);
            match node
            case LeafNode(entries, next) =>
              && bytes[0] == 0 && Field(bytes, 1, 8, if next.Some? then next.value else 0xffff_ffff_ffff_ffff) && Field(bytes, 9, 4, |entries|)
              && bytes[13..] == CodedLists.WriteAll(entries, Snapshot.WriteEntry)
            case InnerNode(keys, children) =>
              && bytes[0] == 1 && Field(bytes, 1, 4, |keys|)
              && bytes[5..] == CodedLists.WriteAll(keys, Snapshot.WriteKey)
                               + (Be(|children|, 4) + CodedLists.WriteAll(children, Snapshot.WriteSlot))
  {
    hide Be, FromBe, Value, CodedLists.WriteAll;
    Spans();
    var bytes := Snapshot.WriteNode(node);
    match node
    case LeafNode(entries, next) =>
      var slot: nat := if next.Some? then next.value else 0xffff_ffff_ffff_ffff;
      NumberPayload(slot, 8);
      NumberPayload(|entries|, 4);
      assert bytes[1..9] == Be(slot, 8) && bytes[9..13] == Be(|entries|, 4);
    case InnerNode(keys, children) =>
      NumberPayload(|keys|, 4);
      assert bytes[1..5] == Be(|keys|, 4);
  }

  // ---------- documents ----------

  /** The tags of docs/nbf-format.md. */
  predicate ValueTag(v: Documents.Value, tag: byte) {
    match v
    case Null => tag == 0x00
    case Boolean(flag) => tag == if flag then 0x02 else 0x01
    case Int(_) => tag == 0x03
    case Float(_) => tag == 0x04
    case Str(_) => tag == 0x05
    case Array(_) => tag == 0x06
    case Nested(_) => tag == 0x07
    case Timestamp(_) => tag == 0x08
    case Ref(_) => tag == 0x09
  }

  /** Two's complement. */
  predicate Signed64(payload: seq<byte>, x: i64) {
    |payload| == 8 && Value(payload) == if x < 0 then x + 0x1_0000_0000_0000_0000 else x
  }

  /** The payload of a value without parts. */
  ghost predicate ScalarPayload(v: Documents.Value, payload: seq<byte>) {
    match v
    case Null => payload == []
    case Boolean(_) => payload == []
    case Int(x) => Signed64(payload, x)
    case Float(bits) => |payload| == 8 && Value(payload) == if IsNan(bits) then 0x7ff8_0000_0000_0000 else bits
    case Str(t) => payload == Leb(|t|) + t
    case Timestamp(x) => Signed64(payload, x)
    case Ref(id) => |payload| == 16 && Value(payload) == id
    case _ => true
  }

  lemma ValueLayout(v: Documents.Value, depth: nat)
    requires Nbf.EncodeValue(v, depth).Ok?
    ensures var bytes := Nbf.EncodeValue(v, depth).value; ValueTag(v, bytes[0]) && ScalarPayload(v, bytes[1..])
  {
    hide Be, FromBe, Value;
    Spans();
    match v
    case Int(x) => NumberPayload(Nbf.Unsigned(x), 8);
    case Float(bits) => NumberPayload(Nbf.CanonicalBits(bits), 8);
    case Timestamp(x) => NumberPayload(Nbf.Unsigned(x), 8);
    case Ref(id) => NumberPayload(id, 16);
    case _ =>
  }

  lemma NumberPayload(x: nat, w: nat)
    requires x < Span(w)
    ensures Value(Be(x, w)) == x
  {
    BeRoundTrip(x, w);
    BigEndian(Be(x, w));
  }

  /** Header, root tag, id and field count of an encoded document. */
  lemma DocumentLayout(d: Document)
    requires Nbf.Encode(d).Ok?
    ensures var bytes := Nbf.Encode(d).value;
            && bytes[..4] == Nbf.MAGIC && Field(bytes, 4, 4, 1) && bytes[8] == 0x07 && Field(bytes, 9, 16, d.id)
            && |bytes| >= 25 && Leb(|d.fields|) <= bytes[25..]
  {
    hide Be, FromBe, Value, Leb, Nbf.EncodeFields;
    var fields := Nbf.EncodeFields(d.fields, 1).value;
    var bytes := Nbf.Encode(d).value;
    Spans();
    NumberPayload(1, 4);
    NumberPayload(d.id, 16);
    assert bytes == Nbf.MAGIC + Be(1, 4) + ([7] + (Be(d.id, 16) + Leb(|d.fields|) + fields));
    assert bytes[4..8] == Be(1, 4) && bytes[9..25] == Be(d.id, 16) && bytes[25..] == Leb(|d.fields|) + fields;
  }

  // ---------- limits ----------

  lemma Limits()
    ensures Snapshot.MAX_STRING == 16 * 1024 * 1024 && Nbf.MAX_COUNT == 1024 * 1024 && Nbf.MAX_DEPTH == 254 && MAX_VARINT_BYTES == 10
  {
  }
}
