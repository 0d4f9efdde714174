/** The checksummed snapshot file of an index. */
module Snapshot {
  import opened Base
  import opened IndexKeys
  import opened Bytes
  import opened Checksum
  import opened Varints
  import opened CodedLists
  import opened Leaves
  import opened TreeModel
  import opened Arena
  import opened StoredTree
  import Nbf
  import TreeVerify

  const MAGIC: seq<byte> := [0x4e, 0x56, 0x49, 0x58]
  const HEADER_SIZE: nat := 40
  const NONE_NODE: nat := 0xffff_ffff_ffff_ffff
  const MAX_STRING: nat := 0x100_0000
  const MAX_U32: nat := 0xffff_ffff

  // ---------- writing ----------

  function WriteId(id: NovaId): seq<byte> {
    Be(id, 16)
  }

  function WriteSlot(slot: nat): seq<byte> {
    Be(slot, 8)
  }

  function WriteKey(key: IndexKey): (s: seq<byte>)
    ensures s != []
  {
    match key
    case Int64(v) => [0] + Be(Nbf.Unsigned(v), 8)
    case Float64(bits) => [1] + Be(bits, 8)
    case String(t) => [2] + (Be(|t|, 4) + t)
    case Id(id) => [3] + Be(id, 16)
  }

  function WriteEntry(e: Entry): seq<byte> {
    WriteKey(e.key) + (Be(|e.ids|, 4) + WriteAll(e.ids, WriteId))
  }

  function WriteNode(node: Node): seq<byte> {
    match node
    case LeafNode(entries, next) =>
      [0] + (Be(if next.Some? then next.value else NONE_NODE, 8) + (Be(|entries|, 4) + WriteAll(entries, WriteEntry)))
    case InnerNode(keys, children) =>
      [1] + (Be(|keys|, 4) + WriteAll(keys, WriteKey) + (Be(|children|, 4) + WriteAll(children, WriteSlot)))
  }

  predicate KeyFits(key: IndexKey) {
    key.String? ==> |key.bytes| <= MAX_U32
  }

  /** Every length fits its 32-bit field. */
  predicate LengthsFit(node: Node) {
    match node
    case LeafNode(entries, _) =>
      |entries| <= MAX_U32 && forall i :: 0 <= i < |entries| ==> KeyFits(entries[i].key) && |entries[i].ids| <= MAX_U32
    case InnerNode(keys, children) =>
      |keys| <= MAX_U32 && |children| <= MAX_U32 && forall i :: 0 <= i < |keys| ==> KeyFits(keys[i])
  }

  function Front(max: nat, root: nat, count: nat): (s: seq<byte>)
    ensures |s| == 32
  {
    MAGIC + (Be(1, 2) + Be(HEADER_SIZE, 2)) + Be(max, 4) + Be(0, 4) + (Be(root, 8) + Be(count, 8))
  }

  function Sealed(max: nat, root: nat, nodes: seq<Node>, checksum: u32): seq<byte> {
    Front(max, root, |nodes|) + Be(checksum, 4) + (Be(0, 4) + WriteAll(nodes, WriteNode))
  }

  function EncodeTree(max: nat, root: nat, nodes: seq<Node>): Result<seq<byte>> {
    if forall i :: 0 <= i < |nodes| ==> LengthsFit(nodes[i])
    then Ok(Sealed(max, root, nodes, Crc32(Sealed(max, root, nodes, 0), 32, 36)))
    else Err(Storage)
  }

  // ---------- reading ----------

  function ReadCount(s: seq<byte>, maximum: nat): (r: Parse<nat>)
    ensures r.Done? ==> r.size == 4 <= |s|
  {
    if |s| < 4 then Fail
    else if Number(s, 0, 4) > maximum || Number(s, 0, 4) > |s| - 4 then Fail
    else Done(Number(s, 0, 4), 4)
  }

  function ReadId(s: seq<byte>): (r: Parse<NovaId>)
    ensures r.Done? ==> 1 <= r.size <= |s|
  {
    Spans();
    if |s| < 16 then Fail else Done(Number(s, 0, 16), 16)
  }

  function ReadSlot(s: seq<byte>): (r: Parse<nat>)
    ensures r.Done? ==> 1 <= r.size <= |s|
  {
    if |s| < 8 then Fail else Done(Number(s, 0, 8), 8)
  }

  function ReadString(s: seq<byte>): (r: Parse<seq<byte>>)
    ensures r.Done? ==> 1 <= r.size <= |s|
  {
    match ReadCount(s, MAX_STRING)
    case Fail => Fail
    case Done(n, k) => if Nbf.ValidUtf8(s[k..k + n]) then Done(s[k..k + n], k + n) else Fail
  }

  function ReadKey(s: seq<byte>): (r: Parse<IndexKey>)
    ensures r.Done? ==> 1 <= r.size <= |s|
  {
    Spans();
    if s == [] then Fail
    else match s[0]
      case 0 => (match Nbf.ReadNumber(s, 8) case Fail => Fail case Done(x, k) => Done(Int64(Nbf.Signed(x)), k))
      case 1 => (match Nbf.ReadNumber(s, 8) case Fail => Fail case Done(x, k) => Done(MakeFloat(x), k))
      case 2 => (match ReadString(s[1..]) case Fail => Fail case Done(t, k) => Done(String(t), 1 + k))
      case 3 => (match Nbf.ReadNumber(s, 16) case Fail => Fail case Done(x, k) => Done(Id(x), k))
      case _ => Fail
  }

  /** An entry in a file of `total` bytes. */
  function ReadEntry(s: seq<byte>, total: nat): (r: Parse<Entry>)
    ensures r.Done? ==> 1 <= r.size <= |s|
  {
    match ReadKey(s)
    case Fail => Fail
    case Done(key, k) =>
      match ReadCount(s[k..], total / 16)
      case Fail => Fail
      case Done(n, c) =>
        if n == 0 then Fail
        else match ReadAll(s[k..][c..], n, ReadId)
          case Fail => Fail
          case Done(ids, m) => Done(Entry(key, ids), k + c + m)
  }

  function EntryReader(total: nat): (read: Reader<Entry>)
    ensures forall s :: read(s) == ReadEntry(s, total)
  {
    s => ReadEntry(s, total)
  }

  function ReadLeaf(s: seq<byte>, max: nat, total: nat): (r: Parse<Node>)
    ensures r.Done? ==> r.size <= |s|
  {
    match ReadSlot(s)
    case Fail => Fail
    case Done(next, k) =>
      match ReadCount(s[k..], max)
      case Fail => Fail
      case Done(n, c) =>
        match ReadAll(s[k..][c..], n, EntryReader(total))
        case Fail => Fail
        case Done(entries, m) => Done(LeafNode(entries, if next == NONE_NODE then None else Some(next)), k + c + m)
  }

  function ReadInner(s: seq<byte>, max: nat): (r: Parse<Node>)
    ensures r.Done? ==> r.size <= |s|
  {
    match ReadCount(s, max)
    case Fail => Fail
    case Done(n, c) =>
      match ReadAll(s[c..], n, ReadKey)
      case Fail => Fail
      case Done(keys, m) =>
        match ReadCount(s[c..][m..], max + 1)
        case Fail => Fail
        case Done(k, d) =>
          match ReadAll(s[c..][m..][d..], k, ReadSlot)
          case Fail => Fail
          case Done(children, e) => Done(InnerNode(keys, children), c + m + d + e)
  }

  function ReadNode(s: seq<byte>, max: nat, total: nat): (r: Parse<Node>)
    ensures r.Done? ==> 1 <= r.size <= |s|
  {
    if s == [] then Fail
    else if s[0] == 0 then (match ReadLeaf(s[1..], max, total) case Fail => Fail case Done(node, k) => Done(node, 1 + k))
    else if s[0] == 1 then (match ReadInner(s[1..], max) case Fail => Fail case Done(node, k) => Done(node, 1 + k))
    else Fail
  }

  function NodeReader(max: nat, total: nat): (read: Reader<Node>)
    ensures forall s :: read(s) == ReadNode(s, max, total)
  {
    s => ReadNode(s, max, total)
  }

  datatype Image = Image(max: nat, root: nat, nodes: seq<Node>)

  function CheckFront(bytes: seq<byte>): Result<()> {
    if |bytes| < HEADER_SIZE || bytes[..4] != MAGIC then Err(Corruption)
    else if Number(bytes, 4, 2) != 1 then Err(Unsupported)
    else if Number(bytes, 6, 2) != HEADER_SIZE || !ValidMaxKeys(Number(bytes, 8, 4)) || Number(bytes, 12, 4) != 0
            || Number(bytes, 36, 4) != 0 || Number(bytes, 32, 4) != Crc32(bytes, 32, 36) then Err(Corruption)
    else if Number(bytes, 24, 8) == 0 || Number(bytes, 24, 8) > |bytes| - HEADER_SIZE then Err(Corruption)
    else Ok(())
  }

  function DecodeTree(bytes: seq<byte>): (r: Result<Image>) {
    var _ :- CheckFront(bytes);
    var max := Number(bytes, 8, 4);
    match ReadAll(bytes[HEADER_SIZE..], Number(bytes, 24, 8), NodeReader(max, |bytes|))
    case Fail => Err(Corruption)
    case Done(nodes, k) => if k < |bytes| - HEADER_SIZE then Err(Corruption) else Ok(Image(max, Number(bytes, 16, 8), nodes))
  }

  /** What `open` makes of a file: its tree, if the structural check accepts it. */
  ghost function OpenTree(bytes: seq<byte>): Result<Image> {
    var image :- DecodeTree(bytes);
    if TreeVerify.Accepted(image.nodes, image.root, image.max) then Ok(image) else Err(Corruption)
  }

  method Open(bytes: seq<byte>) returns (r: Result<Image>)
    ensures r == OpenTree(bytes)
  {
    hide DecodeTree;
    var image :- Decode(bytes);
    var accepted := TreeVerify.Verify(image.nodes, image.root, image.max);
    if !accepted {
      return Err(Corruption);
    }
    return Ok(image);
  }

  method Decode(bytes: seq<byte>) returns (r: Result<Image>)
    ensures r == DecodeTree(bytes)
  {
    hide ReadNode, FromBe, Crc32;
    var _ :- CheckFront(bytes);
    var max := Number(bytes, 8, 4);
    var nodes := ReadMany(bytes, HEADER_SIZE, Number(bytes, 24, 8), NodeReader(max, |bytes|));
    if nodes.Fail? || nodes.size < |bytes| - HEADER_SIZE {
      return Err(Corruption);
    }
    return Ok(Image(max, Number(bytes, 16, 8), nodes.value));
  }

  /** The loop that appends node after node, and then the checksum over the rest. */
  method Encode(max: nat, root: nat, nodes: seq<Node>) returns (r: Result<seq<byte>>)
    ensures r == EncodeTree(max, root, nodes)
  {
    hide WriteNode, Front, Be, Crc32;
    var bytes := Front(max, root, |nodes|) + Be(0, 4) + Be(0, 4);
    ghost var head := bytes;
    var i := 0;
    assert nodes[0..] == nodes;
    while i < |nodes|
      invariant i <= |nodes| && |bytes| >= HEADER_SIZE
      invariant forall j :: 0 <= j < i ==> LengthsFit(nodes[j])
      invariant head + WriteAll(nodes, WriteNode) == bytes + WriteAll(nodes[i..], WriteNode)
    {
      if !LengthsFit(nodes[i]) {
        return Err(Storage);
      }
      assert nodes[i..][1..] == nodes[i + 1..];
      assert bytes + (WriteNode(nodes[i]) + WriteAll(nodes[i + 1..], WriteNode)) == (bytes + WriteNode(nodes[i])) + WriteAll(nodes[i + 1..], WriteNode);
      bytes := bytes + WriteNode(nodes[i]);
      i := i + 1;
    }
    assert nodes[i..] == [] && bytes + [] == bytes;
    Grouped(Front(max, root, |nodes|), Be(0, 4), Be(0, 4), WriteAll(nodes, WriteNode));
    var checksum := Checksum.Compute(bytes, 32, 36);
    SealIn(Front(max, root, |nodes|), Be(0, 4), Be(0, 4) + WriteAll(nodes, WriteNode), Be(checksum, 4));
    return Ok(bytes[..32] + Be(checksum, 4) + bytes[36..]);
  }

  lemma Grouped(a: seq<byte>, b: seq<byte>, c: seq<byte>, d: seq<byte>)
    ensures (a + b + c) + d == a + b + (c + d)
  {
  }

  lemma SealIn(a: seq<byte>, hole: seq<byte>, b: seq<byte>, part: seq<byte>)
    requires |a| == 32 && |hole| == 4 && |part| == 4
    ensures var s := a + hole + b; s[..32] + part + s[36..] == a + part + b
  {
    var s := a + hole + b;
    assert s[..32] == a && s[36..] == b;
  }

  // ---------- round trip ----------

  /** Keys as the index makes them: floats canonical, strings UTF-8. */
  predicate KeyMade(key: IndexKey) {
    match key
    case Float64(bits) => !IsNan(bits) || bits == CANONICAL_NAN
    case String(t) => Nbf.ValidUtf8(t)
    case _ => true
  }

  predicate KeyOk(key: IndexKey) {
    KeyMade(key) && KeyFits(key)
  }

  predicate Short(key: IndexKey) {
    key.String? ==> |key.bytes| <= MAX_STRING
  }

  predicate EntryShaped(e: Entry, total: nat) {
    KeyOk(e.key) && e.ids != [] && |e.ids| <= MAX_U32 && |e.ids| <= total / 16
  }

  /** A node within the capacity and the 64-bit slots of a file of `total` bytes. */
  predicate NodeShaped(node: Node, max: nat, total: nat) {
    match node
    case LeafNode(entries, next) =>
      |entries| <= max && (next.Some? ==> next.value < NONE_NODE)
      && forall i :: 0 <= i < |entries| ==> EntryShaped(entries[i], total)
    case InnerNode(keys, children) =>
      |keys| <= max && |children| <= max + 1 && |children| <= MAX_U32
      && (forall i :: 0 <= i < |keys| ==> KeyOk(keys[i])) && (forall i :: 0 <= i < |children| ==> children[i] <= NONE_NODE)
  }

  predicate NodeShort(node: Node) {
    match node
    case LeafNode(entries, _) => forall i :: 0 <= i < |entries| ==> Short(entries[i].key)
    case InnerNode(keys, _) => forall i :: 0 <= i < |keys| ==> Short(keys[i])
  }
}
