/** A snapshot reads back as the tree it was taken from, exactly when its strings are short enough. */
module SnapshotLaws {
  import opened Base
  import opened IndexKeys
  import opened Bytes
  import opened Checksum
  import opened Varints
  import opened CodedLists
  import opened Leaves
  import opened TreeModel
  import opened Arena
  import opened StoredTree
  import opened Snapshot
  import Nbf
  import NbfLaws
  import TreeLaws
  import TreeVerify

  lemma CountWritten(n: nat, maximum: nat, rest: seq<byte>)
    requires n <= MAX_U32
    ensures ReadCount(Be(n, 4) + rest, maximum) == if n > maximum || n > |rest| then Fail else Done(n, 4)
  {
    hide Be, FromBe;
    Spans();
    assert (Be(n, 4) + rest)[0..4] == Be(n, 4);
    NumberAt(Be(n, 4) + rest, 0, 4, n);
  }

  lemma Skip(a: seq<byte>, b: seq<byte>, rest: seq<byte>)
    ensures (a + b) + rest == a + (b + rest) && (a + (b + rest))[|a|..] == b + rest
  {
  }

  lemma {:induction false} AllLength<T(!new)>(items: seq<T>, write: Writer<T>)
    requires forall x :: x in items ==> write(x) != []
    ensures |WriteAll(items, write)| >= |items|
  {
    if items != [] {
      assert items[0] in items && forall x :: x in items[1..] ==> x in items;
      AllLength(items[1..], write);
    }
  }

  /** A short key is read back; a long string is refused. */
  lemma KeyWritten(key: IndexKey)
    requires KeyOk(key)
    ensures if Short(key) then Inverse(ReadKey, WriteKey, key) else Refused(ReadKey, WriteKey, key)
  {
    forall rest
      ensures ReadKey(WriteKey(key) + rest) == if Short(key) then Done(key, |WriteKey(key)|) else Fail
    {
      KeyRead(key, rest);
    }
  }

  lemma KeyRead(key: IndexKey, rest: seq<byte>)
    requires KeyOk(key)
    ensures ReadKey(WriteKey(key) + rest) == if Short(key) then Done(key, |WriteKey(key)|) else Fail
  {
    hide Be, FromBe, Nbf.ReadNumber, ReadString;
    Spans();
    match key
    case Int64(v) => NbfLaws.NumberRoundTrip(0, Nbf.Unsigned(v), 8, rest);
    case Float64(bits) => NbfLaws.NumberRoundTrip(1, bits, 8, rest);
    case Id(id) => NbfLaws.NumberRoundTrip(3, id, 16, rest);
    case String(t) =>
      Skip([2], Be(|t|, 4) + t, rest);
      StringRead(t, rest);
  }

  lemma StringRead(t: seq<byte>, rest: seq<byte>)
    requires Nbf.ValidUtf8(t) && |t| <= MAX_U32
    ensures ReadString((Be(|t|, 4) + t) + rest) == if |t| <= MAX_STRING then Done(t, 4 + |t|) else Fail
  {
    hide Be, Nbf.ValidUtf8, ReadCount;
    Skip(Be(|t|, 4), t, rest);
    CountWritten(|t|, MAX_STRING, t + rest);
    var s := Be(|t|, 4) + (t + rest);
    assert s[4..4 + |t|] == t;
  }

  lemma IdWritten(id: NovaId)
    ensures Inverse(ReadId, WriteId, id)
  {
    Spans();
    forall rest
      ensures ReadId(WriteId(id) + rest) == Done(id, 16)
    {
      assert (Be(id, 16) + rest)[0..16] == Be(id, 16);
      NumberAt(Be(id, 16) + rest, 0, 16, id);
    }
  }

  lemma SlotRead(slot: nat, rest: seq<byte>)
    requires slot <= NONE_NODE
    ensures ReadSlot(Be(slot, 8) + rest) == Done(slot, 8)
  {
    hide Be, FromBe;
    Spans();
    assert (Be(slot, 8) + rest)[0..8] == Be(slot, 8);
    NumberAt(Be(slot, 8) + rest, 0, 8, slot);
  }

  lemma SlotWritten(slot: nat)
    requires slot <= NONE_NODE
    ensures Inverse(ReadSlot, WriteSlot, slot)
  {
    forall rest
      ensures ReadSlot(WriteSlot(slot) + rest) == Done(slot, 8)
    {
      SlotRead(slot, rest);
    }
  }

  lemma EntryWritten(e: Entry, total: nat)
    requires EntryShaped(e, total)
    ensures if Short(e.key) then Inverse(EntryReader(total), WriteEntry, e) else Refused(EntryReader(total), WriteEntry, e)
  {
    hide ReadEntry, WriteEntry, EntryReader;
    forall rest
      ensures EntryReader(total)(WriteEntry(e) + rest) == if Short(e.key) then Done(e, |WriteEntry(e)|) else Fail
    {
      EntryRead(e, total, rest);
    }
  }

  lemma EntryRead(e: Entry, total: nat, rest: seq<byte>)
    requires EntryShaped(e, total)
    ensures ReadEntry(WriteEntry(e) + rest, total) == if Short(e.key) then Done(e, |WriteEntry(e)|) else Fail
  {
    hide ReadKey, WriteKey, ReadCount, Be, Inverse, ReadAll, WriteAll;
    var ids := WriteAll(e.ids, WriteId);
    KeyRead(e.key, (Be(|e.ids|, 4) + ids) + rest);
    Skip(WriteKey(e.key), Be(|e.ids|, 4) + ids, rest);
    Skip(Be(|e.ids|, 4), ids, rest);
    AllLength(e.ids, WriteId);
    CountWritten(|e.ids|, total / 16, ids + rest);
    forall id | id in e.ids
      ensures Inverse(ReadId, WriteId, id)
    {
      IdWritten(id);
    }
    AllRoundTrip(e.ids, WriteId, ReadId, rest);
  }

  lemma NodeWritten(node: Node, max: nat, total: nat)
    requires NodeShaped(node, max, total) && max <= MAX_U32
    ensures if NodeShort(node) then Inverse(NodeReader(max, total), WriteNode, node) else Refused(NodeReader(max, total), WriteNode, node)
  {
    hide ReadNode, WriteNode, NodeReader;
    forall rest
      ensures NodeReader(max, total)(WriteNode(node) + rest) == if NodeShort(node) then Done(node, |WriteNode(node)|) else Fail
    {
      NodeRead(node, max, total, rest);
    }
  }

  lemma NodeRead(node: Node, max: nat, total: nat, rest: seq<byte>)
    requires NodeShaped(node, max, total) && max <= MAX_U32
    ensures ReadNode(WriteNode(node) + rest, max, total) == if NodeShort(node) then Done(node, |WriteNode(node)|) else Fail
  {
    hide ReadLeaf, ReadInner, Be, WriteAll;
    match node
    case LeafNode(entries, next) =>
      var body := Be(if next.Some? then next.value else NONE_NODE, 8) + (Be(|entries|, 4) + WriteAll(entries, WriteEntry));
      Skip([0], body, rest);
      LeafRead(entries, next, max, total, rest);
    case InnerNode(keys, children) =>
      var body := Be(|keys|, 4) + WriteAll(keys, WriteKey) + (Be(|children|, 4) + WriteAll(children, WriteSlot));
      Skip([1], body, rest);
      InnerRead(keys, children, max, total, rest);
  }

  lemma LeafRead(entries: seq<Entry>, next: Option<nat>, max: nat, total: nat, rest: seq<byte>)
    requires NodeShaped(LeafNode(entries, next), max, total) && max <= MAX_U32
    ensures var body := Be(if next.Some? then next.value else NONE_NODE, 8) + (Be(|entries|, 4) + WriteAll(entries, WriteEntry));
            ReadLeaf(body + rest, max, total) == if NodeShort(LeafNode(entries, next)) then Done(LeafNode(entries, next), |body|) else Fail
  {
    hide ReadSlot, ReadCount, Be, ReadAll, WriteAll, EntryShaped, Short, WriteEntry, EntryReader;
    var link, list := if next.Some? then next.value else NONE_NODE, WriteAll(entries, WriteEntry);
    Skip(Be(link, 8), Be(|entries|, 4) + list, rest);
    SlotRead(link, (Be(|entries|, 4) + list) + rest);
    Skip(Be(|entries|, 4), list, rest);
    EntriesLength(entries);
    CountWritten(|entries|, max, list + rest);
    EntriesRead(entries, total, rest);
  }

  lemma EntriesLength(entries: seq<Entry>)
    ensures |WriteAll(entries, WriteEntry)| >= |entries|
  {
    AllLength(entries, WriteEntry);
  }

  lemma EntriesRead(entries: seq<Entry>, total: nat, rest: seq<byte>)
    requires forall i :: 0 <= i < |entries| ==> EntryShaped(entries[i], total)
    ensures ReadAll(WriteAll(entries, WriteEntry) + rest, |entries|, EntryReader(total)) ==
            if forall i :: 0 <= i < |entries| ==> Short(entries[i].key) then Done(entries, |WriteAll(entries, WriteEntry)|) else Fail
  {
    hide ReadAll, WriteAll, EntryShaped, Short, WriteEntry, EntryReader, Inverse, Refused;
    forall e | e in entries
      ensures if Short(e.key) then Inverse(EntryReader(total), WriteEntry, e) else Refused(EntryReader(total), WriteEntry, e)
    {
      EntryWritten(e, total);
    }
    if i :| 0 <= i < |entries| && !Short(entries[i].key) {
      AllRefused(entries, WriteEntry, EntryReader(total), i, rest);
    } else {
      AllRoundTrip(entries, WriteEntry, EntryReader(total), rest);
    }
  }

  lemma KeysRead(keys: seq<IndexKey>, rest: seq<byte>)
    requires forall i :: 0 <= i < |keys| ==> KeyOk(keys[i])
    ensures |WriteAll(keys, WriteKey)| >= |keys|
    ensures ReadAll(WriteAll(keys, WriteKey) + rest, |keys|, ReadKey) ==
            if forall i :: 0 <= i < |keys| ==> Short(keys[i]) then Done(keys, |WriteAll(keys, WriteKey)|) else Fail
  {
    hide ReadAll, WriteAll, KeyOk, Short, WriteKey, ReadKey, Inverse, Refused;
    AllLength(keys, WriteKey);
    forall key | key in keys
      ensures if Short(key) then Inverse(ReadKey, WriteKey, key) else Refused(ReadKey, WriteKey, key)
    {
      KeyWritten(key);
    }
    if i :| 0 <= i < |keys| && !Short(keys[i]) {
      AllRefused(keys, WriteKey, ReadKey, i, rest);
    } else {
      AllRoundTrip(keys, WriteKey, ReadKey, rest);
    }
  }

  lemma SlotsRead(children: seq<nat>, rest: seq<byte>)
    requires forall i :: 0 <= i < |children| ==> children[i] <= NONE_NODE
    ensures |WriteAll(children, WriteSlot)| >= |children|
    ensures ReadAll(WriteAll(children, WriteSlot) + rest, |children|, ReadSlot) == Done(children, |WriteAll(children, WriteSlot)|)
  {
    hide ReadAll, WriteAll, ReadSlot, Inverse;
    AllLength(children, WriteSlot);
    forall slot | slot in children
      ensures Inverse(ReadSlot, WriteSlot, slot)
    {
      SlotWritten(slot);
    }
    AllRoundTrip(children, WriteSlot, ReadSlot, rest);
  }

  lemma InnerRead(keys: seq<IndexKey>, children: seq<nat>, max: nat, total: nat, rest: seq<byte>)
    requires NodeShaped(InnerNode(keys, children), max, total) && max <= MAX_U32
    ensures var body := Be(|keys|, 4) + WriteAll(keys, WriteKey) + (Be(|children|, 4) + WriteAll(children, WriteSlot));
            ReadInner(body + rest, max) == if NodeShort(InnerNode(keys, children)) then Done(InnerNode(keys, children), |body|) else Fail
  {
    hide ReadCount, Be, ReadAll, WriteAll, KeyOk, Short, WriteKey, ReadKey, ReadSlot, WriteSlot;
    var list, slots := WriteAll(keys, WriteKey), WriteAll(children, WriteSlot);
    var tail := (Be(|children|, 4) + slots) + rest;
    Skip(Be(|keys|, 4) + list, Be(|children|, 4) + slots, rest);
    Skip(Be(|keys|, 4), list, tail);
    KeysRead(keys, tail);
    CountWritten(|keys|, max, list + tail);
    assert (list + tail)[|list|..] == tail;
    SlotsRead(children, rest);
    Skip(Be(|children|, 4), slots, rest);
    CountWritten(|children|, max + 1, slots + rest);
  }

  // ---------- whole snapshots ----------

  lemma FrontParts(bytes: seq<byte>, max: nat, root: nat, count: nat, crc: u32, body: seq<byte>)
    requires bytes == Front(max, root, count) + Be(crc, 4) + (Be(0, 4) + body)
    ensures At(bytes, 0, MAGIC) && At(bytes, 4, Be(1, 2) + Be(HEADER_SIZE, 2)) && At(bytes, 8, Be(max, 4)) && At(bytes, 12, Be(0, 4))
    ensures At(bytes, 16, Be(root, 8) + Be(count, 8)) && At(bytes, 32, Be(crc, 4)) && At(bytes, 36, Be(0, 4))
    ensures bytes[HEADER_SIZE..] == body
  {
    hide Be, At, Front;
    var front := Front(max, root, count);
    FrontAt(max, root, count);
    Bytes.Pieces(front, Be(crc, 4), Be(0, 4), body, []);
    Flat(front, Be(crc, 4), Be(0, 4), body);
    AtInner(bytes, 0, front, 0, MAGIC);
    AtInner(bytes, 0, front, 4, Be(1, 2) + Be(HEADER_SIZE, 2));
    AtInner(bytes, 0, front, 8, Be(max, 4));
    AtInner(bytes, 0, front, 12, Be(0, 4));
    AtInner(bytes, 0, front, 16, Be(root, 8) + Be(count, 8));
  }

  lemma FrontAt(max: nat, root: nat, count: nat)
    ensures var front := Front(max, root, count);
            At(front, 0, MAGIC) && At(front, 4, Be(1, 2) + Be(HEADER_SIZE, 2)) && At(front, 8, Be(max, 4)) && At(front, 12, Be(0, 4))
            && At(front, 16, Be(root, 8) + Be(count, 8))
  {
    hide Be, At;
    Bytes.Pieces(MAGIC, Be(1, 2) + Be(HEADER_SIZE, 2), Be(max, 4), Be(0, 4), Be(root, 8) + Be(count, 8));
  }

  lemma Flat(a: seq<byte>, b: seq<byte>, c: seq<byte>, d: seq<byte>)
    ensures a + b + (c + d) == a + b + c + d + [] && (a + b + (c + d))[|a| + |b| + |c|..] == d
  {
  }

  lemma PairNumbers(bytes: seq<byte>, at: nat, x: nat, y: nat, w: nat)
    requires x < Span(w) && y < Span(w) && At(bytes, at, Be(x, w) + Be(y, w))
    ensures at + w + w <= |bytes| && Number(bytes, at, w) == x && Number(bytes, at + w, w) == y
  {
    var both := Be(x, w) + Be(y, w);
    assert both == [] + Be(x, w) + Be(y, w) && both == Be(x, w) + Be(y, w) + [];
    NumberIn(bytes, at, both, 0, w, x);
    NumberIn(bytes, at, both, w, w, y);
  }

  lemma FrontRead(bytes: seq<byte>, max: nat, root: nat, count: nat, crc: u32, body: seq<byte>)
    requires max <= MAX_U32 && root <= NONE_NODE && count <= NONE_NODE
    requires bytes == Front(max, root, count) + Be(crc, 4) + (Be(0, 4) + body)
    ensures |bytes| >= HEADER_SIZE && bytes[..4] == MAGIC && Number(bytes, 4, 2) == 1 && Number(bytes, 6, 2) == HEADER_SIZE
    ensures Number(bytes, 8, 4) == max && Number(bytes, 12, 4) == 0 && Number(bytes, 16, 8) == root && Number(bytes, 24, 8) == count
    ensures Number(bytes, 32, 4) == crc && Number(bytes, 36, 4) == 0 && bytes[HEADER_SIZE..] == body
  {
    FrontParts(bytes, max, root, count, crc, body);
    assert |bytes| >= HEADER_SIZE && bytes[0..4] == MAGIC;
    hide Be, FromBe, Number, At, Front;
    Spans();
    PairNumbers(bytes, 4, 1, HEADER_SIZE, 2);
    NumberAt(bytes, 8, 4, max);
    NumberAt(bytes, 12, 4, 0);
    PairNumbers(bytes, 16, root, count, 8);
    NumberAt(bytes, 32, 4, crc);
    NumberAt(bytes, 36, 4, 0);
  }

  /**
   * A snapshot of well-shaped nodes decodes to the same tree exactly when every string key is at most 16 MiB;
   * longer strings are written but refused when read.
   */
  lemma SnapshotRoundTrip(max: nat, root: nat, nodes: seq<Node>)
    requires ValidMaxKeys(max) && root <= NONE_NODE && 0 < |nodes| <= NONE_NODE && EncodeTree(max, root, nodes).Ok?
    requires var total := |EncodeTree(max, root, nodes).value|; forall i :: 0 <= i < |nodes| ==> NodeShaped(nodes[i], max, total)
    ensures DecodeTree(EncodeTree(max, root, nodes).value) ==
            if forall i :: 0 <= i < |nodes| ==> NodeShort(nodes[i]) then Ok(Image(max, root, nodes)) else Err(Corruption)
  {
    hide Front, WriteAll, ReadAll, NodeShaped, NodeShort, Be, FromBe, Crc32, NodeReader, LengthsFit;
    var bytes, body := EncodeTree(max, root, nodes).value, WriteAll(nodes, WriteNode);
    var crc := Crc32(Sealed(max, root, nodes, 0), 32, 36);
    FrontRead(bytes, max, root, |nodes|, crc, body);
    ChecksumSame(Sealed(max, root, nodes, 0), bytes, 32, 36);
    NodesRead(nodes, max, |bytes|);
    assert body + [] == body;
  }

  lemma NodesRead(nodes: seq<Node>, max: nat, total: nat)
    requires max <= MAX_U32 && forall i :: 0 <= i < |nodes| ==> NodeShaped(nodes[i], max, total)
    ensures |WriteAll(nodes, WriteNode)| >= |nodes|
    ensures ReadAll(WriteAll(nodes, WriteNode) + [], |nodes|, NodeReader(max, total)) ==
            if forall i :: 0 <= i < |nodes| ==> NodeShort(nodes[i]) then Done(nodes, |WriteAll(nodes, WriteNode)|) else Fail
  {
    AllLength(nodes, WriteNode);
    hide ReadAll, WriteAll, NodeShaped, NodeShort, WriteNode, NodeReader, Inverse, Refused;
    var read := NodeReader(max, total);
    forall node | node in nodes
      ensures if NodeShort(node) then Inverse(read, WriteNode, node) else Refused(read, WriteNode, node)
    {
      NodeWritten(node, max, total);
    }
    if i :| 0 <= i < |nodes| && !NodeShort(nodes[i]) {
      AllRefused(nodes, WriteNode, read, i, []);
    } else {
      AllRoundTrip(nodes, WriteNode, read, []);
    }
  }

  /** Changing any single byte of an accepted snapshot makes it refused. */
  lemma ChangedSnapshotRejected(good: seq<byte>, bad: seq<byte>, i: nat)
    requires DecodeTree(good).Ok? && DifferOnlyAt(good, bad, i)
    ensures DecodeTree(bad).Err?
  {
    hide Crc32, ReadAll, FromBe;
    ChecksumDiffers(good, bad, i, 32, 36);
    if 32 <= i < 36 {
      FromBeBound(good[32..36]);
      FromBeBound(bad[32..36]);
      assert good[32..36][i - 32] == good[i] && bad[32..36][i - 32] == bad[i];
    } else {
      assert good[32..36] == bad[32..36];
    }
  }

  // ---------- snapshots of stored trees ----------

  /** Keys are as the index makes them. */
  predicate NodeMade(node: Node) {
    match node
    case LeafNode(entries, _) => forall i :: 0 <= i < |entries| ==> KeyMade(entries[i].key)
    case InnerNode(keys, _) => forall i :: 0 <= i < |keys| ==> KeyMade(keys[i])
  }

  /** Strings shorter than 4 GiB, and lists of ids or children countable in 32 bits. */
  predicate Countable(node: Node) {
    match node
    case LeafNode(entries, _) => forall i :: 0 <= i < |entries| ==> KeyFits(entries[i].key) && |entries[i].ids| <= MAX_U32
    case InnerNode(keys, children) => |children| <= MAX_U32 && forall i :: 0 <= i < |keys| ==> KeyFits(keys[i])
  }

  /** The capacities and links of a node of a stored tree. */
  ghost predicate Capacious(node: Node, max: nat, size: nat) {
    match node
    case LeafNode(entries, next) =>
      |entries| <= max && (next.Some? ==> next.value < size) && forall i :: 0 <= i < |entries| ==> entries[i].ids != []
    case InnerNode(keys, children) =>
      |keys| <= max && |children| == |keys| + 1 && forall i :: 0 <= i < |children| ==> children[i] < size
  }

  lemma {:induction false} KidWith(kids: seq<Tree>, x: nat) returns (i: nat)
    requires UsesOf(kids, x) > 0
    ensures i < |kids| && Uses(kids[i], x) > 0
  {
    if Uses(kids[0], x) > 0 {
      i := 0;
    } else {
      var j := KidWith(kids[1..], x);
      i := j + 1;
    }
  }

  lemma BelowUses(t: Tree, x: nat)
    requires Uses(t, x) > 0 && x != t.id
    ensures t.Inner? && UsesOf(t.kids, x) > 0
  {
  }

  lemma {:induction false} StoredNode(nodes: seq<Node>, t: Tree, after: Option<nat>, lo: Option<IndexKey>, hi: Option<IndexKey>,
                                      max: nat, height: nat, x: nat)
    requires Rep(nodes, t, after) && (after.Some? ==> after.value < |nodes|) && Ordered(t, lo, hi, max, height) && Uses(t, x) > 0
    ensures x < |nodes| && Capacious(nodes[x], max, |nodes|)
    decreases t
  {
    hide Capacious, Rep, Ordered, Uses, UsesOf;
    if x == t.id {
      OwnNode(nodes, t, after, lo, hi, max, height);
    } else {
      BelowUses(t, x);
      var i := KidWith(t.kids, x);
      KidAt(nodes, t, after, lo, hi, max, height, i);
      StoredNode(nodes, t.kids[i], After(t.kids, i, after), LowerOf(t.keys, i, lo), UpperOf(t.keys, i, hi), max, height - 1, x);
    }
  }

  lemma KidAt(nodes: seq<Node>, t: Tree, after: Option<nat>, lo: Option<IndexKey>, hi: Option<IndexKey>, max: nat, height: nat, i: nat)
    requires t.Inner? && i < |t.kids|
    requires Rep(nodes, t, after) && (after.Some? ==> after.value < |nodes|) && Ordered(t, lo, hi, max, height)
    ensures height > 0 && |t.kids| == |t.keys| + 1 && Rep(nodes, t.kids[i], After(t.kids, i, after))
    ensures After(t.kids, i, after).Some? ==> After(t.kids, i, after).value < |nodes|
    ensures Ordered(t.kids[i], LowerOf(t.keys, i, lo), UpperOf(t.keys, i, hi), max, height - 1)
  {
    if i + 1 < |t.kids| {
      TreeLaws.RepAgrees(nodes, t.kids[i + 1], After(t.kids, i + 1, after));
    }
  }

  lemma OwnNode(nodes: seq<Node>, t: Tree, after: Option<nat>, lo: Option<IndexKey>, hi: Option<IndexKey>, max: nat, height: nat)
    requires Rep(nodes, t, after) && (after.Some? ==> after.value < |nodes|) && Ordered(t, lo, hi, max, height)
    ensures t.id < |nodes| && Capacious(nodes[t.id], max, |nodes|)
  {
    if t.Inner? {
      forall i | 0 <= i < |t.kids|
        ensures t.kids[i].id < |nodes|
      {
        assert Rep(nodes, t.kids[i], After(t.kids, i, after));
      }
    }
  }

  /** An id list takes 16 bytes an id, so its count passes the reader's bound. */
  lemma {:induction false} IdsBytes(ids: seq<NovaId>)
    ensures |WriteAll(ids, WriteId)| == 16 * |ids|
  {
    if ids != [] {
      IdsBytes(ids[1..]);
    }
  }

  lemma {:induction false} ItemBytes<T(!new)>(items: seq<T>, write: Writer<T>, x: T)
    requires x in items
    ensures |write(x)| <= |WriteAll(items, write)|
  {
    if items[0] != x {
      ItemBytes(items[1..], write, x);
    }
  }

  lemma ShapedIn(nodes: seq<Node>, max: nat, total: nat, x: nat)
    requires x < |nodes| <= NONE_NODE && Capacious(nodes[x], max, |nodes|) && NodeMade(nodes[x]) && |WriteAll(nodes, WriteNode)| <= total
    ensures Countable(nodes[x]) ==> NodeShaped(nodes[x], max, total)
    ensures max <= MAX_U32 ==> (LengthsFit(nodes[x]) <==> Countable(nodes[x]))
  {
    if nodes[x].LeafNode? {
      ItemBytes(nodes, WriteNode, nodes[x]);
      forall i | 0 <= i < |nodes[x].entries|
        ensures |nodes[x].entries[i].ids| <= total / 16
      {
        var e := nodes[x].entries[i];
        ItemBytes(nodes[x].entries, WriteEntry, e);
        IdsBytes(e.ids);
      }
    }
  }

  /**
   * Saving a stored tree succeeds if and only if all its lists and strings are countable in 32 bits, and opening
   * the file gives exactly the same arena if and only if all string keys are at most 16 MiB; the check accepts it.
   */
  lemma StoredSnapshot(nodes: seq<Node>, root: nat, max: nat, t: Tree, height: nat)
    requires Stored(nodes, root, max, t, height) && |nodes| <= NONE_NODE && forall x :: 0 <= x < |nodes| ==> NodeMade(nodes[x])
    ensures TreeVerify.Accepted(nodes, root, max)
    ensures EncodeTree(max, root, nodes).Ok? <==> forall x :: 0 <= x < |nodes| ==> Countable(nodes[x])
    ensures EncodeTree(max, root, nodes).Ok? ==>
              OpenTree(EncodeTree(max, root, nodes).value) ==
              if forall x :: 0 <= x < |nodes| ==> NodeShort(nodes[x]) then Ok(Image(max, root, nodes)) else Err(Corruption)
  {
    hide WriteAll, NodeShaped, Capacious, NodeMade, Countable, LengthsFit, Ordered, Rep, Uses, Front, NodeShort, DecodeTree;
    TreeLaws.StoredAccepted(nodes, root, max, t, height);
    var total := |Sealed(max, root, nodes, 0)|;
    forall x: nat | x < |nodes|
      ensures LengthsFit(nodes[x]) <==> Countable(nodes[x])
      ensures Countable(nodes[x]) ==> NodeShaped(nodes[x], max, total)
    {
      StoredNode(nodes, t, None, None, None, max, height, x);
      ShapedIn(nodes, max, total, x);
    }
    TreeLaws.RepAgrees(nodes, t, None);
    RootThere(nodes, t);
    if EncodeTree(max, root, nodes).Ok? {
      SnapshotRoundTrip(max, root, nodes);
    }
  }

  lemma RootThere(nodes: seq<Node>, t: Tree)
    requires Rep(nodes, t, None)
    ensures t.id < |nodes|
  {
  }

  // ---------- two files ----------

  lemma {:induction false} ZerosValid(n: nat)
    ensures Nbf.ValidUtf8(Zeros(n))
  {
    if n > 0 {
      ZerosValid(n - 1);
      assert Zeros(n)[1..] == Zeros(n - 1);
    }
  }

  function OneLeaf(n: nat): Tree {
    Leaf(0, [Entry(String(Zeros(n)), [7])])
  }

  function OneLeafArena(n: nat): seq<Node> {
    [LeafNode([Entry(String(Zeros(n)), [7])], None)]
  }

  /** A tree with one string key of more than 16 MiB is saved, and cannot be opened again. */
  lemma LongKeyLost(n: nat)
    requires MAX_STRING < n <= MAX_U32
    ensures Stored(OneLeafArena(n), 0, 3, OneLeaf(n), 0)
    ensures EncodeTree(3, 0, OneLeafArena(n)).Ok? && OpenTree(EncodeTree(3, 0, OneLeafArena(n)).value) == Err(Corruption)
  {
    hide OpenTree, EncodeTree, Nbf.ValidUtf8;
    ZerosValid(n);
    var nodes := OneLeafArena(n);
    assert !Short(nodes[0].entries[0].key);
    assert Countable(nodes[0]) && NodeMade(nodes[0]) && !NodeShort(nodes[0]);
    StoredSnapshot(nodes, 0, 3, OneLeaf(n), 0);
  }

  /** A node that any file can hold. */
  ghost predicate Portable(node: Node, max: nat) {
    LengthsFit(node) && NodeShort(node) && forall total: nat :: HEADER_SIZE <= total ==> NodeShaped(node, max, total)
  }

  /** A file of portable nodes reads back. */
  lemma PortableFile(max: nat, root: nat, nodes: seq<Node>)
    requires ValidMaxKeys(max) && root <= NONE_NODE && 0 < |nodes| <= NONE_NODE
    requires forall i :: 0 <= i < |nodes| ==> Portable(nodes[i], max)
    ensures EncodeTree(max, root, nodes).Ok? && DecodeTree(EncodeTree(max, root, nodes).value) == Ok(Image(max, root, nodes))
  {
    hide Sealed, DecodeTree, LengthsFit, NodeShaped, NodeShort;
    SealedLength(max, root, nodes, Crc32(Sealed(max, root, nodes, 0), 32, 36));
    assert forall i :: 0 <= i < |nodes| ==> Portable(nodes[i], max);
    SnapshotRoundTrip(max, root, nodes);
  }

  lemma SealedLength(max: nat, root: nat, nodes: seq<Node>, checksum: u32)
    ensures |Sealed(max, root, nodes, checksum)| >= HEADER_SIZE
  {
  }

  lemma MisroutedNode(nodes: seq<Node>, i: nat)
    requires nodes == TreeLaws.MisroutedArena() && i < |nodes|
    ensures Portable(nodes[i], 3)
  {
    var node := nodes[i];
    assert node.InnerNode? || node == LeafNode([], Some(1)) || node == LeafNode([], Some(2)) || node == LeafNode([], Some(3))
        || node == LeafNode([Entry(Int64(7), [9])], None);
  }

  lemma MisroutedFile(nodes: seq<Node>)
    requires nodes == TreeLaws.MisroutedArena()
    ensures EncodeTree(3, 6, nodes).Ok? && DecodeTree(EncodeTree(3, 6, nodes).value) == Ok(Image(3, 6, nodes))
  {
    assert |nodes| == 7;
    hide TreeLaws.MisroutedArena, EncodeTree, DecodeTree, Portable;
    forall i | 0 <= i < |nodes|
      ensures Portable(nodes[i], 3)
    {
      MisroutedNode(nodes, i);
    }
    PortableFile(3, 6, nodes);
  }

  /** `open` accepts the file of the arena in which the lookup of a stored pair fails. */
  lemma MisroutedFileOpens(nodes: seq<Node>)
    requires nodes == TreeLaws.MisroutedArena()
    ensures EncodeTree(3, 6, nodes).Ok? && OpenTree(EncodeTree(3, 6, nodes).value) == Ok(Image(3, 6, nodes))
  {
    hide EncodeTree, DecodeTree, TreeLaws.MisroutedArena, TreeLaws.MisroutedTree, TreeLaws.LowHalf, TreeLaws.HighHalf;
    hide TreeVerify.Accepted, TreeVerify.CheckedTree, TreeLaws.Within, TreeLaws.LookupsRight, Shaped, Has, Route;
    MisroutedFile(nodes);
    TreeLaws.AcceptedMayMisroute();
  }
}
