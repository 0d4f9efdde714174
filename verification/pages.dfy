/** Slotted pages and their checksummed 4096-byte images. */
module Pages {
  import opened Base
  import opened Bytes
  import opened Checksum

  const PAGE_SIZE: nat := 4096
  const HEADER: nat := 32
  const SLOT: nat := 4
  const DELETED: nat := 0xffff
  const MAGIC: seq<byte> := [0x4e, 0x56, 0x50, 0x47]

  type Slot = Option<seq<byte>>

  datatype Page = Page(id: u64, slots: seq<Slot>)

  function Live(slots: seq<Slot>): (n: nat)
    ensures n <= |slots|
  {
    if slots == [] then 0
    else Live(slots[..|slots| - 1]) + (if slots[|slots| - 1].Some? then 1 else 0)
  }

  /** The payload area: later slots lie at lower offsets. */
  function Payload(slots: seq<Slot>): seq<byte> {
    if slots == [] then []
    else
      var last := slots[|slots| - 1];
      (if last.Some? then last.value else []) + Payload(slots[..|slots| - 1])
  }

  function FirstFree(slots: seq<Slot>): (r: Option<nat>)
    ensures r.Some? ==> r.value < |slots| && slots[r.value].None? && forall i :: 0 <= i < r.value ==> slots[i].Some?
    ensures r.None? ==> forall i :: 0 <= i < |slots| ==> slots[i].Some?
  {
    if slots == [] then None
    else match FirstFree(slots[..|slots| - 1])
      case Some(i) => Some(i)
      case None => if slots[|slots| - 1].None? then Some(|slots| - 1) else None
  }

  /** Bytes that header, directory and payloads need. */
  function Used(slots: seq<Slot>): nat {
    HEADER + SLOT * |slots| + |Payload(slots)|
  }

  predicate Fits(slots: seq<Slot>) {
    Used(slots) <= PAGE_SIZE
  }

  function SaturatingSub(a: nat, b: nat): nat {
    if a < b then 0 else a - b
  }

  function FreeSpace(slots: seq<Slot>): nat {
    SaturatingSub(SaturatingSub(PAGE_SIZE, Used(slots)), if FirstFree(slots).Some? then 0 else SLOT)
  }

  // ---------- the image ----------

  /** A slot's directory entry, when its payload starts at `start`. */
  function Entry(slot: Slot, start: nat): (s: seq<byte>)
    ensures |s| == SLOT
  {
    match slot
    case Some(record) => Be(start, 2) + Be(|record|, 2)
    case None => Be(DELETED, 2) + Zeros(2)
  }

  /** Where the payload of the last of `slots` starts. */
  function Start(slots: seq<Slot>): int {
    PAGE_SIZE - |Payload(slots)|
  }

  function Directory(slots: seq<Slot>): (s: seq<byte>)
    requires |Payload(slots)| <= PAGE_SIZE
    ensures |s| == SLOT * |slots|
  {
    if slots == [] then []
    else Directory(slots[..|slots| - 1]) + Entry(slots[|slots| - 1], Start(slots))
  }

  /** The 16 header bytes before the checksum. */
  function Front(p: Page): (s: seq<byte>)
    ensures |s| == 16
  {
    MAGIC + Be(1, 2) + Be(HEADER, 2) + Be(p.id, 8)
  }

  /** The 12 header bytes after the checksum. */
  function Back(slots: seq<Slot>): (s: seq<byte>)
    requires Fits(slots)
    ensures |s| == 12
  {
    Be(|slots|, 2) + Be(Live(slots), 2) + Be(HEADER + SLOT * |slots|, 2) + Be(Start(slots), 2) + Zeros(4)
  }

  function Body(slots: seq<Slot>): (s: seq<byte>)
    requires Fits(slots)
    ensures |s| == PAGE_SIZE - HEADER
  {
    Directory(slots) + Zeros(PAGE_SIZE - Used(slots)) + Payload(slots)
  }

  function Sealed(p: Page, checksum: u32): (s: seq<byte>)
    requires Fits(p.slots)
    ensures |s| == PAGE_SIZE
  {
    Front(p) + Be(checksum, 4) + (Back(p.slots) + Body(p.slots))
  }

  function Image(p: Page): (s: seq<byte>)
    requires Fits(p.slots)
    ensures |s| == PAGE_SIZE
  {
    Sealed(p, Crc32(Sealed(p, 0), 16, 20))
  }

  function EncodePage(p: Page): (r: Result<seq<byte>>)
    ensures r.Ok? ==> |r.value| == PAGE_SIZE
  {
    if Fits(p.slots) then Ok(Image(p)) else Err(Storage)
  }

  // ---------- parsing ----------

  datatype Range = Range(start: nat, end: nat)

  datatype Parsed = Parsed(slots: seq<Slot>, ranges: seq<Range>)

  predicate Overlap(a: Range, b: Range) {
    a.start < b.end && b.start < a.end
  }

  predicate Overlaps(a: Range, ranges: seq<Range>) {
    exists i :: 0 <= i < |ranges| && Overlap(a, ranges[i])
  }

  /** The first `n` slots. */
  function ParseSlots(bytes: seq<byte>, n: nat, freeEnd: nat): (r: Result<Parsed>)
    requires |bytes| == PAGE_SIZE && HEADER + SLOT * n <= PAGE_SIZE
  {
    if n == 0 then Ok(Parsed([], []))
    else
      var before :- ParseSlots(bytes, n - 1, freeEnd);
      ParseSlot(bytes, n - 1, freeEnd, before)
  }

  function ParseSlot(bytes: seq<byte>, i: nat, freeEnd: nat, before: Parsed): (r: Result<Parsed>)
    requires |bytes| == PAGE_SIZE && HEADER + SLOT * (i + 1) <= PAGE_SIZE
  {
    var start := Number(bytes, HEADER + SLOT * i, 2);
    var length := Number(bytes, HEADER + SLOT * i + 2, 2);
    var range := Range(start, start + length);
    if start == DELETED then
      if length != 0 then Err(Corruption) else Ok(Parsed(before.slots + [None], before.ranges))
    else if start < freeEnd || start + length > PAGE_SIZE then Err(Corruption)
    else if Overlaps(range, before.ranges) then Err(Corruption)
    else Ok(Parsed(before.slots + [Some(bytes[start..start + length])], before.ranges + [range]))
  }

  function MinStart(ranges: seq<Range>): nat {
    if ranges == [] then PAGE_SIZE
    else
      var before, last := MinStart(ranges[..|ranges| - 1]), ranges[|ranges| - 1].start;
      if last < before then last else before
  }

  function Length(r: Range): nat {
    SaturatingSub(r.end, r.start)
  }

  function Total(ranges: seq<Range>): nat {
    if ranges == [] then 0 else Total(ranges[..|ranges| - 1]) + Length(ranges[|ranges| - 1])
  }

  /** The checks before the slots. */
  function CheckHeader(bytes: seq<byte>): Result<()> {
    if |bytes| != PAGE_SIZE || bytes[..4] != MAGIC then Err(Corruption)
    else if Number(bytes, 4, 2) != 1 then Err(Unsupported)
    else if Number(bytes, 6, 2) != HEADER then Err(Corruption)
    else if Crc32(bytes, 16, 20) != Number(bytes, 16, 4) then Err(Corruption)
    else if bytes[28..32] != Zeros(4) then Err(Corruption)
    else if Number(bytes, 24, 2) != HEADER + SLOT * Number(bytes, 20, 2) || Number(bytes, 24, 2) > Number(bytes, 26, 2)
            || Number(bytes, 26, 2) > PAGE_SIZE then Err(Corruption)
    else Ok(())
  }

  /** The checks after the slots. */
  predicate Sound(parsed: Parsed, live: nat, freeEnd: nat) {
    Live(parsed.slots) == live && MinStart(parsed.ranges) == freeEnd && PAGE_SIZE - freeEnd == Total(parsed.ranges)
  }

  function DecodePage(bytes: seq<byte>): (r: Result<Page>) {
    var _ :- CheckHeader(bytes);
    var freeEnd := Number(bytes, 26, 2);
    var parsed :- ParseSlots(bytes, Number(bytes, 20, 2), freeEnd);
    if !Sound(parsed, Number(bytes, 22, 2), freeEnd) then Err(Corruption)
    else
      Spans();
      Ok(Page(Number(bytes, 8, 8), parsed.slots))
  }

  /** A mutable page. */
  class SlottedPage {
    const id: u64
    var slots: seq<Slot>

    function Value(): Page
      reads this
    {
      Page(id, slots)
    }

    constructor (id: u64)
      ensures Value() == Page(id, [])
    {
      this.id := id;
      slots := [];
    }

    /**
     * The new record takes the lowest deleted slot, or else a new one; every other slot stays. A full page keeps
     * fitting unless an empty record asks for a new directory entry that has no room.
     */
    method Insert(record: seq<byte>) returns (r: Result<nat>)
      modifies this
      ensures r.Ok? <==> |record| <= old(FreeSpace(slots)) && (old(FirstFree(slots)).Some? || |old(slots)| < 0x1_0000)
      ensures r.Err? ==> slots == old(slots) && r.error == Storage
      ensures r.Ok? ==> r.value < |slots| && slots[r.value] == Some(record)
      ensures r.Ok? && old(FirstFree(slots)).Some? ==>
                r.value == old(FirstFree(slots)).value && slots == old(slots)[r.value := Some(record)]
      ensures r.Ok? && old(FirstFree(slots)).None? ==> r.value == |old(slots)| && slots == old(slots) + [Some(record)]
      ensures r.Ok? && old(Fits(slots)) ==>
                (Fits(slots) <==> record != [] || old(FirstFree(slots)).Some? || old(Used(slots)) + SLOT <= PAGE_SIZE)
    {
      if |record| > FreeSpace(slots) {
        return Err(Storage);
      }
      match FirstFree(slots)
      case Some(i) =>
        FillSize(slots, i, record);
        slots := slots[i := Some(record)];
        return Ok(i);
      case None =>
        if |slots| >= 0x1_0000 {
          return Err(Storage);
        }
        assert (slots + [Some(record)])[..|slots|] == slots;
        slots := slots + [Some(record)];
        return Ok(|slots| - 1);
    }

    /** Takes the record out and leaves the slot for reuse. */
    method Remove(slot: u16) returns (r: Result<seq<byte>>)
      modifies this
      ensures r.Ok? <==> slot < |old(slots)| && old(slots)[slot].Some?
      ensures r.Ok? ==> old(slots)[slot] == Some(r.value) && slots == old(slots)[slot := None]
      ensures r.Err? ==> slots == old(slots) && r.error == NotFound
      ensures old(Fits(slots)) ==> Fits(slots)
    {
      if slot >= |slots| || slots[slot].None? {
        return Err(NotFound);
      }
      r := Ok(slots[slot].value);
      ClearSize(slots, slot);
      slots := slots[slot := None];
    }

    method ToBytes() returns (r: Result<seq<byte>>)
      ensures r == EncodePage(Value())
    {
      if |slots| >= 0x1_0000 {
        return Err(Storage);
      }
      var freeStart := HEADER + SLOT * |slots|;
      if freeStart > PAGE_SIZE {
        return Err(Storage);
      }
      hide Splice, Image, Body, Crc32, Payload, Live, Be;
      var bytes := new byte[PAGE_SIZE](i => 0);
      FilledEmpty(bytes[..]);
      var payloadStart := PAGE_SIZE;
      var i := 0;
      while i < |slots|
        invariant i <= |slots| && fresh(bytes) && bytes.Length == PAGE_SIZE
        invariant payloadStart == Start(slots[..i]) >= freeStart
        invariant bytes[..] == Filled(slots[..i])
      {
        assert slots[..i] + [slots[i]] == slots[..i + 1];
        PayloadStep(slots[..i], slots[i]);
        if slots[i].Some? {
          var record := slots[i].value;
          if payloadStart < |record| || payloadStart - |record| < freeStart {
            PayloadGrows(slots, i + 1);
            return Err(Storage);
          }
          payloadStart := payloadStart - |record|;
        }
        PutSlot(bytes, slots[..i], slots[i], HEADER + SLOT * i, payloadStart);
        i := i + 1;
      }
      assert slots[..i] == slots;
      PutHeader(bytes, Value(), freeStart, payloadStart);
      r := Ok(bytes[..]);
    }

    /** Parses one image in a single pass over the directory. */
    static method FromBytes(bytes: seq<byte>) returns (r: Result<SlottedPage>)
      ensures r.Ok? <==> DecodePage(bytes).Ok?
      ensures r.Ok? ==> fresh(r.value) && r.value.Value() == DecodePage(bytes).value
      ensures r.Err? ==> r.error == DecodePage(bytes).error
    {
      hide ParseSlot, Sound, Crc32, FromBe, Zeros;
      var header := CheckHeader(bytes);
      if header.Err? {
        return Err(header.error);
      }
      var count, live, freeEnd := Number(bytes, 20, 2), Number(bytes, 22, 2), Number(bytes, 26, 2);
      var parsed := Parsed([], []);
      var i := 0;
      while i < count
        invariant i <= count && ParseSlots(bytes, i, freeEnd) == Ok(parsed)
      {
        var step := ParseSlot(bytes, i, freeEnd, parsed);
        if step.Err? {
          ParseFails(bytes, i + 1, count, freeEnd);
          return Err(step.error);
        }
        parsed := step.value;
        i := i + 1;
      }
      if !Sound(parsed, live, freeEnd) {
        return Err(Corruption);
      }
      Spans();
      var page := new SlottedPage(Number(bytes, 8, 8));
      page.slots := parsed.slots;
      r := Ok(page);
    }
  }

  /** `copy_from_slice` into part of an array. */
  method Put(a: array<byte>, at: nat, part: seq<byte>)
    requires at + |part| <= a.Length
    modifies a
    ensures a[..] == Splice(old(a[..]), at, part)
  {
    ghost var was := a[..];
    var k := 0;
    while k < |part|
      invariant k <= |part|
      invariant a[..] == was[..at] + part[..k] + was[at + k..]
    {
      a[at + k] := part[k];
      assert part[..k + 1] == part[..k] + [part[k]];
      k := k + 1;
    }
    assert part[..k] == part;
  }

  /** One slot's payload, then its directory entry. */
  method PutSlot(bytes: array<byte>, ghost a: seq<Slot>, slot: Slot, at: nat, start: nat)
    requires bytes.Length == PAGE_SIZE && Fits(a + [slot]) && bytes[..] == Filled(a)
    requires at == HEADER + SLOT * |a| && start == Start(a + [slot])
    modifies bytes
    ensures bytes[..] == Filled(a + [slot])
  {
    hide Splice, Filled;
    assert (a + [slot])[..|a|] == a;
    FilledStep(a, slot);
    match slot
    case Some(record) =>
      Put(bytes, start, record);
      Put(bytes, at, Be(start, 2));
      Put(bytes, at + 2, Be(|record|, 2));
    case None =>
      Put(bytes, at, Be(DELETED, 2));
  }

  /** The header over finished slots; the checksum covers the other fields and goes in last. */
  method PutHeader(bytes: array<byte>, p: Page, freeStart: nat, payloadStart: nat)
    requires bytes.Length == PAGE_SIZE && Fits(p.slots) && bytes[..] == Filled(p.slots)
    requires freeStart == HEADER + SLOT * |p.slots| && payloadStart == Start(p.slots)
    modifies bytes
    ensures bytes[..] == Image(p)
  {
    hide Splice, Filled, Crc32;
    Put(bytes, 0, MAGIC);
    Put(bytes, 4, Be(1, 2));
    Put(bytes, 6, Be(HEADER, 2));
    Put(bytes, 8, Be(p.id, 8));
    Put(bytes, 20, Be(|p.slots|, 2));
    Put(bytes, 22, Be(Live(p.slots), 2));
    Put(bytes, 24, Be(freeStart, 2));
    Put(bytes, 26, Be(payloadStart, 2));
    HeaderFilled(p);
    var checksum := Checksum.Compute(bytes[..], 16, 20);
    Put(bytes, 16, Be(checksum, 4));
  }

  lemma FilledEmpty(zeros: seq<byte>)
    requires |zeros| == PAGE_SIZE && forall i :: 0 <= i < PAGE_SIZE ==> zeros[i] == 0
    ensures Fits([]) && Filled([]) == zeros
  {
  }

  function Splice(s: seq<byte>, at: nat, part: seq<byte>): (r: seq<byte>)
    requires at + |part| <= |s|
    ensures |r| == |s|
  {
    s[..at] + part + s[at + |part|..]
  }

  lemma SpliceIn(a: seq<byte>, hole: seq<byte>, b: seq<byte>, part: seq<byte>)
    requires |hole| == |part|
    ensures Splice(a + hole + b, |a|, part) == a + part + b
  {
    var s := a + hole + b;
    assert s[..|a|] == a && s[|a| + |part|..] == b;
  }

  // ---------- sizes ----------

  /** Filling the free slot `i` adds the record's length and nothing else. */
  lemma {:induction false} FillSize(slots: seq<Slot>, i: nat, record: seq<byte>)
    requires i < |slots| && slots[i].None?
    ensures |Payload(slots[i := Some(record)])| == |Payload(slots)| + |record|
  {
    var n := |slots| - 1;
    if i < n {
      FillSize(slots[..n], i, record);
      assert slots[i := Some(record)][..n] == slots[..n][i := Some(record)];
    } else {
      assert slots[i := Some(record)][..n] == slots[..n];
    }
  }

  lemma ClearSize(slots: seq<Slot>, i: nat)
    requires i < |slots| && slots[i].Some?
    ensures |Payload(slots)| == |Payload(slots[i := None])| + |slots[i].value|
  {
    FillSize(slots[i := None], i, slots[i].value);
    assert slots[i := None][i := slots[i]] == slots;
  }

  lemma {:induction false} PayloadGrows(slots: seq<Slot>, n: nat)
    requires n <= |slots|
    ensures |Payload(slots[..n])| <= |Payload(slots)|
    decreases |slots|
  {
    if n < |slots| {
      var k := |slots| - 1;
      PayloadGrows(slots[..k], n);
      assert slots[..k][..n] == slots[..n];
    } else {
      assert slots[..n] == slots;
    }
  }

  lemma PayloadStep(a: seq<Slot>, slot: Slot)
    ensures |Payload(a + [slot])| == |Payload(a)| + (if slot.Some? then |slot.value| else 0)
    ensures Live(a + [slot]) == Live(a) + (if slot.Some? then 1 else 0)
  {
    assert (a + [slot])[..|a|] == a;
  }

  // ---------- filling the array ----------

  /** The array once the entries and payloads of `slots` are in it. */
  ghost function Filled(slots: seq<Slot>): (s: seq<byte>)
    requires Fits(slots)
    ensures |s| == PAGE_SIZE
  {
    Zeros(HEADER) + Body(slots)
  }

  /** The array after slot number `|a|` is written into `was`. */
  ghost function SlotPut(was: seq<byte>, a: seq<Slot>, slot: Slot): seq<byte>
    requires Fits(a + [slot]) && |was| == PAGE_SIZE && (a + [slot])[..|a|] == a
  {
    var at := HEADER + SLOT * |a|;
    if slot.None? then Splice(was, at, Be(DELETED, 2))
    else
      var start := Start(a) - |slot.value|;
      Splice(Splice(Splice(was, start, slot.value), at, Be(start, 2)), at + 2, Be(|slot.value|, 2))
  }

  /** Putting into a run of zeros. */
  lemma PutNext(done: seq<byte>, n: nat, rest: seq<byte>, part: seq<byte>)
    requires |part| <= n
    ensures Splice(done + Zeros(n) + rest, |done|, part) == (done + part) + Zeros(n - |part|) + rest
  {
    assert Zeros(n) == Zeros(|part|) + Zeros(n - |part|);
    assert done + Zeros(n) + rest == done + Zeros(|part|) + (Zeros(n - |part|) + rest);
    SpliceIn(done, Zeros(|part|), Zeros(n - |part|) + rest, part);
  }

  lemma PutLast(front: seq<byte>, n: nat, tail: seq<byte>, part: seq<byte>)
    requires |part| <= n
    ensures Splice(front + Zeros(n) + tail, |front| + n - |part|, part) == front + Zeros(n - |part|) + (part + tail)
  {
    assert Zeros(n) == Zeros(n - |part|) + Zeros(|part|);
    assert front + Zeros(n) + tail == (front + Zeros(n - |part|)) + Zeros(|part|) + tail;
    SpliceIn(front + Zeros(n - |part|), Zeros(|part|), tail, part);
  }

  lemma FilledStep(a: seq<Slot>, slot: Slot)
    requires Fits(a + [slot]) && (a + [slot])[..|a|] == a
    ensures Fits(a) && SlotPut(Filled(a), a, slot) == Filled(a + [slot])
  {
    hide Splice, Be, Zeros;
    var all := a + [slot];
    var front, tail, n := Zeros(HEADER) + Directory(a), Payload(a), PAGE_SIZE - Used(a);
    FilledShape(a);
    FilledShape(all);
    var entry := Entry(slot, Start(all));
    assert Zeros(HEADER) + Directory(all) == front + entry by {
      Associate(Zeros(HEADER), Directory(a), entry);
    }
    match slot
    case Some(record) =>
      PutLast(front, n, tail, record);
      PutNext(front, n - |record|, record + tail, Be(Start(all), 2));
      PutNext(front + Be(Start(all), 2), n - |record| - 2, record + tail, Be(|record|, 2));
      Associate(front, Be(Start(all), 2), Be(|record|, 2));
    case None =>
      assert [] + tail == tail;
      PutNext(front, n, tail, Be(DELETED, 2));
      ZerosSplit(front + Be(DELETED, 2), n - 2, 2, tail);
      Associate(front, Be(DELETED, 2), Zeros(2));
  }

  lemma Associate(a: seq<byte>, b: seq<byte>, c: seq<byte>)
    ensures (a + b) + c == a + (b + c)
  {
  }

  lemma ZerosSplit(a: seq<byte>, n: nat, k: nat, c: seq<byte>)
    requires k <= n
    ensures a + Zeros(n) + c == (a + Zeros(k)) + Zeros(n - k) + c
  {
    assert Zeros(n) == Zeros(k) + Zeros(n - k);
  }

  lemma FilledShape(a: seq<Slot>)
    requires Fits(a)
    ensures Filled(a) == (Zeros(HEADER) + Directory(a)) + Zeros(PAGE_SIZE - Used(a)) + Payload(a)
  {
  }

  /** The array after the header fields are written, in the source's order, the checksum last. */
  ghost function FrontPut(was: seq<byte>, id: u64): (s: seq<byte>)
    requires |was| == PAGE_SIZE
    ensures |s| == PAGE_SIZE
  {
    Splice(Splice(Splice(Splice(was, 0, MAGIC), 4, Be(1, 2)), 6, Be(HEADER, 2)), 8, Be(id, 8))
  }

  ghost function BackPut(was: seq<byte>, slots: seq<Slot>): (s: seq<byte>)
    requires |was| == PAGE_SIZE && Fits(slots)
    ensures |s| == PAGE_SIZE
  {
    Splice(Splice(Splice(Splice(was, 20, Be(|slots|, 2)), 22, Be(Live(slots), 2)), 24, Be(HEADER + SLOT * |slots|, 2)), 26, Be(Start(slots), 2))
  }

  lemma FrontFilled(p: Page, rest: seq<byte>)
    requires |rest| == PAGE_SIZE - HEADER
    ensures FrontPut(Zeros(HEADER) + rest, p.id) == Front(p) + Zeros(16) + rest
  {
    hide Splice, Be, Zeros;
    assert Zeros(HEADER) + rest == [] + Zeros(HEADER) + rest;
    assert [] + MAGIC == MAGIC;
    PutNext([], HEADER, rest, MAGIC);
    PutNext(MAGIC, 28, rest, Be(1, 2));
    PutNext(MAGIC + Be(1, 2), 26, rest, Be(HEADER, 2));
    PutNext(MAGIC + Be(1, 2) + Be(HEADER, 2), 24, rest, Be(p.id, 8));
  }

  lemma BackFilled(f: seq<byte>, slots: seq<Slot>, rest: seq<byte>)
    requires |f| == 16 && |rest| == PAGE_SIZE - HEADER && Fits(slots)
    ensures BackPut(f + Zeros(16) + rest, slots) == f + Zeros(4) + (Back(slots) + rest)
  {
    hide Splice, Be, Zeros;
    ZerosSplit(f, 16, 4, rest);
    var g := f + Zeros(4);
    var a, b, c, d := Be(|slots|, 2), Be(Live(slots), 2), Be(HEADER + SLOT * |slots|, 2), Be(Start(slots), 2);
    PutNext(g, 12, rest, a);
    PutNext(g + a, 10, rest, b);
    PutNext(g + a + b, 8, rest, c);
    PutNext(g + a + b + c, 6, rest, d);
    assert g + a + b + c + d + Zeros(4) + rest == g + ((a + b + c + d + Zeros(4)) + rest);
  }

  lemma HeaderFilled(p: Page)
    requires Fits(p.slots)
    ensures var s := BackPut(FrontPut(Filled(p.slots), p.id), p.slots);
            s == Sealed(p, 0) && Splice(s, 16, Be(Crc32(s, 16, 20), 4)) == Image(p)
  {
    hide Splice, Be, Zeros, Front, Back, Crc32;
    FrontFilled(p, Body(p.slots));
    BackFilled(Front(p), p.slots, Body(p.slots));
    assert Zeros(4) == Be(0, 4) by {
      NoBytes();
    }
    var crc := Crc32(Sealed(p, 0), 16, 20);
    SpliceIn(Front(p), Be(0, 4), Back(p.slots) + Body(p.slots), Be(crc, 4));
  }

  lemma NoBytes()
    ensures Zeros(4) == Be(0, 4)
  {
  }

  lemma {:induction false} ParseFails(bytes: seq<byte>, i: nat, n: nat, freeEnd: nat)
    requires |bytes| == PAGE_SIZE && i <= n && HEADER + SLOT * n <= PAGE_SIZE && ParseSlots(bytes, i, freeEnd).Err?
    ensures ParseSlots(bytes, n, freeEnd) == ParseSlots(bytes, i, freeEnd)
  {
    if i < n {
      ParseFails(bytes, i, n - 1, freeEnd);
    }
  }
}
