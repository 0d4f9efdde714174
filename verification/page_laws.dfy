/** Page images: round trip, tiling and detection of changed bytes. */
module PageLaws {
  import opened Base
  import opened Bytes
  import opened Checksum
  import opened Pages

  /** The payload ranges of `slots` in their image. */
  ghost function RangesOf(slots: seq<Slot>): seq<Range>
    requires |Payload(slots)| <= PAGE_SIZE
  {
    if slots == [] then []
    else
      var front := slots[..|slots| - 1];
      RangesOf(front) + (if slots[|slots| - 1].Some? then [Range(Start(slots), Start(front))] else [])
  }

  /** Ranges that lie from `low` on, in order downwards. */
  lemma {:induction false} RangesOfOk(slots: seq<Slot>)
    requires |Payload(slots)| <= PAGE_SIZE
    ensures forall i :: 0 <= i < |RangesOf(slots)| ==> Start(slots) <= RangesOf(slots)[i].start <= RangesOf(slots)[i].end <= PAGE_SIZE
    ensures MinStart(RangesOf(slots)) == Start(slots) && Total(RangesOf(slots)) == |Payload(slots)|
  {
    if slots != [] {
      var front := slots[..|slots| - 1];
      RangesOfOk(front);
      var ranges := RangesOf(slots);
      if slots[|slots| - 1].Some? {
        assert ranges[..|ranges| - 1] == RangesOf(front);
      } else {
        assert ranges == RangesOf(front);
      }
    }
  }

  lemma {:induction false} DirectoryAt(slots: seq<Slot>, i: nat)
    requires |Payload(slots)| <= PAGE_SIZE && i < |slots| && |Payload(slots[..i + 1])| <= PAGE_SIZE
    ensures At(Directory(slots), SLOT * i, Entry(slots[i], Start(slots[..i + 1])))
    decreases |slots|
  {
    hide At, Entry;
    var n := |slots| - 1;
    if i < n {
      PayloadTail(slots, n);
      assert slots[..n][..i + 1] == slots[..i + 1];
      DirectoryAt(slots[..n], i);
      AtPrefix(Directory(slots[..n]), Entry(slots[n], Start(slots)), SLOT * i, Entry(slots[i], Start(slots[..i + 1])));
    } else {
      assert slots[..i + 1] == slots;
      AtPart(Directory(slots[..n]), Entry(slots[n], Start(slots)), []);
      assert Directory(slots) + [] == Directory(slots);
    }
  }

  /** The payload area of a prefix ends the whole payload area. */
  lemma {:induction false} PayloadTail(slots: seq<Slot>, n: nat)
    requires n <= |slots|
    ensures |Payload(slots[..n])| <= |Payload(slots)|
    ensures At(Payload(slots), |Payload(slots)| - |Payload(slots[..n])|, Payload(slots[..n]))
    decreases |slots|
  {
    if n < |slots| {
      var k := |slots| - 1;
      PayloadTail(slots[..k], n);
      assert slots[..k][..n] == slots[..n];
      AtSuffix(if slots[k].Some? then slots[k].value else [], Payload(slots[..k]),
               |Payload(slots[..k])| - |Payload(slots[..n])|, Payload(slots[..n]));
    } else {
      assert slots[..n] == slots;
    }
  }

  lemma ImageParts(p: Page)
    requires Fits(p.slots)
    ensures At(Image(p), HEADER, Directory(p.slots)) && At(Image(p), Start(p.slots), Payload(p.slots))
  {
    hide Front, Back, Crc32, Be, At, Directory, Payload;
    var slots, crc := p.slots, Crc32(Sealed(p, 0), 16, 20);
    var head, gap := Front(p) + Be(crc, 4) + Back(slots), Zeros(PAGE_SIZE - Used(slots));
    var directory, payload := Directory(slots), Payload(slots);
    assert Image(p) == head + directory + (gap + payload) by {
      Associate(Front(p) + Be(crc, 4), Back(slots), Body(slots));
      Associate(directory, gap, payload);
      Associate(head, directory, gap + payload);
    }
    AtPart(head, directory, gap + payload);
    assert Image(p) == (head + directory + gap) + payload + [] by {
      Associate(head + directory, gap, payload);
    }
    AtPart(head + directory + gap, payload, []);
  }

  /** Directory entry and payload of slot `i`, as they stand in the image. */
  lemma ImageSlot(p: Page, i: nat)
    requires Fits(p.slots) && i < |p.slots|
    ensures Fits(p.slots[..i + 1]) && Fits(p.slots[..i])
    ensures var start := Start(p.slots[..i + 1]);
            At(Image(p), HEADER + SLOT * i, Entry(p.slots[i], start))
            && (p.slots[i].Some? ==> start + |p.slots[i].value| == Start(p.slots[..i]) && At(Image(p), start, p.slots[i].value))
  {
    hide At, Image, Entry;
    var slots, image := p.slots, Image(p);
    PayloadTail(slots, i + 1);
    PayloadTail(slots[..i + 1], i);
    assert slots[..i + 1][..i] == slots[..i] && slots[..i + 1][i] == slots[i];
    ImageParts(p);
    DirectoryAt(slots, i);
    AtInner(image, HEADER, Directory(slots), SLOT * i, Entry(slots[i], Start(slots[..i + 1])));
    if slots[i].Some? {
      var start, part := Start(slots[..i + 1]), Payload(slots[..i + 1]);
      AtInner(image, Start(slots), Payload(slots), |Payload(slots)| - |part|, part);
      AtPart([], slots[i].value, Payload(slots[..i]));
      assert [] + slots[i].value + Payload(slots[..i]) == part;
      AtInner(image, start, part, 0, slots[i].value);
    }
  }

  lemma {:induction false} ParseImage(p: Page, n: nat)
    requires Fits(p.slots) && n <= |p.slots|
    ensures |Payload(p.slots[..n])| <= PAGE_SIZE
    ensures ParseSlots(Image(p), n, Start(p.slots)) == Ok(Parsed(p.slots[..n], RangesOf(p.slots[..n])))
  {
    hide Image, Entry, Number, ParseSlot, At, Payload, MinStart, Total;
    PayloadTail(p.slots, n);
    if n > 0 {
      ParseImage(p, n - 1);
      ImageSlot(p, n - 1);
      var front, all := p.slots[..n - 1], p.slots[..n];
      assert all[..n - 1] == front && all == front + [all[n - 1]];
      RangesOfOk(front);
      ParseSlotOk(Image(p), n - 1, Start(p.slots), Parsed(front, RangesOf(front)), all[n - 1], Start(all));
    }
  }

  lemma ParseSlotOk(bytes: seq<byte>, i: nat, freeEnd: nat, before: Parsed, slot: Slot, start: nat)
    requires |bytes| == PAGE_SIZE && HEADER + SLOT * (i + 1) <= PAGE_SIZE && freeEnd <= start <= PAGE_SIZE
    requires At(bytes, HEADER + SLOT * i, Entry(slot, start)) && (slot.Some? ==> At(bytes, start, slot.value))
    requires slot.Some? ==> forall j :: 0 <= j < |before.ranges| ==> start + |slot.value| <= before.ranges[j].start
    ensures ParseSlot(bytes, i, freeEnd, before)
            == Ok(Parsed(before.slots + [slot], before.ranges + (if slot.Some? then [Range(start, start + |slot.value|)] else [])))
  {
    hide Number, Entry;
    EntryNumbers(bytes, HEADER + SLOT * i, slot, start);
    assert before.ranges + [] == before.ranges;
    assert slot.Some? ==> !Overlaps(Range(start, start + |slot.value|), before.ranges);
  }

  lemma EntryNumbers(bytes: seq<byte>, at: nat, slot: Slot, start: nat)
    requires start <= PAGE_SIZE && (slot.Some? ==> |slot.value| <= PAGE_SIZE) && At(bytes, at, Entry(slot, start))
    ensures Number(bytes, at, 2) == if slot.Some? then start else DELETED
    ensures Number(bytes, at + 2, 2) == if slot.Some? then |slot.value| else 0
  {
    Spans();
    var entry := Entry(slot, start);
    assert bytes[at..at + 2] == entry[..2];
    assert bytes[at + 2..at + 4] == entry[2..];
    match slot
    case Some(record) =>
      NumberAt(bytes, at, 2, start);
      NumberAt(bytes, at + 2, 2, |record|);
    case None =>
      NumberAt(bytes, at, 2, DELETED);
      assert Zeros(2) == Be(0, 2);
      NumberAt(bytes, at + 2, 2, 0);
  }

  lemma FrontNumbers(image: seq<byte>, p: Page)
    requires |image| == PAGE_SIZE && At(image, 0, Front(p))
    ensures image[..4] == MAGIC && Number(image, 4, 2) == 1 && Number(image, 6, 2) == HEADER && Number(image, 8, 8) == p.id
  {
    Spans();
    var b, c, d, e := MAGIC, Be(1, 2), Be(HEADER, 2), Be(p.id, 8);
    Pieces(b, c, d, e, []);
    assert Front(p) == b + c + d + e + [];
    hide Be, FromBe, Front;
    AtInner(image, 0, b + c + d + e + [], 0, b);
    AtInner(image, 0, b + c + d + e + [], 4, c);
    AtInner(image, 0, b + c + d + e + [], 6, d);
    AtInner(image, 0, b + c + d + e + [], 8, e);
    NumberAt(image, 4, 2, 1);
    NumberAt(image, 6, 2, HEADER);
    NumberAt(image, 8, 8, p.id);
  }

  /** Four 16-bit numbers and four zero bytes at 20. */
  lemma BackNumbers(image: seq<byte>, a: u16, b: u16, c: u16, d: u16)
    requires |image| == PAGE_SIZE && At(image, 20, Be(a, 2) + Be(b, 2) + Be(c, 2) + Be(d, 2) + Zeros(4))
    ensures Number(image, 20, 2) == a && Number(image, 22, 2) == b && Number(image, 24, 2) == c && Number(image, 26, 2) == d
    ensures At(image, 28, Zeros(4))
  {
    hide Be, FromBe, Number, At, Zeros;
    Spans();
    var back := Be(a, 2) + Be(b, 2) + Be(c, 2) + Be(d, 2) + Zeros(4);
    Pieces(Be(a, 2), Be(b, 2), Be(c, 2), Be(d, 2), Zeros(4));
    NumberIn(image, 20, back, 0, 2, a);
    NumberIn(image, 20, back, 2, 2, b);
    NumberIn(image, 20, back, 4, 2, c);
    NumberIn(image, 20, back, 6, 2, d);
    AtInner(image, 20, back, 8, Zeros(4));
  }

  lemma HeaderParts(p: Page)
    requires Fits(p.slots)
    ensures At(Image(p), 0, Front(p)) && At(Image(p), 16, Be(Crc32(Sealed(p, 0), 16, 20), 4)) && At(Image(p), 20, Back(p.slots))
    ensures forall i :: 0 <= i < PAGE_SIZE && !(16 <= i < 20) ==> Sealed(p, 0)[i] == Image(p)[i]
  {
    hide Crc32, Body, Be, Front, Back;
    var crc := Be(Crc32(Sealed(p, 0), 16, 20), 4);
    var f, b, body := Front(p), Back(p.slots), Body(p.slots);
    assert Image(p) == [] + f + (crc + (b + body)) && Image(p) == f + crc + (b + body) && Image(p) == (f + crc) + b + body;
  }

  lemma HeaderNumbers(p: Page)
    requires Fits(p.slots)
    ensures CheckHeader(Image(p)).Ok?
    ensures Number(Image(p), 8, 8) == p.id && Number(Image(p), 20, 2) == |p.slots|
    ensures Number(Image(p), 22, 2) == Live(p.slots) && Number(Image(p), 26, 2) == Start(p.slots)
  {
    hide Crc32, Body, Live, Payload, Be, FromBe, Front;
    Spans();
    var image, slots := Image(p), p.slots;
    var crc := Crc32(Sealed(p, 0), 16, 20);
    HeaderParts(p);
    FrontNumbers(image, p);
    BackNumbers(image, |slots|, Live(slots), HEADER + SLOT * |slots|, Start(slots));
    NumberAt(image, 16, 4, crc);
    ChecksumSame(Sealed(p, 0), image, 16, 20);
  }

  /** Every page that fits, and only such a page, has an image, which decodes to the page. */
  lemma PageRoundTrip(p: Page)
    ensures EncodePage(p).Ok? <==> Fits(p.slots)
    ensures Fits(p.slots) ==> DecodePage(EncodePage(p).value) == Ok(p)
  {
    hide Crc32, Image, Number, ParseSlots, CheckHeader;
    if Fits(p.slots) {
      HeaderNumbers(p);
      ParseImage(p, |p.slots|);
      RangesOfOk(p.slots);
      assert p.slots[..|p.slots|] == p.slots;
    }
  }

  // ---------- what an accepted image looks like ----------

  predicate Within(ranges: seq<Range>, low: nat) {
    forall i :: 0 <= i < |ranges| ==> low <= ranges[i].start <= ranges[i].end <= PAGE_SIZE
  }

  predicate Apart(ranges: seq<Range>) {
    forall i, j :: 0 <= i < j < |ranges| ==> !Overlap(ranges[i], ranges[j])
  }

  lemma {:induction false} ParsedOk(bytes: seq<byte>, n: nat, freeEnd: nat)
    requires |bytes| == PAGE_SIZE && HEADER + SLOT * n <= PAGE_SIZE && ParseSlots(bytes, n, freeEnd).Ok?
    ensures var parsed := ParseSlots(bytes, n, freeEnd).value;
            |parsed.slots| == n && Consistent(parsed, freeEnd)
  {
    hide Number;
    if n > 0 {
      hide Consistent;
      ParsedOk(bytes, n - 1, freeEnd);
      ParsedStep(bytes, n - 1, freeEnd, ParseSlots(bytes, n - 1, freeEnd).value);
    }
  }

  /** The slots and ranges collected so far are consistent. */
  ghost predicate Consistent(parsed: Parsed, freeEnd: nat) {
    Within(parsed.ranges, freeEnd) && Apart(parsed.ranges)
    && |Payload(parsed.slots)| == Total(parsed.ranges) && Live(parsed.slots) == |parsed.ranges|
  }

  lemma ParsedStep(bytes: seq<byte>, i: nat, freeEnd: nat, before: Parsed)
    requires |bytes| == PAGE_SIZE && HEADER + SLOT * (i + 1) <= PAGE_SIZE
    requires Consistent(before, freeEnd) && ParseSlot(bytes, i, freeEnd, before).Ok?
    ensures Consistent(ParseSlot(bytes, i, freeEnd, before).value, freeEnd)
  {
    hide Number, Payload, Total, Live;
    var parsed := ParseSlot(bytes, i, freeEnd, before).value;
    PayloadStep(before.slots, parsed.slots[|before.slots|]);
    if parsed.ranges != before.ranges {
      RangeAdded(before.ranges, parsed.ranges[|before.ranges|], freeEnd);
    }
  }

  lemma RangeAdded(ranges: seq<Range>, range: Range, freeEnd: nat)
    requires Within(ranges, freeEnd) && Apart(ranges) && !Overlaps(range, ranges) && freeEnd <= range.start <= range.end <= PAGE_SIZE
    ensures Within(ranges + [range], freeEnd) && Apart(ranges + [range]) && Total(ranges + [range]) == Total(ranges) + Length(range)
  {
    assert (ranges + [range])[..|ranges|] == ranges;
  }

  /** Range number `i` holds the byte at `at`. */
  ghost predicate Holds(ranges: seq<Range>, i: int, at: nat) {
    0 <= i < |ranges| && ranges[i].start <= at < ranges[i].end
  }

  /** How many of the ranges hold the byte at `at`. */
  ghost function Cover(ranges: seq<Range>, at: nat): nat {
    if ranges == [] then 0
    else Cover(ranges[..|ranges| - 1], at) + (if ranges[|ranges| - 1].start <= at < ranges[|ranges| - 1].end then 1 else 0)
  }

  ghost function CoverSum(ranges: seq<Range>, low: nat, high: nat): nat
    requires low <= high
    decreases high
  {
    if low == high then 0 else CoverSum(ranges, low, high - 1) + Cover(ranges, high - 1)
  }

  lemma {:induction false} CoverAdd(ranges: seq<Range>, low: nat, high: nat)
    requires ranges != [] && low <= high
    ensures var front, last := ranges[..|ranges| - 1], ranges[|ranges| - 1];
            CoverSum(ranges, low, high) == CoverSum(front, low, high) + Between(last, low, high)
    decreases high
  {
    if low < high {
      CoverAdd(ranges, low, high - 1);
    }
  }

  /** Bytes of the range in `[low, high)`. */
  ghost function Between(r: Range, low: nat, high: nat): nat {
    SaturatingSub(if r.end < high then r.end else high, if r.start < low then low else r.start)
  }

  lemma {:induction false} CoverTotal(ranges: seq<Range>, low: nat)
    requires Within(ranges, low) && low <= PAGE_SIZE
    ensures CoverSum(ranges, low, PAGE_SIZE) == Total(ranges)
    decreases |ranges|
  {
    if ranges == [] {
      NoCover(low, PAGE_SIZE);
    } else {
      CoverAdd(ranges, low, PAGE_SIZE);
      CoverTotal(ranges[..|ranges| - 1], low);
    }
  }

  lemma {:induction false} NoCover(low: nat, high: nat)
    requires low <= high
    ensures CoverSum([], low, high) == 0
    decreases high
  {
    if low < high {
      NoCover(low, high - 1);
    }
  }

  lemma {:induction false} CoverOnce(ranges: seq<Range>, at: nat)
    requires Apart(ranges)
    ensures Cover(ranges, at) <= 1
    ensures Cover(ranges, at) == 1 <==> exists i :: Holds(ranges, i, at)
  {
    if ranges != [] {
      var n := |ranges| - 1;
      CoverOnce(ranges[..n], at);
      if i :| Holds(ranges[..n], i, at) {
        assert Holds(ranges, i, at);
      }
      assert forall i :: Holds(ranges, i, at) && i != n ==> Holds(ranges[..n], i, at);
      assert Holds(ranges, n, at) <==> ranges[n].start <= at < ranges[n].end;
      if ranges[n].start <= at < ranges[n].end {
        forall i | 0 <= i < n
          ensures !Holds(ranges, i, at)
        {
          assert !Overlap(ranges[i], ranges[n]);
        }
      }
    }
  }

  lemma {:induction false} FullCover(ranges: seq<Range>, low: nat, high: nat, at: nat)
    requires Apart(ranges) && low <= at < high
    ensures CoverSum(ranges, low, high) <= high - low
    ensures CoverSum(ranges, low, high) == high - low ==> Cover(ranges, at) == 1
    decreases high
  {
    CoverOnce(ranges, high - 1);
    if low < high - 1 {
      FullCover(ranges, low, high - 1, if at < high - 1 then at else low);
    }
  }

  /** In an accepted image the payloads tile the bytes from the free-space end on. */
  lemma AcceptedTiles(bytes: seq<byte>, at: nat)
    requires DecodePage(bytes).Ok? && Number(bytes, 26, 2) <= at < PAGE_SIZE
    ensures var ranges := ParseSlots(bytes, Number(bytes, 20, 2), Number(bytes, 26, 2)).value.ranges;
            (exists i :: Holds(ranges, i, at)) && forall i, j :: Holds(ranges, i, at) && Holds(ranges, j, at) ==> i == j
  {
    hide Crc32, Number, FromBe;
    var n, low := Number(bytes, 20, 2), Number(bytes, 26, 2);
    ParsedOk(bytes, n, low);
    var ranges := ParseSlots(bytes, n, low).value.ranges;
    CoverTotal(ranges, low);
    FullCover(ranges, low, PAGE_SIZE, at);
    CoverOnce(ranges, at);
    forall i, j | Holds(ranges, i, at) && Holds(ranges, j, at)
      ensures i == j
    {
      assert Overlap(ranges[i], ranges[j]);
    }
  }

  /** An accepted page fits, so encoding it again gives an image that decodes to the same page. */
  lemma AcceptedFits(bytes: seq<byte>)
    requires DecodePage(bytes).Ok?
    ensures Fits(DecodePage(bytes).value.slots)
    ensures DecodePage(Image(DecodePage(bytes).value)) == DecodePage(bytes)
  {
    hide Crc32, Number, FromBe, Image;
    ParsedOk(bytes, Number(bytes, 20, 2), Number(bytes, 26, 2));
    PageRoundTrip(DecodePage(bytes).value);
  }

  /** Any change of a single byte is detected. */
  lemma ChangedPageRejected(good: seq<byte>, bad: seq<byte>, i: nat)
    requires DecodePage(good).Ok? && DifferOnlyAt(good, bad, i)
    ensures DecodePage(bad).Err?
  {
    hide Crc32, ParseSlots, FromBe;
    ChecksumDiffers(good, bad, i, 16, 20);
    if 16 <= i < 20 {
      FromBeBound(good[16..20]);
      FromBeBound(bad[16..20]);
      assert good[16..20][i - 16] == good[i] && bad[16..20][i - 16] == bad[i];
    } else {
      assert good[16..20] == bad[16..20];
    }
  }

  datatype PageEdit = Put(record: seq<byte>) | Take(slot: u16)

  /**
   * Any page built by inserting and removing records is written and read back unchanged, if it still fits; it
   * does when no empty record was inserted.
   */
  method EditAndReload(id: u64, edits: seq<PageEdit>) returns (page: SlottedPage, reloaded: Result<SlottedPage>)
    ensures fresh(page) && (reloaded.Ok? <==> Fits(page.slots))
    ensures reloaded.Ok? ==> fresh(reloaded.value) && page != reloaded.value && reloaded.value.Value() == page.Value()
    ensures (forall i :: 0 <= i < |edits| && edits[i].Put? ==> edits[i].record != []) ==> reloaded.Ok?
  {
    page := new SlottedPage(id);
    var i := 0;
    while i < |edits|
      invariant i <= |edits| && fresh(page)
      invariant (forall j :: 0 <= j < i && edits[j].Put? ==> edits[j].record != []) ==> Fits(page.slots)
    {
      match edits[i] {
        case Put(record) => var _ := page.Insert(record);
        case Take(slot) => var _ := page.Remove(slot);
      }
      i := i + 1;
    }
    PageRoundTrip(page.Value());
    var image := page.ToBytes();
    if image.Err? {
      return page, Err(image.error);
    }
    reloaded := SlottedPage.FromBytes(image.value);
  }

  /**
   * One record of 4060 bytes fills a page to the last byte. `Insert` still takes an empty record, since no byte is
   * missing for it, and the page then has no image.
   */
  lemma EmptyRecordOverflows(id: u64, slots: seq<Slot>)
    requires slots == [Some(Zeros(PAGE_SIZE - HEADER - SLOT))]
    ensures FirstFree(slots).None? && 0 <= FreeSpace(slots)
    ensures EncodePage(Page(id, slots)).Ok? && EncodePage(Page(id, slots + [Some([])])) == Err(Storage)
  {
    hide Image, Zeros;
    assert slots[..0] == [] && (slots + [Some([])])[..1] == slots;
    assert |slots[0].value| == PAGE_SIZE - HEADER - SLOT && |Payload(slots)| == |slots[0].value| + |Payload([])|;
    assert Used(slots) == PAGE_SIZE && Used(slots + [Some([])]) == PAGE_SIZE + SLOT;
  }
}
