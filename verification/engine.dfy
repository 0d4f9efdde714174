/** The document store over slotted pages. */
module Engine {
  import opened Base
  import opened Documents
  import opened Nbf
  import opened PageFile
  import opened P = Pages
  import NbfCodec
  import NbfLaws
  import PageLaws

  datatype Location = Location(page: u64, slot: nat)

  type Directory = map<NovaId, Location>

  /** The record bytes at a location, if a live slot is there. */
  function RecordAt(pages: seq<seq<byte>>, at: Location): Option<seq<byte>> {
    match ReadPage(pages, at.page)
    case Err(_) => None
    case Ok(page) => if at.slot < |page.slots| then page.slots[at.slot] else None
  }

  /** Every live record is a document, and the directory leads to it. */
  ghost predicate Listed(pages: seq<seq<byte>>, locations: Directory, at: Location) {
    match RecordAt(pages, at)
    case None => true
    case Some(record) => Decode(record).Ok? && Decode(record).value.id in locations && locations[Decode(record).value.id] == at
  }

  /** The document with this id is stored at the location. */
  ghost predicate Stored(pages: seq<seq<byte>>, at: Location, id: NovaId) {
    RecordAt(pages, at).Some? && Decode(RecordAt(pages, at).value).Ok? && Decode(RecordAt(pages, at).value).value.id == id
  }

  /** Every page reads, and the directory lists exactly the documents in the pages. */
  ghost predicate Consistent(pages: seq<seq<byte>>, locations: Directory) {
    && |pages| <= MAX_PAGES
    && PagesRead(pages, |pages|)
    && (forall at :: Listed(pages, locations, at))
    && (forall id :: id in locations ==> Stored(pages, locations[id], id))
  }

  /** The abstract value: which document each id is bound to. */
  ghost function Contents(pages: seq<seq<byte>>, locations: Directory): map<NovaId, Document>
    requires Consistent(pages, locations)
  {
    map id | id in locations :: Decode(RecordAt(pages, locations[id]).value).value
  }

  /** Changing one free slot to a record, on a page that still fits. */
  lemma RecordPlaced(pages: seq<seq<byte>>, page: Page, after: Page, slot: nat, record: seq<byte>, at: Location)
    requires ReadPage(pages, page.id) == Ok(page) && after.id == page.id && Fits(after.slots)
    requires slot < |after.slots| && after.slots[slot] == Some(record)
    requires if slot == |page.slots| then after.slots == page.slots + [Some(record)]
             else slot < |page.slots| && page.slots[slot].None? && after.slots == page.slots[slot := Some(record)]
    ensures RecordAt(pages[page.id := Image(after)], at) == if at == Location(page.id, slot) then Some(record) else RecordAt(pages, at)
    ensures RecordAt(pages, Location(page.id, slot)).None?
  {
    hide Image, DecodePage;
    PageLaws.PageRoundTrip(after);
  }

  lemma RecordAllocated(pages: seq<seq<byte>>, at: Location)
    requires |pages| < MAX_PAGES
    ensures RecordAt(pages + [EmptyImage(|pages|)], at) == RecordAt(pages, at)
    ensures ReadPage(pages + [EmptyImage(|pages|)], |pages|) == Ok(P.Page(|pages|, []))
  {
    hide Image, DecodePage;
    PageLaws.PageRoundTrip(P.Page(|pages|, []));
  }

  /** Only the records matter. */
  lemma SameRecords(pages: seq<seq<byte>>, after: seq<seq<byte>>, locations: Directory)
    requires Consistent(pages, locations) && |after| <= MAX_PAGES && forall p: u64 :: p < |after| ==> ReadPage(after, p).Ok?
    requires forall at :: RecordAt(after, at) == RecordAt(pages, at)
    ensures Consistent(after, locations) && Contents(after, locations) == Contents(pages, locations)
  {
    hide Decode, RecordAt, ReadPage;
    forall at: Location
      ensures Listed(after, locations, at)
    {
      assert Listed(pages, locations, at);
    }
  }

  /** One more record, of a document that was not there, bound where it stands. */
  lemma OneMoreRecord(pages: seq<seq<byte>>, after: seq<seq<byte>>, locations: Directory, here: Location, record: seq<byte>, d: Document)
    requires Consistent(pages, locations) && |after| <= MAX_PAGES && forall p: u64 :: p < |after| ==> ReadPage(after, p).Ok?
    requires forall at :: RecordAt(after, at) == if at == here then Some(record) else RecordAt(pages, at)
    requires RecordAt(pages, here).None? && Decode(record) == Ok(d) && d.id !in locations
    ensures Consistent(after, locations[d.id := here])
    ensures Contents(after, locations[d.id := here]) == Contents(pages, locations)[d.id := d]
  {
    hide Decode, RecordAt, ReadPage;
    var locations' := locations[d.id := here];
    forall at: Location
      ensures Listed(after, locations', at)
    {
      assert Listed(pages, locations, at);
    }
    forall id | id in locations'
      ensures Stored(after, locations'[id], id)
      ensures id != d.id ==> RecordAt(after, locations'[id]) == RecordAt(pages, locations[id])
    {
      assert id != d.id ==> Stored(pages, locations[id], id);
    }
  }

  lemma AllocatedConsistent(pages: seq<seq<byte>>, locations: Directory)
    requires Consistent(pages, locations) && |pages| < MAX_PAGES
    ensures Consistent(pages + [EmptyImage(|pages|)], locations)
    ensures Contents(pages + [EmptyImage(|pages|)], locations) == Contents(pages, locations)
    ensures ReadPage(pages + [EmptyImage(|pages|)], |pages|) == Ok(P.Page(|pages|, []))
  {
    hide Decode, EmptyImage, RecordAt, DecodePage, Listed, Stored;
    var after := pages + [EmptyImage(|pages|)];
    forall at: Location
      ensures RecordAt(after, at) == RecordAt(pages, at)
    {
      RecordAllocated(pages, at);
    }
    RecordAllocated(pages, Location(0, 0));
    forall p: u64 | p < |after|
      ensures ReadPage(after, p).Ok?
    {
      assert p < |pages| ==> after[p] == pages[p] && ReadPage(pages, p).Ok?;
    }
    SameRecords(pages, after, locations);
  }

  /** Placing the encoding of a new document binds its id and nothing else. */
  lemma PlacedConsistent(pages: seq<seq<byte>>, locations: Directory, page: Page, after: Page, slot: nat, record: seq<byte>, d: Document)
    requires Consistent(pages, locations) && ReadPage(pages, page.id) == Ok(page) && after.id == page.id && Fits(after.slots)
    requires slot < |after.slots| && after.slots[slot] == Some(record)
    requires if slot == |page.slots| then after.slots == page.slots + [Some(record)]
             else slot < |page.slots| && page.slots[slot].None? && after.slots == page.slots[slot := Some(record)]
    requires Decode(record) == Ok(d) && d.id !in locations
    ensures page.id < |pages|
    ensures var pages', locations' := pages[page.id := Image(after)], locations[d.id := Location(page.id, slot)];
            Consistent(pages', locations') && Contents(pages', locations') == Contents(pages, locations)[d.id := d]
  {
    hide Decode, Image, RecordAt, DecodePage, Listed, Stored;
    PageLaws.PageRoundTrip(after);
    var here := Location(page.id, slot);
    var pages' := pages[page.id := Image(after)];
    forall at: Location
      ensures RecordAt(pages', at) == if at == here then Some(record) else RecordAt(pages, at)
      ensures RecordAt(pages, here).None?
    {
      RecordPlaced(pages, page, after, slot, record, at);
    }
    RecordPlaced(pages, page, after, slot, record, here);
    forall p: u64 | p < |pages'|
      ensures ReadPage(pages', p).Ok?
    {
      assert ReadPage(pages, p).Ok?;
    }
    OneMoreRecord(pages, pages', locations, here, record, d);
  }

  class StorageEngine {
    const pages: PageManager
    var locations: Directory

    ghost predicate Valid()
      reads this, pages
    {
      Consistent(pages.pages, locations)
    }

    ghost function Documents(): map<NovaId, Document>
      requires Valid()
      reads this, pages
    {
      Contents(pages.pages, locations)
    }

    constructor (pages: PageManager, locations: Directory)
      requires Consistent(pages.pages, locations)
      ensures Valid() && this.pages == pages && this.locations == locations
    {
      this.pages := pages;
      this.locations := locations;
    }

    /**
     * Binds the document's id, keeping every other binding, or changes nothing: for a bound id, a document that
     * cannot be encoded or is larger than an empty page's room, or a full page file.
     */
    method Insert(d: Document) returns (r: Result<NovaId>)
      requires Valid() && DocumentOk(d)
      modifies this, pages
      ensures Valid()
      ensures r.Ok? ==> r.value == d.id && d.id !in old(Documents()) && Encode(d).Ok? && |Encode(d).value| <= PAGE_SIZE - HEADER - SLOT
                        && Documents() == old(Documents())[d.id := NbfLaws.CanonicalDocument(d)]
      ensures r.Err? ==> Documents() == old(Documents())
      ensures |pages.pages| <= |old(pages.pages)| + 1
      ensures d.id in old(Documents()) ==> r == Err(AlreadyExists)
      ensures d.id !in old(Documents()) && Encode(d).Err? ==> r == Err(InvalidArgument)
      ensures d.id !in old(Documents()) && Encode(d).Ok? && r.Err? ==>
                r.error == Storage && (|Encode(d).value| > PAGE_SIZE - HEADER - SLOT || |old(pages.pages)| == MAX_PAGES)
    {
      hide Decode, Encode, Consistent, Contents, ReadPage, Image, NbfLaws.CanonicalDocument, DocumentOk, EmptyImage;
      BoundIds(pages.pages, locations);
      if d.id in locations {
        return Err(AlreadyExists);
      }
      var encoded := NbfCodec.EncodeBytes(d);
      EncodeErrors(d);
      if encoded.Err? {
        return Err(encoded.error);
      }
      EmptyRoom();
      if |encoded.value| > FreeSpace([]) {
        return Err(Storage);
      }
      NbfLaws.RoundTrip(d);
      SameId(d);
      var p: nat := 0;
      while p < |pages.pages|
        invariant p <= |pages.pages| <= MAX_PAGES && pages.pages == old(pages.pages) && locations == old(locations)
      {
        PageReads(pages.pages, locations, p);
        var read := pages.Read(p);
        var page := read.value;
        if |encoded.value| <= FreeSpace(page.slots) {
          r := Place(page, encoded.value, NbfLaws.CanonicalDocument(d));
          return;
        }
        p := p + 1;
      }
      if |pages.pages| < MAX_PAGES {
        AllocatedConsistent(pages.pages, locations);
      }
      var id :- pages.Allocate();
      var read := pages.Read(id);
      r := Place(read.value, encoded.value, NbfLaws.CanonicalDocument(d));
    }

    /** Puts the record into a page that has room for it, writes the page and lists it. */
    method Place(page: Page, record: seq<byte>, ghost d: Document) returns (r: Result<NovaId>)
      requires Valid() && ReadPage(pages.pages, page.id) == Ok(page) && record != [] && |record| <= FreeSpace(page.slots)
      requires Decode(record) == Ok(d) && d.id !in locations
      modifies this, pages
      ensures Valid() && r == Ok(d.id) && Documents() == old(Documents())[d.id := d] && |pages.pages| == |old(pages.pages)|
    {
      hide Decode, Consistent, Contents, Image, DecodePage;
      BoundIds(pages.pages, locations);
      PageFits(pages.pages, page);
      var edited := new SlottedPage(page.id);
      edited.slots := page.slots;
      RoomIsShort(page.slots);
      var slot := edited.Insert(record);
      PlacedConsistent(pages.pages, locations, page, edited.Value(), slot.value, record, d);
      var decoded := NbfCodec.DecodeBytes(record);
      var _ := pages.Write(P.Page(page.id, edited.slots));
      locations := locations[decoded.value.id := Location(page.id, slot.value)];
      return Ok(decoded.value.id);
    }

    /** The document bound to the id. */
    method Get(id: NovaId) returns (r: Result<Option<Document>>)
      ensures Valid() ==> r == Ok(if id in Documents() then Some(Documents()[id]) else None)
    {
      hide Decode, ReadPage;
      if id !in locations {
        return Ok(None);
      }
      var at := locations[id];
      assert Valid() ==> Stored(pages.pages, at, id);
      var page :- pages.Read(at.page);
      if at.slot >= |page.slots| || page.slots[at.slot].None? {
        return Err(Corruption);
      }
      var d :- NbfCodec.DecodeBytes(page.slots[at.slot].value);
      if d.id != id {
        return Err(Corruption);
      }
      return Ok(Some(d));
    }
  }

  // ---------- opening ----------

  /** Locations before slot `s` of page `p`, in scan order. */
  predicate Before(at: Location, p: nat, s: nat) {
    at.page < p || (at.page == p && at.slot < s)
  }

  /** The directory of the part of the file scanned so far. */
  ghost predicate Scanned(pages: seq<seq<byte>>, locations: Directory, p: nat, s: nat) {
    && PagesRead(pages, p) && AllListed(pages, locations, p, s) && AllStored(pages, locations, p, s)
  }

  ghost predicate PagesRead(pages: seq<seq<byte>>, p: nat) {
    forall q: u64 :: q < p ==> ReadPage(pages, q).Ok?
  }

  ghost predicate AllListed(pages: seq<seq<byte>>, locations: Directory, p: nat, s: nat) {
    forall at: Location :: Before(at, p, s) ==> Listed(pages, locations, at)
  }

  ghost predicate AllStored(pages: seq<seq<byte>>, locations: Directory, p: nat, s: nat) {
    forall id: NovaId :: id in locations ==> Stored(pages, locations[id], id) && Before(locations[id], p, s)
  }

  lemma ScanPastEnd(pages: seq<seq<byte>>, locations: Directory, p: nat, page: Page)
    requires p < |pages| <= MAX_PAGES && ReadPage(pages, p) == Ok(page) && Scanned(pages, locations, p, |page.slots|)
    ensures Scanned(pages, locations, p + 1, 0)
  {
    hide Decode, DecodePage;
    forall at | Before(at, p + 1, 0)
      ensures Listed(pages, locations, at)
    {
      if at.page == p && at.slot >= |page.slots| {
        assert RecordAt(pages, at).None?;
      }
    }
  }

  lemma ScanEmptySlot(pages: seq<seq<byte>>, locations: Directory, p: u64, s: nat)
    requires Scanned(pages, locations, p, s) && RecordAt(pages, Location(p, s)).None?
    ensures Scanned(pages, locations, p, s + 1)
  {
    hide Decode, RecordAt, ReadPage, Stored;
    var next := s + 1;
    assert Listed(pages, locations, Location(p, s));
    forall at: Location | Before(at, p, next)
      ensures Listed(pages, locations, at)
    {
      assert at == Location(p, s) || Before(at, p, s);
    }
  }

  lemma ScanRecord(pages: seq<seq<byte>>, locations: Directory, p: u64, s: nat, record: seq<byte>, d: Document)
    requires Scanned(pages, locations, p, s) && RecordAt(pages, Location(p, s)) == Some(record)
    requires Decode(record) == Ok(d) && d.id !in locations
    ensures Scanned(pages, locations[d.id := Location(p, s)], p, s + 1)
  {
    hide Decode, RecordAt, ReadPage, AllListed, AllStored, PagesRead;
    ListedMore(pages, locations, p, s, record, d);
    StoredMore(pages, locations, p, s, record, d);
  }

  lemma ListedMore(pages: seq<seq<byte>>, locations: Directory, p: u64, s: nat, record: seq<byte>, d: Document)
    requires AllListed(pages, locations, p, s) && RecordAt(pages, Location(p, s)) == Some(record)
    requires Decode(record) == Ok(d) && d.id !in locations
    ensures AllListed(pages, locations[d.id := Location(p, s)], p, s + 1)
  {
    hide Decode, RecordAt;
    var here, next := Location(p, s), s + 1;
    var locations' := locations[d.id := here];
    forall at: Location | Before(at, p, next)
      ensures Listed(pages, locations', at)
    {
      if at != here {
        assert Before(at, p, s);
        ListedStays(pages, locations, at, d.id, here);
      }
    }
  }

  lemma StoredMore(pages: seq<seq<byte>>, locations: Directory, p: u64, s: nat, record: seq<byte>, d: Document)
    requires AllStored(pages, locations, p, s) && RecordAt(pages, Location(p, s)) == Some(record) && Decode(record) == Ok(d)
    ensures AllStored(pages, locations[d.id := Location(p, s)], p, s + 1)
  {
    hide Stored;
    var here, next := Location(p, s), s + 1;
    var locations' := locations[d.id := here];
    StoredThere(pages, here, record, d);
    forall id: NovaId | id in locations'
      ensures Stored(pages, locations'[id], id) && Before(locations'[id], p, next)
    {
      assert id != d.id ==> Stored(pages, locations[id], id) && Before(locations[id], p, s);
    }
  }

  lemma ListedStays(pages: seq<seq<byte>>, locations: Directory, at: Location, id: NovaId, here: Location)
    requires Listed(pages, locations, at) && id !in locations
    ensures Listed(pages, locations[id := here], at)
  {
    hide Decode, RecordAt;
  }

  lemma ScannedAll(pages: seq<seq<byte>>, locations: Directory)
    requires Scanned(pages, locations, |pages|, 0) && |pages| <= MAX_PAGES
    ensures Consistent(pages, locations)
  {
    hide Decode, DecodePage;
    forall at: Location
      ensures Listed(pages, locations, at)
    {
      if at.page >= |pages| {
        assert RecordAt(pages, at).None?;
      }
    }
  }

  /** No directory lists the documents of these pages. */
  ghost predicate NoDirectory(pages: seq<seq<byte>>) {
    forall locations :: !Consistent(pages, locations)
  }

  ghost predicate OnlyDirectory(pages: seq<seq<byte>>, found: Directory) {
    forall locations :: Consistent(pages, locations) <==> locations == found
  }

  lemma OneDirectory(pages: seq<seq<byte>>, found: Directory)
    requires Consistent(pages, found)
    ensures OnlyDirectory(pages, found)
  {
    hide Consistent;
    forall other: Directory | Consistent(pages, other)
      ensures other == found
    {
      SameDirectory(pages, other, found);
    }
  }

  lemma SameDirectory(pages: seq<seq<byte>>, a: Directory, b: Directory)
    requires Consistent(pages, a) && Consistent(pages, b)
    ensures a == b
  {
    hide Decode, RecordAt, ReadPage;
    forall id: NovaId
      ensures id in a <==> id in b
      ensures id in a && id in b ==> a[id] == b[id]
    {
      if id in a {
        assert Stored(pages, a[id], id) && Listed(pages, b, a[id]);
      }
      if id in b {
        assert Stored(pages, b[id], id) && Listed(pages, a, b[id]);
      }
    }
  }

  /**
   * `open`: rebuilds the directory by scanning every record. It succeeds exactly when some directory is consistent
   * with the pages, and then finds that one; so reopening the pages of an engine gives the same directory and the
   * same documents, and never meets a duplicate id.
   */
  method Open(pages: PageManager) returns (r: Result<StorageEngine>)
    requires pages.Valid()
    ensures r.Ok? ==> fresh(r.value) && r.value.Valid() && r.value.pages == pages
    ensures r.Err? ==> NoDirectory(pages.pages)
    ensures r.Ok? ==> OnlyDirectory(pages.pages, r.value.locations)
  {
    hide Decode, DecodePage, Consistent, Scanned, ReadPage, NoDirectory, OnlyDirectory, Stored, RecordAt;
    ghost var file := pages.pages;
    var locations: Directory := map[];
    var p: nat := 0;
    NothingScanned(file);
    while p < |pages.pages|
      invariant p <= |file| <= MAX_PAGES && pages.pages == file && Scanned(file, locations, p, 0)
    {
      var read := pages.Read(p);
      if read.Err? {
        UnreadableRefused(file, p);
        return Err(read.error);
      }
      var page := read.value;
      var s := 0;
      while s < |page.slots|
        invariant s <= |page.slots| && Scanned(file, locations, p, s)
      {
        RecordThere(file, p, page, s);
        if page.slots[s].None? {
          ScanEmptySlot(file, locations, p, s);
        } else {
          var decoded := NbfCodec.DecodeBytes(page.slots[s].value);
          if decoded.Err? {
            UndecodableRefused(file, Location(p, s));
            return Err(decoded.error);
          }
          var id := decoded.value.id;
          if id in locations {
            StoredThere(file, Location(p, s), page.slots[s].value, decoded.value);
            DuplicateRefused(file, locations, p, s, id);
            return Err(Corruption);
          }
          ScanRecord(file, locations, p, s, page.slots[s].value, decoded.value);
          locations := locations[id := Location(p, s)];
        }
        s := s + 1;
      }
      ScanPastEnd(file, locations, p, page);
      p := p + 1;
    }
    ScannedAll(file, locations);
    var engine := new StorageEngine(pages, locations);
    OneDirectory(file, locations);
    return Ok(engine);
  }

  /** The bindings after inserting documents one by one; a bound id, or a document that is too big, changes nothing. */
  ghost function Bound(documents: seq<Document>): map<NovaId, Document> {
    if documents == [] then map[]
    else
      var before, d := Bound(documents[..|documents| - 1]), documents[|documents| - 1];
      var encoded := Encode(d);
      if d.id in before || encoded.Err? || |encoded.value| > PAGE_SIZE - HEADER - SLOT then before
      else before[d.id := NbfLaws.CanonicalDocument(d)]
  }

  /** Any documents inserted into an empty store and read after reopening it: the directory scan restores every binding. */
  method GetAfterReopening(documents: seq<Document>, id: NovaId) returns (r: Option<Document>)
    requires |documents| <= MAX_PAGES && forall i :: 0 <= i < |documents| ==> DocumentOk(documents[i])
    ensures r == if id in Bound(documents) then Some(Bound(documents)[id]) else None
  {
    hide Consistent, Contents, Encode, NbfLaws.CanonicalDocument, NoDirectory, OnlyDirectory, DocumentOk;
    var pages := new PageManager([]);
    NothingStored();
    var engine := new StorageEngine(pages, map[]);
    var i := 0;
    while i < |documents|
      invariant i <= |documents| && fresh(engine) && fresh(engine.pages) && engine.Valid() && |engine.pages.pages| <= i
      invariant engine.Documents() == Bound(documents[..i])
    {
      var _ := engine.Insert(documents[i]);
      assert documents[..i + 1][..i] == documents[..i];
      i := i + 1;
    }
    assert documents[..i] == documents;
    ghost var file, found := engine.pages.pages, engine.locations;
    var again := new PageManager(engine.pages.pages);
    var reopened := Open(again);
    Reopened(file, found, reopened);
    var got := reopened.value.Get(id);
    return got.value;
  }

  lemma NothingStored()
    ensures Consistent([], map[]) && Contents([], map[]) == map[]
  {
  }

  lemma Reopened(file: seq<seq<byte>>, found: Directory, r: Result<StorageEngine>)
    requires Consistent(file, found) && (r.Err? ==> NoDirectory(file)) && (r.Ok? ==> OnlyDirectory(file, r.value.locations))
    ensures r.Ok? && r.value.locations == found
  {
    hide Consistent;
  }

  lemma NothingScanned(pages: seq<seq<byte>>)
    ensures Scanned(pages, map[], 0, 0)
  {
  }

  lemma RecordThere(pages: seq<seq<byte>>, p: u64, page: Page, s: nat)
    requires ReadPage(pages, p) == Ok(page) && s < |page.slots|
    ensures RecordAt(pages, Location(p, s)) == page.slots[s]
  {
  }

  lemma StoredThere(pages: seq<seq<byte>>, at: Location, record: seq<byte>, d: Document)
    requires RecordAt(pages, at) == Some(record) && Decode(record) == Ok(d)
    ensures Stored(pages, at, d.id)
  {
  }

  lemma UnreadableRefused(pages: seq<seq<byte>>, p: u64)
    requires p < |pages| && ReadPage(pages, p).Err?
    ensures NoDirectory(pages)
  {
    hide ReadPage;
  }

  lemma UndecodableRefused(pages: seq<seq<byte>>, at: Location)
    requires RecordAt(pages, at).Some? && Decode(RecordAt(pages, at).value).Err?
    ensures NoDirectory(pages)
  {
    hide ReadPage, RecordAt, Decode;
    forall locations: Directory
      ensures !Consistent(pages, locations)
    {
      assert !Listed(pages, locations, at);
    }
  }

  /** Two records of one document: no directory can list both. */
  lemma DuplicateRefused(pages: seq<seq<byte>>, found: Directory, p: u64, s: nat, id: NovaId)
    requires Scanned(pages, found, p, s) && id in found && Stored(pages, Location(p, s), id)
    ensures NoDirectory(pages)
  {
    hide ReadPage, RecordAt, Decode;
    forall locations: Directory
      ensures !Consistent(pages, locations)
    {
      assert Stored(pages, found[id], id) && found[id] != Location(p, s);
      assert !(Listed(pages, locations, found[id]) && Listed(pages, locations, Location(p, s)));
    }
  }

  lemma BoundIds(pages: seq<seq<byte>>, locations: Directory)
    requires Consistent(pages, locations)
    ensures Contents(pages, locations).Keys == locations.Keys && |pages| <= MAX_PAGES
  {
    hide Decode;
  }

  lemma PageReads(pages: seq<seq<byte>>, locations: Directory, p: u64)
    requires Consistent(pages, locations) && p < |pages|
    ensures ReadPage(pages, p).Ok? && ReadPage(pages, p).value.id == p
  {
  }

  lemma PageFits(pages: seq<seq<byte>>, page: Page)
    requires ReadPage(pages, page.id) == Ok(page)
    ensures page.id < |pages| && Fits(page.slots)
  {
    PageLaws.AcceptedFits(pages[page.id]);
  }

  lemma SameId(d: Document)
    ensures NbfLaws.CanonicalDocument(d).id == d.id
  {
  }

  lemma EmptyRoom()
    ensures FreeSpace([]) == PAGE_SIZE - HEADER - SLOT
  {
  }

  lemma RoomIsShort(slots: seq<Slot>)
    requires Fits(slots)
    ensures |slots| < 0x1_0000
  {
  }

  lemma EncodeErrors(d: Document)
    ensures Encode(d).Err? ==> Encode(d).error == InvalidArgument
    ensures Encode(d).Ok? ==> Encode(d).value != []
  {
    DocumentErrors(d, 0);
  }

  lemma {:induction false} DocumentErrors(d: Document, depth: nat)
    ensures EncodeDocument(d, depth).Err? ==> EncodeDocument(d, depth).error == InvalidArgument
    decreases d
  {
    FieldErrors(d.fields, depth + 1);
  }

  lemma {:induction false} FieldErrors(fields: seq<Field>, depth: nat)
    ensures EncodeFields(fields, depth).Err? ==> EncodeFields(fields, depth).error == InvalidArgument
    decreases fields
  {
    if fields != [] {
      ValueErrors(fields[0].value, depth);
      FieldErrors(fields[1..], depth);
    }
  }

  lemma {:induction false} ValueErrors(v: Value, depth: nat)
    ensures EncodeValue(v, depth).Err? ==> EncodeValue(v, depth).error == InvalidArgument
    decreases v
  {
    match v
    case Array(values) => ItemErrors(values, depth + 1);
    case Nested(d) => DocumentErrors(d, depth);
    case _ =>
  }

  lemma {:induction false} ItemErrors(values: seq<Value>, depth: nat)
    ensures EncodeValues(values, depth).Err? ==> EncodeValues(values, depth).error == InvalidArgument
    decreases values
  {
    if values != [] {
      ValueErrors(values[0], depth);
      ItemErrors(values[1..], depth);
    }
  }
}
