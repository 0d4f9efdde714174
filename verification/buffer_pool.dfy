/** The write-back page cache. */
module Buffer {
  import opened Base
  import opened P = Pages
  import opened PageFile
  import Bytes
  import PageLaws

  datatype Frame = Frame(page: Page, dirty: bool, pins: u64, lastUsed: u64)

  type Frames = map<u64, Frame>

  const CLOCK: nat := 0x1_0000_0000_0000_0000

  /** The page that a reader sees: the cached one, or else the one on disk. */
  function Content(pages: seq<seq<byte>>, frames: Frames, id: u64): Result<Page> {
    if id in frames then Ok(frames[id].page) else ReadPage(pages, id)
  }

  /** Cached pages have a place on disk that they fit, and clean ones are what is there. */
  ghost predicate Cached(pages: seq<seq<byte>>, frames: Frames) {
    forall id :: id in frames ==>
      && id < |pages| && frames[id].page.id == id && Fits(frames[id].page.slots)
      && (frames[id].dirty || ReadPage(pages, id) == Ok(frames[id].page))
  }

  /** 1 + the position of the last use of `id`; 0 without one. */
  ghost function LastUse(trace: seq<u64>, id: u64): nat {
    if trace == [] then 0
    else if trace[|trace| - 1] == id then |trace|
    else LastUse(trace[..|trace| - 1], id)
  }

  /** The clock counts uses, and each frame holds the time of its last one, both modulo the clock's width. */
  ghost predicate Timed(trace: seq<u64>, frames: Frames, clock: u64) {
    clock == |trace| % CLOCK && forall id :: id in frames ==> frames[id].lastUsed == LastUse(trace, id) % CLOCK && LastUse(trace, id) > 0
  }

  ghost predicate Unpinned(frames: Frames, id: u64) {
    id in frames && frames[id].pins == 0
  }

  /** Every other unpinned page was used later. */
  ghost predicate LeastRecent(trace: seq<u64>, frames: Frames, victim: u64) {
    forall id :: Unpinned(frames, id) && id != victim ==> LastUse(trace, victim) < LastUse(trace, id)
  }

  lemma {:induction false} LastUseBound(trace: seq<u64>, id: u64)
    ensures LastUse(trace, id) <= |trace|
    ensures LastUse(trace, id) > 0 ==> trace[LastUse(trace, id) - 1] == id
  {
    if trace != [] {
      LastUseBound(trace[..|trace| - 1], id);
    }
  }

  /** The order of the victim choice. */
  predicate Older(frames: Frames, a: u64, b: u64)
    requires a in frames && b in frames
  {
    frames[a].lastUsed < frames[b].lastUsed || (frames[a].lastUsed == frames[b].lastUsed && a < b)
  }

  /** The unpinned frame with the smallest time, the smaller id first. */
  method SelectVictim(frames: Frames) returns (r: Option<u64>)
    ensures r.None? <==> forall id :: id in frames ==> frames[id].pins > 0
    ensures r.Some? ==> Unpinned(frames, r.value) && forall id :: Unpinned(frames, id) && id != r.value ==> Older(frames, r.value, id)
  {
    r := None;
    var todo := frames.Keys;
    while todo != {}
      invariant todo <= frames.Keys
      invariant r.None? ==> forall id :: id in frames.Keys - todo ==> frames[id].pins > 0
      invariant r.Some? ==> r.value in frames && Unpinned(frames, r.value)
      invariant r.Some? ==> forall id :: id in frames.Keys - todo && Unpinned(frames, id) && id != r.value ==> Older(frames, r.value, id)
      decreases |todo|
    {
      var id :| id in todo;
      if frames[id].pins == 0 && (r.None? || Older(frames, id, r.value)) {
        r := Some(id);
      }
      todo := todo - {id};
    }
  }

  /** How often the clock had wrapped when `id` was last used. */
  ghost function Epoch(trace: seq<u64>, id: u64): nat {
    LastUse(trace, id) / CLOCK
  }

  /** No unpinned page was last used in an earlier epoch than the victim. */
  ghost predicate NoneEarlier(trace: seq<u64>, frames: Frames, victim: u64) {
    forall id :: Unpinned(frames, id) ==> Epoch(trace, victim) <= Epoch(trace, id)
  }

  /**
   * The chosen victim is the least recently used page if and only if no unpinned page was last used before a
   * wrap of the clock that the victim was used after; without a wrap it always is.
   */
  lemma VictimLeastRecent(trace: seq<u64>, frames: Frames, clock: u64, victim: u64)
    requires Timed(trace, frames, clock) && victim in frames
    requires forall id :: Unpinned(frames, id) && id != victim ==> Older(frames, victim, id)
    ensures LeastRecent(trace, frames, victim) <==> NoneEarlier(trace, frames, victim)
    ensures |trace| < CLOCK ==> NoneEarlier(trace, frames, victim)
  {
    LastUseBound(trace, victim);
    forall id | Unpinned(frames, id) && id != victim
      ensures LastUse(trace, victim) < LastUse(trace, id) <==> Epoch(trace, victim) <= Epoch(trace, id)
    {
      LastUseBound(trace, id);
      WrappedOrder(LastUse(trace, victim), LastUse(trace, id));
    }
    forall id | |trace| < CLOCK && Unpinned(frames, id)
      ensures Epoch(trace, victim) <= Epoch(trace, id)
    {
      LastUseBound(trace, id);
    }
  }

  lemma WrappedOrder(a: nat, b: nat)
    requires a % CLOCK < b % CLOCK || (a % CLOCK == b % CLOCK && a != b)
    ensures a < b <==> a / CLOCK <= b / CLOCK
  {
  }

  lemma {:induction false} SameUse(trace: seq<u64>, id: u64)
    requires forall i :: 0 <= i < |trace| ==> trace[i] == id
    ensures LastUse(trace, id) == |trace| && forall other :: other != id ==> LastUse(trace, other) == 0
  {
    if trace != [] {
      SameUse(trace[..|trace| - 1], id);
    }
  }

  /** Page 1 is used until the clock is about to wrap, page 0 once more: page 0 has the smaller time and is evicted. */
  lemma WrappedVictim(trace: seq<u64>, frames: Frames)
    requires trace == seq(CLOCK - 1, _ => 1) + [0]
    requires frames == map[0 := Frame(Page(0, []), false, 0, 0), 1 := Frame(Page(1, []), false, 0, CLOCK - 1)]
    ensures Timed(trace, frames, 0)
    ensures forall id :: Unpinned(frames, id) && id != 0 ==> Older(frames, 0, id)
    ensures LastUse(trace, 1) < LastUse(trace, 0) && !LeastRecent(trace, frames, 0)
  {
    hide LastUse;
    var before: seq<u64> := seq(CLOCK - 1, _ => 1);
    SameUse(before, 1);
    UseKeeps(before, 0, 0);
    UseKeeps(before, 0, 1);
    assert Unpinned(frames, 1);
  }

  lemma {:induction false} UseKeeps(trace: seq<u64>, id: u64, other: u64)
    ensures LastUse(trace + [id], other) == if other == id then |trace| + 1 else LastUse(trace, other)
  {
    assert (trace + [id])[..|trace|] == trace;
  }

  /** Writing a page that fits makes exactly that page readable in its place. */
  lemma WrittenReads(pages: seq<seq<byte>>, page: Page, id: u64)
    requires page.id < |pages| && Fits(page.slots)
    ensures ReadPage(pages[page.id := Image(page)], id) == if id == page.id then Ok(page) else ReadPage(pages, id)
  {
    hide Image, DecodePage;
    PageLaws.PageRoundTrip(page);
  }

  lemma AllocatedReads(pages: seq<seq<byte>>, id: u64)
    requires |pages| < MAX_PAGES
    ensures ReadPage(pages + [EmptyImage(|pages|)], id) == if id == |pages| then Ok(Page(id, [])) else ReadPage(pages, id)
  {
    hide Image, DecodePage;
    PageLaws.PageRoundTrip(Page(|pages|, []));
  }

  lemma ReadFits(pages: seq<seq<byte>>, id: u64)
    requires ReadPage(pages, id).Ok?
    ensures id < |pages| && ReadPage(pages, id).value.id == id && Fits(ReadPage(pages, id).value.slots)
  {
    PageLaws.AcceptedFits(pages[id]);
  }

  /** A reader sees the same pages before and after. */
  ghost predicate SameContent(pages: seq<seq<byte>>, frames: Frames, pages': seq<seq<byte>>, frames': Frames) {
    forall id :: Content(pages', frames', id) == Content(pages, frames, id)
  }

  /** The file after a frame is written back if it is dirty; a page without a place or an image leaves it as it was. */
  function WrittenBack(pages: seq<seq<byte>>, frame: Frame): seq<seq<byte>> {
    if frame.dirty && frame.page.id < |pages| && Fits(frame.page.slots) then pages[frame.page.id := Image(frame.page)] else pages
  }

  lemma EvictKeeps(pages: seq<seq<byte>>, frames: Frames, victim: u64)
    requires Cached(pages, frames) && victim in frames
    ensures var after := WrittenBack(pages, frames[victim]);
            Cached(after, frames - {victim}) && SameContent(pages, frames, after, frames - {victim})
  {
    hide ReadPage, Image, Fits;
    var frame := frames[victim];
    var after := WrittenBack(pages, frame);
    forall id: u64
      ensures ReadPage(after, id) == if id == victim then Ok(frame.page) else ReadPage(pages, id)
    {
      if frame.dirty {
        WrittenReads(pages, frame.page, id);
      }
    }
  }

  /**
   * The frame leaves the pool before its page is written. Eviction changes no page for a reader if and only if the
   * frame is clean, or its page still fits and still has its id; any other edit is lost.
   */
  lemma EvictionKeepsExactly(pages: seq<seq<byte>>, frames: Frames, victim: u64)
    requires victim in frames && victim < |pages|
    requires frames[victim].dirty || ReadPage(pages, victim) == Ok(frames[victim].page)
    ensures SameContent(pages, frames, WrittenBack(pages, frames[victim]), frames - {victim}) <==>
            !frames[victim].dirty || (frames[victim].page.id == victim && Fits(frames[victim].page.slots))
  {
    hide Image, Fits, DecodePage;
    var frame := frames[victim];
    var after := WrittenBack(pages, frame);
    if frame.dirty && frame.page.id == victim && Fits(frame.page.slots) {
      forall id: u64
        ensures ReadPage(after, id) == if id == victim then Ok(frame.page) else ReadPage(pages, id)
      {
        WrittenReads(pages, frame.page, id);
      }
    } else if frame.dirty {
      if ReadPage(after, victim).Ok? {
        ReadFits(after, victim);
      }
      assert Content(pages, frames, victim) != Content(after, frames - {victim}, victim);
    }
  }

  /** A full page that took an empty record, in the pool: its eviction leaves the empty page that is on disk. */
  lemma EditLost(pages: seq<seq<byte>>, frames: Frames, slots: seq<Slot>)
    requires slots == [Some(Bytes.Zeros(PAGE_SIZE - HEADER - SLOT)), Some([])]
    requires pages == [EmptyImage(0)] && frames == map[0 := Frame(Page(0, slots), true, 0, 1)]
    ensures !Fits(slots) && WrittenBack(pages, frames[0]) == pages
    ensures Content(pages, frames, 0) == Ok(Page(0, slots)) && Content(pages, frames - {0}, 0) == Ok(Page(0, []))
    ensures !SameContent(pages, frames, WrittenBack(pages, frames[0]), frames - {0})
  {
    hide Image, DecodePage, Payload;
    assert slots == slots[..1] + [Some([])];
    PageLaws.EmptyRecordOverflows(0, slots[..1]);
    AllocatedReads([], 0);
    assert [] + [EmptyImage(0)] == pages;
    hide Fits;
    EvictionKeepsExactly(pages, frames, 0);
  }

  lemma DropFrame(frames: Frames, victim: u64)
    requires victim in frames
    ensures |frames - {victim}| == |frames| - 1
  {
    assert frames.Keys == (frames - {victim}).Keys + {victim};
  }

  /** Loading a page that reads from disk changes no page for a reader. */
  lemma LoadKeeps(pages: seq<seq<byte>>, frames: Frames, id: u64, now: u64)
    requires Cached(pages, frames) && id !in frames && ReadPage(pages, id).Ok?
    ensures var after := frames[id := Frame(ReadPage(pages, id).value, false, 0, now)];
            Cached(pages, after) && SameContent(pages, frames, pages, after)
  {
    ReadFits(pages, id);
  }

  /** A use moves the clock; a resident page is stamped with it. */
  lemma UseTimed(trace: seq<u64>, frames: Frames, clock: u64, id: u64)
    requires Timed(trace, frames, clock)
    ensures var now := (clock + 1) % CLOCK;
            (id in frames ==> Timed(trace + [id], frames[id := frames[id].(lastUsed := now)], now))
            && (id !in frames ==> Timed(trace + [id], frames, now))
            && LastUse(trace + [id], id) % CLOCK == now && LastUse(trace + [id], id) > 0
  {
    hide LastUse;
    forall other
      ensures LastUse(trace + [id], other) == if other == id then |trace| + 1 else LastUse(trace, other)
    {
      UseKeeps(trace, id, other);
    }
  }

  class BufferPool {
    const pages: PageManager
    const capacity: nat
    var frames: Frames
    var clock: u64

    /** The pages asked for, in order. */
    ghost var trace: seq<u64>

    ghost predicate Valid()
      reads this, pages
    {
      pages.Valid() && |frames| <= capacity && capacity > 0 && Cached(pages.pages, frames) && Timed(trace, frames, clock)
    }

    function Shown(id: u64): Result<Page>
      reads this, pages
    {
      Content(pages.pages, frames, id)
    }

    constructor (pages: PageManager, capacity: nat)
      requires pages.Valid() && capacity > 0
      ensures Valid() && this.pages == pages && this.capacity == capacity && frames == map[] && trace == []
    {
      this.pages := pages;
      this.capacity := capacity;
      frames := map[];
      clock := 0;
      trace := [];
    }

    /**
     * Evicts one unpinned page, the least recently used while the clock has not wrapped, writing it back if it is
     * dirty. No page changes for a reader. It fails exactly when every frame is pinned.
     */
    method EvictOne() returns (r: Result<()>, ghost victim: u64)
      requires Valid()
      modifies this, pages
      ensures Valid() && trace == old(trace) && clock == old(clock) && |pages.pages| == |old(pages.pages)|
      ensures SameContent(old(pages.pages), old(frames), pages.pages, frames)
      ensures r.Err? <==> forall id :: id in old(frames) ==> old(frames)[id].pins > 0
      ensures r.Err? ==> r.error == InvalidState && frames == old(frames) && pages.pages == old(pages.pages)
      ensures r.Ok? ==> Unpinned(old(frames), victim) && frames == old(frames) - {victim}
      ensures r.Ok? ==> (LeastRecent(trace, old(frames), victim) <==> NoneEarlier(trace, old(frames), victim))
      ensures r.Ok? && |trace| < CLOCK ==> LeastRecent(trace, old(frames), victim)
    {
      hide NoneEarlier, LeastRecent;
      hide ReadPage, Image, Fits, LastUse, Cached, Content, Older;
      var chosen := SelectVictim(frames);
      if chosen.None? {
        return Err(InvalidState), 0;
      }
      victim := chosen.value;
      VictimLeastRecent(trace, frames, clock, victim);
      CachedOne(pages.pages, frames, victim);
      EvictKeeps(pages.pages, frames, victim);
      DropFrame(frames, victim);
      var frame := frames[chosen.value];
      frames := frames - {chosen.value};
      if frame.dirty {
        var _ := pages.Write(frame.page);
      }
      r := Ok(());
    }

    /** Evicts a page if the pool is full, which fails exactly when every frame is pinned. */
    method MakeRoom() returns (r: Result<()>)
      requires Valid()
      modifies this, pages
      ensures Valid() && trace == old(trace) && clock == old(clock) && |pages.pages| == |old(pages.pages)|
      ensures SameContent(old(pages.pages), old(frames), pages.pages, frames)
      ensures SameOutside(old(pages.pages), old(frames), pages.pages)
      ensures Survive(old(frames), frames)
      ensures r.Err? <==> AllPinned(old(frames), capacity)
      ensures r.Err? ==> r.error == InvalidState
      ensures r.Ok? ==> |frames| < capacity
    {
      hide ReadPage, Image, Fits, LastUse, Cached, Content, Timed, LeastRecent, NoneEarlier, SameOutside;
      ghost var before, file := frames, pages.pages;
      r := Ok(());
      if |frames| == capacity {
        ghost var victim;
        r, victim := EvictOne();
        if r.Ok? {
          DropFrame(before, victim);
        }
      }
      SameElsewhere(file, before, pages.pages, frames);
    }

    /** Makes the page resident and the most recently used. */
    method Load(id: u64) returns (r: Result<()>)
      requires Valid()
      modifies this, pages
      ensures Valid() && trace == old(trace) + [id] && |pages.pages| == |old(pages.pages)|
      ensures SameContent(old(pages.pages), old(frames), pages.pages, frames)
      ensures Loaded(old(frames), frames, id, r.Ok?)
      ensures r.Err? ==> id !in old(frames) && r.error == LoadError(old(pages.pages), old(frames), capacity, id)
      ensures r.Err? <==> id !in old(frames) && (AllPinned(old(frames), capacity) || ReadPage(old(pages.pages), id).Err?)
    {
      hide ReadPage, Image, Fits, LastUse, Cached, Content, Timed, SameContent, SameOutside, Survive, Loaded, AllPinned;
      ghost var before, file := frames, pages.pages;
      UseTimed(trace, frames, clock, id);
      clock := if clock == CLOCK - 1 then 0 else clock + 1;
      trace := trace + [id];
      if id in frames {
        StampKeeps(pages.pages, frames, id, clock);
        StampLoaded(frames, id, clock);
        frames := frames[id := frames[id].(lastUsed := clock)];
        return Ok(());
      }
      r := MakeRoom();
      RoomLoaded(file, before, pages.pages, frames, id);
      if r.Err? {
        return;
      }
      var page :- pages.Read(id);
      LoadKeeps(pages.pages, frames, id, clock);
      LoadTimed(trace, frames, clock, id, page);
      ReadLoaded(before, frames, id, Frame(page, false, 0, clock));
      SameTwice(file, before, pages.pages, frames, frames[id := Frame(page, false, 0, clock)]);
      frames := frames[id := Frame(page, false, 0, clock)];
      return Ok(());
    }

    /** A new empty page, already resident; a full file or a pool of pinned frames changes no page. */
    method Allocate() returns (r: Result<u64>)
      requires Valid()
      modifies this, pages
      ensures Valid() && StillPinned(old(frames), frames)
      ensures r.Err? <==> AllPinned(old(frames), capacity) || |old(pages.pages)| == MAX_PAGES
      ensures r.Err? ==> SameContent(old(pages.pages), old(frames), pages.pages, frames) && |pages.pages| == |old(pages.pages)|
      ensures r.Ok? ==> r.value == |old(pages.pages)| && |pages.pages| == |old(pages.pages)| + 1
      ensures r.Ok? ==> Replaced(old(pages.pages), old(frames), pages.pages, frames, P.Page(r.value, []))
    {
      hide ReadPage, EmptyImage, Fits, Cached, Content, Timed;
      var _ :- MakeRoom();
      if |pages.pages| < MAX_PAGES {
        AllocateKeeps(pages.pages, frames);
      }
      var id :- pages.Allocate();
      var loaded := Load(id);
      assert loaded.Ok?;
      return Ok(id);
    }

    method Get(id: u64) returns (r: Result<P.Page>)
      requires Valid()
      modifies this, pages
      ensures Valid() && StillPinned(old(frames), frames) && |pages.pages| == |old(pages.pages)|
      ensures SameContent(old(pages.pages), old(frames), pages.pages, frames)
      ensures r.Ok? ==> r == Content(old(pages.pages), old(frames), id)
      ensures r.Err? <==> id !in old(frames) && (AllPinned(old(frames), capacity) || ReadPage(old(pages.pages), id).Err?)
    {
      var _ :- Load(id);
      return Ok(frames[id].page);
    }

    /**
     * `get_mut`, and whatever the caller then makes of the page. The pool stays in order if and only if the page
     * keeps its id and fits; `EvictionKeepsExactly` says what happens to any other.
     */
    method Edit(id: u64, page: P.Page) returns (r: Result<()>)
      requires Valid()
      modifies this, pages
      ensures StillPinned(old(frames), frames) && |pages.pages| == |old(pages.pages)|
      ensures r.Err? <==> id !in old(frames) && (AllPinned(old(frames), capacity) || ReadPage(old(pages.pages), id).Err?)
      ensures r.Err? ==> Valid() && SameContent(old(pages.pages), old(frames), pages.pages, frames)
      ensures r.Ok? ==> Edited(old(pages.pages), old(frames), pages.pages, frames, id, page)
      ensures r.Ok? ==> (Valid() <==> page.id == id && Fits(page.slots))
    {
      hide ReadPage, Fits, Cached, Timed, SameContent, Edited;
      ghost var before, file := frames, pages.pages;
      var _ :- Load(id);
      EditKeeps(file, before, pages.pages, frames, trace, clock, id, page);
      frames := frames[id := frames[id].(page := page, dirty := true)];
      return Ok(());
    }

    /** A pinned page stays resident until it is unpinned. */
    method Pin(id: u64) returns (r: Result<()>)
      requires Valid()
      modifies this, pages
      ensures Valid() && StillPinned(old(frames), frames) && |pages.pages| == |old(pages.pages)|
      ensures SameContent(old(pages.pages), old(frames), pages.pages, frames)
      ensures r.Err? <==> if id in old(frames) then old(frames)[id].pins == CLOCK - 1
                          else AllPinned(old(frames), capacity) || ReadPage(old(pages.pages), id).Err?
      ensures r.Ok? ==> id in frames && frames[id].pins == 1 + if id in old(frames) then old(frames)[id].pins else 0
    {
      hide ReadPage, Fits, Cached, Timed, Content, LastUse, StillPinned;
      ghost var before := frames;
      var loaded := Load(id);
      LoadedStill(before, frames, id, loaded.Ok?);
      if loaded.Err? {
        return loaded;
      }
      if frames[id].pins == CLOCK - 1 {
        return Err(InvalidState);
      }
      PinsKeep(pages.pages, frames, trace, clock, id, frames[id].pins + 1);
      frames := frames[id := frames[id].(pins := frames[id].pins + 1)];
      return Ok(());
    }

    method Unpin(id: u64) returns (r: Result<()>)
      requires Valid()
      modifies this
      ensures Valid() && SameContent(pages.pages, old(frames), pages.pages, frames)
      ensures r.Ok? <==> id in old(frames) && old(frames)[id].pins > 0
      ensures r.Ok? ==> frames == old(frames)[id := old(frames)[id].(pins := old(frames)[id].pins - 1)]
      ensures r.Err? ==> r.error == InvalidState && frames == old(frames)
    {
      hide ReadPage, Fits, Cached, Timed;
      if id !in frames || frames[id].pins == 0 {
        return Err(InvalidState);
      }
      PinsKeep(pages.pages, frames, trace, clock, id, frames[id].pins - 1);
      frames := frames[id := frames[id].(pins := frames[id].pins - 1)];
      return Ok(());
    }

    /** Writes every dirty page back: afterwards the disk holds what a reader sees. */
    method FlushAll()
      requires Valid()
      modifies this, pages
      ensures Valid() && StillPinned(old(frames), frames) && frames.Keys == old(frames).Keys && |pages.pages| == |old(pages.pages)|
      ensures SameContent(old(pages.pages), old(frames), pages.pages, frames)
      ensures forall id :: ReadPage(pages.pages, id) == Shown(id)
    {
      hide ReadPage, Image, Fits, LastUse, Timed;
      var todo := frames.Keys;
      while todo != {}
        invariant Valid() && todo <= frames.Keys == old(frames).Keys && |pages.pages| == |old(pages.pages)|
        invariant StillPinned(old(frames), frames)
        invariant SameContent(old(pages.pages), old(frames), pages.pages, frames)
        invariant forall id :: id in frames && id !in todo ==> !frames[id].dirty
        decreases |todo|
      {
        var id :| id in todo;
        if frames[id].dirty {
          FlushKeeps(pages.pages, frames, trace, clock, id);
          var _ := pages.Write(frames[id].page);
          frames := frames[id := frames[id].(dirty := false)];
        }
        todo := todo - {id};
      }
    }
  }

  /** After loading `id`, its frame keeps its pins, and the other frames are as before, the pinned ones at least. */
  ghost predicate Loaded(frames: Frames, frames': Frames, id: u64, ok: bool) {
    && (forall i :: i in frames' && i != id ==> i in frames && frames'[i] == frames[i])
    && (forall i :: i in frames && frames[i].pins > 0 ==> i in frames' && frames'[i].pins == frames[i].pins)
    && (ok ==> id in frames' && frames'[id].pins == if id in frames then frames[id].pins else 0)
  }

  lemma StampLoaded(frames: Frames, id: u64, now: u64)
    requires id in frames
    ensures Loaded(frames, frames[id := frames[id].(lastUsed := now)], id, true)
  {
  }

  lemma RoomLoaded(pages: seq<seq<byte>>, frames: Frames, pages': seq<seq<byte>>, frames': Frames, id: u64)
    requires Survive(frames, frames') && SameOutside(pages, frames, pages') && id !in frames
    ensures Loaded(frames, frames', id, false) && id !in frames' && ReadPage(pages', id) == ReadPage(pages, id)
  {
  }

  lemma ReadLoaded(frames: Frames, frames': Frames, id: u64, frame: Frame)
    requires Loaded(frames, frames', id, false) && id !in frames && frame.pins == 0
    ensures Loaded(frames, frames'[id := frame], id, true)
  {
  }

  lemma SameTwice(pages: seq<seq<byte>>, frames: Frames, pages': seq<seq<byte>>, frames': Frames, frames'': Frames)
    requires SameContent(pages, frames, pages', frames') && SameContent(pages', frames', pages', frames'')
    ensures SameContent(pages, frames, pages', frames'')
  {
  }

  lemma LoadedStill(frames: Frames, frames': Frames, id: u64, ok: bool)
    requires Loaded(frames, frames', id, ok)
    ensures StillPinned(frames, frames')
    ensures ok && frames'[id].pins < CLOCK - 1 ==> StillPinned(frames, frames'[id := frames'[id].(pins := frames'[id].pins + 1)])
  {
  }

  /** Pinned pages are still resident, with their pins. */
  ghost predicate StillPinned(frames: Frames, frames': Frames) {
    forall id :: id in frames && frames[id].pins > 0 ==> id in frames' && frames'[id].pins >= frames[id].pins
  }

  /** A reader sees the given page at `at`, and every other page as before. */
  ghost predicate Edited(pages: seq<seq<byte>>, frames: Frames, pages': seq<seq<byte>>, frames': Frames, at: u64, page: Page) {
    forall id :: Content(pages', frames', id) == if id == at then Ok(page) else Content(pages, frames, id)
  }

  ghost predicate Replaced(pages: seq<seq<byte>>, frames: Frames, pages': seq<seq<byte>>, frames': Frames, page: Page) {
    Edited(pages, frames, pages', frames', page.id, page)
  }

  lemma AllocateKeeps(pages: seq<seq<byte>>, frames: Frames)
    requires Cached(pages, frames) && |pages| < MAX_PAGES
    ensures var after := pages + [EmptyImage(|pages|)];
            Cached(after, frames) && Replaced(pages, frames, after, frames, P.Page(|pages|, []))
            && |pages| !in frames && ReadPage(after, |pages|).Ok?
  {
    hide ReadPage, EmptyImage, Fits;
    forall id: u64
      ensures ReadPage(pages + [EmptyImage(|pages|)], id) == if id == |pages| then Ok(P.Page(id, [])) else ReadPage(pages, id)
    {
      AllocatedReads(pages, id);
    }
  }

  lemma EditKeeps(pages: seq<seq<byte>>, frames: Frames, pages': seq<seq<byte>>, frames': Frames,
                  trace: seq<u64>, clock: u64, id: u64, page: Page)
    requires Cached(pages', frames') && Timed(trace, frames', clock) && id in frames' && SameContent(pages, frames, pages', frames')
    ensures var after := frames'[id := frames'[id].(page := page, dirty := true)];
            (Cached(pages', after) <==> page.id == id && Fits(page.slots)) && Timed(trace, after, clock) && |after| == |frames'|
            && Edited(pages, frames, pages', after, id, page)
  {
    hide ReadPage, Fits;
    var after := frames'[id := frames'[id].(page := page, dirty := true)];
    assert after.Keys == frames'.Keys && after[id].page == page;
  }

  lemma PinsKeep(pages: seq<seq<byte>>, frames: Frames, trace: seq<u64>, clock: u64, id: u64, pins: u64)
    requires Cached(pages, frames) && Timed(trace, frames, clock) && id in frames
    ensures var after := frames[id := frames[id].(pins := pins)];
            Cached(pages, after) && Timed(trace, after, clock) && |after| == |frames| && SameContent(pages, frames, pages, after)
  {
    assert frames[id := frames[id].(pins := pins)].Keys == frames.Keys;
  }

  lemma FlushKeeps(pages: seq<seq<byte>>, frames: Frames, trace: seq<u64>, clock: u64, id: u64)
    requires Cached(pages, frames) && Timed(trace, frames, clock) && id in frames && frames[id].dirty
    ensures var after, clean := WrittenBack(pages, frames[id]), frames[id := frames[id].(dirty := false)];
            Cached(after, clean) && Timed(trace, clean, clock) && |clean| == |frames| && SameContent(pages, frames, after, clean)
  {
    hide ReadPage, Image, Fits, LastUse;
    assert frames[id := frames[id].(dirty := false)].Keys == frames.Keys;
    forall other: u64
      ensures ReadPage(WrittenBack(pages, frames[id]), other) == if other == id then Ok(frames[id].page) else ReadPage(pages, other)
    {
      WrittenReads(pages, frames[id].page, other);
    }
  }

  /** On disk, nothing changed where no frame was. */
  ghost predicate SameOutside(pages: seq<seq<byte>>, frames: Frames, pages': seq<seq<byte>>) {
    forall id :: id !in frames ==> ReadPage(pages', id) == ReadPage(pages, id)
  }

  /** The frames that are left are unchanged, and among them are all the pinned ones. */
  ghost predicate Survive(frames: Frames, frames': Frames) {
    && (forall id :: id in frames' ==> id in frames && frames'[id] == frames[id])
    && (forall id :: id in frames && frames[id].pins > 0 ==> id in frames')
  }

  lemma SameElsewhere(pages: seq<seq<byte>>, frames: Frames, pages': seq<seq<byte>>, frames': Frames)
    requires SameContent(pages, frames, pages', frames') && frames'.Keys <= frames.Keys
    ensures SameOutside(pages, frames, pages')
  {
    forall id | id !in frames
      ensures ReadPage(pages', id) == ReadPage(pages, id)
    {
      assert Content(pages', frames', id) == Content(pages, frames, id);
    }
  }

  lemma CachedOne(pages: seq<seq<byte>>, frames: Frames, id: u64)
    requires Cached(pages, frames) && id in frames
    ensures id < |pages| && frames[id].page.id == id && Fits(frames[id].page.slots)
  {
  }

  lemma StampKeeps(pages: seq<seq<byte>>, frames: Frames, id: u64, now: u64)
    requires Cached(pages, frames) && id in frames
    ensures var after := frames[id := frames[id].(lastUsed := now)];
            Cached(pages, after) && SameContent(pages, frames, pages, after) && |after| == |frames|
  {
    assert frames[id := frames[id].(lastUsed := now)].Keys == frames.Keys;
  }

  lemma LoadTimed(trace: seq<u64>, frames: Frames, clock: u64, id: u64, page: Page)
    requires Timed(trace, frames, clock) && LastUse(trace, id) % CLOCK == clock && LastUse(trace, id) > 0 && id !in frames
    ensures Timed(trace, frames[id := Frame(page, false, 0, clock)], clock)
    ensures |frames[id := Frame(page, false, 0, clock)]| == |frames| + 1
  {
    assert frames[id := Frame(page, false, 0, clock)].Keys == frames.Keys + {id};
  }

  /** No frame can be freed. */
  predicate AllPinned(frames: Frames, capacity: nat) {
    |frames| == capacity && forall id :: id in frames ==> frames[id].pins > 0
  }

  function LoadError(pages: seq<seq<byte>>, frames: Frames, capacity: nat, id: u64): Error {
    if AllPinned(frames, capacity) || ReadPage(pages, id).Ok? then InvalidState else ReadPage(pages, id).error
  }

  /** A reader of the pool sees the pages of the direct file. */
  ghost predicate Mirrors(pages: seq<seq<byte>>, frames: Frames, direct: seq<seq<byte>>) {
    |pages| == |direct| && forall id :: Content(pages, frames, id) == ReadPage(direct, id)
  }

  lemma MirrorsSame(pages: seq<seq<byte>>, frames: Frames, pages': seq<seq<byte>>, frames': Frames, direct: seq<seq<byte>>)
    requires Mirrors(pages, frames, direct) && SameContent(pages, frames, pages', frames') && |pages'| == |pages|
    ensures Mirrors(pages', frames', direct)
  {
    hide ReadPage, Content;
  }

  lemma MirrorsAllocated(pages: seq<seq<byte>>, frames: Frames, pages': seq<seq<byte>>, frames': Frames, direct: seq<seq<byte>>)
    requires Mirrors(pages, frames, direct) && |pages| < MAX_PAGES && |pages'| == |pages| + 1
    requires Replaced(pages, frames, pages', frames', P.Page(|pages|, []))
    ensures Mirrors(pages', frames', direct + [EmptyImage(|direct|)])
  {
    hide ReadPage, Content, EmptyImage;
    forall id: u64
      ensures Content(pages', frames', id) == ReadPage(direct + [EmptyImage(|direct|)], id)
    {
      AllocatedReads(direct, id);
    }
  }

  lemma MirrorsWritten(pages: seq<seq<byte>>, frames: Frames, pages': seq<seq<byte>>, frames': Frames, direct: seq<seq<byte>>, page: Page)
    requires Mirrors(pages, frames, direct) && |pages'| == |pages| && page.id < |direct| && Fits(page.slots)
    requires Replaced(pages, frames, pages', frames', page)
    ensures Mirrors(pages', frames', direct[page.id := Image(page)])
  {
    hide ReadPage, Content, Image, Fits;
    forall id: u64
      ensures Content(pages', frames', id) == ReadPage(direct[page.id := Image(page)], id)
    {
      WrittenReads(direct, page, id);
    }
  }

  lemma MirrorsStart(pages: seq<seq<byte>>)
    ensures Mirrors(pages, map[], pages)
  {
    hide ReadPage;
  }

  datatype PoolStep = AllocatePage | GetPage(id: u64) | EditPage(id: u64, slots: seq<Slot>) | PinPage(id: u64) | UnpinPage(id: u64) | FlushPages

  /**
   * Any run through the pool, up to the first edit that leaves a page too full for its image, beside the same steps
   * on the page file itself: every read agrees, at every moment a reader of the pool sees the pages of the direct
   * file, and after a final flush the two files read the same.
   */
  method Run(pool: BufferPool, direct: PageManager, steps: seq<PoolStep>) returns (agreed: bool, taken: nat)
    requires pool.Valid() && direct.Valid() && direct != pool.pages && pool.frames == map[] && pool.pages.pages == direct.pages
    modifies pool, pool.pages, direct
    ensures taken <= |steps| && (taken < |steps| ==> steps[taken].EditPage? && !Fits(steps[taken].slots))
    ensures agreed && pool.Valid() && |pool.frames| <= pool.capacity
    ensures forall id :: pool.Shown(id) == ReadPage(direct.pages, id) && ReadPage(pool.pages.pages, id) == ReadPage(direct.pages, id)
  {
    hide ReadPage, Image, Fits, Cached, Timed, EmptyImage, Mirrors, SameContent, Edited, Content, StillPinned;
    agreed := true;
    MirrorsStart(direct.pages);
    var i := 0;
    while i < |steps| && (steps[i].EditPage? ==> Fits(steps[i].slots))
      invariant i <= |steps| && agreed && pool.Valid() && direct.Valid()
      invariant Mirrors(pool.pages.pages, pool.frames, direct.pages)
    {
      ghost var pages, frames, file := pool.pages.pages, pool.frames, direct.pages;
      match steps[i] {
        case AllocatePage =>
          var r := pool.Allocate();
          if r.Ok? {
            MirrorsLength(pages, frames, file);
            MirrorsAllocated(pages, frames, pool.pages.pages, pool.frames, file);
            var _ := direct.Allocate();
          } else {
            MirrorsSame(pages, frames, pool.pages.pages, pool.frames, file);
          }
        case GetPage(id) =>
          var r := pool.Get(id);
          var d := direct.Read(id);
          MirrorsLength(pages, frames, file);
          MirrorsAt(pages, frames, file, id);
          MirrorsSame(pages, frames, pool.pages.pages, pool.frames, file);
          agreed := agreed && (r.Ok? ==> r == d);
        case EditPage(id, slots) =>
          var r := pool.Edit(id, P.Page(id, slots));
          MirrorsLength(pages, frames, file);
          if r.Ok? {
            ShownPlaced(pool, pages, frames, id, slots);
            MirrorsWritten(pages, frames, pool.pages.pages, pool.frames, file, P.Page(id, slots));
            var _ := direct.Write(P.Page(id, slots));
          } else {
            MirrorsSame(pages, frames, pool.pages.pages, pool.frames, file);
          }
        case PinPage(id) =>
          var _ := pool.Pin(id);
          MirrorsSame(pages, frames, pool.pages.pages, pool.frames, file);
        case UnpinPage(id) =>
          var _ := pool.Unpin(id);
          MirrorsSame(pages, frames, pool.pages.pages, pool.frames, file);
        case FlushPages =>
          pool.FlushAll();
          MirrorsSame(pages, frames, pool.pages.pages, pool.frames, file);
      }
      i := i + 1;
    }
    taken := i;
    ghost var pages, frames := pool.pages.pages, pool.frames;
    pool.FlushAll();
    MirrorsSame(pages, frames, pool.pages.pages, pool.frames, direct.pages);
    MirrorsRead(pool.pages.pages, pool.frames, direct.pages);
  }

  lemma MirrorsLength(pages: seq<seq<byte>>, frames: Frames, direct: seq<seq<byte>>)
    requires Mirrors(pages, frames, direct)
    ensures |pages| == |direct|
  {
  }

  lemma MirrorsAt(pages: seq<seq<byte>>, frames: Frames, direct: seq<seq<byte>>, id: u64)
    requires Mirrors(pages, frames, direct)
    ensures Content(pages, frames, id) == ReadPage(direct, id)
  {
  }

  lemma MirrorsRead(pages: seq<seq<byte>>, frames: Frames, direct: seq<seq<byte>>)
    requires Mirrors(pages, frames, direct)
    ensures forall id :: Content(pages, frames, id) == ReadPage(direct, id)
  {
  }

  lemma ShownPlaced(pool: BufferPool, pages: seq<seq<byte>>, frames: Frames, id: u64, slots: seq<Slot>)
    requires pool.Valid() && Replaced(pages, frames, pool.pages.pages, pool.frames, P.Page(id, slots))
    ensures id < |pool.pages.pages|
  {
    assert pool.Shown(id).Ok?;
  }
}
