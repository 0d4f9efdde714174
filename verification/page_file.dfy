/** The page file as an array of page images. */
module PageFile {
  import opened Base
  import opened Pages

  /** Byte offsets are 64-bit, so a file holds at most this many pages. */
  const MAX_PAGES: nat := 0x10_0000_0000_0000

  function ReadPage(pages: seq<seq<byte>>, id: u64): (r: Result<Page>) {
    if id >= |pages| then Err(NotFound)
    else
      var page :- DecodePage(pages[id]);
      if page.id != id then Err(Corruption) else Ok(page)
  }

  class PageManager {
    var pages: seq<seq<byte>>

    ghost predicate Valid()
      reads this
    {
      |pages| <= MAX_PAGES
    }

    constructor (pages: seq<seq<byte>>)
      requires |pages| <= MAX_PAGES
      ensures Valid() && this.pages == pages
    {
      this.pages := pages;
    }

    method Allocate() returns (r: Result<u64>)
      requires Valid()
      modifies this
      ensures Valid() && (r.Ok? <==> |old(pages)| < MAX_PAGES) && (r.Err? ==> r.error == Storage)
      ensures r.Ok? ==> r.value == |old(pages)| && pages == old(pages) + [EmptyImage(r.value)]
      ensures r.Err? ==> pages == old(pages)
    {
      if |pages| == MAX_PAGES {
        return Err(Storage);
      }
      var id: u64 := |pages|;
      pages := pages + [EmptyImage(id)];
      return Ok(id);
    }

    method Read(id: u64) returns (r: Result<Page>)
      ensures r == ReadPage(pages, id)
    {
      r := ReadPage(pages, id);
    }

    method Write(page: Page) returns (r: Result<()>)
      requires Valid()
      modifies this
      ensures Valid() && (r.Ok? <==> page.id < |old(pages)| && Fits(page.slots))
      ensures r.Ok? ==> pages == old(pages)[page.id := Image(page)]
      ensures r.Err? ==> pages == old(pages) && r.error == if page.id >= |pages| then NotFound else Storage
    {
      if page.id >= |pages| {
        return Err(NotFound);
      }
      var image :- EncodePage(page);
      pages := pages[page.id := image];
      return Ok(());
    }
  }

  function EmptyImage(id: u64): seq<byte> {
    Image(Page(id, []))
  }
}
