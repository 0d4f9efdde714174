/** Redo of committed page images, and what the log says about each transaction. */
module Recovery {
  import opened Base
  import opened WalCodec
  import opened PageFile
  import P = Pages
  import PageLaws

  // ---------- which records are replayed ----------

  predicate HasCommit(records: seq<LogRecord>, t: u64) {
    exists i :: 0 <= i < |records| && records[i].transactionId == t && records[i].operation.Commit?
  }

  predicate HasAbort(records: seq<LogRecord>, t: u64) {
    exists i :: 0 <= i < |records| && records[i].transactionId == t && records[i].operation.Abort?
  }

  predicate Replayable(records: seq<LogRecord>, t: u64) {
    HasCommit(records, t) && !HasAbort(records, t)
  }

  /** The images that the first `n` records contribute, judged by the whole log. */
  function Replays(records: seq<LogRecord>, n: nat): seq<P.Page>
    requires n <= |records|
  {
    if n == 0 then []
    else
      var record := records[n - 1];
      Replays(records, n - 1)
      + (if record.operation.PageWrite? && Replayable(records, record.transactionId) then [record.operation.page] else [])
  }

  /** Record `i` is an image, the log holds a commit of its transaction, and no abort of it. */
  ghost predicate Counts(records: seq<LogRecord>, i: nat)
    requires i < |records|
  {
    && records[i].operation.PageWrite?
    && (exists j :: 0 <= j < |records| && records[j].operation.Commit? && records[j].transactionId == records[i].transactionId)
    && forall j :: 0 <= j < |records| && records[j].transactionId == records[i].transactionId ==> !records[j].operation.Abort?
  }

  /** The images that are replayed stand at exactly the counting records, in log order. */
  lemma {:induction false} ReplaysExactly(records: seq<LogRecord>, n: nat) returns (places: seq<nat>)
    requires n <= |records|
    ensures |Replays(records, n)| == |places| && forall p, q :: 0 <= p < q < |places| ==> places[p] < places[q]
    ensures forall p :: 0 <= p < |places| ==> places[p] < n
    ensures forall i: nat :: i < n ==> (i in places <==> Counts(records, i))
    ensures forall p :: 0 <= p < |places| ==>
                          records[places[p]].operation.PageWrite? && Replays(records, n)[p] == records[places[p]].operation.page
  {
    places := [];
    if n > 0 {
      places := ReplaysExactly(records, n - 1);
      CountsReplayable(records, n - 1);
      if Counts(records, n - 1) {
        places := places + [n - 1];
      }
    }
  }

  lemma CountsReplayable(records: seq<LogRecord>, i: nat)
    requires i < |records|
    ensures Counts(records, i) <==> records[i].operation.PageWrite? && Replayable(records, records[i].transactionId)
  {
  }

  // ---------- the page file after a replay ----------

  /** The file extended with empty pages to at least `n` pages. */
  function Grow(pages: seq<seq<byte>>, n: nat): (r: seq<seq<byte>>)
    requires n <= MAX_PAGES
    ensures |r| == if n < |pages| then |pages| else n
    ensures forall i :: 0 <= i < |r| ==> r[i] == if i < |pages| then pages[i] else EmptyImage(i)
    decreases n - |pages|
  {
    if n <= |pages| then pages else Grow(pages + [EmptyImage(|pages|)], n)
  }

  predicate Addressable(images: seq<P.Page>) {
    forall i :: 0 <= i < |images| ==> images[i].id < MAX_PAGES && P.Fits(images[i].slots)
  }

  function Redo(pages: seq<seq<byte>>, image: P.Page): (r: seq<seq<byte>>)
    requires image.id < MAX_PAGES && P.Fits(image.slots)
  {
    Grow(pages, image.id + 1)[image.id := P.Image(image)]
  }

  function RedoAll(pages: seq<seq<byte>>, images: seq<P.Page>): (r: seq<seq<byte>>)
    requires Addressable(images)
  {
    if images == [] then pages else Redo(RedoAll(pages, images[..|images| - 1]), images[|images| - 1])
  }

  /** The last image of page `id`. */
  function LastImage(images: seq<P.Page>, id: nat): (r: Option<P.Page>)
    ensures r.Some? ==> r.value.id == id && r.value in images
    ensures r.None? ==> forall i :: 0 <= i < |images| ==> images[i].id != id
  {
    if images == [] then None
    else if images[|images| - 1].id == id then Some(images[|images| - 1])
    else LastImage(images[..|images| - 1], id)
  }

  /** Enough pages for every image. */
  function Needed(images: seq<P.Page>): (n: nat)
    requires Addressable(images)
    ensures n <= MAX_PAGES && forall i :: 0 <= i < |images| ==> images[i].id < n
    ensures images != [] ==> exists i :: 0 <= i < |images| && images[i].id + 1 == n
    ensures images == [] ==> n == 0
  {
    if images == [] then 0
    else
      var n, id := Needed(images[..|images| - 1]), images[|images| - 1].id;
      if id < n then n else id + 1
  }

  function Max(a: nat, b: nat): nat {
    if a < b then b else a
  }

  /** After a replay each page holds its last image, or else what it held before, or else an empty page. */
  lemma {:induction false} RedoContents(pages: seq<seq<byte>>, images: seq<P.Page>)
    requires Addressable(images) && |pages| <= MAX_PAGES
    ensures |RedoAll(pages, images)| == Max(|pages|, Needed(images))
    ensures forall id :: 0 <= id < |RedoAll(pages, images)| ==> RedoAll(pages, images)[id] == Redone(pages, images, id)
  {
    hide P.Image, P.Fits, EmptyImage;
    if images != [] {
      RedoContents(pages, images[..|images| - 1]);
    }
  }

  ghost function Redone(pages: seq<seq<byte>>, images: seq<P.Page>, id: nat): seq<byte>
    requires Addressable(images) && id < MAX_PAGES
  {
    match LastImage(images, id)
    case Some(page) => P.Image(page)
    case None => if id < |pages| then pages[id] else EmptyImage(id)
  }

  /** A replay cut off after `j` images, with part of the next pages already allocated. */
  ghost function CutOff(pages: seq<seq<byte>>, images: seq<P.Page>, j: nat, n: nat): seq<seq<byte>>
    requires Addressable(images) && |pages| <= MAX_PAGES && j <= |images| && n <= |RedoAll(pages, images)| && n <= MAX_PAGES
  {
    Grow(RedoAll(pages, images[..j]), n)
  }

  /** Replaying again from any cut-off point, or after the end, gives the same file. */
  lemma RedoRestarts(pages: seq<seq<byte>>, images: seq<P.Page>, j: nat, n: nat)
    requires Addressable(images) && |pages| <= MAX_PAGES && j <= |images| && n <= |RedoAll(pages, images)| && n <= MAX_PAGES
    ensures RedoAll(CutOff(pages, images, j, n), images) == RedoAll(pages, images)
  {
    hide P.Image, P.Fits, EmptyImage, RedoAll;
    var front := images[..j];
    var cut := CutOff(pages, images, j, n);
    NeededFront(images, j);
    RedoContents(pages, front);
    RedoContents(pages, images);
    RedoContents(cut, images);
    forall id | 0 <= id < Max(|pages|, Needed(images))
      ensures Redone(cut, images, id) == Redone(pages, images, id)
    {
      if LastImage(images, id).None? {
        assert LastImage(front, id).None?;
      }
    }
  }

  lemma NeededFront(images: seq<P.Page>, j: nat)
    requires Addressable(images) && j <= |images|
    ensures Addressable(images[..j]) && Needed(images[..j]) <= Needed(images)
  {
    if j > 0 {
      var i :| 0 <= i < j && images[..j][i].id + 1 == Needed(images[..j]);
      assert images[i].id < Needed(images);
    }
  }

  // ---------- recovery itself ----------

  /** `recover`: replays the log into the page file; a failure leaves a cut-off replay. */
  method Recover(wal: seq<byte>, pages: PageManager) returns (r: Result<nat>)
    requires pages.Valid()
    modifies pages
    ensures pages.Valid()
    ensures DecodeFrom(wal, 0, true).Err? ==> r.Err? && pages.pages == old(pages.pages)
    ensures DecodeFrom(wal, 0, true).Ok? ==>
              var records := DecodeFrom(wal, 0, true).value.records;
              var images := Replays(records, |records|);
              (r.Ok? <==> Addressable(images))
              && (r.Ok? ==> r.value == |images| && pages.pages == RedoAll(old(pages.pages), images))
              && (r.Err? ==> exists j: nat :: j < |images| && Addressable(images[..j]) && !Addressable(images[..j + 1])
                                             && pages.pages == Grow(RedoAll(old(pages.pages), images[..j]), MAX_PAGES))
  {
    hide DecodeFrom, Grow, Redo, RedoAll, P.Fits, HasCommit, HasAbort;
    var decoded := DecodeRecords(wal, true);
    if decoded.Err? {
      return Err(decoded.error);
    }
    var records := decoded.value.records;
    DecodedFit(wal, 0, true);
    ghost var images := Replays(records, |records|);
    var applied := 0;
    var i := 0;
    RedoNothing(pages.pages);
    while i < |records|
      invariant i <= |records| && pages.Valid()
      invariant applied == |Replays(records, i)| && Addressable(Replays(records, i))
      invariant pages.pages == RedoAll(old(pages.pages), Replays(records, i))
    {
      var record := records[i];
      assert Replays(records, i) + [] == Replays(records, i);
      if record.operation.PageWrite? && Replayable(records, record.transactionId) {
        ghost var done, page := Replays(records, i), record.operation.page;
        ReplaysGrow(records, i + 1, |records|);
        assert (done + [page])[..applied] == done;
        assert images[..applied] == images[..applied + 1][..applied] == done && images[..applied + 1] == done + [page];
        var redone := RedoOne(pages, record.operation.page);
        if redone.Err? {
          assert images[..applied + 1][applied] == page;
          return Err(redone.error);
        }
        RedoStep(old(pages.pages), done, page);
        applied := applied + 1;
      }
      i := i + 1;
    }
    return Ok(applied);
  }

  lemma RedoStep(pages: seq<seq<byte>>, done: seq<P.Page>, page: P.Page)
    requires Addressable(done) && page.id < MAX_PAGES && P.Fits(page.slots)
    ensures Addressable(done + [page]) && RedoAll(pages, done + [page]) == Redo(RedoAll(pages, done), page)
  {
    assert (done + [page])[..|done|] == done;
  }

  lemma RedoNothing(pages: seq<seq<byte>>)
    ensures RedoAll(pages, []) == pages
  {
  }

  /** Allocates up to the page, then replaces it. */
  method RedoOne(pages: PageManager, page: P.Page) returns (r: Result<()>)
    requires pages.Valid() && P.Fits(page.slots)
    modifies pages
    ensures pages.Valid() && (r.Ok? <==> page.id < MAX_PAGES)
    ensures pages.pages == if page.id < MAX_PAGES then Redo(old(pages.pages), page) else Grow(old(pages.pages), MAX_PAGES)
  {
    hide P.Image, P.Fits, EmptyImage;
    while |pages.pages| <= page.id
      invariant pages.Valid() && |old(pages.pages)| <= |pages.pages| <= Max(|old(pages.pages)|, page.id + 1)
      invariant pages.pages == Grow(old(pages.pages), |pages.pages|)
      decreases page.id - |pages.pages|
    {
      ghost var before := pages.pages;
      var _ :- pages.Allocate();
      GrowOnce(old(pages.pages), before);
    }
    r := pages.Write(page);
  }

  lemma {:induction false} GrowOnce(start: seq<seq<byte>>, grown: seq<seq<byte>>)
    requires |start| <= |grown| < MAX_PAGES && grown == Grow(start, |grown|)
    ensures grown + [EmptyImage(|grown|)] == Grow(start, |grown| + 1)
    decreases |grown| - |start|
  {
    hide EmptyImage;
    if |start| < |grown| {
      GrowOnce(start + [EmptyImage(|start|)], grown);
    }
  }

  lemma {:induction false} ReplaysGrow(records: seq<LogRecord>, m: nat, n: nat)
    requires m <= n <= |records|
    ensures |Replays(records, m)| <= |Replays(records, n)| && Replays(records, n)[..|Replays(records, m)|] == Replays(records, m)
    decreases n
  {
    if m < n {
      ReplaysGrow(records, m, n - 1);
    }
  }

  /** Every page in a decoded log fits. */
  lemma {:induction false} DecodedFit(bytes: seq<byte>, count: nat, allowTorn: bool)
    requires DecodeFrom(bytes, count, allowTorn).Ok?
    ensures forall i :: 0 <= i < |DecodeFrom(bytes, count, allowTorn).value.records| ==>
              Encodable(DecodeFrom(bytes, count, allowTorn).value.records[i])
    decreases |bytes|
  {
    hide ReadRecord;
    if bytes != [] && ReadRecord(bytes, count).Whole? {
      ReadFits(bytes, count);
      DecodedFit(bytes[ReadRecord(bytes, count).size..], count + 1, allowTorn);
    }
  }

  lemma ReadFits(bytes: seq<byte>, count: nat)
    requires ReadRecord(bytes, count).Whole?
    ensures Encodable(ReadRecord(bytes, count).record)
  {
    hide P.DecodePage;
    var size := ReadRecord(bytes, count).size;
    var payload := bytes[..size][HEADER_SIZE..];
    if ReadRecord(bytes, count).record.operation.PageWrite? {
      PageLaws.AcceptedFits(payload[8..]);
    }
  }
}
