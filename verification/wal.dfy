/** Records of the write-ahead log and their bytes. */
module WalCodec {
  import opened Base
  import opened Bytes
  import opened Checksum
  import P = Pages
  import PageLaws

  const MAGIC: seq<byte> := [0x4e, 0x56, 0x57, 0x4c]
  const HEADER_SIZE: nat := 36
  const MAX_PAYLOAD: nat := P.PAGE_SIZE + 8

  datatype Operation = Begin | PageWrite(pageId: u64, page: P.Page) | Commit | Abort | Checkpoint

  datatype LogRecord = LogRecord(lsn: u64, transactionId: u64, operation: Operation)

  function Tag(operation: Operation): byte {
    match operation
    case Begin => 0
    case PageWrite(_, _) => 1
    case Commit => 2
    case Abort => 3
    case Checkpoint => 4
  }

  function Payload(operation: Operation): (r: Result<seq<byte>>)
    ensures r.Ok? ==> |r.value| == if operation.PageWrite? then MAX_PAYLOAD else 0
  {
    if !operation.PageWrite? then Ok([])
    else if operation.page.id != operation.pageId then Err(InvalidArgument)
    else
      var image :- P.EncodePage(operation.page);
      Ok(Be(operation.pageId, 8) + image)
  }

  function Header(tag: byte, length: u32, lsn: u64, transactionId: u64, checksum: u32): (s: seq<byte>)
    ensures |s| == HEADER_SIZE
  {
    (MAGIC + Be(1, 2) + [tag, 0] + Be(length, 4)) + (Be(lsn, 8) + Be(transactionId, 8)) + Be(checksum, 4) + Zeros(4)
  }

  function Unsealed(record: LogRecord, payload: seq<byte>, checksum: u32): seq<byte>
    requires |payload| <= MAX_PAYLOAD
  {
    Header(Tag(record.operation), |payload|, record.lsn, record.transactionId, checksum) + payload
  }

  function EncodeRecord(record: LogRecord): (r: Result<seq<byte>>)
    ensures r.Ok? ==> |r.value| >= HEADER_SIZE
  {
    var payload :- Payload(record.operation);
    Ok(Unsealed(record, payload, Crc32(Unsealed(record, payload, 0), 28, 32)))
  }

  // ---------- decoding ----------

  function DecodeOperation(tag: byte, payload: seq<byte>): (r: Result<Operation>) {
    if tag in {0, 2, 3, 4} && payload != [] then Err(Corruption)
    else match tag
      case 0 => Ok(Begin)
      case 1 =>
        if |payload| != 8 + P.PAGE_SIZE then Err(Corruption)
        else
          Spans();
          var page :- P.DecodePage(payload[8..]);
          if page.id != Number(payload, 0, 8) then Err(Corruption) else Ok(PageWrite(page.id, page))
      case 2 => Ok(Commit)
      case 3 => Ok(Abort)
      case 4 => Ok(Checkpoint)
      case _ => Err(Corruption)
  }

  /** What stands at the start of some bytes: a cut-off record, a broken one, or a record of `size` bytes. */
  datatype Reading = Torn | Broken(error: Error) | Whole(record: LogRecord, size: nat)

  function CheckHeader(bytes: seq<byte>): Result<()>
    requires |bytes| >= HEADER_SIZE
  {
    if bytes[..4] != MAGIC then Err(Corruption)
    else if Number(bytes, 4, 2) != 1 then Err(Unsupported)
    else if bytes[7] != 0 || bytes[32..36] != Zeros(4) then Err(Corruption)
    else if Number(bytes, 8, 4) > MAX_PAYLOAD then Err(Corruption)
    else Ok(())
  }

  /** The record at the start of `bytes`, which must have sequence number `count`. */
  function ReadRecord(bytes: seq<byte>, count: nat): (r: Reading)
    ensures r.Whole? ==> HEADER_SIZE <= r.size <= |bytes|
  {
    if |bytes| < HEADER_SIZE then Torn
    else
      var checked := CheckHeader(bytes);
      if checked.Err? then Broken(checked.error)
      else
        var size := HEADER_SIZE + Number(bytes, 8, 4);
        if |bytes| < size then Torn else ReadWhole(bytes[..size], count)
  }

  function ReadWhole(bytes: seq<byte>, count: nat): (r: Reading)
    requires |bytes| >= HEADER_SIZE
    ensures !r.Torn? && (r.Whole? ==> r.size == |bytes|)
  {
    if Crc32(bytes, 28, 32) != Number(bytes, 28, 4) then Broken(Corruption)
    else if Number(bytes, 12, 8) != count then Broken(Corruption)
    else match DecodeOperation(bytes[6], bytes[HEADER_SIZE..])
      case Err(error) => Broken(error)
      case Ok(operation) =>
        Spans();
        Whole(LogRecord(count, Number(bytes, 20, 8), operation), |bytes|)
  }

  datatype Decoded = Decoded(records: seq<LogRecord>, size: nat)

  /** The records in `bytes`, the first of which must have number `count`, and how many bytes they take. */
  function DecodeFrom(bytes: seq<byte>, count: nat, allowTorn: bool): (r: Result<Decoded>)
    ensures r.Ok? ==> r.value.size <= |bytes|
    decreases |bytes|
  {
    if bytes == [] then Ok(Decoded([], 0))
    else match ReadRecord(bytes, count)
      case Torn => if allowTorn then Ok(Decoded([], 0)) else Err(Corruption)
      case Broken(error) => Err(error)
      case Whole(record, size) =>
        var rest :- DecodeFrom(bytes[size..], count + 1, allowTorn);
        Ok(Decoded([record] + rest.records, size + rest.size))
  }

  function After(done: seq<LogRecord>, size: nat, rest: Result<Decoded>): Result<Decoded> {
    match rest
    case Err(error) => Err(error)
    case Ok(d) => Ok(Decoded(done + d.records, size + d.size))
  }

  method DecodeRecords(bytes: seq<byte>, allowTorn: bool) returns (r: Result<Decoded>)
    ensures r == DecodeFrom(bytes, 0, allowTorn)
  {
    hide ReadRecord, DecodeFrom, After;
    var records := [];
    var position := 0;
    assert bytes[0..] == bytes;
    AfterNothing(DecodeFrom(bytes, 0, allowTorn));
    while position < |bytes|
      invariant position <= |bytes|
      invariant DecodeFrom(bytes, 0, allowTorn) == After(records, position, DecodeFrom(bytes[position..], |records|, allowTorn))
    {
      DecodeStep(bytes[position..], |records|, allowTorn);
      match ReadRecord(bytes[position..], |records|)
      case Torn =>
        AfterLast(records, position);
        return if allowTorn then Ok(Decoded(records, position)) else Err(Corruption);
      case Broken(error) =>
        AfterLast(records, position);
        return Err(error);
      case Whole(record, size) =>
        assert bytes[position..][size..] == bytes[position + size..];
        AfterStep(records, position, record, size, DecodeFrom(bytes[position + size..], |records| + 1, allowTorn));
        records := records + [record];
        position := position + size;
    }
    AfterLast(records, position);
    DecodeNothing(|records|, allowTorn);
    assert bytes[position..] == [];
    return Ok(Decoded(records, position));
  }

  /** One step of `DecodeFrom`. */
  lemma DecodeStep(bytes: seq<byte>, count: nat, allowTorn: bool)
    requires bytes != []
    ensures var reading := ReadRecord(bytes, count);
            && (reading.Torn? ==> DecodeFrom(bytes, count, allowTorn) == if allowTorn then Ok(Decoded([], 0)) else Err(Corruption))
            && (reading.Broken? ==> DecodeFrom(bytes, count, allowTorn) == Err(reading.error))
            && (reading.Whole? ==>
                  DecodeFrom(bytes, count, allowTorn) ==
                  After([reading.record], reading.size, DecodeFrom(bytes[reading.size..], count + 1, allowTorn)))
  {
    hide ReadRecord;
  }

  lemma DecodeNothing(count: nat, allowTorn: bool)
    ensures DecodeFrom([], count, allowTorn) == Ok(Decoded([], 0))
  {
  }

  lemma AfterLast(done: seq<LogRecord>, size: nat)
    ensures After(done, size, Ok(Decoded([], 0))) == Ok(Decoded(done, size))
    ensures forall error :: After(done, size, Err(error)) == Err(error)
  {
    assert done + [] == done;
  }

  lemma AfterNothing(rest: Result<Decoded>)
    ensures After([], 0, rest) == rest
  {
    if rest.Ok? {
      assert [] + rest.value.records == rest.value.records;
    }
  }

  lemma AfterStep(done: seq<LogRecord>, size: nat, record: LogRecord, more: nat, rest: Result<Decoded>)
    ensures After(done, size, After([record], more, rest)) == After(done + [record], size + more, rest)
  {
    if rest.Ok? {
      assert done + ([record] + rest.value.records) == (done + [record]) + rest.value.records;
    }
  }

  // ---------- one record ----------

  lemma DecodesPayload(operation: Operation)
    requires Payload(operation).Ok?
    ensures DecodeOperation(Tag(operation), Payload(operation).value) == Ok(operation)
  {
    if operation.PageWrite? {
      hide P.DecodePage, P.EncodePage, Be, FromBe;
      Spans();
      var payload, image := Payload(operation).value, P.EncodePage(operation.page).value;
      PageLaws.PageRoundTrip(operation.page);
      assert payload[8..] == image && payload[0..8] == Be(operation.pageId, 8);
      NumberAt(payload, 0, 8, operation.pageId);
    }
  }

  lemma HeaderNumbers(bytes: seq<byte>, tag: byte, length: u32, lsn: u64, transactionId: u64, checksum: u32)
    requires At(bytes, 0, Header(tag, length, lsn, transactionId, checksum))
    ensures bytes[..4] == MAGIC && Number(bytes, 4, 2) == 1 && bytes[6] == tag && bytes[7] == 0 && bytes[32..36] == Zeros(4)
    ensures Number(bytes, 8, 4) == length && Number(bytes, 12, 8) == lsn && Number(bytes, 20, 8) == transactionId
    ensures Number(bytes, 28, 4) == checksum
  {
    hide Be, FromBe, Number, Zeros;
    Spans();
    var header := Header(tag, length, lsn, transactionId, checksum);
    var a, b := MAGIC + Be(1, 2) + [tag, 0] + Be(length, 4), Be(lsn, 8) + Be(transactionId, 8);
    Pieces(MAGIC, Be(1, 2), [tag, 0], Be(length, 4), []);
    Pieces(a, b, Be(checksum, 4), Zeros(4), []);
    Pieces(Be(lsn, 8), Be(transactionId, 8), [], [], []);
    assert a + [] == a && header + [] == header && b + [] + [] + [] == b;
    hide At;
    AtInner(bytes, 0, header, 0, a);
    AtInner(bytes, 0, header, 12, b);
    AtInner(bytes, 0, a, 0, MAGIC);
    NumberIn(bytes, 0, a, 4, 2, 1);
    AtInner(bytes, 0, a, 6, [tag, 0]);
    NumberIn(bytes, 0, a, 8, 4, length);
    NumberIn(bytes, 12, b, 0, 8, lsn);
    NumberIn(bytes, 12, b, 8, 8, transactionId);
    NumberIn(bytes, 0, header, 28, 4, checksum);
    AtInner(bytes, 0, header, 32, Zeros(4));
    TagAt(bytes, tag);
  }

  lemma TagAt(bytes: seq<byte>, tag: byte)
    requires At(bytes, 6, [tag, 0])
    ensures bytes[6] == tag && bytes[7] == 0
  {
    assert bytes[6..8][0] == tag && bytes[6..8][1] == 0;
  }

  /** An encoded record is read back whole. */
  lemma RecordRoundTrip(record: LogRecord)
    requires EncodeRecord(record).Ok?
    ensures ReadRecord(EncodeRecord(record).value, record.lsn) == Whole(record, |EncodeRecord(record).value|)
  {
    hide Be, FromBe, Crc32, Header, Payload, DecodeOperation;
    var payload := Payload(record.operation).value;
    var bytes, blank := EncodeRecord(record).value, Unsealed(record, payload, 0);
    var crc := Crc32(blank, 28, 32);
    SealedAgree(record, payload, crc);
    ChecksumSame(blank, bytes, 28, 32);
    HeaderNumbers(bytes, Tag(record.operation), |payload|, record.lsn, record.transactionId, crc);
    DecodesPayload(record.operation);
    assert bytes[..|bytes|] == bytes;
  }

  /** The checksum field is all that its value changes. */
  lemma SealedAgree(record: LogRecord, payload: seq<byte>, crc: u32)
    requires |payload| <= MAX_PAYLOAD
    ensures var bytes, blank := Unsealed(record, payload, crc), Unsealed(record, payload, 0);
            |bytes| == |blank| == HEADER_SIZE + |payload| && bytes[HEADER_SIZE..] == payload
            && At(bytes, 0, Header(Tag(record.operation), |payload|, record.lsn, record.transactionId, crc))
            && forall j :: 0 <= j < |bytes| && !(28 <= j < 32) ==> blank[j] == bytes[j]
  {
    hide Be;
  }

  // ---------- cutting and extending a log ----------

  /** Reading depends only on the bytes of the record itself. */
  lemma ReadLocal(bytes: seq<byte>, count: nat, k: nat)
    requires ReadRecord(bytes, count).Whole? && k <= |bytes|
    ensures ReadRecord(bytes[..k], count) == if k < ReadRecord(bytes, count).size then Torn else ReadRecord(bytes, count)
  {
    hide ReadWhole, FromBe;
    var size := ReadRecord(bytes, count).size;
    var cut := bytes[..k];
    if k >= HEADER_SIZE {
      assert cut[..4] == bytes[..4] && cut[4..6] == bytes[4..6] && cut[32..36] == bytes[32..36] && cut[8..12] == bytes[8..12];
      if k >= size {
        assert cut[..size] == bytes[..size];
      }
    }
  }

  ghost predicate Accepts(bytes: seq<byte>, count: nat, records: seq<LogRecord>) {
    DecodeFrom(bytes, count, false) == Ok(Decoded(records, |bytes|))
  }

  /** How many records fit completely in the first `k` bytes. */
  ghost function Fit(bytes: seq<byte>, count: nat, k: nat): (m: nat)
    decreases |bytes|
  {
    if bytes == [] then 0
    else match ReadRecord(bytes, count)
      case Whole(_, size) => if k < size then 0 else 1 + Fit(bytes[size..], count + 1, k - size)
      case _ => 0
  }

  /** The bytes that the first `m` records take. */
  function Extent(bytes: seq<byte>, count: nat, m: nat): (n: nat)
    ensures n <= |bytes|
    decreases |bytes|
  {
    if bytes == [] || m == 0 then 0
    else match ReadRecord(bytes, count)
      case Whole(_, size) => size + Extent(bytes[size..], count + 1, m - 1)
      case _ => 0
  }

  /**
   * With a torn tail allowed, cutting after `k` bytes decodes exactly the records that fit completely, with their
   * length; without, only a cut between records is accepted.
   */
  ghost predicate CutsBetween(bytes: seq<byte>, count: nat, records: seq<LogRecord>, k: nat)
    requires k <= |bytes|
  {
    var m := Fit(bytes, count, k);
    && m <= |records| && Extent(bytes, count, m) <= k && (m < |records| ==> k < Extent(bytes, count, m + 1))
    && DecodeFrom(bytes[..k], count, true) == Ok(Decoded(records[..m], Extent(bytes, count, m)))
    && (DecodeFrom(bytes[..k], count, false).Ok? <==> k == Extent(bytes, count, m))
  }

  /** Cutting an accepted log anywhere. */
  lemma {:induction false} TornTail(bytes: seq<byte>, count: nat, records: seq<LogRecord>, k: nat)
    requires Accepts(bytes, count, records) && k <= |bytes|
    ensures CutsBetween(bytes, count, records, k)
    decreases |bytes|
  {
    hide ReadRecord, CutsBetween;
    if bytes == [] {
      CutNothing(count, k);
    } else {
      var rest := AcceptedHead(bytes, count, records);
      hide DecodeFrom;
      var size := ReadRecord(bytes, count).size;
      if k < size {
        CutHead(bytes, count, records, k);
      } else {
        TornTail(bytes[size..], count + 1, rest, k - size);
        CutLater(bytes, count, records, rest, k);
      }
    }
  }

  lemma CutNothing(count: nat, k: nat)
    requires k == 0
    ensures CutsBetween([], count, [], k)
  {
  }

  lemma CutHead(bytes: seq<byte>, count: nat, records: seq<LogRecord>, k: nat)
    requires ReadRecord(bytes, count).Whole? && k < ReadRecord(bytes, count).size && records != []
    ensures CutsBetween(bytes, count, records, k)
  {
    hide DecodeFrom;
    TornHead(bytes, count, k);
  }

  lemma CutLater(bytes: seq<byte>, count: nat, records: seq<LogRecord>, rest: seq<LogRecord>, k: nat)
    requires ReadRecord(bytes, count).Whole? && ReadRecord(bytes, count).size <= k <= |bytes|
    requires records == [ReadRecord(bytes, count).record] + rest
    requires CutsBetween(bytes[ReadRecord(bytes, count).size..], count + 1, rest, k - ReadRecord(bytes, count).size)
    ensures CutsBetween(bytes, count, records, k)
  {
    hide DecodeFrom, Extent, Fit, ReadRecord;
    WholeHead(bytes, count, records, rest, k);
  }

  /** A non-empty accepted log starts with a whole record, and the remaining bytes are accepted too. */
  lemma AcceptedHead(bytes: seq<byte>, count: nat, records: seq<LogRecord>) returns (rest: seq<LogRecord>)
    requires Accepts(bytes, count, records) && bytes != []
    ensures ReadRecord(bytes, count).Whole? && records == [ReadRecord(bytes, count).record] + rest
    ensures Accepts(bytes[ReadRecord(bytes, count).size..], count + 1, rest)
  {
    hide ReadRecord;
    rest := DecodeFrom(bytes[ReadRecord(bytes, count).size..], count + 1, false).value.records;
  }

  lemma TornHead(bytes: seq<byte>, count: nat, k: nat)
    requires ReadRecord(bytes, count).Whole? && k < ReadRecord(bytes, count).size
    ensures Fit(bytes, count, k) == 0 && Extent(bytes, count, 0) == 0 && k < Extent(bytes, count, 1)
    ensures DecodeFrom(bytes[..k], count, true) == Ok(Decoded([], 0)) && (DecodeFrom(bytes[..k], count, false).Ok? <==> k == 0)
  {
    hide ReadRecord;
    ReadLocal(bytes, count, k);
  }

  /** The first record fits: everything is as for the rest of the log, one record later. */
  lemma WholeHead(bytes: seq<byte>, count: nat, records: seq<LogRecord>, rest: seq<LogRecord>, k: nat)
    requires ReadRecord(bytes, count).Whole? && ReadRecord(bytes, count).size <= k <= |bytes|
    requires records == [ReadRecord(bytes, count).record] + rest
    ensures var size := ReadRecord(bytes, count).size;
            var tail := bytes[size..];
            var m := Fit(tail, count + 1, k - size);
            && Fit(bytes, count, k) == m + 1
            && Extent(bytes, count, m + 1) == size + Extent(tail, count + 1, m)
            && Extent(bytes, count, m + 2) == size + Extent(tail, count + 1, m + 1)
            && (m <= |rest| ==> records[..m + 1] == [ReadRecord(bytes, count).record] + rest[..m])
            && DecodeFrom(bytes[..k], count, true) ==
               After([ReadRecord(bytes, count).record], size, DecodeFrom(tail[..k - size], count + 1, true))
            && (DecodeFrom(bytes[..k], count, false).Ok? <==> DecodeFrom(tail[..k - size], count + 1, false).Ok?)
  {
    hide ReadRecord, DecodeFrom;
    ReadLocal(bytes, count, k);
    var size := ReadRecord(bytes, count).size;
    assert bytes[..k][size..] == bytes[size..][..k - size];
    DecodeStep(bytes[..k], count, true);
    DecodeStep(bytes[..k], count, false);
  }

  /** Every accepted log is numbered from `count` on. */
  lemma {:induction false} AcceptedNumbers(bytes: seq<byte>, count: nat, records: seq<LogRecord>)
    requires Accepts(bytes, count, records)
    ensures forall i :: 0 <= i < |records| ==> records[i].lsn == count + i
    ensures Extent(bytes, count, |records|) == |bytes| && |records| <= |bytes|
    decreases |bytes|
  {
    hide ReadWhole;
    if bytes != [] {
      var size := ReadRecord(bytes, count).size;
      var rest := DecodeFrom(bytes[size..], count + 1, false).value;
      AcceptedNumbers(bytes[size..], count + 1, rest.records);
      ReadNumber(bytes, count);
    }
  }

  lemma ReadNumber(bytes: seq<byte>, count: nat)
    requires ReadRecord(bytes, count).Whole?
    ensures ReadRecord(bytes, count).record.lsn == count
  {
    hide DecodeOperation, Crc32;
  }

  /** Appending the next record's bytes appends the record and moves no earlier record. */
  lemma {:induction false} AppendAccepted(bytes: seq<byte>, count: nat, records: seq<LogRecord>, record: LogRecord)
    requires Accepts(bytes, count, records) && EncodeRecord(record).Ok? && record.lsn == count + |records|
    ensures Accepts(bytes + EncodeRecord(record).value, count, records + [record])
    ensures forall m: nat :: m <= |records| ==> Extent(bytes + EncodeRecord(record).value, count, m) == Extent(bytes, count, m)
    decreases |bytes|
  {
    hide ReadRecord, EncodeRecord;
    var more := EncodeRecord(record).value;
    if bytes == [] {
      RecordRoundTrip(record);
      assert bytes + more == more && more[|more|..] == [] && records == [];
      assert DecodeFrom(more[|more|..], count + 1, false) == Ok(Decoded([], 0));
      assert records + [record] == [record] + [];
    } else {
      var all, size := bytes + more, ReadRecord(bytes, count).size;
      var rest := DecodeFrom(bytes[size..], count + 1, false).value;
      assert bytes + more == all && all[..|bytes|] == bytes;
      ReadExtended(bytes, more, count);
      assert all[size..] == bytes[size..] + more;
      assert records + [record] == [records[0]] + (rest.records + [record]);
      AppendAccepted(bytes[size..], count + 1, rest.records, record);
      forall m: nat | m <= |records|
        ensures Extent(all, count, m) == Extent(bytes, count, m)
      {
        if m > 0 {
          assert Extent(bytes[size..] + more, count + 1, m - 1) == Extent(bytes[size..], count + 1, m - 1);
        }
      }
    }
  }

  lemma ReadExtended(bytes: seq<byte>, more: seq<byte>, count: nat)
    requires ReadRecord(bytes, count).Whole?
    ensures ReadRecord(bytes + more, count) == ReadRecord(bytes, count)
  {
    hide ReadWhole, FromBe;
    var size := ReadRecord(bytes, count).size;
    var all := bytes + more;
    assert all[..4] == bytes[..4] && all[4..6] == bytes[4..6] && all[32..36] == bytes[32..36] && all[8..12] == bytes[8..12];
    assert all[..size] == bytes[..size];
  }

  // ---------- whole logs ----------

  predicate Encodable(record: LogRecord) {
    record.operation.PageWrite? ==> record.operation.page.id == record.operation.pageId && P.Fits(record.operation.page.slots)
  }

  /** The bytes of records numbered from 0. */
  ghost function EncodeLog(records: seq<LogRecord>): seq<byte> {
    if records == [] then []
    else
      var r := EncodeRecord(records[|records| - 1]);
      EncodeLog(records[..|records| - 1]) + (if r.Ok? then r.value else [])
  }

  lemma EncodesExactly(record: LogRecord)
    ensures EncodeRecord(record).Ok? <==> Encodable(record)
  {
    if record.operation.PageWrite? && record.operation.page.id == record.operation.pageId {
      PageLaws.PageRoundTrip(record.operation.page);
    }
  }

  /** The encoding of any log with numbers 0, 1, 2, … decodes to it; its first `m` records take its first bytes. */
  lemma {:induction false} LogRoundTrip(records: seq<LogRecord>)
    requires forall i :: 0 <= i < |records| ==> records[i].lsn == i && Encodable(records[i])
    ensures Accepts(EncodeLog(records), 0, records)
    ensures forall m: nat :: m <= |records| ==> Extent(EncodeLog(records), 0, m) == |EncodeLog(records[..m])|
  {
    hide ReadRecord, EncodeRecord, Encodable;
    var n := |records| - 1;
    if n >= 0 {
      var front := records[..n];
      LogRoundTrip(front);
      EncodesExactly(records[n]);
      AppendAccepted(EncodeLog(front), 0, front, records[n]);
      assert front + [records[n]] == records;
      AcceptedNumbers(EncodeLog(records), 0, records);
      forall m: nat | m <= |records|
        ensures Extent(EncodeLog(records), 0, m) == |EncodeLog(records[..m])|
      {
        if m <= n {
          assert records[..m] == front[..m];
        } else {
          assert records[..m] == records;
        }
      }
    }
  }

  /** Decoding the first `k` bytes of a log's encoding gives the records that fit completely, and their length. */
  lemma TornLog(records: seq<LogRecord>, k: nat, m: nat)
    requires forall i :: 0 <= i < |records| ==> records[i].lsn == i && Encodable(records[i])
    requires m <= |records| && |EncodeLog(records[..m])| <= k <= |EncodeLog(records)|
    requires m < |records| ==> k < |EncodeLog(records[..m + 1])|
    ensures DecodeFrom(EncodeLog(records)[..k], 0, true) == Ok(Decoded(records[..m], |EncodeLog(records[..m])|))
  {
    hide ReadRecord, EncodeRecord, Encodable, EncodeLog;
    LogRoundTrip(records);
    var bytes := EncodeLog(records);
    TornTail(bytes, 0, records, k);
    var f := Fit(bytes, 0, k);
    if f < m {
      ExtentGrows(bytes, 0, records, f + 1, m);
    } else if m < f {
      ExtentGrows(bytes, 0, records, m + 1, f);
    }
  }

  lemma {:induction false} ExtentGrows(bytes: seq<byte>, count: nat, records: seq<LogRecord>, a: nat, b: nat)
    requires Accepts(bytes, count, records) && a <= b <= |records|
    ensures Extent(bytes, count, a) <= Extent(bytes, count, b)
    decreases |bytes|
  {
    hide ReadRecord;
    if a > 0 && bytes != [] {
      var size := ReadRecord(bytes, count).size;
      ExtentGrows(bytes[size..], count + 1, DecodeFrom(bytes[size..], count + 1, false).value.records, a - 1, b - 1);
    }
  }
}
