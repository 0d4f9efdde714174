/** The append-only log over its file. */
module Log {
  import opened Base
  import opened WalCodec
  import P = Pages

  const MAX_LSN: nat := 0xffff_ffff_ffff_ffff

  class WriteAheadLog {
    /** The file, including bytes not yet synchronized. */
    var file: seq<byte>
    var records: seq<LogRecord>
    var nextLsn: u64
    var durableLsn: Option<u64>

    /** How many records are known to survive a crash. */
    function Synced(): nat
      reads this
    {
      if durableLsn.None? then 0 else durableLsn.value + 1
    }

    ghost predicate Valid()
      reads this
    {
      && Accepts(file, 0, records)
      && |records| <= MAX_LSN && nextLsn == |records|
      && Synced() <= |records|
    }

    /** The first `k` bytes of the file are read as these records. */
    ghost predicate Leaves(k: nat, kept: seq<LogRecord>)
      reads this
      requires k <= |file|
    {
      DecodeFrom(file[..k], 0, true).Ok? && DecodeFrom(file[..k], 0, true).value.records == kept
    }

    constructor (file: seq<byte>, decoded: Decoded)
      requires decoded.size <= |file| && DecodeFrom(file, 0, true) == Ok(decoded)
      ensures this.file == file[..decoded.size] && records == decoded.records && Synced() == |records|
      ensures |records| <= MAX_LSN ==> Valid()
    {
      this.file := file[..decoded.size];
      records := decoded.records;
      TrimAccepted(file, 0, decoded);
      AcceptedNumbers(file[..decoded.size], 0, decoded.records);
      nextLsn := if decoded.records == [] then 0 else SaturatingNext(decoded.records[|decoded.records| - 1].lsn);
      durableLsn := if decoded.records == [] then None else Some(decoded.records[|decoded.records| - 1].lsn);
    }

    /** Reads the file, drops a torn tail and resumes after the last record. */
    static method Open(file: seq<byte>) returns (r: Result<WriteAheadLog>)
      ensures r.Ok? <==> DecodeFrom(file, 0, true).Ok?
      ensures r.Err? ==> r.error == DecodeFrom(file, 0, true).error
      ensures r.Ok? ==> fresh(r.value) && var decoded := DecodeFrom(file, 0, true).value;
                r.value.records == decoded.records && r.value.file == file[..decoded.size] && r.value.Synced() == |decoded.records|
                && (|decoded.records| <= MAX_LSN ==> r.value.Valid())
    {
      var decoded := DecodeRecords(file, true);
      if decoded.Err? {
        return Err(decoded.error);
      }
      var wal := new WriteAheadLog(file, decoded.value);
      r := Ok(wal);
    }

    /**
     * Appends one record. A page that has no image changes nothing; the last number of all is written but its
     * append fails, and the log is then unusable.
     */
    method Append(transactionId: u64, operation: Operation) returns (r: Result<u64>)
      requires Valid()
      modifies this
      ensures durableLsn == old(durableLsn)
      ensures var record := LogRecord(old(nextLsn), transactionId, operation);
              if !Encodable(record) then r.Err? && Valid() && file == old(file) && records == old(records)
              else records == old(records) + [record] && Accepts(file, 0, records)
                   && (forall m: nat :: m <= |old(records)| ==> Extent(file, 0, m) == Extent(old(file), 0, m))
                   && (if |records| <= MAX_LSN then r == Ok(old(nextLsn)) && Valid() else r == Err(Storage))
    {
      hide DecodeFrom, EncodeRecord, Extent;
      var lsn := nextLsn;
      var record := LogRecord(lsn, transactionId, operation);
      EncodesExactly(record);
      var encoded := EncodeRecord(record);
      if encoded.Err? {
        return Err(encoded.error);
      }
      AppendAccepted(file, 0, records, record);
      file := file + encoded.value;
      records := records + [record];
      if nextLsn == MAX_LSN {
        return Err(Storage);
      }
      nextLsn := nextLsn + 1;
      return Ok(lsn);
    }

    /** Synchronizes: whatever a crash leaves of the file from now on holds everything appended so far. */
    method Flush()
      requires Valid()
      modifies this
      ensures Valid() && file == old(file) && records == old(records) && Synced() == |records|
      ensures forall k: nat :: Extent(file, 0, Synced()) <= k <= |file| ==> Leaves(k, records)
    {
      hide DecodeFrom, Extent;
      AcceptedNumbers(file, 0, records);
      WholeKept(file, records);
      durableLsn := if records == [] then None else Some(records[|records| - 1].lsn);
    }
  }

  lemma WholeKept(file: seq<byte>, records: seq<LogRecord>)
    requires Accepts(file, 0, records)
    ensures DecodeFrom(file[..|file|], 0, true).Ok? && DecodeFrom(file[..|file|], 0, true).value.records == records
  {
    hide DecodeFrom, Extent, Fit;
    TornTail(file, 0, records, |file|);
    assert records[..|records|] == records;
  }

  function SaturatingNext(lsn: u64): u64 {
    if lsn == MAX_LSN then lsn else lsn + 1
  }

  /** The part of a file before its torn tail is accepted on its own. */
  lemma {:induction false} TrimAccepted(bytes: seq<byte>, count: nat, decoded: Decoded)
    requires DecodeFrom(bytes, count, true) == Ok(decoded)
    ensures Accepts(bytes[..decoded.size], count, decoded.records)
    decreases |bytes|
  {
    hide ReadRecord;
    if bytes != [] && ReadRecord(bytes, count).Whole? {
      var size := ReadRecord(bytes, count).size;
      var rest := DecodeFrom(bytes[size..], count + 1, true).value;
      TrimAccepted(bytes[size..], count + 1, rest);
      ReadLocal(bytes, count, decoded.size);
      assert bytes[..decoded.size][size..] == bytes[size..][..rest.size];
    }
  }
}
