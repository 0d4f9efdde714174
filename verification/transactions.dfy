/** The transaction coordinator: outcomes in the log, strict two-phase locks, and runs with crashes. */
module Transactions {
  import opened Base
  import opened Locks
  import opened Log
  import opened Recovery
  import opened Outcomes
  import opened WalCodec
  import P = Pages

  datatype Status = Running | Done | Undone

  predicate Matches(status: Status, fate: Fate) {
    match status
    case Running => fate.Active?
    case Done => fate.Committed?
    case Undone => fate.RolledBack?
  }

  type StatusTable = map<u64, Status>

  predicate IsActive(statuses: StatusTable, t: u64) {
    t in statuses && statuses[t].Running?
  }

  /** The log says what the callers were told, and every id handed out lies below the next one. */
  ghost predicate LogAgrees(records: seq<LogRecord>, synced: nat, stories: Stories, statuses: StatusTable, nextId: u64) {
    && Faithful(records, stories) && Settled(records, synced, stories)
    && nextId >= 1 && (forall i :: 0 <= i < |records| ==> records[i].transactionId < nextId)
    && (forall t :: t in statuses ==> t < nextId && t in stories && Matches(statuses[t], stories[t].fate))
    && (forall t :: t in stories && stories[t].fate.Active? ==> t in statuses)
  }

  /** Locking is strict two-phase, and only active transactions hold locks. */
  ghost predicate LocksAgree(trace: seq<Event>, locks: LockTable, statuses: StatusTable) {
    && TwoPhase(trace, locks)
    && (forall c, t :: Strength(locks, c, t) > 0 ==> IsActive(statuses, t))
    && (forall i :: 0 <= i < |trace| && trace[i].End? ==> trace[i].id in statuses && !IsActive(statuses, trace[i].id))
  }

  lemma BeginAgrees(records: seq<LogRecord>, synced: nat, stories: Stories, statuses: StatusTable, record: LogRecord)
    requires LogAgrees(records, synced, stories, statuses, record.transactionId) && record.operation.Begin?
    requires record.transactionId < MAX_LSN
    ensures var t := record.transactionId;
            t !in statuses
            && LogAgrees(records, synced, stories, statuses, t + 1)
            && LogAgrees(records + [record], synced, stories[t := Story(Fate.Active, [])], statuses[t := Running], t + 1)
  {
    BeginKeeps(records, synced, stories, record);
  }

  lemma WriteAgrees(records: seq<LogRecord>, synced: nat, stories: Stories, statuses: StatusTable, nextId: u64, record: LogRecord)
    requires LogAgrees(records, synced, stories, statuses, nextId) && record.operation.PageWrite? && IsActive(statuses, record.transactionId)
    ensures var t := record.transactionId;
            t in stories && stories[t].fate.Active?
            && LogAgrees(records + [record], synced, stories[t := Story(Fate.Active, stories[t].images + [record.operation.page])], statuses, nextId)
  {
    ImageKeeps(records, synced, stories, record);
  }

  /** An image under an id that is not running fits in exactly when the id was handed out and its transaction is dead. */
  lemma StrayAgrees(records: seq<LogRecord>, synced: nat, stories: Stories, statuses: StatusTable, nextId: u64, record: LogRecord)
    requires LogAgrees(records, synced, stories, statuses, nextId) && record.operation.PageWrite? && !IsActive(statuses, record.transactionId)
    ensures LogAgrees(records + [record], synced, stories, statuses, nextId) <==>
            Dead(stories, record.transactionId) && record.transactionId < nextId
  {
    var all := records + [record];
    StrayImage(records, stories, record);
    assert all[|records|] == record;
    if Dead(stories, record.transactionId) {
      DeadKeeps(records, synced, stories, record);
    }
  }

  lemma NextIdNew(records: seq<LogRecord>, synced: nat, stories: Stories, statuses: StatusTable, nextId: u64)
    requires LogAgrees(records, synced, stories, statuses, nextId)
    ensures nextId in stories ==> stories[nextId].fate.Lost?
  {
    assert Told(records, stories, nextId);
  }

  lemma EndAgrees(records: seq<LogRecord>, synced: nat, stories: Stories, statuses: StatusTable, nextId: u64, record: LogRecord)
    requires LogAgrees(records, synced, stories, statuses, nextId) && IsActive(statuses, record.transactionId)
    requires record.operation.Commit? || record.operation.Abort?
    ensures record.transactionId in stories
    ensures LogAgrees(records + [record], |records| + 1, Ended(stories, record),
                      statuses[record.transactionId := if record.operation.Commit? then Done else Undone], nextId)
  {
    OutcomeKeeps(records, stories, record);
  }

  lemma BeginLocksAgree(trace: seq<Event>, locks: LockTable, statuses: StatusTable, t: u64)
    requires LocksAgree(trace, locks, statuses) && t !in statuses
    ensures LocksAgree(trace, locks, statuses[t := Running])
  {
  }

  lemma EndLocksAgree(trace: seq<Event>, locks: LockTable, statuses: StatusTable, t: u64, status: Status)
    requires LocksAgree(trace, locks, statuses) && IsActive(statuses, t) && !status.Running?
    ensures LocksAgree(trace + [End(t)], Release(locks, t), statuses[t := status]) && Released(locks, Release(locks, t), t)
  {
    EndKeeps(trace, locks, t);
  }

  lemma ShareLocksAgree(trace: seq<Event>, locks: LockTable, statuses: StatusTable, collection: string, t: u64)
    requires LocksAgree(trace, locks, statuses) && IsActive(statuses, t)
    requires var writer := Locks.Entry(locks, collection).writer; writer.None? || writer == Some(t)
    ensures var after := WithReader(locks, collection, t);
            LocksAgree(trace + [Grant(t, collection, false)], after, statuses)
            && Strengthens(locks, after, collection, t) && Strength(after, collection, t) >= 1
  {
    ShareKeeps(trace, locks, collection, t);
  }

  lemma LockLocksAgree(trace: seq<Event>, locks: LockTable, statuses: StatusTable, collection: string, t: u64)
    requires LocksAgree(trace, locks, statuses) && IsActive(statuses, t)
    requires var lock := Locks.Entry(locks, collection); lock.readers <= {t} && (lock.writer.None? || lock.writer == Some(t))
    ensures var after := WithWriter(locks, collection, t);
            LocksAgree(trace + [Grant(t, collection, true)], after, statuses)
            && Strengthens(locks, after, collection, t) && Strength(after, collection, t) == 2
  {
    LockKeeps(trace, locks, collection, t);
  }

  class TransactionManager {
    var nextId: u64
    var statuses: StatusTable
    var locks: LockTable
    const wal: WriteAheadLog

    /** What the callers were told, and the grants and ends since the last open. */
    ghost var stories: Stories
    ghost var trace: seq<Event>

    ghost predicate Valid()
      reads this, wal
    {
      wal.Valid() && Logged() && Locked()
    }

    ghost predicate Logged()
      reads this, wal
    {
      LogAgrees(wal.records, wal.Synced(), stories, statuses, nextId)
    }

    predicate Active(t: u64)
      reads this
    {
      IsActive(statuses, t)
    }

    ghost predicate Locked()
      reads this
    {
      LocksAgree(trace, locks, statuses)
    }

    constructor (wal: WriteAheadLog, nextId: u64, ghost told: Stories)
      requires wal.Valid() && wal.Synced() == |wal.records| && Faithful(wal.records, told) && nextId >= 1
      requires forall i :: 0 <= i < |wal.records| ==> wal.records[i].transactionId < nextId
      requires forall t :: t in told ==> !told[t].fate.Active?
      ensures Valid() && this.wal == wal && this.nextId == nextId && stories == told && statuses == map[] && locks == map[] && trace == []
    {
      this.wal := wal;
      this.nextId := nextId;
      statuses := map[];
      locks := map[];
      stories := told;
      trace := [];
    }

    /** Opens the log and resumes above every recorded id; no transaction or lock outlives the reopening. */
    static method Open(file: seq<byte>, ghost told: Stories) returns (r: Result<TransactionManager>)
      requires DecodeFrom(file, 0, true).Ok? ==> var records := DecodeFrom(file, 0, true).value.records;
                 Faithful(records, told) && |records| <= MAX_LSN
      requires forall t :: t in told ==> !told[t].fate.Active?
      ensures DecodeFrom(file, 0, true).Err? ==> r.Err?
      ensures DecodeFrom(file, 0, true).Ok? ==> var records := DecodeFrom(file, 0, true).value.records;
                (r.Ok? <==> forall i :: 0 <= i < |records| ==> records[i].transactionId < MAX_LSN)
                && (r.Ok? ==> fresh(r.value) && fresh(r.value.wal) && r.value.Valid() && r.value.wal.records == records && r.value.stories == told)
                && (r.Ok? ==> r.value.nextId == 1 || exists i :: 0 <= i < |records| && records[i].transactionId == r.value.nextId - 1)
    {
      hide Faithful, Accepts, Extent, DecodeFrom, TwoPhase;
      var wal :- WriteAheadLog.Open(file);
      var highest: u64 := 0;
      var i := 0;
      while i < |wal.records|
        invariant i <= |wal.records| && (highest == 0 || exists j :: 0 <= j < i && wal.records[j].transactionId == highest)
        invariant forall j :: 0 <= j < i ==> wal.records[j].transactionId <= highest
      {
        if wal.records[i].transactionId > highest {
          highest := wal.records[i].transactionId;
        }
        i := i + 1;
      }
      if highest == MAX_LSN {
        return Err(InvalidState);
      }
      var manager := new TransactionManager(wal, highest + 1, told);
      return Ok(manager);
    }

    /** A new transaction gets an id above every id in the log, and never one whose outcome was reported. */
    method Begin() returns (r: Result<u64>)
      requires Valid()
      modifies this, wal
      ensures |wal.records| <= |old(wal.records)| + 1
      ensures |wal.records| <= MAX_LSN ==> Valid()
      ensures locks == old(locks) && trace == old(trace)
      ensures r.Ok? ==> r.value !in old(statuses) && statuses == old(statuses)[r.value := Running]
                        && stories == old(stories)[r.value := Story(Fate.Active, [])]
                        && (forall i :: 0 <= i < |old(wal.records)| ==> old(wal.records)[i].transactionId < r.value)
                        && wal.records == old(wal.records) + [LogRecord(|old(wal.records)|, r.value, Operation.Begin)]
      ensures r.Ok? && r.value in old(stories) ==> old(stories)[r.value].fate.Lost?
      ensures r.Ok? ==> r.value == old(nextId) && nextId == r.value + 1
      ensures r.Err? ==> statuses == old(statuses) && stories == old(stories) && (old(nextId) == MAX_LSN || |old(wal.records)| == MAX_LSN)
      ensures r.Err? && |wal.records| <= MAX_LSN ==> nextId == old(nextId)
    {
      NextIdNew(wal.records, wal.Synced(), stories, statuses, nextId);
      var id := nextId;
      if nextId == MAX_LSN {
        return Err(InvalidState);
      }
      nextId := nextId + 1;
      BeginAgrees(wal.records, wal.Synced(), stories, statuses, LogRecord(wal.nextLsn, id, Operation.Begin));
      BeginLocksAgree(trace, locks, statuses, id);
      var _ :- wal.Append(id, Operation.Begin);
      statuses := statuses[id := Running];
      stories := stories[id := Story(Fate.Active, [])];
      return Ok(id);
    }

    method EnsureActive(id: u64) returns (r: Result<()>)
      ensures r == if Active(id) then Ok(()) else if id in statuses then Err(InvalidState) else Err(NotFound)
    {
      if id !in statuses {
        return Err(NotFound);
      }
      return if statuses[id].Running? then Ok(()) else Err(InvalidState);
    }

    /** Granted unless somebody else writes; nobody's holding weakens. */
    method AcquireShared(id: u64, collection: string) returns (r: Result<()>)
      requires Valid()
      modifies this
      ensures Valid() && statuses == old(statuses) && stories == old(stories) && nextId == old(nextId)
      ensures r.Ok? <==> Active(id) && forall t :: Strength(old(locks), collection, t) == 2 ==> t == id
      ensures r.Err? ==> locks == old(locks) && trace == old(trace)
      ensures r.Ok? ==> trace == old(trace) + [Grant(id, collection, false)] && Strength(locks, collection, id) >= 1
      ensures Strengthens(old(locks), locks, collection, id)
    {
      hide WriteAheadLog.Valid, LogAgrees, LocksAgree, WithReader, WithWriter;
      var _ :- EnsureActive(id);
      var writer := Locks.Entry(locks, collection).writer;
      if writer.Some? && writer.value != id {
        assert Strength(locks, collection, writer.value) == 2;
        return Err(InvalidState);
      }
      ShareLocksAgree(trace, locks, statuses, collection, id);
      locks := WithReader(locks, collection, id);
      trace := trace + [Grant(id, collection, false)];
      return Ok(());
    }

    /** Granted, or upgraded, when nobody else reads or writes. */
    method AcquireExclusive(id: u64, collection: string) returns (r: Result<()>)
      requires Valid()
      modifies this
      ensures Valid() && statuses == old(statuses) && stories == old(stories) && nextId == old(nextId)
      ensures r.Ok? <==> Active(id) && forall t :: Strength(old(locks), collection, t) > 0 ==> t == id
      ensures r.Err? ==> locks == old(locks) && trace == old(trace)
      ensures r.Ok? ==> trace == old(trace) + [Grant(id, collection, true)] && Strength(locks, collection, id) == 2
      ensures Strengthens(old(locks), locks, collection, id)
    {
      hide WriteAheadLog.Valid, LogAgrees, LocksAgree, WithReader, WithWriter;
      var _ :- EnsureActive(id);
      var lock := Locks.Entry(locks, collection);
      var foreignReader := exists t :: t in lock.readers && t != id;
      var foreignWriter := lock.writer.Some? && lock.writer.value != id;
      if foreignReader || foreignWriter {
        ghost var other := if foreignWriter then lock.writer.value else var t :| t in lock.readers && t != id; t;
        assert Strength(locks, collection, other) > 0;
        return Err(InvalidState);
      }
      LockLocksAgree(trace, locks, statuses, collection, id);
      locks := WithWriter(locks, collection, id);
      trace := trace + [Grant(id, collection, true)];
      return Ok(());
    }

    /**
     * Logs an after-image under any id. The log goes on telling what was reported if and only if the transaction
     * is running, or dead and its id already handed out.
     */
    method LogPageWrite(id: u64, page: P.Page) returns (r: Result<u64>)
      requires Valid()
      modifies this, wal
      ensures |wal.records| <= |old(wal.records)| + 1
      ensures statuses == old(statuses) && locks == old(locks) && trace == old(trace) && nextId == old(nextId)
      ensures r.Ok? ==> wal.records == old(wal.records) + [LogRecord(|old(wal.records)|, id, PageWrite(page.id, page))]
      ensures r.Ok? && |wal.records| <= MAX_LSN ==>
                (Valid() <==> old(Active(id)) || (Dead(old(stories), id) && id < nextId))
      ensures r.Ok? && old(Active(id)) ==>
                id in old(stories) && stories == old(stories)[id := Story(Fate.Active, old(stories)[id].images + [page])]
      ensures r.Err? || !old(Active(id)) ==> stories == old(stories)
      ensures r.Err? ==> (!P.Fits(page.slots) || |old(wal.records)| == MAX_LSN) && (|wal.records| <= MAX_LSN ==> Valid())
    {
      hide Accepts, Extent, LogAgrees, LocksAgree;
      ghost var record := LogRecord(wal.nextLsn, id, PageWrite(page.id, page));
      if Active(id) {
        WriteAgrees(wal.records, wal.Synced(), stories, statuses, nextId, record);
      } else {
        StrayAgrees(wal.records, wal.Synced(), stories, statuses, nextId, record);
      }
      r := wal.Append(id, PageWrite(page.id, page));
      if r.Ok? && Active(id) {
        stories := stories[id := Story(Fate.Active, stories[id].images + [page])];
      }
    }

    /** Commit is reported only once its record is synchronized, and then releases all locks. */
    method Commit(id: u64) returns (r: Result<()>)
      requires Valid()
      modifies this, wal
      ensures |wal.records| <= |old(wal.records)| + 1
      ensures |wal.records| <= MAX_LSN ==> Valid()
      ensures r.Ok? ==> old(Active(id)) && statuses == old(statuses)[id := Done] && Finished(id, Operation.Commit, old(stories), old(wal.records))
      ensures r.Ok? ==> trace == old(trace) + [End(id)] && Released(old(locks), locks, id)
      ensures nextId == old(nextId)
      ensures r.Err? ==> statuses == old(statuses) && stories == old(stories) && locks == old(locks) && trace == old(trace)
      ensures r.Err? ==> !old(Active(id)) || |old(wal.records)| == MAX_LSN
    {
      r := Finish(id, Operation.Commit, Done);
    }

    /** Rollback, likewise. */
    method Rollback(id: u64) returns (r: Result<()>)
      requires Valid()
      modifies this, wal
      ensures |wal.records| <= |old(wal.records)| + 1
      ensures |wal.records| <= MAX_LSN ==> Valid()
      ensures r.Ok? ==> old(Active(id)) && statuses == old(statuses)[id := Undone] && Finished(id, Operation.Abort, old(stories), old(wal.records))
      ensures r.Ok? ==> trace == old(trace) + [End(id)] && Released(old(locks), locks, id)
      ensures nextId == old(nextId)
      ensures r.Err? ==> statuses == old(statuses) && stories == old(stories) && locks == old(locks) && trace == old(trace)
      ensures r.Err? ==> !old(Active(id)) || |old(wal.records)| == MAX_LSN
    {
      r := Finish(id, Operation.Abort, Undone);
    }

    /** The outcome of `id` is in the log and synchronized. */
    ghost predicate Finished(id: u64, operation: Operation, before: Stories, records: seq<LogRecord>)
      reads this, wal
    {
      && |records| <= MAX_LSN && id in before
      && wal.records == records + [LogRecord(|records|, id, operation)] && wal.Synced() == |wal.records|
      && stories == Ended(before, LogRecord(|records|, id, operation))
    }

    /** The common shape of `commit` and `rollback`. */
    method Finish(id: u64, operation: Operation, status: Status) returns (r: Result<()>)
      requires Valid() && ((operation.Commit? && status.Done?) || (operation.Abort? && status.Undone?))
      modifies this, wal
      ensures |wal.records| <= |old(wal.records)| + 1
      ensures |wal.records| <= MAX_LSN ==> Valid()
      ensures r.Ok? ==> old(Active(id)) && statuses == old(statuses)[id := status] && Finished(id, operation, old(stories), old(wal.records))
      ensures r.Ok? ==> trace == old(trace) + [End(id)] && Released(old(locks), locks, id)
      ensures nextId == old(nextId)
      ensures r.Err? ==> statuses == old(statuses) && stories == old(stories) && locks == old(locks) && trace == old(trace)
      ensures r.Err? ==> !old(Active(id)) || |old(wal.records)| == MAX_LSN
    {
      hide LogAgrees, LocksAgree, Accepts, Extent, Release, Released, Ended;
      var _ :- EnsureActive(id);
      ghost var record := LogRecord(wal.nextLsn, id, operation);
      EndAgrees(wal.records, wal.Synced(), stories, statuses, nextId, record);
      EndLocksAgree(trace, locks, statuses, id, status);
      var _ :- wal.Append(id, operation);
      wal.Flush();
      stories := Ended(stories, record);
      statuses := statuses[id := status];
      locks := Release(locks, id);
      trace := trace + [End(id)];
      return Ok(());
    }

    method Flush()
      requires Valid()
      modifies wal
      ensures Valid() && wal.Synced() == |wal.records| && wal.records == old(wal.records)
    {
      wal.Flush();
    }
  }
}
