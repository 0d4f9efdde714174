/** What the callers were told about each transaction, and that the log agrees. */
module Outcomes {
  import opened Base
  import opened WalCodec
  import opened Recovery
  import P = Pages

  /** `Committed` and `RolledBack` were reported to the caller; a crash loses every other transaction. */
  datatype Fate = Active | Committed | RolledBack | Lost

  datatype Story = Story(fate: Fate, images: seq<P.Page>)

  type Stories = map<u64, Story>

  /** The page images that `t` logged, in order. */
  function ImagesOf(records: seq<LogRecord>, t: u64): seq<P.Page> {
    if records == [] then []
    else
      var record := records[|records| - 1];
      ImagesOf(records[..|records| - 1], t)
      + (if record.transactionId == t && record.operation.PageWrite? then [record.operation.page] else [])
  }

  /** The log agrees with the story of `t`. */
  ghost predicate Told(records: seq<LogRecord>, stories: Stories, t: u64) {
    if t !in stories then !HasCommit(records, t) && ImagesOf(records, t) == []
    else match stories[t].fate
      case Active => !HasCommit(records, t) && !HasAbort(records, t) && ImagesOf(records, t) == stories[t].images
      case Committed => Replayable(records, t) && ImagesOf(records, t) == stories[t].images
      case RolledBack => HasAbort(records, t) && !HasCommit(records, t)
      case Lost => !HasCommit(records, t)
  }

  ghost predicate Faithful(records: seq<LogRecord>, stories: Stories) {
    forall t: u64 :: Told(records, stories, t)
  }

  /** No outcome, and no record of a committed transaction, is still waiting to be synchronized. */
  ghost predicate Settled(records: seq<LogRecord>, synced: nat, stories: Stories) {
    forall i :: synced <= i < |records| && records[i].transactionId in stories ==> Awaits(records[i], stories[records[i].transactionId].fate)
  }

  predicate Awaits(record: LogRecord, fate: Fate) {
    fate.Active? || fate.Lost? || (fate.RolledBack? && !record.operation.Abort?)
  }

  /** A crash ends every running transaction. */
  function Survivors(stories: Stories): Stories {
    map t | t in stories :: if stories[t].fate.Active? then Story(Lost, stories[t].images) else stories[t]
  }

  lemma Appended(records: seq<LogRecord>, record: LogRecord, t: u64)
    ensures HasCommit(records + [record], t) <==> HasCommit(records, t) || (record.transactionId == t && record.operation.Commit?)
    ensures HasAbort(records + [record], t) <==> HasAbort(records, t) || (record.transactionId == t && record.operation.Abort?)
    ensures ImagesOf(records + [record], t)
            == ImagesOf(records, t) + (if record.transactionId == t && record.operation.PageWrite? then [record.operation.page] else [])
  {
    var all := records + [record];
    assert all[..|records|] == records && all[|records|] == record;
    if i :| 0 <= i < |records| && records[i].transactionId == t && records[i].operation.Commit? {
      assert all[i] == records[i];
    }
    if i :| 0 <= i < |records| && records[i].transactionId == t && records[i].operation.Abort? {
      assert all[i] == records[i];
    }
  }

  /** A transaction without records from `m` on looks the same in the first `m` records. */
  lemma {:induction false} PrefixSame(records: seq<LogRecord>, m: nat, t: u64)
    requires m <= |records| && forall i :: m <= i < |records| ==> records[i].transactionId != t
    ensures HasCommit(records[..m], t) == HasCommit(records, t) && HasAbort(records[..m], t) == HasAbort(records, t)
    ensures ImagesOf(records[..m], t) == ImagesOf(records, t)
    decreases |records|
  {
    var n := |records| - 1;
    if m <= n {
      assert records[..n] + [records[n]] == records && records[..n][..m] == records[..m];
      PrefixSame(records[..n], m, t);
      Appended(records[..n], records[n], t);
    } else {
      assert records[..m] == records;
    }
  }

  lemma PrefixAborted(records: seq<LogRecord>, m: nat, t: u64)
    requires m <= |records| && HasAbort(records, t)
    requires forall i :: m <= i < |records| && records[i].transactionId == t ==> !records[i].operation.Abort?
    ensures HasAbort(records[..m], t)
  {
    var i :| 0 <= i < |records| && records[i].transactionId == t && records[i].operation.Abort?;
    assert i < m && records[..m][i] == records[i];
  }

  lemma {:induction false} PrefixLess(records: seq<LogRecord>, m: nat, t: u64)
    requires m <= |records|
    ensures HasCommit(records[..m], t) ==> HasCommit(records, t)
    ensures |ImagesOf(records[..m], t)| <= |ImagesOf(records, t)|
    decreases |records|
  {
    var n := |records| - 1;
    if m <= n {
      assert records[..n] + [records[n]] == records && records[..n][..m] == records[..m];
      PrefixLess(records[..n], m, t);
      Appended(records[..n], records[n], t);
    } else {
      assert records[..m] == records;
    }
  }

  // ---------- every step keeps the log faithful ----------

  /** A transaction begun under an id above every id in the log starts with nothing of an earlier one. */
  lemma BeginKeeps(records: seq<LogRecord>, synced: nat, stories: Stories, record: LogRecord)
    requires Faithful(records, stories) && Settled(records, synced, stories) && record.operation.Begin?
    requires forall i :: 0 <= i < |records| ==> records[i].transactionId < record.transactionId
    ensures Faithful(records + [record], stories[record.transactionId := Story(Active, [])])
    ensures Settled(records + [record], synced, stories[record.transactionId := Story(Active, [])])
  {
    var after := stories[record.transactionId := Story(Active, [])];
    forall t: u64
      ensures Told(records + [record], after, t)
    {
      Appended(records, record, t);
      assert Told(records, stories, t);
      if t == record.transactionId {
        PrefixSame(records, 0, t);
      }
    }
  }

  lemma ImageKeeps(records: seq<LogRecord>, synced: nat, stories: Stories, record: LogRecord)
    requires Faithful(records, stories) && Settled(records, synced, stories) && record.operation.PageWrite?
    requires record.transactionId in stories && stories[record.transactionId].fate.Active?
    ensures var t := record.transactionId;
            var after := stories[t := Story(Active, stories[t].images + [record.operation.page])];
            Faithful(records + [record], after) && Settled(records + [record], synced, after)
  {
    var id := record.transactionId;
    var after := stories[id := Story(Active, stories[id].images + [record.operation.page])];
    forall t: u64
      ensures Told(records + [record], after, t)
    {
      Appended(records, record, t);
      assert Told(records, stories, t);
    }
  }

  /** A transaction whose images recovery will never replay: it was rolled back or lost. */
  predicate Dead(stories: Stories, t: u64) {
    t in stories && (stories[t].fate.RolledBack? || stories[t].fate.Lost?)
  }

  /**
   * An image logged under an id that is not running: the log goes on telling what was reported if and only if
   * that transaction was rolled back or lost. Under a committed one recovery replays the image all the same, and
   * under one not yet begun it waits for the commit.
   */
  lemma StrayImage(records: seq<LogRecord>, stories: Stories, record: LogRecord)
    requires Faithful(records, stories) && record.operation.PageWrite?
    requires record.transactionId in stories ==> !stories[record.transactionId].fate.Active?
    ensures Faithful(records + [record], stories) <==> Dead(stories, record.transactionId)
    ensures Replayable(records, record.transactionId) ==>
              ImagesOf(Kept(records + [record], |records| + 1), record.transactionId)
              == ImagesOf(Kept(records, |records|), record.transactionId) + [record.operation.page]
  {
    var id, all := record.transactionId, records + [record];
    Appended(records, record, id);
    assert Told(records, stories, id);
    if Dead(stories, id) {
      forall t: u64
        ensures Told(all, stories, t)
      {
        Appended(records, record, t);
        assert Told(records, stories, t);
      }
    } else {
      assert |ImagesOf(all, id)| > 0 && !Told(all, stories, id);
    }
    KeptOf(records, |records|, id);
    KeptOf(all, |all|, id);
    assert records[..|records|] == records && all[..|all|] == all;
  }

  /** A transaction that committed without images, and one image logged under its id afterwards: recovery writes it. */
  lemma StrayReplayed(records: seq<LogRecord>, stories: Stories, record: LogRecord)
    requires records == [LogRecord(0, 1, Operation.Begin), LogRecord(1, 1, Operation.Commit)] && stories == map[1 := Story(Committed, [])]
    requires record.lsn == 2 && record.transactionId == 1 && record.operation.PageWrite?
    ensures Faithful(records, stories) && !Faithful(records + [record], stories)
    ensures Replays(records, 2) == [] && Replays(records + [record], 3) == [record.operation.page]
  {
    var all := records + [record];
    assert records[1].operation.Commit? && all[1] == records[1] && HasCommit(records, 1) && HasCommit(all, 1);
    assert !HasAbort(records, 1) && !HasAbort(all, 1);
    assert records[..1][..0] == [] && records[..1] == [records[0]];
    forall t: u64
      ensures Told(records, stories, t)
    {
      assert ImagesOf(records[..1], t) == ImagesOf([], t) + [] == [];
      assert ImagesOf(records, t) == [];
    }
    StrayImage(records, stories, record);
    hide HasCommit, HasAbort, Told, Faithful;
    assert Replays(records, 1) == Replays(records, 0) + [] == [] && Replays(records, 2) == Replays(records, 1) + [] == [];
    assert all[0] == records[0] && Replays(all, 1) == Replays(all, 0) + [] == [] && Replays(all, 2) == Replays(all, 1) + [] == [];
    assert all[2] == record && Replays(all, 3) == Replays(all, 2) + [record.operation.page];
  }

  lemma DeadKeeps(records: seq<LogRecord>, synced: nat, stories: Stories, record: LogRecord)
    requires Settled(records, synced, stories) && Dead(stories, record.transactionId) && record.operation.PageWrite?
    ensures Settled(records + [record], synced, stories)
  {
  }

  function Ended(stories: Stories, record: LogRecord): Stories
    requires record.transactionId in stories
  {
    var t := record.transactionId;
    stories[t := Story(if record.operation.Commit? then Committed else RolledBack, stories[t].images)]
  }

  lemma OutcomeKeeps(records: seq<LogRecord>, stories: Stories, record: LogRecord)
    requires Faithful(records, stories) && (record.operation.Commit? || record.operation.Abort?)
    requires record.transactionId in stories && stories[record.transactionId].fate.Active?
    ensures Faithful(records + [record], Ended(stories, record))
    ensures Settled(records + [record], |records| + 1, Ended(stories, record))
  {
    forall t: u64
      ensures Told(records + [record], Ended(stories, record), t)
    {
      Appended(records, record, t);
      assert Told(records, stories, t);
    }
  }

  /** A crash that keeps the synchronized records keeps every finished transaction and loses the others. */
  lemma CrashKeeps(records: seq<LogRecord>, synced: nat, stories: Stories, m: nat)
    requires Faithful(records, stories) && Settled(records, synced, stories) && synced <= m <= |records|
    ensures Faithful(records[..m], Survivors(stories))
  {
    forall t: u64
      ensures Told(records[..m], Survivors(stories), t)
    {
      assert Told(records, stories, t);
      PrefixLess(records, m, t);
      if t in stories && stories[t].fate.Committed? {
        PrefixSame(records, m, t);
      } else if t in stories && stories[t].fate.RolledBack? {
        PrefixAborted(records, m, t);
      }
    }
  }

  /**
   * A crash inside a commit or rollback, after its record was appended: a commit whose record survives counts,
   * with all its images, and otherwise the transaction is lost.
   */
  lemma CrashInEndKeeps(records: seq<LogRecord>, synced: nat, stories: Stories, record: LogRecord, m: nat)
    requires Faithful(records, stories) && Settled(records, synced, stories) && (record.operation.Commit? || record.operation.Abort?)
    requires record.transactionId in stories && stories[record.transactionId].fate.Active?
    requires synced <= m <= |records| + 1
    ensures Faithful((records + [record])[..m], AfterCrashInEnd(records, stories, record, m))
  {
    var all := records + [record];
    if m <= |records| {
      assert all[..m] == records[..m];
      CrashKeeps(records, synced, stories, m);
    } else {
      assert all[..m] == all;
      OutcomeKeeps(records, stories, record);
      CrashKeeps(all, |all|, Ended(stories, record), |all|);
    }
  }

  function AfterCrashInEnd(records: seq<LogRecord>, stories: Stories, record: LogRecord, m: nat): Stories
    requires record.transactionId in stories
  {
    if m == |records| + 1 then Survivors(Ended(stories, record)) else Survivors(stories)
  }

  // ---------- what recovery replays ----------

  /** The records whose images `recover` writes, among the first `n`. */
  ghost function Kept(records: seq<LogRecord>, n: nat): seq<LogRecord>
    requires n <= |records|
  {
    if n == 0 then []
    else
      var record := records[n - 1];
      Kept(records, n - 1) + (if record.operation.PageWrite? && Replayable(records, record.transactionId) then [record] else [])
  }

  lemma {:induction false} KeptPages(records: seq<LogRecord>, n: nat)
    requires n <= |records|
    ensures |Kept(records, n)| == |Replays(records, n)|
    ensures forall i :: 0 <= i < |Kept(records, n)| ==>
              Kept(records, n)[i].operation.PageWrite? && Kept(records, n)[i].operation.page == Replays(records, n)[i]
  {
    if n > 0 {
      KeptPages(records, n - 1);
    }
  }

  lemma {:induction false} KeptOf(records: seq<LogRecord>, n: nat, t: u64)
    requires n <= |records|
    ensures ImagesOf(Kept(records, n), t) == if Replayable(records, t) then ImagesOf(records[..n], t) else []
  {
    hide Replayable, HasCommit, HasAbort;
    if n > 0 {
      KeptOf(records, n - 1, t);
      var record := records[n - 1];
      assert records[..n] == records[..n - 1] + [record];
      Appended(records[..n - 1], record, t);
      Appended(Kept(records, n - 1), record, t);
      assert Kept(records, n - 1) + [] == Kept(records, n - 1);
    }
  }

  /** Recovery replays, of each transaction, all its images if it committed and none otherwise. */
  lemma ReplaysByStory(records: seq<LogRecord>, stories: Stories, t: u64)
    requires Faithful(records, stories)
    ensures ImagesOf(Kept(records, |records|), t) == if t in stories && stories[t].fate.Committed? then stories[t].images else []
  {
    KeptOf(records, |records|, t);
    assert records[..|records|] == records;
    assert Told(records, stories, t);
  }
}
