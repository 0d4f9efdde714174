/** Whole runs of the coordinator, with crashes at any point. */
module TransactionRuns {
  import opened Base
  import opened Locks
  import opened Log
  import opened Recovery
  import opened Outcomes
  import opened Transactions
  import opened WalCodec
  import P = Pages

  /** What a client or the environment does; `kept` is how much of the file a crash leaves. */
  datatype Step =
    | Begin
    | Write(id: u64, page: P.Page)
    | Share(id: u64, collection: string)
    | Lock(id: u64, collection: string)
    | Commit(id: u64)
    | Rollback(id: u64)
    | Flush
    | Crash(kept: nat)
    | CrashInCommit(id: u64, kept: nat)
    | CrashInRollback(id: u64, kept: nat)

  /** What came back; `Nothing` comes from a refused step, and from one that ends or begins nothing. */
  datatype Reply =
    | Nothing
    | Began(id: u64)
    | Wrote(id: u64, page: P.Page)
    | CommitDone(id: u64)
    | RollbackDone(id: u64)
    | Crashed
    | FoundCommit(id: u64)
    | FoundRollback(id: u64)

  /** The stories the replies tell, knowing nothing of the log. */
  ghost function Tell(stories: Stories, reply: Reply): Stories {
    match reply
    case Began(t) => stories[t := Story(Active, [])]
    case Wrote(t, page) => stories[t := Story(Active, (if t in stories then stories[t].images else []) + [page])]
    case CommitDone(t) => stories[t := Story(Committed, if t in stories then stories[t].images else [])]
    case RollbackDone(t) => stories[t := Story(RolledBack, if t in stories then stories[t].images else [])]
    case Crashed => Survivors(stories)
    case FoundCommit(t) => Survivors(stories[t := Story(Committed, if t in stories then stories[t].images else [])])
    case FoundRollback(t) => Survivors(stories[t := Story(RolledBack, if t in stories then stories[t].images else [])])
    case Nothing => stories
  }

  /** What the first `n` replies tell. */
  ghost function StoriesAt(replies: seq<Reply>, n: nat): Stories
    requires n <= |replies|
  {
    if n == 0 then map[] else Tell(StoriesAt(replies, n - 1), replies[n - 1])
  }

  ghost function StoriesAfter(replies: seq<Reply>): Stories {
    StoriesAt(replies, |replies|)
  }

  /** What was told before, for a reply to come: ids are new or lost, and only running transactions write and end. */
  ghost predicate Sensible(stories: Stories, reply: Reply) {
    match reply
    case Began(t) => t in stories ==> stories[t].fate.Lost?
    case Wrote(t, _) => Runs(stories, t)
    case CommitDone(t) => Runs(stories, t)
    case RollbackDone(t) => Runs(stories, t)
    case FoundCommit(t) => Runs(stories, t)
    case FoundRollback(t) => Runs(stories, t)
    case _ => true
  }

  ghost predicate Runs(stories: Stories, t: u64) {
    t in stories && stories[t].fate.Active?
  }

  ghost predicate Coherent(replies: seq<Reply>) {
    forall i :: 0 <= i < |replies| ==> Sensible(StoriesAt(replies, i), replies[i])
  }

  function Named(reply: Reply): Option<u64> {
    match reply
    case Began(t) => Some(t)
    case Wrote(t, _) => Some(t)
    case CommitDone(t) => Some(t)
    case RollbackDone(t) => Some(t)
    case FoundCommit(t) => Some(t)
    case FoundRollback(t) => Some(t)
    case _ => None
  }

  predicate Ends(reply: Reply) {
    reply.CommitDone? || reply.RollbackDone? || reply.FoundCommit? || reply.FoundRollback?
  }

  predicate Commits(reply: Reply) {
    reply.CommitDone? || reply.FoundCommit?
  }

  /** After the reply that ends a transaction no later one names it. */
  ghost predicate EndsAreFinal(replies: seq<Reply>) {
    forall i, j :: 0 <= i < j < |replies| && Ends(replies[i]) ==> Named(replies[j]) != Named(replies[i])
  }

  /** The outcome of `t` was told. */
  ghost predicate Over(stories: Stories, t: u64) {
    t in stories && (stories[t].fate.Committed? || stories[t].fate.RolledBack?)
  }

  lemma {:induction false} StoriesPush(replies: seq<Reply>, reply: Reply, n: nat)
    requires n <= |replies|
    ensures StoriesAt(replies + [reply], n) == StoriesAt(replies, n)
    decreases n
  {
    if n > 0 {
      StoriesPush(replies, reply, n - 1);
    }
  }

  lemma CoherentPush(replies: seq<Reply>, reply: Reply)
    requires Coherent(replies) && Sensible(StoriesAfter(replies), reply)
    ensures Coherent(replies + [reply]) && StoriesAfter(replies + [reply]) == Tell(StoriesAfter(replies), reply)
  {
    hide Sensible, Tell;
    forall i | 0 <= i < |replies + [reply]|
      ensures Sensible(StoriesAt(replies + [reply], i), (replies + [reply])[i])
    {
      StoriesPush(replies, reply, i);
    }
    StoriesPush(replies, reply, |replies|);
  }

  lemma TellOver(stories: Stories, reply: Reply, t: u64)
    requires Sensible(stories, reply)
    ensures Over(stories, t) ==> Named(reply) != Some(t) && Over(Tell(stories, reply), t) && Tell(stories, reply)[t] == stories[t]
    ensures Ends(reply) && Named(reply) == Some(t) ==>
              Runs(stories, t) && Over(Tell(stories, reply), t)
              && Tell(stories, reply)[t] == Story(if Commits(reply) then Committed else RolledBack, stories[t].images)
  {
  }

  /** An outcome once told stays as it was told. */
  lemma {:induction false} OverStays(replies: seq<Reply>, i: nat, n: nat, t: u64)
    requires Coherent(replies) && i < n <= |replies| && Ends(replies[i]) && Named(replies[i]) == Some(t)
    ensures Over(StoriesAt(replies, n), t) && StoriesAt(replies, n)[t] == StoriesAt(replies, i + 1)[t]
    decreases n
  {
    hide Tell, Sensible;
    assert Sensible(StoriesAt(replies, n - 1), replies[n - 1]);
    TellOver(StoriesAt(replies, n - 1), replies[n - 1], t);
    if i < n - 1 {
      OverStays(replies, i, n - 1, t);
    }
  }

  lemma CoherentEnds(replies: seq<Reply>)
    requires Coherent(replies)
    ensures EndsAreFinal(replies)
  {
    hide Tell, Sensible, StoriesAt;
    forall i, j | 0 <= i < j < |replies| && Ends(replies[i])
      ensures Named(replies[j]) != Named(replies[i])
    {
      var t := Named(replies[i]).value;
      OverStays(replies, i, j, t);
      TellOver(StoriesAt(replies, j), replies[j], t);
    }
  }

  /** The pages that `t` wrote in the replies `b`, ..., `n - 1`, in order. */
  function Written(replies: seq<Reply>, b: nat, n: nat, t: u64): seq<P.Page>
    requires b <= n <= |replies|
    decreases n
  {
    if n == b then [] else Written(replies, b, n - 1, t) + PagesOf(replies[n - 1], t)
  }

  function PagesOf(reply: Reply, t: u64): seq<P.Page> {
    if reply.Wrote? && reply.id == t then [reply.page] else []
  }

  lemma TellRunning(stories: Stories, reply: Reply, t: u64)
    requires Sensible(stories, reply) && Runs(Tell(stories, reply), t)
    ensures if reply == Began(t) then Tell(stories, reply)[t].images == [] && PagesOf(reply, t) == []
            else Runs(stories, t) && Tell(stories, reply)[t].images == stories[t].images + PagesOf(reply, t)
  {
  }

  lemma {:induction false} RunningImages(replies: seq<Reply>, b: nat, n: nat, t: u64)
    requires Coherent(replies) && b < n <= |replies| && replies[b] == Began(t)
    requires forall i :: b < i < n ==> replies[i] != Began(t)
    requires Runs(StoriesAt(replies, n), t)
    ensures StoriesAt(replies, n)[t].images == Written(replies, b, n, t)
    decreases n
  {
    hide Tell, Sensible, PagesOf;
    assert Sensible(StoriesAt(replies, n - 1), replies[n - 1]);
    TellRunning(StoriesAt(replies, n - 1), replies[n - 1], t);
    if b < n - 1 {
      RunningImages(replies, b, n - 1, t);
    }
  }

  /** A transaction begun at `b` and ended at `c` has committed exactly the pages it wrote in between, or none. */
  lemma CommittedWrites(replies: seq<Reply>, b: nat, c: nat, t: u64)
    requires Coherent(replies) && b < c < |replies| && replies[b] == Began(t)
    requires forall i :: b < i < c ==> replies[i] != Began(t)
    requires Ends(replies[c]) && Named(replies[c]) == Some(t)
    ensures CommittedImages(StoriesAfter(replies), t) == if Commits(replies[c]) then Written(replies, b, c, t) else []
  {
    hide Tell, Sensible;
    assert Sensible(StoriesAt(replies, c), replies[c]);
    TellOver(StoriesAt(replies, c), replies[c], t);
    RunningImages(replies, b, c, t);
    OverStays(replies, c, |replies|, t);
  }

  /** A transaction without a reported or found commit has committed nothing. */
  lemma {:induction false} Uncommitted(replies: seq<Reply>, n: nat, t: u64)
    requires n <= |replies| && forall i :: 0 <= i < n && Commits(replies[i]) ==> Named(replies[i]) != Some(t)
    ensures CommittedImages(StoriesAt(replies, n), t) == []
    ensures t in StoriesAt(replies, n) ==> !StoriesAt(replies, n)[t].fate.Committed?
    decreases n
  {
    if n > 0 {
      Uncommitted(replies, n - 1, t);
      assert !(Commits(replies[n - 1]) && Named(replies[n - 1]) == Some(t));
    }
  }

  function Clip(k: nat, low: nat, high: nat): nat {
    if k < low then low else if k > high then high else k
  }

  /** A crash leaves the first records of the log, among them all the synchronized ones. */
  lemma CrashLeaves(file: seq<byte>, records: seq<LogRecord>, synced: nat, k: nat) returns (m: nat)
    requires Accepts(file, 0, records) && synced <= |records| && Extent(file, 0, synced) <= k <= |file|
    ensures synced <= m <= |records|
    ensures DecodeFrom(file[..k], 0, true).Ok? && DecodeFrom(file[..k], 0, true).value.records == records[..m]
  {
    hide DecodeFrom, Extent, Fit;
    TornTail(file, 0, records, k);
    m := Fit(file, 0, k);
    if m < synced {
      ExtentGrows(file, 0, records, m + 1, synced);
    }
  }

  /** Every id handed out so far was told, and ids start from 1. */
  ghost predicate AllTold(nextId: u64, stories: Stories) {
    nextId >= 1 && 0 !in stories && forall t: u64 :: 1 <= t < nextId ==> t in stories
  }

  lemma ToldStays(nextId: u64, stories: Stories, later: u64, told: Stories)
    requires AllTold(nextId, stories) && 1 <= later <= nextId && told.Keys == stories.Keys
    ensures AllTold(later, told)
  {
    forall t: u64 | 1 <= t < later
      ensures t in told
    {
      assert t in stories.Keys;
    }
    assert 0 !in stories.Keys;
  }

  /** A page write that keeps the log truthful: its transaction is running, or was begun and has no commit in the log. */
  predicate Harmless(manager: TransactionManager, step: Step)
    reads manager, manager.wal
  {
    step.Write? ==> manager.Active(step.id) || (1 <= step.id < manager.nextId && !HasCommit(manager.wal.records, step.id))
  }

  lemma HarmlessExactly(manager: TransactionManager, step: Step)
    requires manager.Valid() && AllTold(manager.nextId, manager.stories) && step.Write?
    ensures Harmless(manager, step) <==> manager.Active(step.id) || (Dead(manager.stories, step.id) && step.id < manager.nextId)
  {
    hide HasCommit, Dead, LogAgrees, AllTold;
    if !manager.Active(step.id) {
      WritesHarmless(manager.wal.records, manager.wal.Synced(), manager.stories, manager.statuses, manager.nextId, step.id);
    }
  }

  lemma WritesHarmless(records: seq<LogRecord>, synced: nat, stories: Stories, statuses: StatusTable, nextId: u64, t: u64)
    requires LogAgrees(records, synced, stories, statuses, nextId) && AllTold(nextId, stories) && !IsActive(statuses, t)
    ensures 1 <= t < nextId && !HasCommit(records, t) <==> Dead(stories, t) && t < nextId
  {
    hide HasCommit, HasAbort, ImagesOf;
    assert Told(records, stories, t);
  }

  /** A step without a crash. */
  method Act(manager: TransactionManager, step: Step) returns (reply: Reply)
    requires manager.Valid() && AllTold(manager.nextId, manager.stories) && Harmless(manager, step)
    modifies manager, manager.wal
    ensures |manager.wal.records| <= |old(manager.wal.records)| + 1
    ensures |manager.wal.records| <= MAX_LSN ==> manager.Valid() && manager.stories == Tell(old(manager.stories), reply)
    ensures |manager.wal.records| <= MAX_LSN ==> Sensible(old(manager.stories), reply) && AllTold(manager.nextId, manager.stories)
  {
    hide TransactionManager.Valid, Survivors, Released, TwoPhase;
    reply := Nothing;
    match step {
      case Begin =>
        var r := manager.Begin();
        if r.Ok? {
          reply := Began(r.value);
        }
      case Write(id, page) =>
        var active := manager.Active(id);
        HarmlessExactly(manager, step);
        StatusTold(manager, id);
        var r := manager.LogPageWrite(id, page);
        if r.Ok? && active {
          reply := Wrote(id, page);
        }
      case Share(id, collection) => var _ := manager.AcquireShared(id, collection);
      case Lock(id, collection) => var _ := manager.AcquireExclusive(id, collection);
      case Commit(id) =>
        StatusTold(manager, id);
        var r := manager.Commit(id);
        if r.Ok? {
          reply := CommitDone(id);
        }
      case Rollback(id) =>
        StatusTold(manager, id);
        var r := manager.Rollback(id);
        if r.Ok? {
          reply := RollbackDone(id);
        }
      case _ => manager.Flush();
    }
  }

  lemma StatusTold(manager: TransactionManager, id: u64)
    requires manager.Valid()
    ensures manager.Active(id) ==> Runs(manager.stories, id)
  {
  }

  /** A page write after which the log would not tell what was reported. */
  ghost predicate Unfaithful(manager: TransactionManager, step: Step)
    reads manager
  {
    step.Write? && !manager.Active(step.id) && !(Dead(manager.stories, step.id) && step.id < manager.nextId)
  }

  /** Nothing outlives a crash as running, and no id is forgotten. */
  ghost predicate Outlives(stories: Stories, told: Stories) {
    told.Keys == stories.Keys && forall t :: t in told ==> !told[t].fate.Active?
  }

  lemma CrashTold(stories: Stories)
    ensures Survivors(stories) == Tell(stories, Crashed) && Outlives(stories, Survivors(stories))
  {
  }

  lemma EndTold(records: seq<LogRecord>, stories: Stories, record: LogRecord, m: nat)
    requires Runs(stories, record.transactionId) && (record.operation.Commit? || record.operation.Abort?) && m <= |records| + 1
    ensures var t, told := record.transactionId, AfterCrashInEnd(records, stories, record, m);
            Outlives(stories, told)
            && told == if m <= |records| then Tell(stories, Crashed)
                       else if record.operation.Commit? then Tell(stories, FoundCommit(t)) else Tell(stories, FoundRollback(t))
  {
  }

  /** A crash, possibly inside a commit or rollback, and the reopening. */
  method CrashAndReopen(manager: TransactionManager, ending: Option<(u64, Operation)>, kept: nat)
    returns (reopened: TransactionManager, reply: Reply, alive: bool)
    requires manager.Valid() && AllTold(manager.nextId, manager.stories)
    requires ending.Some? ==> ending.value.1.Commit? || ending.value.1.Abort?
    modifies manager.wal
    ensures alive ==> AllTold(reopened.nextId, reopened.stories)
    ensures alive ==> fresh(reopened) && fresh(reopened.wal) && reopened.Valid() && reopened.stories == Tell(old(manager.stories), reply)
    ensures alive ==> Sensible(old(manager.stories), reply) && |reopened.wal.records| <= |old(manager.wal.records)| + 1
    ensures !alive ==> |old(manager.wal.records)| >= MAX_LSN
  {
    hide DecodeFrom, Accepts, Extent, Faithful, Settled, HasCommit, HasAbort, TransactionManager.Locked, AllTold, Survivors, AfterCrashInEnd;
    var wal := manager.wal;
    ghost var records, synced, stories := wal.records, wal.Synced(), manager.stories;
    var before := |wal.records|;
    var appended := ending.Some? && manager.Active(ending.value.0);
    if appended {
      StatusTold(manager, ending.value.0);
      var _ := wal.Append(ending.value.0, ending.value.1);
    }
    if |wal.records| > MAX_LSN {
      return manager, Nothing, false;
    }
    var k := Clip(kept, Extent(wal.file, 0, wal.Synced()), |wal.file|);
    ghost var m := CrashLeaves(wal.file, wal.records, synced, k);
    ghost var told := Survivors(stories);
    CrashTold(stories);
    if appended {
      ghost var record := LogRecord(before, ending.value.0, ending.value.1);
      told := AfterCrashInEnd(records, stories, record, m);
      CrashInEndKeeps(records, synced, stories, record, m);
      EndTold(records, stories, record, m);
    } else {
      CrashKeeps(records, synced, stories, m);
    }
    var handle := TransactionManager.Open(wal.file[..k], told);
    reopened, alive := handle.value, true;
    ToldStays(manager.nextId, stories, reopened.nextId, told);
    reply := if !appended || |reopened.wal.records| <= before then Crashed
    else if ending.value.1.Commit? then FoundCommit(ending.value.0) else FoundRollback(ending.value.0);
  }

  /** The log of a manager as any crash would leave it gives back exactly what the stories tell. */
  ghost predicate CrashSafe(file: seq<byte>, synced: nat, stories: Stories) {
    forall k: nat :: Extent(file, 0, synced) <= k <= |file| ==> RecoversTold(file[..k], stories)
  }

  /** Recovery from these bytes replays all images of the committed transactions and no image of any other. */
  ghost predicate RecoversTold(bytes: seq<byte>, stories: Stories) {
    DecodeFrom(bytes, 0, true).Ok?
    && var records := DecodeFrom(bytes, 0, true).value.records;
    forall t: u64 :: ImagesOf(Kept(records, |records|), t) == CommittedImages(stories, t)
  }

  ghost function CommittedImages(stories: Stories, t: u64): seq<P.Page> {
    if t in stories && stories[t].fate.Committed? then stories[t].images else []
  }

  lemma ValidIsCrashSafe(manager: TransactionManager)
    requires manager.Valid()
    ensures CrashSafe(manager.wal.file, manager.wal.Synced(), manager.stories)
  {
    hide DecodeFrom, Extent, Kept, Faithful, Settled;
    var wal, stories := manager.wal, manager.stories;
    forall k: nat | Extent(wal.file, 0, wal.Synced()) <= k <= |wal.file|
      ensures RecoversTold(wal.file[..k], stories)
    {
      var m := CrashLeaves(wal.file, wal.records, wal.Synced(), k);
      CrashKeeps(wal.records, wal.Synced(), stories, m);
      forall t: u64
        ensures ImagesOf(Kept(wal.records[..m], m), t) == CommittedImages(stories, t)
      {
        ReplaysByStory(wal.records[..m], Survivors(stories), t);
      }
    }
  }

  /**
   * Any run from an empty log, as long as log sequence numbers last, up to the first page write under an id that is
   * neither running nor dead, which the log would not survive truthfully: the log tells what the replies told, after
   * any further crash recovery replays exactly the images of the transactions whose commit was reported, or found,
   * and the grants since the last opening are serializable in the order of ends.
   */
  method Run(steps: seq<Step>) returns (manager: TransactionManager, replies: seq<Reply>, alive: bool)
    ensures |steps| <= MAX_LSN ==> alive
    ensures alive ==> fresh(manager) && manager.Valid() && |replies| <= |steps| && manager.stories == StoriesAfter(replies)
    ensures alive && |replies| < |steps| ==> Unfaithful(manager, steps[|replies|])
    ensures alive ==> CrashSafe(manager.wal.file, manager.wal.Synced(), StoriesAfter(replies))
    ensures alive ==> Coherent(replies) && EndsAreFinal(replies)
    ensures alive ==> Serialized(manager.trace) && EndsLast(manager.trace)
  {
    var handle := TransactionManager.Open([], map[]);
    manager, replies := handle.value, [];
    var i := 0;
    while i < |steps| && Harmless(manager, steps[i])
      invariant i == |replies| <= |steps| && fresh(manager) && fresh(manager.wal) && manager.Valid()
      invariant AllTold(manager.nextId, manager.stories)
      invariant manager.stories == StoriesAfter(replies) && Coherent(replies) && |manager.wal.records| <= i
    {
      var reply;
      match steps[i] {
        case Crash(kept) => manager, reply, alive := CrashAndReopen(manager, None, kept);
        case CrashInCommit(id, kept) => manager, reply, alive := CrashAndReopen(manager, Some((id, Operation.Commit)), kept);
        case CrashInRollback(id, kept) => manager, reply, alive := CrashAndReopen(manager, Some((id, Operation.Abort)), kept);
        case _ =>
          reply := Act(manager, steps[i]);
          alive := |manager.wal.records| <= MAX_LSN;
      }
      if !alive {
        return;
      }
      CoherentPush(replies, reply);
      replies := replies + [reply];
      i := i + 1;
    }
    alive := true;
    if i < |steps| {
      HarmlessExactly(manager, steps[i]);
    }
    ValidIsCrashSafe(manager);
    CoherentEnds(replies);
  }
}
