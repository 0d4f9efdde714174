/** Collection locks and what strict two-phase locking gives. */
module Locks {
  import opened Base

  datatype LockState = LockState(readers: set<u64>, writer: Option<u64>)

  type LockTable = map<string, LockState>

  /** 2 for a writer, 1 for a reader, 0 for neither. */
  function Strength(locks: LockTable, collection: string, t: u64): nat {
    if collection !in locks then 0
    else if locks[collection].writer == Some(t) then 2
    else if t in locks[collection].readers then 1
    else 0
  }

  /** A writer shares its collection with nobody else, and no entry is idle. */
  ghost predicate WritersAlone(locks: LockTable) {
    forall c :: c in locks ==>
      (locks[c].writer.Some? ==> locks[c].readers <= {locks[c].writer.value})
      && (locks[c].writer.Some? || locks[c].readers != {})
  }

  function Entry(locks: LockTable, collection: string): LockState {
    if collection in locks then locks[collection] else LockState({}, None)
  }

  /** `t` added as a reader. */
  function WithReader(locks: LockTable, collection: string, t: u64): LockTable {
    var lock := Entry(locks, collection);
    locks[collection := lock.(readers := lock.readers + {t})]
  }

  /** `t` made the writer. */
  function WithWriter(locks: LockTable, collection: string, t: u64): LockTable {
    locks[collection := LockState(Entry(locks, collection).readers - {t}, Some(t))]
  }

  /** Nobody's holding weakens, and only `t`'s on `collection` changes. */
  ghost predicate Strengthens(before: LockTable, after: LockTable, collection: string, t: u64) {
    forall c, other :: Strength(after, c, other) >= Strength(before, c, other)
                       && (c != collection || other != t ==> Strength(after, c, other) == Strength(before, c, other))
  }

  lemma ReaderOk(locks: LockTable, collection: string, t: u64)
    requires WritersAlone(locks)
    requires var writer := Entry(locks, collection).writer; writer.None? || writer == Some(t)
    ensures var after := WithReader(locks, collection, t);
            WritersAlone(after) && Strengthens(locks, after, collection, t) && Strength(after, collection, t) >= 1
  {
  }

  lemma WriterOk(locks: LockTable, collection: string, t: u64)
    requires WritersAlone(locks)
    requires var lock := Entry(locks, collection); lock.readers <= {t} && (lock.writer.None? || lock.writer == Some(t))
    ensures var after := WithWriter(locks, collection, t);
            WritersAlone(after) && Strengthens(locks, after, collection, t) && Strength(after, collection, t) == 2
  {
  }

  // ---------- traces ----------

  /** A lock granted, or a transaction ended by commit or rollback. */
  datatype Event = Grant(id: u64, collection: string, exclusive: bool) | End(id: u64)

  predicate Conflict(a: Event, b: Event) {
    a.Grant? && b.Grant? && a.id != b.id && a.collection == b.collection && (a.exclusive || b.exclusive)
  }

  ghost predicate EndsBetween(trace: seq<Event>, t: u64, i: int, j: int) {
    exists e: nat :: i < e < j && EndsAt(trace, t, e)
  }

  ghost predicate EndsAt(trace: seq<Event>, t: u64, e: nat) {
    e < |trace| && trace[e] == End(t)
  }

  /** Every conflicting grant waits for the end of the earlier holder. */
  ghost predicate Serialized(trace: seq<Event>) {
    forall i, j :: 0 <= i < j < |trace| && Conflict(trace[i], trace[j]) ==> EndsBetween(trace, trace[i].id, i, j)
  }

  /** Nothing happens to a transaction after its end. */
  ghost predicate EndsLast(trace: seq<Event>) {
    forall i, j :: 0 <= i < j < |trace| && trace[i].End? ==> trace[j].id != trace[i].id
  }

  /** Every grant is held until the end of its transaction. */
  ghost predicate Held(trace: seq<Event>, locks: LockTable) {
    forall i :: 0 <= i < |trace| && trace[i].Grant? && !EndsBetween(trace, trace[i].id, i, |trace|) ==>
      Strength(locks, trace[i].collection, trace[i].id) >= if trace[i].exclusive then 2 else 1
  }

  ghost predicate TwoPhase(trace: seq<Event>, locks: LockTable) {
    WritersAlone(locks) && Serialized(trace) && EndsLast(trace) && Held(trace, locks)
  }

  lemma EndsLater(trace: seq<Event>, event: Event, t: u64, i: int, j: int)
    requires j <= |trace|
    ensures EndsBetween(trace + [event], t, i, j) <==> EndsBetween(trace, t, i, j)
  {
    var all := trace + [event];
    if e: nat :| i < e < j && EndsAt(trace, t, e) {
      assert EndsAt(all, t, e);
    }
    if e: nat :| i < e < j && EndsAt(all, t, e) {
      assert EndsAt(trace, t, e);
    }
  }

  lemma EndsWider(trace: seq<Event>, event: Event, t: u64, i: int)
    ensures EndsBetween(trace, t, i, |trace|) ==> EndsBetween(trace + [event], t, i, |trace| + 1)
  {
    if e: nat :| i < e < |trace| && EndsAt(trace, t, e) {
      assert EndsAt(trace + [event], t, e);
    }
  }

  /** A grant that the table allows, and that weakens no holding. */
  lemma GrantKeeps(trace: seq<Event>, locks: LockTable, after: LockTable, event: Event)
    requires TwoPhase(trace, locks) && event.Grant? && WritersAlone(after)
    requires forall i :: 0 <= i < |trace| && trace[i].End? ==> trace[i].id != event.id
    requires Strengthens(locks, after, event.collection, event.id)
    requires Strength(after, event.collection, event.id) >= if event.exclusive then 2 else 1
    ensures TwoPhase(trace + [event], after)
  {
    var all, n := trace + [event], |trace|;
    forall i, j | 0 <= i < j < |all| && Conflict(all[i], all[j])
      ensures EndsBetween(all, all[i].id, i, j)
    {
      EndsLater(trace, event, all[i].id, i, j);
      if j < n {
        assert Conflict(trace[i], trace[j]);
      } else {
        assert Strength(after, trace[i].collection, trace[i].id) >= Strength(locks, trace[i].collection, trace[i].id);
      }
    }
    forall i | 0 <= i < |all| && all[i].Grant? && !EndsBetween(all, all[i].id, i, |all|)
      ensures Strength(after, all[i].collection, all[i].id) >= if all[i].exclusive then 2 else 1
    {
      if i < n {
        EndsWider(trace, event, trace[i].id, i);
        assert Strength(after, trace[i].collection, trace[i].id) >= Strength(locks, trace[i].collection, trace[i].id);
      }
    }
  }

  lemma ShareKeeps(trace: seq<Event>, locks: LockTable, collection: string, t: u64)
    requires TwoPhase(trace, locks) && forall i :: 0 <= i < |trace| && trace[i].End? ==> trace[i].id != t
    requires var writer := Entry(locks, collection).writer; writer.None? || writer == Some(t)
    ensures var after := WithReader(locks, collection, t);
            TwoPhase(trace + [Grant(t, collection, false)], after)
            && Strengthens(locks, after, collection, t) && Strength(after, collection, t) >= 1
  {
    ReaderOk(locks, collection, t);
    GrantKeeps(trace, locks, WithReader(locks, collection, t), Grant(t, collection, false));
  }

  lemma LockKeeps(trace: seq<Event>, locks: LockTable, collection: string, t: u64)
    requires TwoPhase(trace, locks) && forall i :: 0 <= i < |trace| && trace[i].End? ==> trace[i].id != t
    requires var lock := Entry(locks, collection); lock.readers <= {t} && (lock.writer.None? || lock.writer == Some(t))
    ensures var after := WithWriter(locks, collection, t);
            TwoPhase(trace + [Grant(t, collection, true)], after)
            && Strengthens(locks, after, collection, t) && Strength(after, collection, t) == 2
  {
    WriterOk(locks, collection, t);
    GrantKeeps(trace, locks, WithWriter(locks, collection, t), Grant(t, collection, true));
  }

  /** `release_locks`: drops the transaction from every lock, and then every idle lock. */
  function Release(locks: LockTable, id: u64): LockTable {
    map c | c in locks && !Idle(Without(locks[c], id)) :: Without(locks[c], id)
  }

  function Without(lock: LockState, id: u64): LockState {
    LockState(lock.readers - {id}, if lock.writer == Some(id) then None else lock.writer)
  }

  predicate Idle(lock: LockState) {
    lock.readers == {} && lock.writer.None?
  }

  ghost predicate Released(before: LockTable, after: LockTable, id: u64) {
    forall c, t :: Strength(after, c, t) == if t == id then 0 else Strength(before, c, t)
  }

  lemma ReleaseOk(locks: LockTable, id: u64)
    requires WritersAlone(locks)
    ensures WritersAlone(Release(locks, id)) && Released(locks, Release(locks, id), id)
  {
    forall c, t
      ensures Strength(Release(locks, id), c, t) == if t == id then 0 else Strength(locks, c, t)
    {
      if c in locks {
        assert t in Without(locks[c], id).readers <==> t in locks[c].readers && t != id;
      }
    }
  }

  /** The end of a transaction releases its own locks only. */
  lemma EndKeeps(trace: seq<Event>, locks: LockTable, t: u64)
    requires TwoPhase(trace, locks) && forall i :: 0 <= i < |trace| && trace[i].End? ==> trace[i].id != t
    ensures TwoPhase(trace + [End(t)], Release(locks, t)) && Released(locks, Release(locks, t), t)
  {
    var all, n, after := trace + [End(t)], |trace|, Release(locks, t);
    ReleaseOk(locks, t);
    forall i, j | 0 <= i < j < |all| && Conflict(all[i], all[j])
      ensures EndsBetween(all, all[i].id, i, j)
    {
      EndsLater(trace, End(t), all[i].id, i, j);
    }
    forall i | 0 <= i < |all| && all[i].Grant? && !EndsBetween(all, all[i].id, i, |all|)
      ensures Strength(after, all[i].collection, all[i].id) >= if all[i].exclusive then 2 else 1
    {
      assert EndsAt(all, t, n);
      EndsWider(trace, End(t), all[i].id, i);
      assert Strength(after, trace[i].collection, trace[i].id) == Strength(locks, trace[i].collection, trace[i].id);
    }
  }

  // ---------- the serialization order ----------

  /** `a` did something before `b` that conflicts with it. */
  ghost predicate Precedes(trace: seq<Event>, a: u64, b: u64) {
    exists i, j :: 0 <= i < j < |trace| && trace[i].id == a && trace[j].id == b && Conflict(trace[i], trace[j])
  }

  /** A conflict is ordered as the ends are: the earlier transaction ended, and before the later one. */
  lemma PrecedesEnds(trace: seq<Event>, a: u64, b: u64) returns (e: nat)
    requires Serialized(trace) && EndsLast(trace) && Precedes(trace, a, b)
    ensures EndsAt(trace, a, e) && forall f: nat :: EndsAt(trace, b, f) ==> e < f
  {
    var i, j :| 0 <= i < j < |trace| && trace[i].id == a && trace[j].id == b && Conflict(trace[i], trace[j]);
    assert EndsBetween(trace, a, i, j);
    e :| i < e < j && EndsAt(trace, a, e);
  }

  /** The order of ends is a serialization order: no conflict goes against it. */
  lemma EndOrderSerializes(trace: seq<Event>, a: u64, b: u64, e: nat, f: nat)
    requires Serialized(trace) && EndsLast(trace) && EndsAt(trace, a, e) && EndsAt(trace, b, f) && e < f
    ensures !Precedes(trace, b, a)
  {
    if Precedes(trace, b, a) {
      var g := PrecedesEnds(trace, b, a);
    }
  }

  ghost predicate Path(trace: seq<Event>, path: seq<u64>) {
    forall i, j {:trigger path[i], path[j]} :: 0 <= i && j == i + 1 < |path| ==> Precedes(trace, path[i], path[j])
  }

  /** The precedence graph has no cycle: the first transaction of a path ended before the last one can. */
  lemma {:induction false} NoCycle(trace: seq<Event>, path: seq<u64>, last: u64) returns (e: nat)
    requires Serialized(trace) && EndsLast(trace) && |path| >= 2 && Path(trace, path) && path[|path| - 1] == last
    ensures path[0] != last
    ensures EndsAt(trace, path[0], e) && forall f: nat :: EndsAt(trace, last, f) ==> e < f
    decreases |path|
  {
    var n := |path| - 1;
    assert Precedes(trace, path[n - 1], last);
    e := PrecedesEnds(trace, path[n - 1], last);
    if n > 1 {
      e := NoCycle(trace, path[..n], path[n - 1]);
    }
  }
}
