/** Sorted leaf entries: each key with its strictly ascending document ids. */
module Leaves {
  import opened Base
  import opened IndexKeys

  datatype Entry = Entry(key: IndexKey, ids: seq<NovaId>)

  ghost predicate SortedKeys(keys: seq<IndexKey>) {
    forall i, j :: 0 <= i < j < |keys| ==> Rank(keys[i]) < Rank(keys[j])
  }

  ghost predicate SortedEntries(es: seq<Entry>) {
    forall i, j :: 0 <= i < j < |es| ==> Rank(es[i].key) < Rank(es[j].key)
  }

  ghost predicate SortedIds(ids: seq<NovaId>) {
    forall i, j :: 0 <= i < j < |ids| ==> ids[i] < ids[j]
  }

  /** The half-open key range a subtree may use: `lo <= k < hi`, where given. */
  ghost predicate InBounds(k: IndexKey, lo: Option<IndexKey>, hi: Option<IndexKey>) {
    (lo.Some? ==> Rank(lo.value) <= Rank(k)) && (hi.Some? ==> Rank(k) < Rank(hi.value))
  }

  ghost predicate EntriesOk(es: seq<Entry>, lo: Option<IndexKey>, hi: Option<IndexKey>) {
    && SortedEntries(es)
    && forall i :: 0 <= i < |es| ==> InBounds(es[i].key, lo, hi) && es[i].ids != [] && SortedIds(es[i].ids)
  }

  ghost predicate HasPair(es: seq<Entry>, key: IndexKey, id: NovaId) {
    exists i :: 0 <= i < |es| && es[i].key == key && id in es[i].ids
  }

  ghost predicate AddsPair(es: seq<Entry>, out: seq<Entry>, key: IndexKey, id: NovaId) {
    forall k, x :: HasPair(out, k, x) <==> HasPair(es, k, x) || (k == key && x == id)
  }

  ghost predicate DropsPair(es: seq<Entry>, out: seq<Entry>, key: IndexKey, id: NovaId) {
    forall k, x :: HasPair(out, k, x) <==> HasPair(es, k, x) && !(k == key && x == id)
  }

  /** `partition_point` by binary search: how many separators are at most `key`. */
  function PartitionPoint(keys: seq<IndexKey>, key: IndexKey, lo: nat, hi: nat): (c: nat)
    requires lo <= hi <= |keys|
    ensures lo <= c <= hi
    ensures SortedKeys(keys) ==>
              && (forall j :: lo <= j < c ==> Rank(keys[j]) <= Rank(key))
              && (forall j :: c <= j < hi ==> Rank(key) < Rank(keys[j]))
    decreases hi - lo
  {
    if lo == hi then lo
    else
      var mid := (lo + hi) / 2;
      if Less(key, keys[mid]) then PartitionPoint(keys, key, lo, mid)
      else PartitionPoint(keys, key, mid + 1, hi)
  }

  function ChildIndex(keys: seq<IndexKey>, key: IndexKey): (c: nat)
    ensures c <= |keys|
    ensures SortedKeys(keys) ==>
              && (forall j :: 0 <= j < c ==> Rank(keys[j]) <= Rank(key))
              && (forall j :: c <= j < |keys| ==> Rank(key) < Rank(keys[j]))
  {
    PartitionPoint(keys, key, 0, |keys|)
  }

  datatype Search = Found(index: nat) | Absent(index: nat)

  /** `binary_search_by` on the entry keys. */
  function SearchEntries(es: seq<Entry>, key: IndexKey, lo: nat, hi: nat): (r: Search)
    requires lo <= hi <= |es|
    ensures lo <= r.index <= hi
    ensures r.Found? ==> r.index < hi && es[r.index].key == key
    ensures r.Absent? && SortedEntries(es) ==>
              && (forall j :: lo <= j < r.index ==> Rank(es[j].key) < Rank(key))
              && (forall j :: r.index <= j < hi ==> Rank(key) < Rank(es[j].key))
    decreases hi - lo
  {
    if lo == hi then Absent(lo)
    else
      var mid := (lo + hi) / 2;
      RankEmbeds(key, es[mid].key);
      if key == es[mid].key then Found(mid)
      else if Less(key, es[mid].key) then SearchEntries(es, key, lo, mid)
      else SearchEntries(es, key, mid + 1, hi)
  }

  /** `binary_search` on the ids of one entry. */
  function SearchIds(ids: seq<NovaId>, id: NovaId, lo: nat, hi: nat): (r: Search)
    requires lo <= hi <= |ids|
    ensures lo <= r.index <= hi
    ensures r.Found? ==> r.index < hi && ids[r.index] == id
    ensures r.Absent? && SortedIds(ids) ==>
              (forall j :: lo <= j < r.index ==> ids[j] < id) && (forall j :: r.index <= j < hi ==> id < ids[j])
    decreases hi - lo
  {
    if lo == hi then Absent(lo)
    else
      var mid := (lo + hi) / 2;
      if id == ids[mid] then Found(mid)
      else if id < ids[mid] then SearchIds(ids, id, lo, mid)
      else SearchIds(ids, id, mid + 1, hi)
  }

  function InsertAt<T>(s: seq<T>, i: nat, x: T): seq<T>
    requires i <= |s|
  {
    s[..i] + [x] + s[i..]
  }

  function RemoveAt<T>(s: seq<T>, i: nat): seq<T>
    requires i < |s|
  {
    s[..i] + s[i + 1..]
  }

  /** The leaf contents after adding one pair. */
  function InsertPair(es: seq<Entry>, key: IndexKey, id: NovaId): seq<Entry> {
    match SearchEntries(es, key, 0, |es|)
    case Absent(i) => InsertAt(es, i, Entry(key, [id]))
    case Found(i) =>
      match SearchIds(es[i].ids, id, 0, |es[i].ids|)
      case Found(_) => es
      case Absent(j) => es[i := Entry(es[i].key, InsertAt(es[i].ids, j, id))]
  }

  /** The searches find this very pair. */
  predicate Holds(es: seq<Entry>, key: IndexKey, id: NovaId) {
    var s := SearchEntries(es, key, 0, |es|);
    s.Found? && SearchIds(es[s.index].ids, id, 0, |es[s.index].ids|).Found?
  }

  /** Entry `i` without its id `j`; an entry without ids goes too. */
  function DropId(es: seq<Entry>, i: nat, j: nat): seq<Entry>
    requires i < |es| && j < |es[i].ids|
  {
    var ids := RemoveAt(es[i].ids, j);
    if ids == [] then RemoveAt(es, i) else es[i := Entry(es[i].key, ids)]
  }

  /** The leaf contents after deleting one pair. */
  function RemovePair(es: seq<Entry>, key: IndexKey, id: NovaId): seq<Entry> {
    match SearchEntries(es, key, 0, |es|)
    case Absent(_) => es
    case Found(i) =>
      match SearchIds(es[i].ids, id, 0, |es[i].ids|)
      case Absent(_) => es
      case Found(j) => DropId(es, i, j)
  }

  lemma InsertEntryMembers(es: seq<Entry>, i: nat, e: Entry)
    requires i <= |es|
    ensures forall k, x :: HasPair(InsertAt(es, i, e), k, x) <==> HasPair(es, k, x) || (k == e.key && x in e.ids)
  {
    var out := InsertAt(es, i, e);
    assert out[i] == e;
    assert forall m :: 0 <= m < |out| ==> out[m] == e || out[m] in es;
    forall k, x | HasPair(es, k, x)
      ensures HasPair(out, k, x)
    {
      var m :| 0 <= m < |es| && es[m].key == k && x in es[m].ids;
      assert out[if m < i then m else m + 1] == es[m];
    }
  }

  /** Inserting a new entry between smaller and larger keys. */
  lemma InsertEntryOk(es: seq<Entry>, i: nat, e: Entry, lo: Option<IndexKey>, hi: Option<IndexKey>)
    requires EntriesOk(es, lo, hi) && i <= |es|
    requires InBounds(e.key, lo, hi) && e.ids != [] && SortedIds(e.ids)
    requires forall j :: 0 <= j < i ==> Rank(es[j].key) < Rank(e.key)
    requires forall j :: i <= j < |es| ==> Rank(e.key) < Rank(es[j].key)
    ensures EntriesOk(InsertAt(es, i, e), lo, hi)
    ensures e.ids == [e.ids[0]] ==> AddsPair(es, InsertAt(es, i, e), e.key, e.ids[0])
  {
    var out := InsertAt(es, i, e);
    forall a, b | 0 <= a < b < |out|
      ensures Rank(out[a].key) < Rank(out[b].key)
    {
      assert a < i ==> out[a] == es[a];
      assert i < b ==> out[b] == es[b - 1];
    }
    InsertEntryMembers(es, i, e);
  }

  /** Replacing the ids of entry `i`: other keys keep their pairs. */
  lemma UpdateEntryOk(es: seq<Entry>, i: nat, ids: seq<NovaId>, lo: Option<IndexKey>, hi: Option<IndexKey>)
    requires i < |es| && EntriesOk(es, lo, hi) && ids != [] && SortedIds(ids)
    ensures EntriesOk(es[i := Entry(es[i].key, ids)], lo, hi)
    ensures forall k, x :: HasPair(es[i := Entry(es[i].key, ids)], k, x) <==>
                           if k == es[i].key then x in ids else HasPair(es, k, x)
  {
    var out := es[i := Entry(es[i].key, ids)];
    forall k, x
      ensures HasPair(out, k, x) <==> if k == es[i].key then x in ids else HasPair(es, k, x)
    {
      if k == es[i].key {
        assert out[i].key == k;
        EntryPairs(out, i);
      } else if HasPair(es, k, x) {
        var m :| 0 <= m < |es| && es[m].key == k && x in es[m].ids;
        assert out[m] == es[m];
      }
    }
  }

  /** Entry `i` alone decides which ids its key has. */
  lemma EntryPairs(es: seq<Entry>, i: nat)
    requires i < |es| && SortedEntries(es)
    ensures forall x :: HasPair(es, es[i].key, x) <==> x in es[i].ids
  {
    assert forall m :: 0 <= m < |es| && m != i ==> es[m].key != es[i].key;
  }

  lemma InsertIdOk(ids: seq<NovaId>, j: nat, id: NovaId)
    requires j <= |ids| && SortedIds(ids)
    requires (forall m :: 0 <= m < j ==> ids[m] < id) && (forall m :: j <= m < |ids| ==> id < ids[m])
    ensures SortedIds(InsertAt(ids, j, id))
    ensures forall x :: x in InsertAt(ids, j, id) <==> x in ids || x == id
  {
    assert ids == ids[..j] + ids[j..];
  }

  lemma AddIdOk(es: seq<Entry>, i: nat, j: nat, id: NovaId, lo: Option<IndexKey>, hi: Option<IndexKey>)
    requires i < |es| && j <= |es[i].ids| && EntriesOk(es, lo, hi)
    requires forall m :: 0 <= m < j ==> es[i].ids[m] < id
    requires forall m :: j <= m < |es[i].ids| ==> id < es[i].ids[m]
    ensures EntriesOk(es[i := Entry(es[i].key, InsertAt(es[i].ids, j, id))], lo, hi)
    ensures AddsPair(es, es[i := Entry(es[i].key, InsertAt(es[i].ids, j, id))], es[i].key, id)
  {
    EntryPairs(es, i);
    InsertIdOk(es[i].ids, j, id);
    UpdateEntryOk(es, i, InsertAt(es[i].ids, j, id), lo, hi);
  }

  lemma InsertPairOk(es: seq<Entry>, key: IndexKey, id: NovaId, lo: Option<IndexKey>, hi: Option<IndexKey>)
    requires EntriesOk(es, lo, hi) && InBounds(key, lo, hi)
    ensures EntriesOk(InsertPair(es, key, id), lo, hi)
    ensures |es| <= |InsertPair(es, key, id)| <= |es| + 1
    ensures AddsPair(es, InsertPair(es, key, id), key, id)
  {
    match SearchEntries(es, key, 0, |es|) {
      case Absent(i) =>
        InsertEntryOk(es, i, Entry(key, [id]), lo, hi);
      case Found(i) =>
        match SearchIds(es[i].ids, id, 0, |es[i].ids|) {
          case Found(_) =>
          case Absent(j) =>
            AddIdOk(es, i, j, id, lo, hi);
        }
    }
  }

  lemma RemoveIdOk(ids: seq<NovaId>, j: nat)
    requires j < |ids| && SortedIds(ids)
    ensures SortedIds(RemoveAt(ids, j))
    ensures forall x :: x in RemoveAt(ids, j) <==> x in ids && x != ids[j]
  {
    var out := RemoveAt(ids, j);
    forall x | x in ids && x != ids[j]
      ensures x in out
    {
      var m :| 0 <= m < |ids| && ids[m] == x;
      assert out[if m < j then m else m - 1] == x;
    }
  }

  lemma DropIdOk(es: seq<Entry>, i: nat, j: nat, lo: Option<IndexKey>, hi: Option<IndexKey>)
    requires i < |es| && j < |es[i].ids| && EntriesOk(es, lo, hi)
    ensures EntriesOk(DropId(es, i, j), lo, hi) && |DropId(es, i, j)| <= |es|
    ensures DropsPair(es, DropId(es, i, j), es[i].key, es[i].ids[j])
  {
    EntryPairs(es, i);
    RemoveIdOk(es[i].ids, j);
    var ids := RemoveAt(es[i].ids, j);
    if ids != [] {
      UpdateEntryOk(es, i, ids, lo, hi);
    } else {
      RemoveEntryOk(es, i, lo, hi);
      assert forall x :: x in es[i].ids <==> x in ids || x == es[i].ids[j];
    }
  }

  lemma HoldsOk(es: seq<Entry>, key: IndexKey, id: NovaId)
    requires EntriesOk(es, None, None)
    ensures Holds(es, key, id) <==> HasPair(es, key, id)
  {
    match SearchEntries(es, key, 0, |es|)
    case Absent(_) =>
    case Found(i) => EntryPairs(es, i);
  }

  lemma RemovePairOk(es: seq<Entry>, key: IndexKey, id: NovaId, lo: Option<IndexKey>, hi: Option<IndexKey>)
    requires EntriesOk(es, lo, hi)
    ensures EntriesOk(RemovePair(es, key, id), lo, hi)
    ensures |RemovePair(es, key, id)| <= |es|
    ensures DropsPair(es, RemovePair(es, key, id), key, id)
  {
    match SearchEntries(es, key, 0, |es|) {
      case Absent(i) =>
        assert forall m :: 0 <= m < |es| ==> es[m].key != key;
      case Found(i) =>
        EntryPairs(es, i);
        match SearchIds(es[i].ids, id, 0, |es[i].ids|) {
          case Absent(_) =>
          case Found(j) =>
            DropIdOk(es, i, j, lo, hi);
        }
    }
  }

  lemma RemoveEntryOk(es: seq<Entry>, i: nat, lo: Option<IndexKey>, hi: Option<IndexKey>)
    requires i < |es| && EntriesOk(es, lo, hi)
    ensures EntriesOk(RemoveAt(es, i), lo, hi)
    ensures forall k, x :: HasPair(RemoveAt(es, i), k, x) <==> HasPair(es, k, x) && k != es[i].key
  {
    var out := RemoveAt(es, i);
    assert forall m :: 0 <= m < i ==> out[m] == es[m];
    assert forall m :: i <= m < |out| ==> out[m] == es[m + 1];
    forall k, x | HasPair(es, k, x) && k != es[i].key
      ensures HasPair(out, k, x)
    {
      var m :| 0 <= m < |es| && es[m].key == k && x in es[m].ids;
      assert out[if m < i then m else m - 1] == es[m];
    }
  }

  /** What `get` reads from a leaf: the ids of exactly this key. */
  function IdsFor(es: seq<Entry>, key: IndexKey): (ids: seq<NovaId>)
    ensures forall x :: x in ids ==> HasPair(es, key, x)
  {
    match SearchEntries(es, key, 0, |es|)
    case Found(i) => es[i].ids
    case Absent(_) => []
  }

  lemma IdsForComplete(es: seq<Entry>, key: IndexKey, lo: Option<IndexKey>, hi: Option<IndexKey>)
    requires EntriesOk(es, lo, hi)
    ensures SortedIds(IdsFor(es, key))
    ensures forall x :: x in IdsFor(es, key) <==> HasPair(es, key, x)
  {
    match SearchEntries(es, key, 0, |es|) {
      case Found(i) =>
        EntryPairs(es, i);
      case Absent(_) =>
    }
  }
}
