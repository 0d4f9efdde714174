/** The B+ tree as a value: the shape hidden in the arena, with each node's arena slot. */
module TreeModel {
  import opened Base
  import opened IndexKeys
  import opened Leaves

  datatype Tree =
    | Leaf(id: nat, entries: seq<Entry>)
    | Inner(id: nat, keys: seq<IndexKey>, kids: seq<Tree>)

  /** Outcome of an insertion below a node: the rewritten node, and its new right sibling if it split. */
  datatype Insertion = Insertion(tree: Tree, split: Option<Split>, size: nat)
  datatype Split = Split(separator: IndexKey, right: Tree)

  ghost predicate Has(t: Tree, key: IndexKey, id: NovaId)
    decreases t, 1
  {
    match t
    case Leaf(_, es) => HasPair(es, key, id)
    case Inner(_, _, kids) => AnyHas(kids, key, id)
  }

  ghost predicate AnyHas(kids: seq<Tree>, key: IndexKey, id: NovaId)
    decreases kids, 0
  {
    exists i :: 0 <= i < |kids| && Has(kids[i], key, id)
  }

  /** Every inner node has one more child than keys. */
  ghost predicate Shaped(t: Tree) {
    t.Inner? ==> |t.kids| == |t.keys| + 1 && forall i :: 0 <= i < |t.kids| ==> Shaped(t.kids[i])
  }

  function LowerOf(keys: seq<IndexKey>, i: nat, lo: Option<IndexKey>): Option<IndexKey>
    requires i <= |keys|
  {
    if i == 0 then lo else Some(keys[i - 1])
  }

  function UpperOf(keys: seq<IndexKey>, i: nat, hi: Option<IndexKey>): Option<IndexKey>
    requires i <= |keys|
  {
    if i == |keys| then hi else Some(keys[i])
  }

  ghost predicate StrictlyInside(k: IndexKey, lo: Option<IndexKey>, hi: Option<IndexKey>) {
    (lo.Some? ==> Rank(lo.value) < Rank(k)) && (hi.Some? ==> Rank(k) < Rank(hi.value))
  }

  ghost predicate KeysOk(keys: seq<IndexKey>, lo: Option<IndexKey>, hi: Option<IndexKey>) {
    SortedKeys(keys) && forall i :: 0 <= i < |keys| ==> StrictlyInside(keys[i], lo, hi)
  }

  /**
   * The order invariant of a subtree: leaves `height` levels down hold sorted pairs within the
   * bounds inherited from the separators, which lie strictly inside those bounds.
   */
  ghost predicate Ordered(t: Tree, lo: Option<IndexKey>, hi: Option<IndexKey>, max: nat, height: nat)
    decreases t, 1
  {
    match t
    case Leaf(_, es) => height == 0 && |es| <= max && EntriesOk(es, lo, hi)
    case Inner(_, keys, kids) =>
      height > 0 && 1 <= |keys| <= max && KidsOrdered(keys, kids, lo, hi, max, height - 1)
  }

  ghost predicate KidsOrdered(keys: seq<IndexKey>, kids: seq<Tree>, lo: Option<IndexKey>, hi: Option<IndexKey>, max: nat, height: nat)
    decreases kids, 0
  {
    && |kids| == |keys| + 1 && KeysOk(keys, lo, hi)
    && forall i :: 0 <= i < |kids| ==> Ordered(kids[i], LowerOf(keys, i, lo), UpperOf(keys, i, hi), max, height)
  }

  /** Every inner node below the root keeps at least half its children; the root keeps two. */
  ghost predicate Filled(t: Tree, max: nat, least: nat)
    decreases t
  {
    t.Inner? ==> |t.kids| >= least && forall i :: 0 <= i < |t.kids| ==> Filled(t.kids[i], max, (max + 1) / 2)
  }

  predicate ValidMaxKeys(max: nat) {
    3 <= max <= 0xffff_ffff && max % 2 == 1
  }

  // ---------- insertion ----------

  /** Keys and children after child `c` was replaced by the outcome of inserting below it. */
  function KeysAfter(keys: seq<IndexKey>, c: nat, r: Insertion): seq<IndexKey>
    requires c <= |keys|
  {
    if r.split.None? then keys else InsertAt(keys, c, r.split.value.separator)
  }

  function KidsAfter(kids: seq<Tree>, c: nat, r: Insertion): seq<Tree>
    requires c < |kids|
  {
    if r.split.None? then kids[c := r.tree] else InsertAt(kids[c := r.tree], c + 1, r.split.value.right)
  }

  /** Rewriting an inner node, split around its middle key when it overflows. */
  function Finish(slot: nat, keys: seq<IndexKey>, kids: seq<Tree>, size: nat, max: nat): Insertion
    requires |kids| == |keys| + 1
  {
    if |keys| <= max then Insertion(Inner(slot, keys, kids), None, size)
    else
      var middle := |keys| / 2;
      Insertion(Inner(slot, keys[..middle], kids[..middle + 1]),
                Some(Split(keys[middle], Inner(size, keys[middle + 1..], kids[middle + 1..]))),
                size + 1)
  }

  /** Inserting a pair below `t` in an arena of `size` nodes; new nodes take the next free slots. */
  function Insert(t: Tree, key: IndexKey, id: NovaId, size: nat, max: nat): (r: Insertion)
    requires Shaped(t)
    decreases t
  {
    match t
    case Leaf(slot, es) =>
      var out := InsertPair(es, key, id);
      if Holds(es, key, id) || |out| <= max then Insertion(Leaf(slot, out), None, size)
      else
        var half := |out| / 2;
        Insertion(Leaf(slot, out[..half]), Some(Split(out[half].key, Leaf(size, out[half..]))), size + 1)
    case Inner(slot, keys, kids) =>
      var c := ChildIndex(keys, key);
      var r := Insert(kids[c], key, id, size, max);
      Finish(slot, KeysAfter(keys, c, r), KidsAfter(kids, c, r), r.size, max)
  }

  lemma OrderedIsShaped(t: Tree, lo: Option<IndexKey>, hi: Option<IndexKey>, max: nat, height: nat)
    requires Ordered(t, lo, hi, max, height)
    ensures Shaped(t)
    decreases t
  {
    if t.Inner? {
      forall i | 0 <= i < |t.kids|
        ensures Shaped(t.kids[i])
      {
        OrderedIsShaped(t.kids[i], LowerOf(t.keys, i, lo), UpperOf(t.keys, i, hi), max, height - 1);
      }
    }
  }

  /** The right outcome of inserting a pair into a subtree with bounds `lo` and `hi`. */
  ghost predicate InsertedBelow(r: Insertion, lo: Option<IndexKey>, hi: Option<IndexKey>, max: nat, height: nat) {
    if r.split.None? then Ordered(r.tree, lo, hi, max, height)
    else
      && StrictlyInside(r.split.value.separator, lo, hi)
      && Ordered(r.tree, lo, Some(r.split.value.separator), max, height)
      && Ordered(r.split.value.right, Some(r.split.value.separator), hi, max, height)
  }

  lemma SplitLeafOrdered(es: seq<Entry>, half: nat, lo: Option<IndexKey>, hi: Option<IndexKey>)
    requires EntriesOk(es, lo, hi) && 0 < half < |es|
    ensures StrictlyInside(es[half].key, lo, hi)
    ensures EntriesOk(es[..half], lo, Some(es[half].key))
    ensures EntriesOk(es[half..], Some(es[half].key), hi)
  {
    assert InBounds(es[0].key, lo, hi);
  }

  lemma InsertKeyOk(keys: seq<IndexKey>, c: nat, sep: IndexKey, lo: Option<IndexKey>, hi: Option<IndexKey>)
    requires KeysOk(keys, lo, hi) && c <= |keys|
    requires StrictlyInside(sep, LowerOf(keys, c, lo), UpperOf(keys, c, hi))
    ensures KeysOk(InsertAt(keys, c, sep), lo, hi)
  {
    var out := InsertAt(keys, c, sep);
    forall a, b | 0 <= a < b < |out|
      ensures Rank(out[a]) < Rank(out[b])
    {
      assert a < c ==> Rank(keys[a]) <= Rank(keys[c - 1]);
      assert c < b ==> Rank(keys[c]) <= Rank(keys[b - 1]);
    }
    assert c > 0 ==> StrictlyInside(keys[c - 1], lo, hi);
    assert c < |keys| ==> StrictlyInside(keys[c], lo, hi);
  }

  /** Child `i` around a new separator has the bounds of its old position, cut at the separator. */
  lemma ShiftedBounds(keys: seq<IndexKey>, c: nat, sep: IndexKey, i: nat, lo: Option<IndexKey>, hi: Option<IndexKey>)
    requires c <= |keys| && i <= |keys| + 1
    ensures LowerOf(InsertAt(keys, c, sep), i, lo) ==
            if i <= c then LowerOf(keys, i, lo) else if i == c + 1 then Some(sep) else LowerOf(keys, i - 1, lo)
    ensures UpperOf(InsertAt(keys, c, sep), i, hi) ==
            if i < c then UpperOf(keys, i, hi) else if i == c then Some(sep) else UpperOf(keys, i - 1, hi)
  {
  }

  lemma ShiftedKids(kids: seq<Tree>, c: nat, left: Tree, right: Tree, i: nat)
    requires c < |kids| && i <= |kids|
    ensures InsertAt(kids[c := left], c + 1, right)[i] ==
            if i < c then kids[i] else if i == c then left else if i == c + 1 then right else kids[i - 1]
  {
  }

  lemma InsertKidOrdered(keys: seq<IndexKey>, kids: seq<Tree>, c: nat, sep: IndexKey, left: Tree, right: Tree,
                         lo: Option<IndexKey>, hi: Option<IndexKey>, max: nat, height: nat)
    requires KidsOrdered(keys, kids, lo, hi, max, height) && c < |kids|
    requires StrictlyInside(sep, LowerOf(keys, c, lo), UpperOf(keys, c, hi))
    requires Ordered(left, LowerOf(keys, c, lo), Some(sep), max, height)
    requires Ordered(right, Some(sep), UpperOf(keys, c, hi), max, height)
    ensures KidsOrdered(InsertAt(keys, c, sep), InsertAt(kids[c := left], c + 1, right), lo, hi, max, height)
  {
    var keys', kids' := InsertAt(keys, c, sep), InsertAt(kids[c := left], c + 1, right);
    InsertKeyOk(keys, c, sep, lo, hi);
    forall i | 0 <= i < |kids'|
      ensures Ordered(kids'[i], LowerOf(keys', i, lo), UpperOf(keys', i, hi), max, height)
    {
      ShiftedBounds(keys, c, sep, i, lo, hi);
      ShiftedKids(kids, c, left, right, i);
      if i < c {
        assert Ordered(kids[i], LowerOf(keys, i, lo), UpperOf(keys, i, hi), max, height);
      } else if i > c + 1 {
        assert Ordered(kids[i - 1], LowerOf(keys, i - 1, lo), UpperOf(keys, i - 1, hi), max, height);
      }
    }
  }

  /** Replacing child `c` by the outcome of an insertion below it. */
  lemma ReplaceKidOrdered(keys: seq<IndexKey>, kids: seq<Tree>, c: nat, r: Insertion,
                          lo: Option<IndexKey>, hi: Option<IndexKey>, max: nat, height: nat)
    requires KidsOrdered(keys, kids, lo, hi, max, height) && c < |kids|
    requires InsertedBelow(r, LowerOf(keys, c, lo), UpperOf(keys, c, hi), max, height)
    ensures KidsOrdered(KeysAfter(keys, c, r), KidsAfter(kids, c, r), lo, hi, max, height)
  {
    if r.split.Some? {
      InsertKidOrdered(keys, kids, c, r.split.value.separator, r.tree, r.split.value.right, lo, hi, max, height);
    }
  }

  /** Both halves of an overflowing inner node are ordered around the middle key. */
  lemma SplitInnerOrdered(keys: seq<IndexKey>, kids: seq<Tree>, m: nat,
                          lo: Option<IndexKey>, hi: Option<IndexKey>, max: nat, height: nat)
    requires KidsOrdered(keys, kids, lo, hi, max, height) && m < |keys|
    ensures KidsOrdered(keys[..m], kids[..m + 1], lo, Some(keys[m]), max, height)
    ensures KidsOrdered(keys[m + 1..], kids[m + 1..], Some(keys[m]), hi, max, height)
  {
    var right, rest := keys[m + 1..], kids[m + 1..];
    forall i | 0 <= i < |rest|
      ensures Ordered(rest[i], LowerOf(right, i, Some(keys[m])), UpperOf(right, i, hi), max, height)
    {
      assert rest[i] == kids[m + 1 + i];
    }
  }

  lemma FinishOrdered(slot: nat, keys: seq<IndexKey>, kids: seq<Tree>, size: nat,
                      lo: Option<IndexKey>, hi: Option<IndexKey>, max: nat, height: nat)
    requires ValidMaxKeys(max) && height > 0
    requires KidsOrdered(keys, kids, lo, hi, max, height - 1) && 1 <= |keys| <= max + 1
    ensures InsertedBelow(Finish(slot, keys, kids, size, max), lo, hi, max, height)
  {
    if |keys| > max {
      SplitInnerOrdered(keys, kids, |keys| / 2, lo, hi, max, height - 1);
    }
  }

  /** Routing keeps a key within the bounds of the child it selects. */
  lemma ChildBounds(keys: seq<IndexKey>, key: IndexKey, lo: Option<IndexKey>, hi: Option<IndexKey>)
    requires KeysOk(keys, lo, hi) && InBounds(key, lo, hi)
    ensures InBounds(key, LowerOf(keys, ChildIndex(keys, key), lo), UpperOf(keys, ChildIndex(keys, key), hi))
  {
  }

  lemma BoundsNest(keys: seq<IndexKey>, i: nat, key: IndexKey, lo: Option<IndexKey>, hi: Option<IndexKey>)
    requires KeysOk(keys, lo, hi) && i <= |keys| && InBounds(key, LowerOf(keys, i, lo), UpperOf(keys, i, hi))
    ensures InBounds(key, lo, hi)
  {
    assert i > 0 ==> StrictlyInside(keys[i - 1], lo, hi);
    assert i < |keys| ==> StrictlyInside(keys[i], lo, hi);
  }

  lemma InsertLeafOrdered(t: Tree, key: IndexKey, id: NovaId, size: nat, lo: Option<IndexKey>, hi: Option<IndexKey>, max: nat)
    requires t.Leaf? && ValidMaxKeys(max) && Ordered(t, lo, hi, max, 0) && InBounds(key, lo, hi)
    ensures InsertedBelow(Insert(t, key, id, size, max), lo, hi, max, 0)
  {
    InsertPairOk(t.entries, key, id, lo, hi);
    var out := InsertPair(t.entries, key, id);
    assert Holds(t.entries, key, id) ==> out == t.entries;
    if |out| > max {
      SplitLeafOrdered(out, |out| / 2, lo, hi);
    }
  }

  /** Inserting keeps the order invariant, on both sides of a split. */
  lemma {:induction false} InsertOrdered(t: Tree, key: IndexKey, id: NovaId, size: nat,
                      lo: Option<IndexKey>, hi: Option<IndexKey>, max: nat, height: nat)
    requires ValidMaxKeys(max) && Shaped(t) && Ordered(t, lo, hi, max, height) && InBounds(key, lo, hi)
    ensures InsertedBelow(Insert(t, key, id, size, max), lo, hi, max, height)
    decreases t
  {
    match t
    case Leaf(_, _) =>
      InsertLeafOrdered(t, key, id, size, lo, hi, max);
    case Inner(slot, keys, kids) =>
      var c := ChildIndex(keys, key);
      ChildBounds(keys, key, lo, hi);
      InsertOrdered(kids[c], key, id, size, LowerOf(keys, c, lo), UpperOf(keys, c, hi), max, height - 1);
      var r := Insert(kids[c], key, id, size, max);
      ReplaceKidOrdered(keys, kids, c, r, lo, hi, max, height - 1);
      FinishOrdered(slot, KeysAfter(keys, c, r), KidsAfter(kids, c, r), r.size, lo, hi, max, height);
  }

  // ---------- which pairs an insertion leaves ----------

  ghost predicate HasAfter(r: Insertion, key: IndexKey, id: NovaId) {
    Has(r.tree, key, id) || (r.split.Some? && Has(r.split.value.right, key, id))
  }

  lemma AnyHasConcat(a: seq<Tree>, b: seq<Tree>, key: IndexKey, id: NovaId)
    ensures AnyHas(a + b, key, id) <==> AnyHas(a, key, id) || AnyHas(b, key, id)
  {
    if AnyHas(a, key, id) {
      var i :| 0 <= i < |a| && Has(a[i], key, id);
      assert (a + b)[i] == a[i];
    }
    if AnyHas(b, key, id) {
      var i :| 0 <= i < |b| && Has(b[i], key, id);
      assert (a + b)[|a| + i] == b[i];
    }
  }

  lemma SplitPairs(es: seq<Entry>, half: nat, key: IndexKey, id: NovaId)
    requires half <= |es|
    ensures HasPair(es, key, id) <==> HasPair(es[..half], key, id) || HasPair(es[half..], key, id)
  {
    if HasPair(es, key, id) {
      var i :| 0 <= i < |es| && es[i].key == key && id in es[i].ids;
      assert if i < half then es[..half][i] == es[i] else es[half..][i - half] == es[i];
    }
  }

  lemma KidsAfterHas(kids: seq<Tree>, c: nat, r: Insertion, key: IndexKey, id: NovaId)
    requires c < |kids|
    ensures AnyHas(KidsAfter(kids, c, r), key, id) <==>
            AnyHas(kids[..c], key, id) || HasAfter(r, key, id) || AnyHas(kids[c + 1..], key, id)
  {
    var middle := if r.split.None? then [r.tree] else [r.tree, r.split.value.right];
    assert KidsAfter(kids, c, r) == kids[..c] + middle + kids[c + 1..];
    AnyHasConcat(kids[..c] + middle, kids[c + 1..], key, id);
    AnyHasConcat(kids[..c], middle, key, id);
    assert Has(r.tree, key, id) ==> Has(middle[0], key, id);
    assert r.split.Some? && Has(r.split.value.right, key, id) ==> Has(middle[1], key, id);
  }

  lemma FinishHas(slot: nat, keys: seq<IndexKey>, kids: seq<Tree>, size: nat, max: nat, key: IndexKey, id: NovaId)
    requires |kids| == |keys| + 1
    ensures HasAfter(Finish(slot, keys, kids, size, max), key, id) <==> AnyHas(kids, key, id)
  {
    if |keys| > max {
      var m := |keys| / 2 + 1;
      assert kids == kids[..m] + kids[m..];
      AnyHasConcat(kids[..m], kids[m..], key, id);
    }
  }

  /** Inserting adds exactly one pair, whatever splits happen. */
  lemma {:induction false} InsertHas(t: Tree, key: IndexKey, id: NovaId, size: nat,
                  lo: Option<IndexKey>, hi: Option<IndexKey>, max: nat, height: nat, k: IndexKey, x: NovaId)
    requires ValidMaxKeys(max) && Shaped(t) && Ordered(t, lo, hi, max, height) && InBounds(key, lo, hi)
    ensures HasAfter(Insert(t, key, id, size, max), k, x) <==> Has(t, k, x) || (k == key && x == id)
    decreases t
  {
    match t
    case Leaf(_, es) =>
      InsertPairOk(es, key, id, lo, hi);
      var out := InsertPair(es, key, id);
      SplitPairs(out, |out| / 2, k, x);
    case Inner(slot, keys, kids) =>
      var c := ChildIndex(keys, key);
      ChildBounds(keys, key, lo, hi);
      InsertHas(kids[c], key, id, size, LowerOf(keys, c, lo), UpperOf(keys, c, hi), max, height - 1, k, x);
      var r := Insert(kids[c], key, id, size, max);
      KidsAfterHas(kids, c, r, k, x);
      FinishHas(slot, KeysAfter(keys, c, r), KidsAfter(kids, c, r), r.size, max, k, x);
      var same := Insertion(kids[c], None, size);
      KidsAfterHas(kids, c, same, k, x);
      assert kids[c := kids[c]] == kids;
  }

  // ---------- fill ----------

  ghost predicate FilledAfter(r: Insertion, max: nat, least: nat) {
    if r.split.None? then Filled(r.tree, max, least)
    else Filled(r.tree, max, (max + 1) / 2) && Filled(r.split.value.right, max, (max + 1) / 2)
  }

  lemma KidsAfterFilled(kids: seq<Tree>, c: nat, r: Insertion, max: nat)
    requires c < |kids| && FilledAfter(r, max, (max + 1) / 2)
    requires forall i :: 0 <= i < |kids| ==> Filled(kids[i], max, (max + 1) / 2)
    ensures forall i :: 0 <= i < |KidsAfter(kids, c, r)| ==> Filled(KidsAfter(kids, c, r)[i], max, (max + 1) / 2)
  {
    var out := KidsAfter(kids, c, r);
    forall i | 0 <= i < |out|
      ensures Filled(out[i], max, (max + 1) / 2)
    {
      assert i < c ==> out[i] == kids[i];
      assert r.split.Some? && i > c + 1 ==> out[i] == kids[i - 1];
    }
  }

  /** A split leaves both halves at least half full. */
  lemma {:induction false} InsertFilled(t: Tree, key: IndexKey, id: NovaId, size: nat, max: nat, least: nat)
    requires ValidMaxKeys(max) && Shaped(t) && Filled(t, max, least)
    ensures FilledAfter(Insert(t, key, id, size, max), max, least)
    decreases t
  {
    if t.Inner? {
      var c := ChildIndex(t.keys, key);
      InsertFilled(t.kids[c], key, id, size, max, (max + 1) / 2);
      var r := Insert(t.kids[c], key, id, size, max);
      KidsAfterFilled(t.kids, c, r, max);
    }
  }

  // ---------- routing and removal ----------

  /** The leaf that `find_leaf` reaches. */
  function Route(t: Tree, key: IndexKey): (leaf: Tree)
    requires Shaped(t)
    ensures leaf.Leaf?
    decreases t
  {
    match t
    case Leaf(_, _) => t
    case Inner(_, keys, kids) => Route(kids[ChildIndex(keys, key)], key)
  }

  /** Removing a pair edits one leaf and never restructures. */
  function Remove(t: Tree, key: IndexKey, id: NovaId): Tree
    requires Shaped(t)
    decreases t
  {
    match t
    case Leaf(slot, es) => Leaf(slot, RemovePair(es, key, id))
    case Inner(slot, keys, kids) =>
      var c := ChildIndex(keys, key);
      Inner(slot, keys, kids[c := Remove(kids[c], key, id)])
  }

  ghost predicate OtherHas(kids: seq<Tree>, c: nat, key: IndexKey, id: NovaId) {
    exists i :: 0 <= i < |kids| && i != c && Has(kids[i], key, id)
  }

  lemma ReplaceKidHas(kids: seq<Tree>, c: nat, kid: Tree, key: IndexKey, id: NovaId)
    requires c < |kids|
    ensures AnyHas(kids[c := kid], key, id) <==> Has(kid, key, id) || OtherHas(kids, c, key, id)
    ensures AnyHas(kids, key, id) <==> Has(kids[c], key, id) || OtherHas(kids, c, key, id)
  {
    var out := kids[c := kid];
    assert Has(kid, key, id) ==> Has(out[c], key, id);
    if OtherHas(kids, c, key, id) {
      var i :| 0 <= i < |kids| && i != c && Has(kids[i], key, id);
      assert Has(out[i], key, id);
    }
  }

  lemma HasInBounds(t: Tree, lo: Option<IndexKey>, hi: Option<IndexKey>, max: nat, height: nat, key: IndexKey, id: NovaId)
    requires Ordered(t, lo, hi, max, height) && Has(t, key, id)
    ensures InBounds(key, lo, hi)
    decreases t
  {
    if t.Inner? {
      var i :| 0 <= i < |t.kids| && Has(t.kids[i], key, id);
      HasInBounds(t.kids[i], LowerOf(t.keys, i, lo), UpperOf(t.keys, i, hi), max, height - 1, key, id);
      BoundsNest(t.keys, i, key, lo, hi);
    }
  }

  /** Only the child that `ChildIndex` selects can hold a key. */
  lemma OnlyChildHas(t: Tree, lo: Option<IndexKey>, hi: Option<IndexKey>, max: nat, height: nat,
                     key: IndexKey, id: NovaId, i: nat)
    requires t.Inner? && Ordered(t, lo, hi, max, height) && i < |t.kids| && Has(t.kids[i], key, id)
    ensures i == ChildIndex(t.keys, key)
  {
    HasInBounds(t.kids[i], LowerOf(t.keys, i, lo), UpperOf(t.keys, i, hi), max, height - 1, key, id);
  }

  lemma {:induction false} RouteHas(t: Tree, lo: Option<IndexKey>, hi: Option<IndexKey>, max: nat, height: nat, key: IndexKey)
    requires Shaped(t) && Ordered(t, lo, hi, max, height)
    ensures EntriesOk(Route(t, key).entries, None, None)
    ensures forall id :: HasPair(Route(t, key).entries, key, id) <==> Has(t, key, id)
    decreases t
  {
    if t.Inner? {
      var c := ChildIndex(t.keys, key);
      RouteHas(t.kids[c], LowerOf(t.keys, c, lo), UpperOf(t.keys, c, hi), max, height - 1, key);
      forall id | Has(t, key, id)
        ensures Has(t.kids[c], key, id)
      {
        assert AnyHas(t.kids, key, id);
        var i :| 0 <= i < |t.kids| && Has(t.kids[i], key, id);
        OnlyChildHas(t, lo, hi, max, height, key, id, i);
      }
    }
  }

  lemma {:induction false} RemoveOrdered(t: Tree, key: IndexKey, id: NovaId,
                                         lo: Option<IndexKey>, hi: Option<IndexKey>, max: nat, height: nat)
    requires Shaped(t) && Ordered(t, lo, hi, max, height)
    ensures Ordered(Remove(t, key, id), lo, hi, max, height)
    decreases t
  {
    match t
    case Leaf(_, es) => RemovePairOk(es, key, id, lo, hi);
    case Inner(_, keys, kids) =>
      var c := ChildIndex(keys, key);
      RemoveOrdered(kids[c], key, id, LowerOf(keys, c, lo), UpperOf(keys, c, hi), max, height - 1);
  }

  /** Removing deletes exactly one pair. */
  lemma {:induction false} RemoveHas(t: Tree, key: IndexKey, id: NovaId,
                                     lo: Option<IndexKey>, hi: Option<IndexKey>, max: nat, height: nat, k: IndexKey, x: NovaId)
    requires Shaped(t) && Ordered(t, lo, hi, max, height)
    ensures Has(Remove(t, key, id), k, x) <==> Has(t, k, x) && !(k == key && x == id)
    decreases t
  {
    match t
    case Leaf(_, es) => RemovePairOk(es, key, id, lo, hi);
    case Inner(_, keys, kids) =>
      var c := ChildIndex(keys, key);
      RemoveHas(kids[c], key, id, LowerOf(keys, c, lo), UpperOf(keys, c, hi), max, height - 1, k, x);
      if k == key && OtherHas(kids, c, k, x) {
        var i :| 0 <= i < |kids| && i != c && Has(kids[i], k, x);
        OnlyChildHas(t, lo, hi, max, height, k, x, i);
      }
      ReplaceKidHas(kids, c, Remove(kids[c], key, id), k, x);
  }

  lemma RemoveFilled(t: Tree, key: IndexKey, id: NovaId, max: nat, least: nat)
    requires Shaped(t) && Filled(t, max, least)
    ensures Filled(Remove(t, key, id), max, least)
    decreases t
  {
    if t.Inner? {
      RemoveFilled(t.kids[ChildIndex(t.keys, key)], key, id, max, (max + 1) / 2);
    }
  }
}
