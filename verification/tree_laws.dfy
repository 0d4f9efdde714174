/** Consequences of the tree invariant: acceptance by the check, fan-out, and what the check misses. */
module TreeLaws {
  import opened Base
  import opened IndexKeys
  import opened Leaves
  import opened TreeModel
  import opened Arena
  import opened LeafChain
  import opened StoredTree
  import opened TreeVerify

  // ---------- every stored tree is accepted ----------

  lemma {:induction false} RepAgrees(nodes: seq<Node>, t: Tree, after: Option<nat>)
    requires Rep(nodes, t, after)
    ensures Agrees(nodes, t) && FirstLeaf(t) < |nodes|
    decreases t
  {
    if t.Inner? {
      forall i | 0 <= i < |t.kids|
        ensures Agrees(nodes, t.kids[i]) && FirstLeaf(t.kids[i]) < |nodes|
      {
        RepAgrees(nodes, t.kids[i], After(t.kids, i, after));
      }
    }
  }

  lemma {:induction false} RepNexts(nodes: seq<Node>, t: Tree, after: Option<nat>)
    requires Rep(nodes, t, after) && (after.Some? ==> after.value < |nodes|)
    ensures NextsInRange(nodes, t)
    decreases t
  {
    if t.Inner? {
      forall i | 0 <= i < |t.kids|
        ensures NextsInRange(nodes, t.kids[i])
      {
        if i + 1 < |t.kids| {
          RepAgrees(nodes, t.kids[i + 1], After(t.kids, i + 1, after));
        }
        RepNexts(nodes, t.kids[i], After(t.kids, i, after));
      }
      InnerNexts(nodes, t);
    }
  }

  lemma {:induction false} OrderedChecked(t: Tree, lo: Option<IndexKey>, hi: Option<IndexKey>, max: nat, height: nat)
    requires Ordered(t, lo, hi, max, height)
    ensures Checked(t, lo, hi, max, height)
    decreases t
  {
    if t.Inner? {
      forall i | 0 <= i < |t.kids|
        ensures Checked(t.kids[i], LowerOf(t.keys, i, lo), UpperOf(t.keys, i, hi), max, height - 1)
      {
        OrderedChecked(t.kids[i], LowerOf(t.keys, i, lo), UpperOf(t.keys, i, hi), max, height - 1);
      }
    }
  }

  lemma {:induction false} ChainLinks(nodes: seq<Node>, from: Option<nat>, leaves: seq<Tree>, i: nat)
    requires Chain(nodes, from, leaves) && i < |leaves|
    ensures leaves[i].Leaf? && leaves[i].id < |nodes|
    ensures nodes[leaves[i].id] == LeafNode(leaves[i].entries, if i + 1 < |leaves| then Some(leaves[i + 1].id) else None)
    ensures from == Some(leaves[0].id)
    decreases i
  {
    if i > 0 {
      ChainLinks(nodes, nodes[leaves[0].id].next, leaves[1..], i - 1);
    }
  }

  lemma {:induction false} EntriesAtLeaves(nodes: seq<Node>, leaves: seq<Tree>)
    requires forall i :: 0 <= i < |leaves| ==>
                           leaves[i].Leaf? && leaves[i].id < |nodes| && nodes[leaves[i].id].LeafNode?
                           && nodes[leaves[i].id].entries == leaves[i].entries
    ensures forall i :: 0 <= i < |leaves| ==> Slots(leaves)[i] < |nodes| && nodes[Slots(leaves)[i]].LeafNode?
    ensures EntriesAt(nodes, Slots(leaves)) == EntriesOf(leaves)
  {
    if leaves != [] {
      var front, last := leaves[..|leaves| - 1], leaves[|leaves| - 1];
      EntriesAtLeaves(nodes, front);
      assert Slots(leaves)[..|leaves| - 1] == Slots(front);
      assert leaves == front + [last];
      EntriesConcat(front, [last]);
      assert EntriesOf([last]) == last.entries + EntriesOf([last][1..]) == last.entries;
    }
  }

  /** The leaves use exactly the slots that hold leaf nodes. */
  lemma {:induction false} LeafUses(nodes: seq<Node>, t: Tree, x: nat)
    requires Agrees(nodes, t)
    ensures UsesOf(LeavesOf(t), x) == if x < |nodes| && nodes[x].LeafNode? then Uses(t, x) else 0
    decreases t, 1
  {
    match t
    case Leaf(_, _) =>
      assert UsesOf([t], x) == Uses(t, x) + UsesOf([t][1..], x);
    case Inner(_, _, kids) =>
      LeafUsesAll(nodes, kids, x);
  }

  lemma {:induction false} LeafUsesAll(nodes: seq<Node>, kids: seq<Tree>, x: nat)
    requires AgreesAll(nodes, kids)
    ensures UsesOf(LeavesOfAll(kids), x) == if x < |nodes| && nodes[x].LeafNode? then UsesOf(kids, x) else 0
    decreases kids, 0
  {
    if kids != [] {
      LeafUses(nodes, kids[0], x);
      LeafUsesAll(nodes, kids[1..], x);
      UsesConcat(LeavesOf(kids[0]), LeavesOfAll(kids[1..]), x);
    }
  }

  ghost function SumUses(leaves: seq<Tree>, n: nat): nat {
    if n == 0 then 0 else SumUses(leaves, n - 1) + UsesOf(leaves, n - 1)
  }

  lemma {:induction false} SumOne(leaf: Tree, rest: seq<Tree>, n: nat)
    requires leaf.Leaf?
    ensures SumUses([leaf] + rest, n) == SumUses(rest, n) + if leaf.id < n then 1 else 0
    decreases n
  {
    if n > 0 {
      SumOne(leaf, rest, n - 1);
      var all := [leaf] + rest;
      assert all[0] == leaf && all[1..] == rest;
      assert UsesOf(all, n - 1) == Uses(leaf, n - 1) + UsesOf(rest, n - 1);
    }
  }

  lemma {:induction false} SumAll(leaves: seq<Tree>, n: nat)
    requires forall i :: 0 <= i < |leaves| ==> leaves[i].Leaf? && leaves[i].id < n
    ensures SumUses(leaves, n) == |leaves|
  {
    if leaves == [] {
      SumNone(n);
    } else {
      SumAll(leaves[1..], n);
      assert leaves == [leaves[0]] + leaves[1..];
      SumOne(leaves[0], leaves[1..], n);
    }
  }

  lemma {:induction false} SumNone(n: nat)
    ensures SumUses([], n) == 0
    decreases n
  {
    if n > 0 {
      SumNone(n - 1);
    }
  }

  lemma {:induction false} CountByUses(nodes: seq<Node>, leaves: seq<Tree>, n: nat)
    requires n <= |nodes|
    requires forall x: nat :: x < |nodes| ==> UsesOf(leaves, x) == if nodes[x].LeafNode? then 1 else 0
    ensures LeafCount(nodes[..n]) == SumUses(leaves, n)
    decreases n
  {
    if n > 0 {
      CountByUses(nodes, leaves, n - 1);
      assert nodes[..n][..n - 1] == nodes[..n - 1];
    }
  }

  lemma DistinctLeaves(leaves: seq<Tree>, i: nat, j: nat)
    requires i < j < |leaves| && leaves[i].Leaf? && leaves[j].Leaf? && UsesOf(leaves, leaves[i].id) <= 1
    ensures leaves[i].id != leaves[j].id
  {
    var x := leaves[i].id;
    UsesSplit(leaves, i, x);
    KidUses(leaves[i + 1..], j - i - 1, x);
  }

  /** `leaves[i]` is stored, and linked to its successor. */
  ghost predicate LeafLinked(nodes: seq<Node>, leaves: seq<Tree>, i: nat)
    requires i < |leaves|
  {
    && leaves[i].Leaf? && leaves[i].id < |nodes|
    && nodes[leaves[i].id] == LeafNode(leaves[i].entries, if i + 1 < |leaves| then Some(leaves[i + 1].id) else None)
  }

  lemma StoredLeaves(nodes: seq<Node>, root: nat, max: nat, t: Tree, height: nat)
    requires Stored(nodes, root, max, t, height)
    ensures LeavesOf(t) != [] && LeavesOf(t)[0].id == FirstLeaf(t)
    ensures forall i :: 0 <= i < |LeavesOf(t)| ==> LeafLinked(nodes, LeavesOf(t), i)
  {
    var leaves := LeavesOf(t);
    ChainOf(nodes, t, None, []);
    assert leaves + [] == leaves;
    forall i | 0 <= i < |leaves|
      ensures LeafLinked(nodes, leaves, i)
    {
      ChainLinks(nodes, Some(FirstLeaf(t)), leaves, i);
    }
  }

  lemma StoredLeafUses(nodes: seq<Node>, root: nat, max: nat, t: Tree, height: nat, x: nat)
    requires Stored(nodes, root, max, t, height)
    ensures UsesOf(LeavesOf(t), x) == if x < |nodes| && nodes[x].LeafNode? then 1 else 0
  {
    RepAgrees(nodes, t, None);
    LeafUses(nodes, t, x);
    assert Uses(t, x) == Fresh(0, |nodes|, x);
  }

  lemma LeavesStored(nodes: seq<Node>, leaves: seq<Tree>)
    requires forall i :: 0 <= i < |leaves| ==> LeafLinked(nodes, leaves, i)
    ensures forall i :: 0 <= i < |leaves| ==> Slots(leaves)[i] < |nodes| && nodes[Slots(leaves)[i]].LeafNode?
    ensures EntriesAt(nodes, Slots(leaves)) == EntriesOf(leaves)
  {
    forall i | 0 <= i < |leaves|
      ensures leaves[i].Leaf? && leaves[i].id < |nodes| && nodes[leaves[i].id].LeafNode?
      ensures nodes[leaves[i].id].entries == leaves[i].entries
    {
      assert LeafLinked(nodes, leaves, i);
    }
    EntriesAtLeaves(nodes, leaves);
  }

  lemma LeafNext(nodes: seq<Node>, leaves: seq<Tree>, i: nat)
    requires i < |leaves| && LeafLinked(nodes, leaves, i)
    ensures Slots(leaves)[i] < |nodes| && nodes[Slots(leaves)[i]].LeafNode?
    ensures nodes[Slots(leaves)[i]].next == if i + 1 < |leaves| then Some(Slots(leaves)[i + 1]) else None
  {
  }

  lemma LeavesNext(nodes: seq<Node>, leaves: seq<Tree>)
    requires forall i :: 0 <= i < |leaves| ==> LeafLinked(nodes, leaves, i)
    ensures forall i :: 0 <= i < |leaves| ==> Slots(leaves)[i] < |nodes| && nodes[Slots(leaves)[i]].LeafNode?
    ensures forall i, j :: 0 <= i < |leaves| && j == i + 1 < |leaves| ==> nodes[Slots(leaves)[i]].next == Some(Slots(leaves)[j])
  {
    forall i | 0 <= i < |leaves|
      ensures Slots(leaves)[i] < |nodes| && nodes[Slots(leaves)[i]].LeafNode?
      ensures i + 1 < |leaves| ==> nodes[Slots(leaves)[i]].next == Some(Slots(leaves)[i + 1])
    {
      LeafNext(nodes, leaves, i);
    }
  }

  lemma LeavesWalk(nodes: seq<Node>, leaves: seq<Tree>)
    requires leaves != [] && SortedEntries(EntriesOf(leaves))
    requires forall i :: 0 <= i < |leaves| ==> LeafLinked(nodes, leaves, i)
    requires forall i, j :: 0 <= i < j < |leaves| ==> Slots(leaves)[i] != Slots(leaves)[j]
    ensures Walk(nodes, leaves[0].id, Slots(leaves))
  {
    LeavesStored(nodes, leaves);
    LeavesNext(nodes, leaves);
  }

  lemma LeavesCounted(nodes: seq<Node>, leaves: seq<Tree>)
    requires forall i :: 0 <= i < |leaves| ==> leaves[i].Leaf? && leaves[i].id < |nodes|
    requires forall x: nat :: UsesOf(leaves, x) == if x < |nodes| && nodes[x].LeafNode? then 1 else 0
    ensures |leaves| == LeafCount(nodes)
    ensures forall i, j :: 0 <= i < j < |leaves| ==> Slots(leaves)[i] != Slots(leaves)[j]
  {
    forall i, j | 0 <= i < j < |leaves|
      ensures Slots(leaves)[i] != Slots(leaves)[j]
    {
      DistinctLeaves(leaves, i, j);
    }
    CountByUses(nodes, leaves, |nodes|);
    SumAll(leaves, |nodes|);
    assert nodes[..|nodes|] == nodes;
  }

  /** The leaves of a stored tree are a chain that the check accepts. */
  lemma StoredLinked(nodes: seq<Node>, root: nat, max: nat, t: Tree, height: nat)
    requires Stored(nodes, root, max, t, height)
    ensures Linked(nodes, FirstLeaf(t), Slots(LeavesOf(t)))
  {
    StoredLeaves(nodes, root, max, t, height);
    FlatOk(t, None, None, max, height);
    forall x: nat
      ensures UsesOf(LeavesOf(t), x) == if x < |nodes| && nodes[x].LeafNode? then 1 else 0
    {
      StoredLeafUses(nodes, root, max, t, height, x);
    }
    forall i | 0 <= i < |LeavesOf(t)|
      ensures LeavesOf(t)[i].Leaf? && LeavesOf(t)[i].id < |nodes|
    {
      assert LeafLinked(nodes, LeavesOf(t), i);
    }
    LeavesCounted(nodes, LeavesOf(t));
    LeavesWalk(nodes, LeavesOf(t));
    LeafNext(nodes, LeavesOf(t), |LeavesOf(t)| - 1);
  }

  lemma StoredChecked(nodes: seq<Node>, root: nat, max: nat, t: Tree, height: nat)
    requires Stored(nodes, root, max, t, height)
    ensures CheckedTree(nodes, root, max, t, height) && Linked(nodes, FirstLeaf(t), Slots(LeavesOf(t)))
  {
    RepAgrees(nodes, t, None);
    RepNexts(nodes, t, None);
    OrderedChecked(t, None, None, max, height);
    StoredLinked(nodes, root, max, t, height);
  }

  /** The check accepts every stored tree. */
  lemma StoredAccepted(nodes: seq<Node>, root: nat, max: nat, t: Tree, height: nat)
    requires Stored(nodes, root, max, t, height)
    ensures Accepted(nodes, root, max)
  {
    StoredChecked(nodes, root, max, t, height);
  }

  // ---------- fan-out ----------

  function Pow(b: nat, e: nat): nat {
    if e == 0 then 1 else b * Pow(b, e - 1)
  }

  lemma {:induction false} KidsLeaves(kids: seq<Tree>, each: nat)
    requires forall i :: 0 <= i < |kids| ==> |LeavesOf(kids[i])| >= each
    ensures |LeavesOfAll(kids)| >= |kids| * each
  {
    if kids != [] {
      KidsLeaves(kids[1..], each);
      assert |kids| * each == |kids[1..]| * each + each;
    }
  }

  /** A node that keeps `least` children has at least `least * half^(height-1)` leaves. */
  lemma {:induction false} FanOut(t: Tree, lo: Option<IndexKey>, hi: Option<IndexKey>, max: nat, height: nat, least: nat)
    requires Ordered(t, lo, hi, max, height) && Filled(t, max, least)
    ensures height == 0 ==> |LeavesOf(t)| == 1
    ensures height > 0 ==> |LeavesOf(t)| >= least * Pow((max + 1) / 2, height - 1)
    decreases t
  {
    if t.Inner? {
      var half := (max + 1) / 2;
      forall i | 0 <= i < |t.kids|
        ensures |LeavesOf(t.kids[i])| >= Pow(half, height - 1)
      {
        FanOut(t.kids[i], LowerOf(t.keys, i, lo), UpperOf(t.keys, i, hi), max, height - 1, half);
      }
      KidsLeaves(t.kids, Pow(half, height - 1));
      Multiply(|t.kids|, least, Pow(half, height - 1));
    }
  }

  lemma Multiply(a: nat, b: nat, c: nat)
    requires a >= b
    ensures a * c >= b * c
  {
  }

  /** A stored tree of height `h >= 1` has at least `2 * ((max + 1) / 2)^(h - 1)` leaves. */
  lemma StoredFanOut(nodes: seq<Node>, root: nat, max: nat, t: Tree, height: nat)
    requires Stored(nodes, root, max, t, height) && height >= 1
    ensures |LeavesOf(t)| >= 2 * Pow((max + 1) / 2, height - 1)
  {
    FanOut(t, None, None, max, height, 2);
  }

  // ---------- the limit of the check ----------

  /**
   * The test that the check leaves out: below child `i` of every inner node lie only keys between the
   * separators around `i`, however deep the key and whatever the bounds of the node itself.
   */
  ghost predicate Within(t: Tree)
    decreases t
  {
    t.Inner? ==>
      forall i :: 0 <= i < |t.kids| ==> i <= |t.keys| && Within(t.kids[i]) && KeysWithin(t.kids[i], LowerOf(t.keys, i, None), UpperOf(t.keys, i, None))
  }

  ghost predicate KeysWithin(t: Tree, lo: Option<IndexKey>, hi: Option<IndexKey>) {
    forall k, x :: Has(t, k, x) ==> InBounds(k, lo, hi)
  }

  /** Looking a key up in the routed leaf finds exactly the ids that the tree holds under it. */
  ghost predicate LookupsRight(t: Tree)
    requires Shaped(t)
  {
    forall k, x :: HasPair(Route(t, k).entries, k, x) <==> Has(t, k, x)
  }

  /** The separators of every inner node increase. */
  ghost predicate Separated(t: Tree) {
    Shaped(t) && (t.Inner? ==> SortedKeys(t.keys) && forall i :: 0 <= i < |t.kids| ==> Separated(t.kids[i]))
  }

  lemma {:induction false} CheckedSeparated(t: Tree, lo: Option<IndexKey>, hi: Option<IndexKey>, max: nat, height: nat)
    requires Checked(t, lo, hi, max, height)
    ensures Separated(t)
    decreases t
  {
    if t.Inner? {
      forall i | 0 <= i < |t.kids|
        ensures Separated(t.kids[i])
      {
        CheckedSeparated(t.kids[i], LowerOf(t.keys, i, lo), UpperOf(t.keys, i, hi), max, height - 1);
      }
    }
  }

  lemma {:induction false} RoutedHas(t: Tree, key: IndexKey, id: NovaId)
    requires Shaped(t) && HasPair(Route(t, key).entries, key, id)
    ensures Has(t, key, id)
    decreases t
  {
    if t.Inner? {
      RoutedHas(t.kids[ChildIndex(t.keys, key)], key, id);
      assert AnyHas(t.kids, key, id);
    }
  }

  lemma BoundsSelect(keys: seq<IndexKey>, i: nat, key: IndexKey)
    requires SortedKeys(keys) && i <= |keys|
    ensures InBounds(key, LowerOf(keys, i, None), UpperOf(keys, i, None)) <==> ChildIndex(keys, key) == i
  {
  }

  lemma {:induction false} WithinRoutes(t: Tree, key: IndexKey, id: NovaId)
    requires Separated(t) && Within(t) && Has(t, key, id)
    ensures HasPair(Route(t, key).entries, key, id)
    decreases t
  {
    if t.Inner? {
      var i :| 0 <= i < |t.kids| && Has(t.kids[i], key, id);
      assert KeysWithin(t.kids[i], LowerOf(t.keys, i, None), UpperOf(t.keys, i, None));
      BoundsSelect(t.keys, i, key);
      WithinRoutes(t.kids[i], key, id);
    }
  }

  /** The arena's leaves partition its keys: no key lies in two of them. */
  ghost predicate OneLeafEach(nodes: seq<Node>) {
    forall a: nat, b: nat, k, x, y :: LeafHas(nodes, a, k, x) && LeafHas(nodes, b, k, y) ==> a == b
  }

  ghost predicate LeafHas(nodes: seq<Node>, slot: nat, key: IndexKey, id: NovaId) {
    slot < |nodes| && nodes[slot].LeafNode? && HasPair(nodes[slot].entries, key, id)
  }

  lemma {:induction false} LeafOf(nodes: seq<Node>, t: Tree, key: IndexKey, id: NovaId) returns (slot: nat)
    requires Agrees(nodes, t) && Has(t, key, id)
    ensures LeafHas(nodes, slot, key, id) && Uses(t, slot) > 0
    decreases t
  {
    if t.Leaf? {
      slot := t.id;
    } else {
      var i :| 0 <= i < |t.kids| && Has(t.kids[i], key, id);
      assert AgreesAll(nodes, t.kids);
      slot := LeafOf(nodes, t.kids[i], key, id);
      KidUses(t.kids, i, slot);
    }
  }

  ghost predicate UsedOnce(t: Tree) {
    forall x: nat :: Uses(t, x) <= 1
  }

  lemma KidUsedOnce(t: Tree, i: nat)
    requires t.Inner? && i < |t.kids| && UsedOnce(t)
    ensures UsedOnce(t.kids[i])
  {
    forall x: nat
      ensures Uses(t.kids[i], x) <= 1
    {
      assert Uses(t, x) <= 1;
      KidUses(t.kids, i, x);
    }
  }

  lemma KidsApart(t: Tree, i: nat, j: nat, x: nat)
    requires t.Inner? && i < j < |t.kids| && UsedOnce(t)
    ensures Uses(t.kids[i], x) == 0 || Uses(t.kids[j], x) == 0
  {
    assert Uses(t, x) <= 1;
    UsesSplit(t.kids, i, x);
    KidUses(t.kids[i + 1..], j - i - 1, x);
  }

  lemma KidsDisagree(nodes: seq<Node>, t: Tree, i: nat, j: nat, key: IndexKey, x: NovaId, y: NovaId)
    requires Agrees(nodes, t) && UsedOnce(t) && OneLeafEach(nodes)
    requires t.Inner? && i < |t.kids| && j < |t.kids| && Has(t.kids[i], key, x) && Has(t.kids[j], key, y)
    ensures i == j
  {
    assert AgreesAll(nodes, t.kids);
    var a := LeafOf(nodes, t.kids[i], key, x);
    var b := LeafOf(nodes, t.kids[j], key, y);
    assert a == b;
    if i < j {
      KidsApart(t, i, j, a);
    } else if j < i {
      KidsApart(t, j, i, a);
    }
  }

  lemma {:induction false} RightWithin(nodes: seq<Node>, t: Tree)
    requires Separated(t) && Agrees(nodes, t) && UsedOnce(t) && OneLeafEach(nodes) && LookupsRight(t)
    ensures Within(t)
    decreases t
  {
    if t.Inner? {
      assert AgreesAll(nodes, t.kids);
      forall i | 0 <= i < |t.kids|
        ensures Within(t.kids[i]) && KeysWithin(t.kids[i], LowerOf(t.keys, i, None), UpperOf(t.keys, i, None))
      {
        forall k, x
          ensures Has(t.kids[i], k, x) ==> InBounds(k, LowerOf(t.keys, i, None), UpperOf(t.keys, i, None))
          ensures HasPair(Route(t.kids[i], k).entries, k, x) <==> Has(t.kids[i], k, x)
        {
          RightBelow(nodes, t, i, k, x);
        }
        KidUsedOnce(t, i);
        RightWithin(nodes, t.kids[i]);
      }
    }
  }

  /** Where lookups below an inner node are right, its children hold their keys and look them up right. */
  lemma RightBelow(nodes: seq<Node>, t: Tree, i: nat, k: IndexKey, x: NovaId)
    requires Separated(t) && Agrees(nodes, t) && UsedOnce(t) && OneLeafEach(nodes) && LookupsRight(t)
    requires t.Inner? && i < |t.kids|
    ensures Has(t.kids[i], k, x) ==> InBounds(k, LowerOf(t.keys, i, None), UpperOf(t.keys, i, None))
    ensures HasPair(Route(t.kids[i], k).entries, k, x) <==> Has(t.kids[i], k, x)
  {
    if Has(t.kids[i], k, x) {
      var c := ChildIndex(t.keys, k);
      assert AnyHas(t.kids, k, x) && Has(t, k, x);
      assert Route(t, k) == Route(t.kids[c], k);
      RoutedHas(t.kids[c], k, x);
      KidsDisagree(nodes, t, i, c, k, x, x);
      BoundsSelect(t.keys, i, k);
    } else if HasPair(Route(t.kids[i], k).entries, k, x) {
      RoutedHas(t.kids[i], k, x);
    }
  }

  // ---------- the chain keeps keys apart ----------

  ghost function LeafSlots(nodes: seq<Node>): set<nat> {
    set x: nat | x < |nodes| && nodes[x].LeafNode?
  }

  lemma {:induction false} LeafSlotsCount(nodes: seq<Node>)
    ensures |LeafSlots(nodes)| == LeafCount(nodes)
    decreases |nodes|
  {
    if nodes != [] {
      var last := |nodes| - 1;
      LeafSlotsCount(nodes[..last]);
      assert LeafSlots(nodes) == LeafSlots(nodes[..last]) + if nodes[last].LeafNode? then {last} else {};
    }
  }

  ghost function Members(slots: seq<nat>): set<nat> {
    set x: nat | x in slots
  }

  lemma {:induction false} DistinctCount(slots: seq<nat>)
    requires forall i, j :: 0 <= i < j < |slots| ==> slots[i] != slots[j]
    ensures |Members(slots)| == |slots|
    decreases |slots|
  {
    if slots != [] {
      var last := |slots| - 1;
      DistinctCount(slots[..last]);
      assert Members(slots) == Members(slots[..last]) + {slots[last]};
    }
  }

  lemma SubsetAll(a: set<nat>, b: set<nat>, x: nat)
    requires a <= b && |a| == |b| && x in b
    ensures x in a
  {
    if x !in a {
      assert a + {x} <= b;
      SubsetSize(a + {x}, b);
    }
  }

  lemma SubsetSize(a: set<nat>, b: set<nat>)
    requires a <= b
    ensures |a| <= |b|
  {
    assert b == a + (b - a);
  }

  /** A chain as long as there are leaves visits each of them. */
  lemma LinkedCovers(nodes: seq<Node>, from: nat, slots: seq<nat>, x: nat)
    requires Linked(nodes, from, slots) && x < |nodes| && nodes[x].LeafNode?
    ensures x in slots
  {
    LeafSlotsCount(nodes);
    DistinctCount(slots);
    SubsetAll(Members(slots), LeafSlots(nodes), x);
  }

  lemma {:induction false} EntryIn(nodes: seq<Node>, slots: seq<nat>, p: nat, a: nat) returns (i: nat)
    requires forall s :: 0 <= s < |slots| ==> slots[s] < |nodes| && nodes[slots[s]].LeafNode?
    requires p < |slots| && a < |nodes[slots[p]].entries|
    ensures i < |EntriesAt(nodes, slots)| && EntriesAt(nodes, slots)[i] == nodes[slots[p]].entries[a]
    decreases |slots|
  {
    var front := slots[..|slots| - 1];
    if p == |slots| - 1 {
      i := |EntriesAt(nodes, front)| + a;
    } else {
      i := EntryIn(nodes, front, p, a);
    }
  }

  lemma {:induction false} EntriesApart(nodes: seq<Node>, slots: seq<nat>, p: nat, q: nat, a: nat, b: nat)
    requires forall s :: 0 <= s < |slots| ==> slots[s] < |nodes| && nodes[slots[s]].LeafNode?
    requires SortedEntries(EntriesAt(nodes, slots)) && p < q < |slots|
    requires a < |nodes[slots[p]].entries| && b < |nodes[slots[q]].entries|
    ensures nodes[slots[p]].entries[a].key != nodes[slots[q]].entries[b].key
    decreases |slots|
  {
    var front := slots[..|slots| - 1];
    var all, start := EntriesAt(nodes, slots), EntriesAt(nodes, front);
    if q == |slots| - 1 {
      var i := EntryIn(nodes, front, p, a);
      assert all[i] == start[i] && all[|start| + b] == nodes[slots[q]].entries[b];
    } else {
      assert forall i :: 0 <= i < |start| ==> all[i] == start[i];
      EntriesApart(nodes, front, p, q, a, b);
    }
  }

  lemma LinkedApart(nodes: seq<Node>, from: nat, slots: seq<nat>)
    requires Linked(nodes, from, slots)
    ensures OneLeafEach(nodes)
  {
    forall a: nat, b: nat, k, x, y | LeafHas(nodes, a, k, x) && LeafHas(nodes, b, k, y)
      ensures a == b
    {
      LinkedCovers(nodes, from, slots, a);
      LinkedCovers(nodes, from, slots, b);
      var p :| 0 <= p < |slots| && slots[p] == a;
      var q :| 0 <= q < |slots| && slots[q] == b;
      var i :| 0 <= i < |nodes[a].entries| && nodes[a].entries[i].key == k;
      var j :| 0 <= j < |nodes[b].entries| && nodes[b].entries[j].key == k;
      if p < q {
        EntriesApart(nodes, slots, p, q, i, j);
      } else if q < p {
        EntriesApart(nodes, slots, q, p, j, i);
      }
    }
  }

  /**
   * On an arena that the check accepts, every lookup is right if and only if the keys keep within the
   * separators of all their ancestors; the check compares them with the nearest ones only.
   */
  lemma AcceptedLookups(nodes: seq<Node>, root: nat, max: nat, t: Tree, height: nat, slots: seq<nat>)
    requires CheckedTree(nodes, root, max, t, height) && Linked(nodes, FirstLeaf(t), slots)
    ensures Shaped(t)
    ensures LookupsRight(t) <==> Within(t)
  {
    CheckedSeparated(t, None, None, max, height);
    if Within(t) {
      forall k, x
        ensures HasPair(Route(t, k).entries, k, x) <==> Has(t, k, x)
      {
        if Has(t, k, x) {
          WithinRoutes(t, k, x);
        } else if HasPair(Route(t, k).entries, k, x) {
          RoutedHas(t, k, x);
        }
      }
    }
    if LookupsRight(t) {
      LinkedApart(nodes, FirstLeaf(t), slots);
      assert UsedOnce(t) by {
        forall x: nat
          ensures Uses(t, x) <= 1
        {
          assert Uses(t, x) == Fresh(0, |nodes|, x);
        }
      }
      RightWithin(nodes, t);
    }
  }

  /** Every stored tree passes the omitted test. */
  lemma StoredWithin(nodes: seq<Node>, root: nat, max: nat, t: Tree, height: nat)
    requires Stored(nodes, root, max, t, height)
    ensures LookupsRight(t) && Within(t)
  {
    StoredChecked(nodes, root, max, t, height);
    forall k, x
      ensures HasPair(Route(t, k).entries, k, x) <==> Has(t, k, x)
    {
      RouteHas(t, None, None, max, height, k);
    }
    hide CheckedTree, Linked, Has, Route, Within;
    AcceptedLookups(nodes, root, max, t, height, Slots(LeavesOf(t)));
  }

  // ---------- ranges on an accepted arena ----------

  lemma {:induction false} SlotInTree(nodes: seq<Node>, t: Tree, lo: Option<IndexKey>, hi: Option<IndexKey>, max: nat, height: nat, slot: nat)
    requires Agrees(nodes, t) && Checked(t, lo, hi, max, height) && Uses(t, slot) > 0 && slot < |nodes| && nodes[slot].LeafNode?
    ensures EntriesOk(nodes[slot].entries, None, None)
    ensures forall k, x :: HasPair(nodes[slot].entries, k, x) ==> Has(t, k, x)
    decreases t
  {
    if t.Inner? {
      SomeKidUses(t.kids, slot);
      var i :| 0 <= i < |t.kids| && Uses(t.kids[i], slot) > 0;
      assert AgreesAll(nodes, t.kids);
      SlotInTree(nodes, t.kids[i], LowerOf(t.keys, i, lo), UpperOf(t.keys, i, hi), max, height - 1, slot);
      forall k, x | HasPair(nodes[slot].entries, k, x)
        ensures Has(t, k, x)
      {
        assert Has(t.kids[i], k, x) && AnyHas(t.kids, k, x);
      }
    }
  }

  lemma {:induction false} RouteUsed(nodes: seq<Node>, t: Tree, key: IndexKey)
    requires Agrees(nodes, t) && Shaped(t)
    ensures var leaf := Route(t, key); leaf.id < |nodes| && nodes[leaf.id].LeafNode? && nodes[leaf.id].entries == leaf.entries
    decreases t
  {
    if t.Inner? {
      assert AgreesAll(nodes, t.kids);
      RouteUsed(nodes, t.kids[ChildIndex(t.keys, key)], key);
    }
  }

  lemma {:induction false} EntriesAtSplit(nodes: seq<Node>, a: seq<nat>, b: seq<nat>)
    requires forall i :: 0 <= i < |a| ==> a[i] < |nodes| && nodes[a[i]].LeafNode?
    requires forall i :: 0 <= i < |b| ==> b[i] < |nodes| && nodes[b[i]].LeafNode?
    ensures EntriesAt(nodes, a + b) == EntriesAt(nodes, a) + EntriesAt(nodes, b)
    decreases |b|
  {
    if b == [] {
      assert a + b == a;
    } else {
      var front := b[..|b| - 1];
      EntriesAtSplit(nodes, a, front);
      assert (a + b)[..|a + b| - 1] == a + front;
    }
  }

  lemma {:induction false} PairsConcat(a: seq<Entry>, b: seq<Entry>, start: IndexKey, end: IndexKey)
    ensures PairsBetween(a + b, start, end) == PairsBetween(a, start, end) + PairsBetween(b, start, end)
    decreases |b|
  {
    hide PairsBetween;
    if b == [] {
      NothingBetween(start, end);
      assert a + b == a;
    } else {
      var front, last := b[..|b| - 1], b[|b| - 1];
      PairsConcat(a, front, start, end);
      PairsPush(a, front, last, start, end);
      assert b == front + [last] && a + b == (a + front) + [last];
    }
  }

  lemma NothingBetween(start: IndexKey, end: IndexKey)
    ensures PairsBetween([], start, end) == []
  {
  }

  lemma PairsPush(a: seq<Entry>, front: seq<Entry>, last: Entry, start: IndexKey, end: IndexKey)
    requires PairsBetween(a + front, start, end) == PairsBetween(a, start, end) + PairsBetween(front, start, end)
    ensures PairsBetween((a + front) + [last], start, end) == PairsBetween(a, start, end) + PairsBetween(front + [last], start, end)
  {
    hide PairsBetween, PairsOf, Between;
    PairsBetweenStep(front, last, start, end);
    PairsBetweenStep(a + front, last, start, end);
    Regroup(PairsBetween(a, start, end), PairsBetween(front, start, end), if Between(last.key, start, end) then PairsOf(last) else []);
  }

  lemma Regroup<T>(a: seq<T>, b: seq<T>, c: seq<T>)
    ensures (a + b) + c == a + (b + c)
  {
  }

  lemma {:induction false} SomePairs(es: seq<Entry>, i: nat, start: IndexKey, end: IndexKey)
    requires i < |es| && es[i].ids != [] && Between(es[i].key, start, end)
    ensures PairsBetween(es, start, end) != []
    decreases |es|
  {
    if i < |es| - 1 {
      SomePairs(es[..|es| - 1], i, start, end);
    } else {
      assert |PairsOf(es[i])| > 0;
    }
  }

  ghost predicate NothingFrom(es: seq<Entry>, start: IndexKey) {
    forall end :: PairsBetween(es, start, end) == []
  }

  /** Up to any end, both give the same pairs from `start` on. */
  ghost predicate SameFrom(a: seq<Entry>, b: seq<Entry>, start: IndexKey) {
    forall end :: PairsBetween(a, start, end) == PairsBetween(b, start, end)
  }

  /** Entries contribute to no range from `start` exactly when all of them lie below it. */
  lemma NothingBelow(es: seq<Entry>, start: IndexKey)
    requires AllBelow(es, start)
    ensures NothingFrom(es, start)
  {
    forall end
      ensures PairsBetween(es, start, end) == []
    {
      PairsBetweenTail([], es, start, end);
      assert [] + es == es;
    }
  }

  lemma NoPairs(es: seq<Entry>, start: IndexKey)
    requires forall i :: 0 <= i < |es| ==> es[i].ids != []
    ensures NothingFrom(es, start) <==> AllBelow(es, start)
  {
    if AllBelow(es, start) {
      NothingBelow(es, start);
    } else {
      var i :| 0 <= i < |es| && Rank(start) <= Rank(es[i].key);
      SomePairs(es, i, start, es[i].key);
    }
  }

  /** Reading the chain from position `p` on gives, up to any end, what the whole chain holds from `start` on. */
  ghost predicate RangesRight(nodes: seq<Node>, slots: seq<nat>, p: nat, start: IndexKey)
    requires p <= |slots| && forall i :: 0 <= i < |slots| ==> slots[i] < |nodes| && nodes[slots[i]].LeafNode?
  {
    SameFrom(EntriesAt(nodes, slots[p..]), EntriesAt(nodes, slots), start)
  }

  lemma {:induction false} EntryOf(nodes: seq<Node>, slots: seq<nat>, i: nat) returns (p: nat)
    requires forall s :: 0 <= s < |slots| ==> slots[s] < |nodes| && nodes[slots[s]].LeafNode?
    requires i < |EntriesAt(nodes, slots)|
    ensures p < |slots| && EntriesAt(nodes, slots)[i] in nodes[slots[p]].entries
    decreases |slots|
  {
    var front := slots[..|slots| - 1];
    if i < |EntriesAt(nodes, front)| {
      p := EntryOf(nodes, front, i);
    } else {
      p := |slots| - 1;
    }
  }

  lemma ChainSound(nodes: seq<Node>, root: nat, max: nat, t: Tree, height: nat, slots: seq<nat>)
    requires CheckedTree(nodes, root, max, t, height) && Linked(nodes, FirstLeaf(t), slots)
    ensures EntriesOk(EntriesAt(nodes, slots), None, None)
    ensures forall k, x :: HasPair(EntriesAt(nodes, slots), k, x) ==> Has(t, k, x)
  {
    var all := EntriesAt(nodes, slots);
    forall i | 0 <= i < |all|
      ensures all[i].ids != [] && SortedIds(all[i].ids) && forall x :: x in all[i].ids ==> Has(t, all[i].key, x)
    {
      var p := EntryOf(nodes, slots, i);
      var j :| 0 <= j < |nodes[slots[p]].entries| && nodes[slots[p]].entries[j] == all[i];
      assert Uses(t, slots[p]) == Fresh(0, |nodes|, slots[p]);
      SlotInTree(nodes, t, None, None, max, height, slots[p]);
      forall x | x in all[i].ids
        ensures Has(t, all[i].key, x)
      {
        assert HasPair(nodes[slots[p]].entries, all[i].key, x);
      }
    }
  }

  /** The chain of an accepted arena holds exactly the pairs of its tree, in order. */
  lemma ChainHolds(nodes: seq<Node>, root: nat, max: nat, t: Tree, height: nat, slots: seq<nat>)
    requires CheckedTree(nodes, root, max, t, height) && Linked(nodes, FirstLeaf(t), slots)
    ensures EntriesOk(EntriesAt(nodes, slots), None, None)
    ensures forall k, x :: HasPair(EntriesAt(nodes, slots), k, x) <==> Has(t, k, x)
  {
    ChainSound(nodes, root, max, t, height, slots);
    forall k, x | Has(t, k, x)
      ensures HasPair(EntriesAt(nodes, slots), k, x)
    {
      var slot := LeafOf(nodes, t, k, x);
      LinkedCovers(nodes, FirstLeaf(t), slots, slot);
      var p :| 0 <= p < |slots| && slots[p] == slot;
      var a :| 0 <= a < |nodes[slot].entries| && nodes[slot].entries[a].key == k && x in nodes[slot].entries[a].ids;
      var i := EntryIn(nodes, slots, p, a);
    }
  }

  /**
   * On an accepted arena a range read from the leaf that `start` leads to is right, up to every end, if and only if
   * no leaf before it in the chain holds a key at or above `start`.
   */
  lemma AcceptedRanges(nodes: seq<Node>, root: nat, max: nat, t: Tree, height: nat, slots: seq<nat>, start: IndexKey) returns (p: nat)
    requires CheckedTree(nodes, root, max, t, height) && Linked(nodes, FirstLeaf(t), slots)
    ensures Shaped(t) && p < |slots| && slots[p] == Route(t, start).id
    ensures EntriesOk(EntriesAt(nodes, slots), None, None)
    ensures forall k, x :: HasPair(EntriesAt(nodes, slots), k, x) <==> Has(t, k, x)
    ensures RangesRight(nodes, slots, p, start) <==> AllBelow(EntriesAt(nodes, slots[..p]), start)
  {
    CheckedSeparated(t, None, None, max, height);
    RouteUsed(nodes, t, start);
    LinkedCovers(nodes, FirstLeaf(t), slots, Route(t, start).id);
    p :| 0 <= p < |slots| && slots[p] == Route(t, start).id;
    ChainHolds(nodes, root, max, t, height, slots);
    SplitRanges(nodes, slots, p, start);
  }

  lemma SplitRanges(nodes: seq<Node>, slots: seq<nat>, p: nat, start: IndexKey)
    requires p <= |slots| && forall i :: 0 <= i < |slots| ==> slots[i] < |nodes| && nodes[slots[i]].LeafNode?
    requires EntriesOk(EntriesAt(nodes, slots), None, None)
    ensures RangesRight(nodes, slots, p, start) <==> AllBelow(EntriesAt(nodes, slots[..p]), start)
  {
    hide AllBelow, SameFrom, SortedEntries, EntriesAt;
    assert slots == slots[..p] + slots[p..];
    EntriesAtSplit(nodes, slots[..p], slots[p..]);
    var before, all := EntriesAt(nodes, slots[..p]), EntriesAt(nodes, slots);
    forall i | 0 <= i < |before|
      ensures before[i].ids != []
    {
      assert before[i] == all[i];
    }
    SplitEntries(before, EntriesAt(nodes, slots[p..]), start);
  }

  lemma SplitEntries(before: seq<Entry>, from: seq<Entry>, start: IndexKey)
    requires forall i :: 0 <= i < |before| ==> before[i].ids != []
    ensures SameFrom(from, before + from, start) <==> AllBelow(before, start)
  {
    hide AllBelow;
    NoPairs(before, start);
    forall end
      ensures PairsBetween(from, start, end) == PairsBetween(before + from, start, end) <==> PairsBetween(before, start, end) == []
    {
      PairsConcat(before, from, start, end);
      NothingBefore(PairsBetween(before, start, end), PairsBetween(from, start, end));
    }
  }

  lemma NothingBefore<T>(a: seq<T>, b: seq<T>)
    ensures b == a + b <==> a == []
  {
    assert |a + b| == |a| + |b|;
    assert a == [] ==> a + b == b;
  }

  // ---------- an accepted arena with a wrong lookup ----------

  function LowHalf(): Tree {
    Inner(4, [Int64(1)], [Leaf(0, []), Leaf(1, [])])
  }

  /** Its separator 5 lies below 10, the bound it inherits; nobody looks there for 7. */
  function HighHalf(): Tree {
    Inner(5, [Int64(5)], [Leaf(2, []), Leaf(3, [Entry(Int64(7), [9])])])
  }

  function MisroutedTree(): Tree {
    Inner(6, [Int64(10)], [LowHalf(), HighHalf()])
  }

  function MisroutedArena(): seq<Node> {
    [LeafNode([], Some(1)), LeafNode([], Some(2)), LeafNode([], Some(3)), LeafNode([Entry(Int64(7), [9])], None),
     InnerNode([Int64(1)], [0, 1]), InnerNode([Int64(5)], [2, 3]), InnerNode([Int64(10)], [4, 5])]
  }

  lemma UsesTwo(a: Tree, b: Tree, x: nat)
    ensures UsesOf([a, b], x) == Uses(a, x) + Uses(b, x)
  {
    assert [a, b] == [a] + [b];
    UsesConcat([a], [b], x);
  }

  lemma MisroutedUses(x: nat)
    ensures Uses(MisroutedTree(), x) == Fresh(0, 7, x)
  {
    UsesTwo(LowHalf(), HighHalf(), x);
    UsesTwo(Leaf(0, []), Leaf(1, []), x);
    UsesTwo(Leaf(2, []), Leaf(3, [Entry(Int64(7), [9])]), x);
  }

  lemma MisroutedHalves()
    ensures Agrees(MisroutedArena(), LowHalf()) && Agrees(MisroutedArena(), HighHalf())
    ensures Checked(LowHalf(), None, Some(Int64(10)), 3, 1)
    ensures Checked(HighHalf(), Some(Int64(10)), None, 3, 1)
  {
    assert Slots(LowHalf().kids) == [0, 1] && Slots(HighHalf().kids) == [2, 3];
  }

  lemma MisroutedChecked()
    ensures CheckedTree(MisroutedArena(), 6, 3, MisroutedTree(), 2)
  {
    var nodes, t := MisroutedArena(), MisroutedTree();
    MisroutedHalves();
    assert Slots(t.kids) == [4, 5];
    assert Agrees(nodes, t) && Checked(t, None, None, 3, 2);
    forall x: nat
      ensures Uses(t, x) == Fresh(0, |nodes|, x)
    {
      MisroutedUses(x);
    }
  }

  lemma CountPush(nodes: seq<Node>, node: Node)
    ensures LeafCount(nodes + [node]) == LeafCount(nodes) + if node.LeafNode? then 1 else 0
  {
    assert (nodes + [node])[..|nodes|] == nodes;
  }

  lemma MisroutedCount()
    ensures LeafCount(MisroutedArena()) == 4
  {
    var n := MisroutedArena();
    CountPush([], n[0]);
    CountPush([n[0]], n[1]);
    CountPush([n[0], n[1]], n[2]);
    CountPush([n[0], n[1], n[2]], n[3]);
    CountPush([n[0], n[1], n[2], n[3]], n[4]);
    CountPush([n[0], n[1], n[2], n[3], n[4]], n[5]);
    CountPush([n[0], n[1], n[2], n[3], n[4], n[5]], n[6]);
    assert n == [n[0], n[1], n[2], n[3], n[4], n[5]] + [n[6]];
    assert [n[0]] == [] + [n[0]] && [n[0], n[1]] == [n[0]] + [n[1]] && [n[0], n[1], n[2]] == [n[0], n[1]] + [n[2]];
    assert [n[0], n[1], n[2], n[3]] == [n[0], n[1], n[2]] + [n[3]];
    assert [n[0], n[1], n[2], n[3], n[4]] == [n[0], n[1], n[2], n[3]] + [n[4]];
    assert [n[0], n[1], n[2], n[3], n[4], n[5]] == [n[0], n[1], n[2], n[3], n[4]] + [n[5]];
  }

  lemma EntriesAtPush(nodes: seq<Node>, slots: seq<nat>, slot: nat)
    requires forall i :: 0 <= i < |slots| ==> slots[i] < |nodes| && nodes[slots[i]].LeafNode?
    requires slot < |nodes| && nodes[slot].LeafNode?
    ensures EntriesAt(nodes, slots + [slot]) == EntriesAt(nodes, slots) + nodes[slot].entries
  {
    assert (slots + [slot])[..|slots|] == slots;
  }

  lemma MisroutedEntries()
    ensures forall i :: 0 <= i < 4 ==> [0, 1, 2, 3][i] < 7 && MisroutedArena()[[0, 1, 2, 3][i]].LeafNode?
    ensures EntriesAt(MisroutedArena(), [0, 1, 2, 3]) == [Entry(Int64(7), [9])]
  {
    var nodes := MisroutedArena();
    var s2: seq<nat> := [0, 1];
    var s3 := s2 + [2];
    var s4 := s3 + [3];
    assert s2[..1] == [0];
    EntriesAtPush(nodes, s2, 2);
    EntriesAtPush(nodes, s3, 3);
    assert s4 == [0, 1, 2, 3];
  }

  lemma MisroutedLinked()
    ensures FirstLeaf(MisroutedTree()) == 0 && Linked(MisroutedArena(), 0, [0, 1, 2, 3])
  {
    MisroutedEntries();
    MisroutedCount();
  }

  lemma MisroutedRoute()
    ensures Shaped(MisroutedTree()) && Route(MisroutedTree(), Int64(7)) == Route(LowHalf(), Int64(7)) == Leaf(1, [])
  {
    assert Shaped(LowHalf()) && Shaped(HighHalf());
    assert ChildIndex([Int64(10)], Int64(7)) == 0 && ChildIndex([Int64(1)], Int64(7)) == 1;
  }

  lemma MisroutedHas()
    ensures Has(MisroutedTree(), Int64(7), 9)
  {
    var leaf := HighHalf().kids[1];
    assert leaf.entries[0] == Entry(Int64(7), [9]) && HasPair(leaf.entries, Int64(7), 9);
    assert Has(HighHalf().kids[1], Int64(7), 9) && AnyHas(HighHalf().kids, Int64(7), 9);
    assert Has(MisroutedTree().kids[1], Int64(7), 9);
  }

  /** Acceptance does not imply that lookups are right: here a stored pair is out of reach of its key. */
  lemma AcceptedMayMisroute()
    ensures Accepted(MisroutedArena(), 6, 3) && CheckedTree(MisroutedArena(), 6, 3, MisroutedTree(), 2)
    ensures Shaped(MisroutedTree()) && Has(MisroutedTree(), Int64(7), 9)
    ensures !HasPair(Route(MisroutedTree(), Int64(7)).entries, Int64(7), 9)
    ensures !LookupsRight(MisroutedTree()) && !Within(MisroutedTree())
  {
    MisroutedChecked();
    MisroutedLinked();
    MisroutedHas();
    MisroutedRoute();
    var nodes, t := MisroutedArena(), MisroutedTree();
    hide MisroutedArena, MisroutedTree, LowHalf, HighHalf, CheckedTree, Linked, Within, Route, Has;
    AcceptedLookups(nodes, 6, 3, t, 2, [0, 1, 2, 3]);
  }
}
