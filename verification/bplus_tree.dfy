/** The arena B+ tree with the operations the index uses. */
module BPlusTrees {
  import opened Base
  import opened IndexKeys
  import opened KeyOrder
  import opened Leaves
  import opened TreeModel
  import opened Arena
  import opened LeafChain
  import opened StoredTree
  import TreeLaws
  import TreeVerify

  class BPlusTree {
    const maxKeys: nat
    var root: nat
    var nodes: seq<Node>
    var dirty: bool

    /** The tree value that the arena holds, and its height. */
    ghost var tree: Tree
    ghost var height: nat

    ghost predicate Valid()
      reads this
    {
      Stored(nodes, root, maxKeys, tree, height)
    }

    /** The abstract value: the stored (key, id) pairs. */
    ghost function Contents(): iset<Pair>
      reads this
    {
      PairsIn(tree)
    }

    constructor (maxKeys: nat)
      requires ValidMaxKeys(maxKeys)
      ensures Valid() && this.maxKeys == maxKeys && Contents() == iset{} && dirty
    {
      this.maxKeys := maxKeys;
      root := 0;
      nodes := [LeafNode([], None)];
      dirty := true;
      tree := Leaf(0, []);
      height := 0;
    }

    method Insert(key: IndexKey, id: NovaId)
      requires Valid()
      modifies this
      ensures Valid() && dirty
      ensures Contents() == old(Contents()) + iset{Pair(key, id)}
    {
      ghost var before, arena := tree, nodes;
      ghost var r := TreeModel.Insert(before, key, id, |nodes|, maxKeys);
      InsertPairs(before, key, id, |nodes|, maxKeys, height);
      var split := InsertNode(root, key, id, tree, None);
      InsertStored(arena, nodes, before, key, id, maxKeys, height);
      tree := InsertRoot(before, key, id, |arena|, maxKeys);
      if split.Some? {
        var (separator, right) := split.value;
        var oldRoot := root;
        nodes := nodes + [InnerNode([separator], [oldRoot, right])];
        root := |nodes| - 1;
        height := height + 1;
      }
      dirty := true;
    }

    /** `find_leaf` reaches the routed leaf in exactly `height` steps. */
    method FindLeaf(key: IndexKey) returns (slot: nat, ghost steps: nat)
      requires Valid()
      ensures slot == Route(tree, key).id && steps == height
      ensures slot < |nodes| && nodes[slot].LeafNode? && nodes[slot].entries == Route(tree, key).entries
    {
      OrderedLevels(tree, None, None, maxKeys, height);
      TreeLaws.RepAgrees(nodes, tree, None);
      slot, steps := Descend(nodes, root, key, tree, height);
    }

    method Get(key: IndexKey) returns (ids: seq<NovaId>)
      requires Valid()
      ensures SortedIds(ids)
      ensures forall id :: id in ids <==> Pair(key, id) in Contents()
    {
      var leaf, _ := FindLeaf(key);
      RouteHas(tree, None, None, maxKeys, height, key);
      IdsForComplete(nodes[leaf].entries, key, None, None);
      match SearchEntries(nodes[leaf].entries, key, 0, |nodes[leaf].entries|)
      case Found(i) => ids := nodes[leaf].entries[i].ids;
      case Absent(_) => ids := [];
    }

    method Remove(key: IndexKey, id: NovaId) returns (existed: bool)
      requires Valid()
      modifies this
      ensures Valid() && existed == (Pair(key, id) in old(Contents()))
      ensures Contents() == old(Contents()) - iset{Pair(key, id)}
      ensures dirty == (existed || old(dirty))
    {
      var leaf, _ := FindLeaf(key);
      RouteHas(tree, None, None, maxKeys, height, key);
      RemoveStored(nodes, tree, key, id, maxKeys, height);
      RemovePairs(tree, key, id, maxKeys, height);
      var entries, next := nodes[leaf].entries, nodes[leaf].next;
      assert nodes[leaf := LeafNode(entries, next)] == nodes;
      HoldsOk(entries, key, id);
      match SearchEntries(entries, key, 0, |entries|)
      case Absent(_) =>
        tree := TreeModel.Remove(tree, key, id);
        return false;
      case Found(entryIndex) =>
        var ids := entries[entryIndex].ids;
        match SearchIds(ids, id, 0, |ids|)
        case Absent(_) =>
          tree := TreeModel.Remove(tree, key, id);
          return false;
        case Found(idIndex) =>
          ids := RemoveAt(ids, idIndex);
          if ids == [] {
            entries := RemoveAt(entries, entryIndex);
          } else {
            entries := entries[entryIndex := Entry(key, ids)];
          }
          nodes := nodes[leaf := LeafNode(entries, next)];
          tree := TreeModel.Remove(tree, key, id);
          dirty := true;
          return true;
    }

    /** `verify`: accepts exactly the arenas that `Accepted` describes, and so every valid tree. */
    method Verify() returns (ok: bool)
      ensures ok <==> TreeVerify.Accepted(nodes, root, maxKeys)
      ensures Valid() ==> ok
    {
      ok := TreeVerify.Verify(nodes, root, maxKeys);
      if Valid() {
        TreeLaws.StoredAccepted(nodes, root, maxKeys, tree, height);
      }
    }

    /** Every pair whose key lies in the closed interval, in key and id order, by walking the chain. */
    method Range(start: IndexKey, end: IndexKey) returns (result: Result<seq<Pair>>)
      requires Valid()
      ensures result.Err? <==> KeyBelow(end, start)
      ensures result.Ok? ==> InKeyOrder(result.value)
      ensures result.Ok? ==> forall p :: p in result.value <==> p in Contents() && !KeyBelow(p.key, start) && !KeyBelow(end, p.key)
      ensures result.Err? <==> Less(end, start)
      ensures result.Err? ==> result.error == InvalidArgument
      ensures result.Ok? ==> SortedPairs(result.value)
      ensures result.Ok? ==> forall p :: p in result.value <==> p in Contents() && Between(p.key, start, end)
    {
      LessExactly(end, start);
      if Less(end, start) {
        return Err(InvalidArgument);
      }
      var first, _ := FindLeaf(start);
      ghost var rest, done := RangeStart(start);
      RangeOk(tree, start, end, maxKeys, height);
      var pairs := RangeFrom(nodes, first, start, end, done, rest);
      ByValue(pairs, start, end);
      return Ok(pairs);
    }

    /** The chain from the routed leaf on, and the entries before it, none of which is in range. */
    lemma RangeStart(start: IndexKey) returns (rest: seq<Tree>, done: seq<Entry>)
      requires Valid()
      ensures Chain(nodes, Some(Route(tree, start).id), rest) && Flat(tree) == done + EntriesOf(rest)
      ensures forall end :: PairsBetween(done, start, end) == []
    {
      hide PairsBetween, AllBelow, EntriesOf;
      var n := RouteIndex(tree, start);
      RouteChain(tree, start, None, None, maxKeys, height);
      ChainOf(nodes, tree, None, []);
      assert LeavesOf(tree) + [] == LeavesOf(tree);
      ChainSuffix(nodes, Some(FirstLeaf(tree)), LeavesOf(tree), n);
      rest, done := LeavesOf(tree)[n..], EntriesOf(LeavesOf(tree)[..n]);
      assert LeavesOf(tree) == LeavesOf(tree)[..n] + rest;
      EntriesConcat(LeavesOf(tree)[..n], rest);
      TreeLaws.NothingBelow(done, start);
    }

    /** The arena after inserting below the subtree `t`, as the tree function says. */
    ghost predicate Inserted(before: seq<Node>, t: Tree, key: IndexKey, id: NovaId, after: Option<nat>, split: Option<(IndexKey, nat)>)
      requires Shaped(t)
      reads this
    {
      var r := TreeModel.Insert(t, key, id, |before|, maxKeys);
      && |nodes| == r.size >= |before| && RepAfter(nodes, r, after)
      && split == (if r.split.None? then None else Some((r.split.value.separator, r.split.value.right.id)))
      && forall x: nat :: x < |before| && Uses(t, x) == 0 ==> nodes[x] == before[x]
    }

    /** `insert_node`; `t` is the subtree at `slot`, and `after` the leaf that follows it. */
    method InsertNode(slot: nat, key: IndexKey, id: NovaId, ghost t: Tree, ghost after: Option<nat>)
      returns (split: Option<(IndexKey, nat)>)
      requires Shaped(t) && slot == t.id && Rep(nodes, t, after) && Distinct(t, |nodes|)
      modifies this`nodes
      ensures Inserted(old(nodes), t, key, id, after, split)
      decreases t, 1
    {
      match nodes[slot]
      case LeafNode(_, _) => split := InsertLeaf(slot, key, id, t, after);
      case InnerNode(_, _) => split := InsertInner(slot, key, id, t, after);
    }

    method InsertLeaf(slot: nat, key: IndexKey, id: NovaId, ghost t: Tree, ghost after: Option<nat>)
      returns (split: Option<(IndexKey, nat)>)
      requires t.Leaf? && slot == t.id && Rep(nodes, t, after)
      modifies this`nodes
      ensures Inserted(old(nodes), t, key, id, after, split)
    {
      var entries, next := nodes[slot].entries, nodes[slot].next;
      if Holds(entries, key, id) {
        return None;
      }
      entries := InsertPair(entries, key, id);
      if |entries| <= maxKeys {
        nodes := nodes[slot := LeafNode(entries, next)];
        return None;
      }
      var half := |entries| / 2;
      var right := |nodes|;
      nodes := nodes[slot := LeafNode(entries[..half], Some(right))];
      nodes := nodes + [LeafNode(entries[half..], next)];
      return Some((entries[half].key, right));
    }

    method InsertInner(slot: nat, key: IndexKey, id: NovaId, ghost t: Tree, ghost after: Option<nat>)
      returns (split: Option<(IndexKey, nat)>)
      requires t.Inner? && Shaped(t) && slot == t.id && Rep(nodes, t, after) && Distinct(t, |nodes|)
      modifies this`nodes
      ensures Inserted(old(nodes), t, key, id, after, split)
      decreases t, 0
    {
      var keys, children := nodes[slot].keys, nodes[slot].children;
      var index := ChildIndex(keys, key);
      ghost var arena, kids := nodes, t.kids;
      KidDistinct(t, index, |nodes|);
      var below := InsertNode(children[index], key, id, kids[index], After(kids, index, after));
      ghost var r := TreeModel.Insert(kids[index], key, id, |arena|, maxKeys);
      InsertSlots(kids[index], key, id, |arena|, maxKeys);
      InsertedKids(arena, nodes, t, index, key, id, maxKeys, after);
      SlotsAfter(kids, index, r);
      if below.Some? {
        var (separator, right) := below.value;
        keys := InsertAt(keys, index, separator);
        children := InsertAt(children, index + 1, right);
      }
      ghost var mid := nodes;
      split := WriteInner(slot, keys, children, KidsAfter(kids, index, r), after);
      OthersKept(arena, mid, nodes, t, index);
    }

    /** The end of the inner case: write the node back, splitting it around its middle key if it overflows. */
    method WriteInner(slot: nat, keys: seq<IndexKey>, children: seq<nat>, ghost kids: seq<Tree>, ghost after: Option<nat>)
      returns (split: Option<(IndexKey, nat)>)
      requires slot < |nodes| && |kids| == |keys| + 1 && children == Slots(kids) && RepKids(nodes, kids, after)
      requires UsesOf(kids, slot) == 0 && DistinctKids(kids, |nodes|)
      modifies this`nodes
      ensures var r := Finish(slot, keys, kids, old(|nodes|), maxKeys);
              && |nodes| == r.size >= old(|nodes|) && RepAfter(nodes, r, after)
              && split == if r.split.None? then None else Some((r.split.value.separator, r.split.value.right.id))
      ensures forall x: nat :: x < old(|nodes|) && x != slot ==> nodes[x] == old(nodes)[x]
    {
      ghost var before := nodes;
      if |keys| <= maxKeys {
        nodes := nodes[slot := InnerNode(keys, children)];
        split := None;
      } else {
        var middle := |keys| / 2;
        var right := |nodes|;
        nodes := nodes[slot := InnerNode(keys[..middle], children[..middle + 1])];
        nodes := nodes + [InnerNode(keys[middle + 1..], children[middle + 1..])];
        split := Some((keys[middle], right));
      }
      FinishRep(before, nodes, slot, keys, kids, maxKeys, after);
    }
  }

  /** All leaves lie `height` levels down. */
  ghost predicate Levels(t: Tree, height: nat)
    decreases t
  {
    if t.Leaf? then height == 0
    else height > 0 && forall i :: 0 <= i < |t.kids| ==> Levels(t.kids[i], height - 1)
  }

  lemma OrderedLevels(t: Tree, lo: Option<IndexKey>, hi: Option<IndexKey>, max: nat, height: nat)
    requires Ordered(t, lo, hi, max, height)
    ensures Levels(t, height)
    decreases t
  {
    if t.Inner? {
      forall i | 0 <= i < |t.kids|
        ensures Levels(t.kids[i], height - 1)
      {
        OrderedLevels(t.kids[i], LowerOf(t.keys, i, lo), UpperOf(t.keys, i, hi), max, height - 1);
      }
    }
  }

  /** By what the keys stand for, and by id under one key. */
  ghost predicate InKeyOrder(pairs: seq<Pair>) {
    forall i, j :: 0 <= i < j < |pairs| ==>
                     KeyBelow(pairs[i].key, pairs[j].key) || (pairs[i].key == pairs[j].key && pairs[i].id < pairs[j].id)
  }

  lemma ByValue(pairs: seq<Pair>, start: IndexKey, end: IndexKey)
    ensures SortedPairs(pairs) ==> InKeyOrder(pairs)
    ensures forall key :: Between(key, start, end) <==> !KeyBelow(key, start) && !KeyBelow(end, key)
  {
    hide KeyBelow;
    forall key
      ensures Between(key, start, end) <==> !KeyBelow(key, start) && !KeyBelow(end, key)
    {
      LessExactly(key, start);
      LessExactly(end, key);
    }
    forall i, j | 0 <= i < j < |pairs| && PairLess(pairs[i], pairs[j])
      ensures KeyBelow(pairs[i].key, pairs[j].key) || (pairs[i].key == pairs[j].key && pairs[i].id < pairs[j].id)
    {
      LessExactly(pairs[i].key, pairs[j].key);
      RankEmbeds(pairs[i].key, pairs[j].key);
    }
  }

  /** The descent of `find_leaf`, in any arena that holds a tree with leaves at one depth. */
  method Descend(nodes: seq<Node>, root: nat, key: IndexKey, ghost tree: Tree, ghost height: nat)
    returns (slot: nat, ghost steps: nat)
    requires root == tree.id && TreeVerify.Agrees(nodes, tree) && Shaped(tree) && Levels(tree, height)
    ensures slot == Route(tree, key).id && steps == height
    ensures slot < |nodes| && nodes[slot].LeafNode? && nodes[slot].entries == Route(tree, key).entries
  {
    slot, steps := root, 0;
    ghost var t := tree;
    while nodes[slot].InnerNode?
      invariant slot == t.id && TreeVerify.Agrees(nodes, t) && Shaped(t) && Route(t, key) == Route(tree, key)
      invariant steps <= height && Levels(t, height - steps)
      decreases t
    {
      var c := ChildIndex(nodes[slot].keys, key);
      slot := nodes[slot].children[c];
      assert TreeVerify.AgreesAll(nodes, t.kids);
      t, steps := t.kids[c], steps + 1;
    }
  }

  lemma {:induction false} CheckedLevels(t: Tree, lo: Option<IndexKey>, hi: Option<IndexKey>, max: nat, height: nat)
    requires TreeVerify.Checked(t, lo, hi, max, height)
    ensures Levels(t, height)
    decreases t
  {
    if t.Inner? {
      forall i | 0 <= i < |t.kids|
        ensures Levels(t.kids[i], height - 1)
      {
        CheckedLevels(t.kids[i], LowerOf(t.keys, i, lo), UpperOf(t.keys, i, hi), max, height - 1);
      }
    }
  }

  /** The leaves at these slots. */
  ghost function LeafTrees(nodes: seq<Node>, slots: seq<nat>): (leaves: seq<Tree>)
    requires forall i :: 0 <= i < |slots| ==> slots[i] < |nodes| && nodes[slots[i]].LeafNode?
    ensures |leaves| == |slots| && forall i :: 0 <= i < |slots| ==> leaves[i] == Leaf(slots[i], nodes[slots[i]].entries)
  {
    seq(|slots|, i requires 0 <= i < |slots| => Leaf(slots[i], nodes[slots[i]].entries))
  }

  lemma {:induction false} LinkedChain(nodes: seq<Node>, from: nat, slots: seq<nat>, p: nat)
    requires TreeVerify.Linked(nodes, from, slots) && p < |slots|
    ensures Chain(nodes, Some(slots[p]), LeafTrees(nodes, slots[p..]))
    decreases |slots| - p
  {
    var leaves, q := LeafTrees(nodes, slots[p..]), p + 1;
    if q < |slots| {
      LinkedChain(nodes, from, slots, q);
      assert leaves[1..] == LeafTrees(nodes, slots[q..]);
    } else {
      assert leaves[1..] == [];
    }
  }

  lemma LeafTreesEntries(nodes: seq<Node>, slots: seq<nat>)
    requires forall i :: 0 <= i < |slots| ==> slots[i] < |nodes| && nodes[slots[i]].LeafNode?
    ensures EntriesOf(LeafTrees(nodes, slots)) == TreeVerify.EntriesAt(nodes, slots)
  {
    TreeLaws.EntriesAtLeaves(nodes, LeafTrees(nodes, slots));
    assert Slots(LeafTrees(nodes, slots)) == slots;
  }

  /**
   * `range` on any arena that the check accepts: it reads the chain from the leaf at position `p` that `start` leads
   * to, which gives all pairs of the interval if no earlier leaf holds a key at or above `start`.
   */
  method OpenedRange(nodes: seq<Node>, root: nat, start: IndexKey, end: IndexKey,
                     ghost max: nat, ghost t: Tree, ghost height: nat, ghost slots: seq<nat>)
    returns (result: Result<seq<Pair>>, ghost p: nat)
    requires TreeVerify.CheckedTree(nodes, root, max, t, height) && TreeVerify.Linked(nodes, FirstLeaf(t), slots)
    ensures Shaped(t) && p < |slots| && slots[p] == Route(t, start).id
    ensures result.Err? <==> Less(end, start)
    ensures result.Ok? ==> result.value == PairsBetween(TreeVerify.EntriesAt(nodes, slots[p..]), start, end)
    ensures result.Ok? && AllBelow(TreeVerify.EntriesAt(nodes, slots[..p]), start) ==>
              SortedPairs(result.value) && forall q :: q in result.value <==> Has(t, q.key, q.id) && Between(q.key, start, end)
  {
    p := TreeLaws.AcceptedRanges(nodes, root, max, t, height, slots, start);
    CheckedLevels(t, None, None, max, height);
    var first, _ := Descend(nodes, root, start, t, height);
    hide TreeVerify.CheckedTree, TreeVerify.Linked, Levels, Route, AllBelow, Chain, TreeVerify.EntriesAt, EntriesOf, Shaped, Has;
    hide EntriesOk, PairsBetween, TreeLaws.RangesRight, SortedPairs;
    if Less(end, start) {
      return Err(InvalidArgument), p;
    }
    LinkedChain(nodes, FirstLeaf(t), slots, p);
    LeafTreesEntries(nodes, slots[p..]);
    SuffixOk(nodes, slots, p);
    TreeLaws.NothingBetween(start, end);
    assert [] + TreeVerify.EntriesAt(nodes, slots[p..]) == TreeVerify.EntriesAt(nodes, slots[p..]);
    if TreeLaws.RangesRight(nodes, slots, p, start) {
      RightBetween(nodes, slots, p, start, end, t);
    }
    var pairs := RangeFrom(nodes, first, start, end, [], LeafTrees(nodes, slots[p..]));
    return Ok(pairs), p;
  }

  lemma RightBetween(nodes: seq<Node>, slots: seq<nat>, p: nat, start: IndexKey, end: IndexKey, t: Tree)
    requires p <= |slots| && forall i :: 0 <= i < |slots| ==> slots[i] < |nodes| && nodes[slots[i]].LeafNode?
    requires EntriesOk(TreeVerify.EntriesAt(nodes, slots), None, None) && !Less(end, start)
    requires forall k, x :: HasPair(TreeVerify.EntriesAt(nodes, slots), k, x) <==> Has(t, k, x)
    requires TreeLaws.RangesRight(nodes, slots, p, start)
    ensures var pairs := PairsBetween(TreeVerify.EntriesAt(nodes, slots[p..]), start, end);
            SortedPairs(pairs) && forall q :: q in pairs <==> Has(t, q.key, q.id) && Between(q.key, start, end)
  {
    hide TreeVerify.EntriesAt, EntriesOk, PairsBetween, Has, HasPair, SortedPairs;
    PairsBetweenOk(TreeVerify.EntriesAt(nodes, slots), start, end);
  }

  lemma SuffixOk(nodes: seq<Node>, slots: seq<nat>, p: nat)
    requires p <= |slots| && forall i :: 0 <= i < |slots| ==> slots[i] < |nodes| && nodes[slots[i]].LeafNode?
    requires EntriesOk(TreeVerify.EntriesAt(nodes, slots), None, None)
    ensures EntriesOk(TreeVerify.EntriesAt(nodes, slots[p..]), None, None)
  {
    hide EntriesOk, TreeVerify.EntriesAt;
    TreeLaws.EntriesAtSplit(nodes, slots[..p], slots[p..]);
    assert slots == slots[..p] + slots[p..];
    TailOk(TreeVerify.EntriesAt(nodes, slots[..p]), TreeVerify.EntriesAt(nodes, slots[p..]));
  }

  lemma TailOk(before: seq<Entry>, from: seq<Entry>)
    requires EntriesOk(before + from, None, None)
    ensures EntriesOk(from, None, None)
  {
    assert forall i :: 0 <= i < |from| ==> from[i] == (before + from)[|before| + i];
  }

  /** The walk of `range` along the chain; `done` holds the entries before the first leaf. */
  method RangeFrom(nodes: seq<Node>, first: nat, start: IndexKey, end: IndexKey, ghost done: seq<Entry>, ghost leaves: seq<Tree>)
    returns (pairs: seq<Pair>)
    requires Chain(nodes, Some(first), leaves) && EntriesOk(done + EntriesOf(leaves), None, None)
    requires PairsBetween(done, start, end) == []
    ensures pairs == PairsBetween(done + EntriesOf(leaves), start, end)
  {
    pairs := [];
    var leaf: Option<nat> := Some(first);
    ghost var before, rest := done, leaves;
    while leaf.Some?
      invariant Chain(nodes, leaf, rest) && done + EntriesOf(leaves) == before + EntriesOf(rest)
      invariant pairs == PairsBetween(before, start, end)
      decreases |rest|
    {
      var entries, next := nodes[leaf.value].entries, nodes[leaf.value].next;
      var stop;
      assert before + EntriesOf(rest) == before + entries + EntriesOf(rest[1..]);
      pairs, stop := RangeLeaf(entries, pairs, start, end, before, EntriesOf(rest[1..]));
      if stop {
        return;
      }
      before := before + entries;
      leaf, rest := next, rest[1..];
    }
    assert before + EntriesOf(rest) == before;
  }

  /** The inner loop of `range`: one leaf, stopping at the first key past the end. */
  method RangeLeaf(entries: seq<Entry>, found: seq<Pair>, start: IndexKey, end: IndexKey,
                   ghost before: seq<Entry>, ghost after: seq<Entry>)
    returns (pairs: seq<Pair>, stop: bool)
    requires EntriesOk(before + entries + after, None, None) && found == PairsBetween(before, start, end)
    ensures !stop ==> pairs == PairsBetween(before + entries, start, end)
    ensures stop ==> pairs == PairsBetween(before + entries + after, start, end)
  {
    pairs := found;
    var i := 0;
    assert before + entries[..0] == before;
    while i < |entries|
      invariant i <= |entries| && pairs == PairsBetween(before + entries[..i], start, end)
    {
      var e := entries[i];
      if Less(end, e.key) {
        RangeStop(before, entries, after, i, start, end);
        return pairs, true;
      }
      RangeStep(before, entries, i, start, end);
      if !Less(e.key, start) {
        pairs := pairs + PairsOf(e);
      }
      i := i + 1;
    }
    assert entries[..i] == entries;
    stop := false;
  }

  lemma RangeStep(before: seq<Entry>, entries: seq<Entry>, i: nat, start: IndexKey, end: IndexKey)
    requires i < |entries|
    ensures PairsBetween(before + entries[..i + 1], start, end) ==
            PairsBetween(before + entries[..i], start, end) + (if Between(entries[i].key, start, end) then PairsOf(entries[i]) else [])
  {
    assert before + entries[..i + 1] == (before + entries[..i]) + [entries[i]];
    PairsBetweenStep(before + entries[..i], entries[i], start, end);
  }

  lemma RangeStop(before: seq<Entry>, entries: seq<Entry>, after: seq<Entry>, i: nat, start: IndexKey, end: IndexKey)
    requires EntriesOk(before + entries + after, None, None) && i < |entries| && Less(end, entries[i].key)
    ensures PairsBetween(before + entries + after, start, end) == PairsBetween(before + entries[..i], start, end)
  {
    assert before + entries + after == (before + entries[..i]) + (entries[i..] + after);
    PastEnd(before + entries[..i], entries[i..] + after, start, end);
  }

  datatype Operation = Put(key: IndexKey, id: NovaId) | Delete(key: IndexKey, id: NovaId)

  /** The pairs that a history of operations leaves. */
  ghost function PairsAfterAll(history: seq<Operation>): iset<Pair> {
    if history == [] then iset{}
    else
      var before := PairsAfterAll(history[..|history| - 1]);
      match history[|history| - 1]
      case Put(key, id) => before + iset{Pair(key, id)}
      case Delete(key, id) => before - iset{Pair(key, id)}
  }

  /** Any history run from an empty tree reaches a tree with exactly its pairs, which the check accepts. */
  method Run(maxKeys: nat, history: seq<Operation>) returns (tree: BPlusTree, accepted: bool)
    requires ValidMaxKeys(maxKeys)
    ensures fresh(tree) && tree.Valid() && tree.Contents() == PairsAfterAll(history) && accepted
  {
    tree := new BPlusTree(maxKeys);
    var i := 0;
    while i < |history|
      invariant i <= |history| && fresh(tree) && tree.Valid() && tree.Contents() == PairsAfterAll(history[..i])
    {
      assert history[..i + 1][..i] == history[..i];
      match history[i] {
        case Put(key, id) => tree.Insert(key, id);
        case Delete(key, id) => var _ := tree.Remove(key, id);
      }
      i := i + 1;
    }
    assert history[..i] == history;
    accepted := tree.Verify();
  }

  /** Only slots of `t` changed, counting those of the child and of `t` itself. */
  lemma OthersKept(before: seq<Node>, mid: seq<Node>, nodes: seq<Node>, t: Tree, c: nat)
    requires t.Inner? && c < |t.kids| && |before| <= |mid| <= |nodes|
    requires forall x: nat :: x < |before| && Uses(t.kids[c], x) == 0 ==> mid[x] == before[x]
    requires forall x: nat :: x < |before| && x != t.id ==> nodes[x] == mid[x]
    ensures forall x: nat :: x < |before| && Uses(t, x) == 0 ==> nodes[x] == before[x]
  {
    forall x: nat | x < |before| && Uses(t, x) == 0
      ensures nodes[x] == before[x]
    {
      KidUses(t.kids, c, x);
    }
  }

  lemma RangeOk(t: Tree, start: IndexKey, end: IndexKey, max: nat, height: nat)
    requires Ordered(t, None, None, max, height)
    ensures EntriesOk(Flat(t), None, None)
    ensures SortedPairs(PairsBetween(Flat(t), start, end))
    ensures forall p :: p in PairsBetween(Flat(t), start, end) <==> p in PairsIn(t) && Between(p.key, start, end)
  {
    FlatOk(t, None, None, max, height);
    PairsBetweenOk(Flat(t), start, end);
    forall p: Pair
      ensures HasPair(Flat(t), p.key, p.id) <==> p in PairsIn(t)
    {
      FlatHas(t, p.key, p.id);
    }
  }

  /** Once a key exceeds the end, no later entry matters. */
  lemma PastEnd(done: seq<Entry>, rest: seq<Entry>, start: IndexKey, end: IndexKey)
    requires EntriesOk(done + rest, None, None) && rest != [] && Less(end, rest[0].key)
    ensures PairsBetween(done + rest, start, end) == PairsBetween(done, start, end)
  {
    var all := done + rest;
    forall i | 0 <= i < |rest|
      ensures !Between(rest[i].key, start, end)
    {
      assert all[|done|] == rest[0] && all[|done| + i] == rest[i];
    }
    PairsBetweenTail(done, rest, start, end);
  }
}
