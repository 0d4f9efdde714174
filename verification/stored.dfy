/** The full invariant of a stored tree, and how each operation keeps it. */
module StoredTree {
  import opened Base
  import opened IndexKeys
  import opened Leaves
  import opened TreeModel
  import opened Arena
  import opened LeafChain

  /**
   * The arena holds exactly `t`: ordered within strict separators, leaves at one depth, filled,
   * linked in key order, and every arena slot used once.
   */
  ghost predicate Stored(nodes: seq<Node>, root: nat, max: nat, t: Tree, height: nat) {
    && ValidMaxKeys(max) && root == t.id && Rep(nodes, t, None)
    && Shaped(t) && Ordered(t, None, None, max, height) && Filled(t, max, 2)
    && (forall x: nat :: Uses(t, x) == Fresh(0, |nodes|, x))
  }

  ghost function PairsIn(t: Tree): iset<Pair> {
    iset p: Pair | Has(t, p.key, p.id)
  }

  /** The new root over both halves of a split root. */
  ghost function GrowRoot(r: Insertion, slot: nat): Tree
    requires r.split.Some?
  {
    Inner(slot, [r.split.value.separator], [r.tree, r.split.value.right])
  }

  /** What `insert` does to the tree value, root growth included. */
  ghost function InsertRoot(t: Tree, key: IndexKey, id: NovaId, size: nat, max: nat): Tree
    requires Shaped(t)
  {
    var r := Insert(t, key, id, size, max);
    if r.split.None? then r.tree else GrowRoot(r, r.size)
  }

  lemma KidDistinct(t: Tree, i: nat, size: nat)
    requires t.Inner? && i < |t.kids| && Distinct(t, size)
    ensures Distinct(t.kids[i], size) && DistinctKids(t.kids, size)
    ensures UsesOf(t.kids, t.id) == 0
  {
    forall x: nat
      ensures UsesOf(t.kids, x) <= Fresh(0, size, x)
    {
      assert Uses(t, x) <= Fresh(0, size, x);
    }
    assert Uses(t, t.id) <= 1;
    DistinctKid(t.kids, i, size);
  }

  lemma SlotsAfter(kids: seq<Tree>, c: nat, r: Insertion)
    requires c < |kids| && r.tree.id == kids[c].id
    ensures Slots(KidsAfter(kids, c, r)) ==
            if r.split.None? then Slots(kids) else InsertAt(Slots(kids), c + 1, r.split.value.right.id)
  {
  }

  lemma InsertedKidsDistinct(kids: seq<Tree>, c: nat, key: IndexKey, id: NovaId, size: nat, max: nat, x: nat)
    requires c < |kids| && Shaped(kids[c])
    ensures var r := Insert(kids[c], key, id, size, max);
            UsesOf(KidsAfter(kids, c, r), x) == UsesOf(kids, x) + Fresh(size, r.size, x)
  {
    InsertUses(kids[c], key, id, size, max, x);
    KidsAfterUses(kids, c, Insert(kids[c], key, id, size, max), x);
  }

  /** After the recursive call: the children are in place, and their slots avoid the parent's. */
  lemma InsertedKids(before: seq<Node>, nodes: seq<Node>, t: Tree, c: nat, key: IndexKey, id: NovaId, max: nat, after: Option<nat>)
    requires t.Inner? && Shaped(t) && c < |t.kids| && RepKids(before, t.kids, after)
    requires Distinct(t, |before|) && t.id < |before| <= |nodes|
    requires forall x: nat :: x < |before| && Uses(t.kids[c], x) == 0 ==> nodes[x] == before[x]
    requires var r := Insert(t.kids[c], key, id, |before|, max);
             |nodes| == r.size && RepAfter(nodes, r, After(t.kids, c, after))
    ensures var kids := KidsAfter(t.kids, c, Insert(t.kids[c], key, id, |before|, max));
            RepKids(nodes, kids, after) && DistinctKids(kids, |nodes|) && UsesOf(kids, t.id) == 0
  {
    var kids, r := t.kids, Insert(t.kids[c], key, id, |before|, max);
    KidDistinct(t, c, |before|);
    InsertSlots(kids[c], key, id, |before|, max);
    ReplaceKidRep(before, nodes, kids, c, r, after);
    forall x: nat
      ensures UsesOf(KidsAfter(kids, c, r), x) == UsesOf(kids, x) + Fresh(|before|, |nodes|, x)
    {
      InsertedKidsDistinct(kids, c, key, id, |before|, max, x);
    }
  }

  /** Writing back an inner node, split or not, leaves its children in place. */
  lemma FinishRep(before: seq<Node>, nodes: seq<Node>, slot: nat, keys: seq<IndexKey>, kids: seq<Tree>, max: nat, after: Option<nat>)
    requires |kids| == |keys| + 1 && slot < |before| && RepKids(before, kids, after)
    requires UsesOf(kids, slot) == 0 && DistinctKids(kids, |before|)
    requires
      var m := |keys| / 2;
      nodes == if |keys| <= max then before[slot := InnerNode(keys, Slots(kids))]
               else before[slot := InnerNode(keys[..m], Slots(kids)[..m + 1])] + [InnerNode(keys[m + 1..], Slots(kids)[m + 1..])]
    ensures RepAfter(nodes, Finish(slot, keys, kids, |before|, max), after)
  {
    RepKidsFrame(before, nodes, kids, after);
    if |keys| > max {
      var m := |keys| / 2 + 1;
      SplitKidsRep(nodes, kids, m, after);
      assert Slots(kids[..m]) == Slots(kids)[..m] && Slots(kids[m..]) == Slots(kids)[m..];
    }
  }

  lemma InsertedShape(r: Insertion, max: nat, height: nat)
    requires ValidMaxKeys(max) && InsertedBelow(r, None, None, max, height)
    ensures r.split.None? ==> Shaped(r.tree)
    ensures r.split.Some? ==> Ordered(GrowRoot(r, r.size), None, None, max, height + 1) && Shaped(GrowRoot(r, r.size))
  {
    if r.split.None? {
      OrderedIsShaped(r.tree, None, None, max, height);
    } else {
      var sep := r.split.value.separator;
      OrderedIsShaped(r.tree, None, Some(sep), max, height);
      OrderedIsShaped(r.split.value.right, Some(sep), None, max, height);
      assert KidsOrdered([sep], [r.tree, r.split.value.right], None, None, max, height);
    }
  }

  /** The invariant survives an insertion, given the arena after it. */
  lemma InsertStored(before: seq<Node>, nodes: seq<Node>, t: Tree, key: IndexKey, id: NovaId, max: nat, height: nat)
    requires Stored(before, t.id, max, t, height)
    requires var r := Insert(t, key, id, |before|, max); |nodes| == r.size && RepAfter(nodes, r, None)
    ensures var r := Insert(t, key, id, |before|, max);
            && (r.split.None? ==> Stored(nodes, t.id, max, r.tree, height))
            && (r.split.Some? ==>
                  Stored(nodes + [InnerNode([r.split.value.separator], [t.id, r.split.value.right.id])],
                         |nodes|, max, GrowRoot(r, r.size), height + 1))
  {
    var r := Insert(t, key, id, |before|, max);
    InsertOrdered(t, key, id, |before|, None, None, max, height);
    InsertFilled(t, key, id, |before|, max, 2);
    InsertSlots(t, key, id, |before|, max);
    InsertedShape(r, max, height);
    forall x: nat
      ensures UsesAfter(r, x) == Fresh(0, r.size, x)
    {
      InsertUses(t, key, id, |before|, max, x);
    }
    if r.split.Some? {
      GrowStored(nodes, r);
    }
  }

  lemma GrowStored(nodes: seq<Node>, r: Insertion)
    requires r.split.Some? && RepAfter(nodes, r, None) && |nodes| == r.size
    requires forall x: nat :: UsesAfter(r, x) == Fresh(0, r.size, x)
    ensures var grown, t := nodes + [InnerNode([r.split.value.separator], [r.tree.id, r.split.value.right.id])], GrowRoot(r, r.size);
            Rep(grown, t, None) && forall x: nat :: Uses(t, x) == Fresh(0, |grown|, x)
  {
    var right := r.split.value.right;
    var t := GrowRoot(r, r.size);
    var grown := nodes + [InnerNode([r.split.value.separator], [r.tree.id, right.id])];
    forall x: nat
      ensures Uses(t, x) == Fresh(0, |grown|, x)
      ensures Uses(r.tree, x) > 0 || Uses(right, x) > 0 ==> x < |nodes|
    {
      PiecesUses(r, x);
      assert Pieces(r) == t.kids;
    }
    RepFrame(nodes, grown, r.tree, Some(FirstLeaf(right)));
    RepFrame(nodes, grown, right, None);
    assert Slots(t.kids) == [r.tree.id, right.id];
  }

  /** `insert` adds exactly one pair. */
  lemma InsertPairs(t: Tree, key: IndexKey, id: NovaId, size: nat, max: nat, height: nat)
    requires ValidMaxKeys(max) && Shaped(t) && Ordered(t, None, None, max, height)
    ensures PairsIn(InsertRoot(t, key, id, size, max)) == PairsIn(t) + iset{Pair(key, id)}
  {
    var r := Insert(t, key, id, size, max);
    forall p: Pair
      ensures p in PairsIn(InsertRoot(t, key, id, size, max)) <==> p in PairsIn(t) || p == Pair(key, id)
    {
      InsertHas(t, key, id, size, None, None, max, height, p.key, p.id);
      if r.split.Some? {
        var kids := [r.tree, r.split.value.right];
        assert Has(kids[0], p.key, p.id) || Has(kids[1], p.key, p.id) <==> AnyHas(kids, p.key, p.id);
      }
    }
  }

  /** Editing the routed leaf in place stores the tree after a removal. */
  lemma {:induction false} RemoveRep(nodes: seq<Node>, t: Tree, key: IndexKey, id: NovaId, after: Option<nat>)
    requires Shaped(t) && Rep(nodes, t, after) && Distinct(t, |nodes|)
    ensures Uses(t, Route(t, key).id) > 0 && Route(t, key).id < |nodes| && nodes[Route(t, key).id].LeafNode?
    ensures var leaf := Route(t, key);
            && nodes[leaf.id].entries == leaf.entries
            && Rep(nodes[leaf.id := nodes[leaf.id].(entries := RemovePair(leaf.entries, key, id))], Remove(t, key, id), after)
    decreases t
  {
    if t.Inner? {
      var keys, kids := t.keys, t.kids;
      var c := ChildIndex(keys, key);
      assert Rep(nodes, kids[c], After(kids, c, after));
      forall x: nat
        ensures UsesOf(kids, x) <= Fresh(0, |nodes|, x)
      {
        assert Uses(t, x) <= Fresh(0, |nodes|, x);
      }
      DistinctKid(kids, c, |nodes|);
      RemoveRep(nodes, kids[c], key, id, After(kids, c, after));
      var leaf := Route(kids[c], key);
      var edited := nodes[leaf.id := nodes[leaf.id].(entries := RemovePair(leaf.entries, key, id))];
      KidUses(kids, c, leaf.id);
      assert leaf.id != t.id;
      RemoveSlots(kids[c], key, id);
      var r := Insertion(Remove(kids[c], key, id), None, 0);
      ReplaceKidRep(nodes, edited, kids, c, r, after);
      assert Slots(kids[c := r.tree]) == Slots(kids);
    }
  }

  lemma {:induction false} RemoveSlots(t: Tree, key: IndexKey, id: NovaId)
    requires Shaped(t)
    ensures Remove(t, key, id).id == t.id && FirstLeaf(Remove(t, key, id)) == FirstLeaf(t)
    ensures Shaped(Remove(t, key, id))
    decreases t
  {
    if t.Inner? {
      RemoveSlots(t.kids[ChildIndex(t.keys, key)], key, id);
    }
  }

  lemma {:induction false} RemoveUses(t: Tree, key: IndexKey, id: NovaId, x: nat)
    requires Shaped(t)
    ensures Uses(Remove(t, key, id), x) == Uses(t, x)
    decreases t
  {
    if t.Inner? {
      var c := ChildIndex(t.keys, key);
      RemoveUses(t.kids[c], key, id, x);
      KidsAfterUses(t.kids, c, Insertion(Remove(t.kids[c], key, id), None, 0), x);
    }
  }

  lemma RemoveStored(nodes: seq<Node>, t: Tree, key: IndexKey, id: NovaId, max: nat, height: nat)
    requires Stored(nodes, t.id, max, t, height)
    ensures Route(t, key).id < |nodes| && nodes[Route(t, key).id].LeafNode?
    ensures var leaf := Route(t, key);
            && nodes[leaf.id].entries == leaf.entries
            && Stored(nodes[leaf.id := nodes[leaf.id].(entries := RemovePair(leaf.entries, key, id))], t.id, max, Remove(t, key, id), height)
  {
    RemoveRep(nodes, t, key, id, None);
    RemoveOrdered(t, key, id, None, None, max, height);
    RemoveFilled(t, key, id, max, 2);
    RemoveSlots(t, key, id);
    forall x: nat
      ensures Uses(Remove(t, key, id), x) == Fresh(0, |nodes|, x)
    {
      RemoveUses(t, key, id, x);
    }
  }

  /** `remove` deletes exactly one pair. */
  lemma RemovePairs(t: Tree, key: IndexKey, id: NovaId, max: nat, height: nat)
    requires Shaped(t) && Ordered(t, None, None, max, height)
    ensures PairsIn(Remove(t, key, id)) == PairsIn(t) - iset{Pair(key, id)}
  {
    forall p: Pair
      ensures p in PairsIn(Remove(t, key, id)) <==> p in PairsIn(t) && p != Pair(key, id)
    {
      RemoveHas(t, key, id, None, None, max, height, p.key, p.id);
    }
  }
}
