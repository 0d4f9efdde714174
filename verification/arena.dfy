/** How a tree value lies in the arena of nodes, leaf chain included. */
module Arena {
  import opened Base
  import opened IndexKeys
  import opened Leaves
  import opened TreeModel

  datatype Node =
    | LeafNode(entries: seq<Entry>, next: Option<nat>)
    | InnerNode(keys: seq<IndexKey>, children: seq<nat>)

  function FirstLeaf(t: Tree): nat
    decreases t
  {
    match t
    case Leaf(slot, _) => slot
    case Inner(slot, _, kids) => if kids == [] then slot else FirstLeaf(kids[0])
  }

  /** The leaf that follows child `i` in key order. */
  function After(kids: seq<Tree>, i: nat, after: Option<nat>): Option<nat>
    requires i < |kids|
  {
    if i + 1 < |kids| then Some(FirstLeaf(kids[i + 1])) else after
  }

  function Slots(kids: seq<Tree>): seq<nat> {
    seq(|kids|, i requires 0 <= i < |kids| => kids[i].id)
  }

  /** The arena holds `t`, and the last leaf of `t` links to `after`. */
  ghost predicate Rep(nodes: seq<Node>, t: Tree, after: Option<nat>)
    decreases t, 1
  {
    && t.id < |nodes|
    && match t
       case Leaf(slot, es) => nodes[slot] == LeafNode(es, after)
       case Inner(slot, keys, kids) =>
         nodes[slot] == InnerNode(keys, Slots(kids)) && |kids| == |keys| + 1 && RepKids(nodes, kids, after)
  }

  ghost predicate RepKids(nodes: seq<Node>, kids: seq<Tree>, after: Option<nat>)
    decreases kids, 0
  {
    forall i :: 0 <= i < |kids| ==> Rep(nodes, kids[i], After(kids, i, after))
  }

  /** How often a tree uses arena slot `x`. */
  ghost function Uses(t: Tree, x: nat): nat
    decreases t, 1
  {
    match t
    case Leaf(slot, _) => One(slot, x)
    case Inner(slot, _, kids) => One(slot, x) + UsesOf(kids, x)
  }

  ghost function UsesOf(kids: seq<Tree>, x: nat): nat
    decreases kids, 0
  {
    if kids == [] then 0 else Uses(kids[0], x) + UsesOf(kids[1..], x)
  }

  ghost function One(slot: nat, x: nat): nat {
    if slot == x then 1 else 0
  }

  /** The slots `from`, ..., `to - 1`, once each. */
  ghost function Fresh(from: nat, to: nat, x: nat): nat {
    if from <= x < to then 1 else 0
  }

  lemma {:induction false} UsesConcat(a: seq<Tree>, b: seq<Tree>, x: nat)
    ensures UsesOf(a + b, x) == UsesOf(a, x) + UsesOf(b, x)
  {
    if a == [] {
      assert a + b == b;
    } else {
      var all := a + b;
      assert all[0] == a[0] && all[1..] == a[1..] + b;
      UsesConcat(a[1..], b, x);
    }
  }

  lemma UsesSplit(kids: seq<Tree>, c: nat, x: nat)
    requires c < |kids|
    ensures UsesOf(kids, x) == UsesOf(kids[..c], x) + Uses(kids[c], x) + UsesOf(kids[c + 1..], x)
  {
    assert kids == kids[..c] + kids[c..];
    UsesConcat(kids[..c], kids[c..], x);
  }

  ghost function UsesAfter(r: Insertion, x: nat): nat {
    Uses(r.tree, x) + if r.split.None? then 0 else Uses(r.split.value.right, x)
  }

  ghost function Pieces(r: Insertion): seq<Tree> {
    [r.tree] + if r.split.None? then [] else [r.split.value.right]
  }

  lemma PiecesUses(r: Insertion, x: nat)
    ensures UsesOf(Pieces(r), x) == UsesAfter(r, x)
  {
    var rest := if r.split.None? then [] else [r.split.value.right];
    assert Pieces(r) == [r.tree] + rest;
    UsesConcat([r.tree], rest, x);
  }

  lemma KidsAfterUses(kids: seq<Tree>, c: nat, r: Insertion, x: nat)
    requires c < |kids|
    ensures UsesOf(KidsAfter(kids, c, r), x) == UsesOf(kids, x) - Uses(kids[c], x) + UsesAfter(r, x)
  {
    assert KidsAfter(kids, c, r) == (kids[..c] + Pieces(r)) + kids[c + 1..];
    UsesConcat(kids[..c] + Pieces(r), kids[c + 1..], x);
    UsesConcat(kids[..c], Pieces(r), x);
    PiecesUses(r, x);
    UsesSplit(kids, c, x);
  }

  lemma FinishUses(slot: nat, keys: seq<IndexKey>, kids: seq<Tree>, size: nat, max: nat, x: nat)
    requires |kids| == |keys| + 1
    ensures var r := Finish(slot, keys, kids, size, max);
            && r.size == size + (if |keys| > max then 1 else 0)
            && UsesAfter(r, x) == One(slot, x) + UsesOf(kids, x) + Fresh(size, r.size, x)
  {
    if |keys| > max {
      var m := |keys| / 2 + 1;
      assert kids == kids[..m] + kids[m..];
      UsesConcat(kids[..m], kids[m..], x);
    }
  }

  /** Inserting uses every old slot as often as before, and each newly pushed slot once. */
  lemma {:induction false} InsertUses(t: Tree, key: IndexKey, id: NovaId, size: nat, max: nat, x: nat)
    requires Shaped(t)
    ensures var r := Insert(t, key, id, size, max);
            size <= r.size && UsesAfter(r, x) == Uses(t, x) + Fresh(size, r.size, x)
    decreases t
  {
    match t
    case Leaf(_, _) =>
    case Inner(slot, keys, kids) =>
      var c := ChildIndex(keys, key);
      InsertUses(kids[c], key, id, size, max, x);
      var r := Insert(kids[c], key, id, size, max);
      KidsAfterUses(kids, c, r, x);
      FinishUses(slot, KeysAfter(keys, c, r), KidsAfter(kids, c, r), r.size, max, x);
  }

  /** A node keeps its slot and its first leaf, and a new sibling takes the last pushed slot. */
  lemma {:induction false} InsertSlots(t: Tree, key: IndexKey, id: NovaId, size: nat, max: nat)
    requires Shaped(t)
    ensures var r := Insert(t, key, id, size, max);
            && r.tree.id == t.id && FirstLeaf(r.tree) == FirstLeaf(t)
            && (r.split.Some? ==> r.split.value.right.id == r.size - 1)
    decreases t
  {
    if t.Inner? {
      var c := ChildIndex(t.keys, key);
      InsertSlots(t.kids[c], key, id, size, max);
      var r := Insert(t.kids[c], key, id, size, max);
      assert KidsAfter(t.kids, c, r)[0] == if c == 0 then r.tree else t.kids[0];
      FinishSlots(t.id, KeysAfter(t.keys, c, r), KidsAfter(t.kids, c, r), r.size, max);
    }
  }

  lemma FinishSlots(slot: nat, keys: seq<IndexKey>, kids: seq<Tree>, size: nat, max: nat)
    requires |kids| == |keys| + 1
    ensures var r := Finish(slot, keys, kids, size, max);
            && r.tree.id == slot && FirstLeaf(r.tree) == FirstLeaf(kids[0])
            && (r.split.Some? ==> r.split.value.right.id == r.size - 1)
  {
  }

  // ---------- framing ----------

  lemma KidUses(kids: seq<Tree>, i: nat, x: nat)
    requires i < |kids|
    ensures Uses(kids[i], x) <= UsesOf(kids, x)
  {
    UsesSplit(kids, i, x);
  }

  /** The slots of `t` hold the same nodes in both arenas. */
  ghost predicate Kept(before: seq<Node>, nodes: seq<Node>, t: Tree) {
    forall x: nat :: Uses(t, x) > 0 ==> x < |before| && x < |nodes| && nodes[x] == before[x]
  }

  ghost predicate KeptAll(before: seq<Node>, nodes: seq<Node>, kids: seq<Tree>) {
    forall x: nat :: UsesOf(kids, x) > 0 ==> x < |before| && x < |nodes| && nodes[x] == before[x]
  }

  /** A subtree stays in place while its own slots do. */
  lemma RepFrame(before: seq<Node>, nodes: seq<Node>, t: Tree, after: Option<nat>)
    requires Rep(before, t, after) && Kept(before, nodes, t)
    ensures Rep(nodes, t, after)
    decreases t, 1
  {
    assert Uses(t, t.id) > 0;
    if t.Inner? {
      assert forall x: nat :: UsesOf(t.kids, x) > 0 ==> Uses(t, x) > 0;
      RepKidsFrame(before, nodes, t.kids, after);
    }
  }

  lemma RepKidsFrame(before: seq<Node>, nodes: seq<Node>, kids: seq<Tree>, after: Option<nat>)
    requires RepKids(before, kids, after) && KeptAll(before, nodes, kids)
    ensures RepKids(nodes, kids, after)
    decreases kids, 0
  {
    forall i | 0 <= i < |kids|
      ensures Rep(nodes, kids[i], After(kids, i, after))
    {
      forall x: nat | Uses(kids[i], x) > 0
        ensures UsesOf(kids, x) > 0
      {
        KidUses(kids, i, x);
      }
      RepFrame(before, nodes, kids[i], After(kids, i, after));
    }
  }

  ghost predicate RepAfter(nodes: seq<Node>, r: Insertion, after: Option<nat>) {
    if r.split.None? then Rep(nodes, r.tree, after)
    else Rep(nodes, r.tree, Some(FirstLeaf(r.split.value.right))) && Rep(nodes, r.split.value.right, after)
  }

  /** Each slot is used at most once, and all lie in the arena. */
  ghost predicate Distinct(t: Tree, size: nat) {
    forall x: nat :: Uses(t, x) <= Fresh(0, size, x)
  }

  ghost predicate DistinctKids(kids: seq<Tree>, size: nat) {
    forall x: nat :: UsesOf(kids, x) <= Fresh(0, size, x)
  }

  lemma DistinctKid(kids: seq<Tree>, i: nat, size: nat)
    requires i < |kids| && DistinctKids(kids, size)
    ensures Distinct(kids[i], size)
  {
    forall x: nat
      ensures Uses(kids[i], x) <= Fresh(0, size, x)
    {
      KidUses(kids, i, x);
    }
  }

  /** A slot is used at most once, so siblings never share one. */
  lemma SiblingKept(before: seq<Node>, nodes: seq<Node>, kids: seq<Tree>, c: nat, j: nat)
    requires c < |kids| && j < |kids| && j != c && DistinctKids(kids, |before|) && |before| <= |nodes|
    requires forall x: nat :: x < |before| && Uses(kids[c], x) == 0 ==> nodes[x] == before[x]
    ensures Kept(before, nodes, kids[j])
  {
    forall x: nat | Uses(kids[j], x) > 0
      ensures x < |before| && Uses(kids[c], x) == 0
    {
      UsesSplit(kids, c, x);
      if j < c {
        KidUses(kids[..c], j, x);
      } else {
        KidUses(kids[c + 1..], j - c - 1, x);
      }
    }
  }

  /** Writing back one child leaves its siblings in place. */
  lemma ReplaceKidRep(before: seq<Node>, nodes: seq<Node>, kids: seq<Tree>, c: nat, r: Insertion, after: Option<nat>)
    requires c < |kids| && RepKids(before, kids, after) && DistinctKids(kids, |before|) && |before| <= |nodes|
    requires forall x: nat :: x < |before| && Uses(kids[c], x) == 0 ==> nodes[x] == before[x]
    requires RepAfter(nodes, r, After(kids, c, after)) && FirstLeaf(r.tree) == FirstLeaf(kids[c])
    ensures RepKids(nodes, KidsAfter(kids, c, r), after)
  {
    var out := KidsAfter(kids, c, r);
    forall i | 0 <= i < |out|
      ensures Rep(nodes, out[i], After(out, i, after))
    {
      var j := if i <= c || r.split.None? then i else i - 1;
      KidsAfterLinks(kids, c, r, i, after);
      if j != c {
        assert Rep(before, kids[j], After(kids, j, after));
        SiblingKept(before, nodes, kids, c, j);
        RepFrame(before, nodes, kids[j], After(kids, j, after));
      }
    }
  }

  /** Child `i` after an insertion below child `c`, and the leaf that follows it. */
  lemma KidsAfterLinks(kids: seq<Tree>, c: nat, r: Insertion, i: nat, after: Option<nat>)
    requires c < |kids| && i < |KidsAfter(kids, c, r)| && FirstLeaf(r.tree) == FirstLeaf(kids[c])
    ensures var out := KidsAfter(kids, c, r);
            && (i == c ==> out[i] == r.tree)
            && (i == c && r.split.Some? ==> After(out, i, after) == Some(FirstLeaf(r.split.value.right)))
            && (i == c && r.split.None? ==> After(out, i, after) == After(kids, c, after))
            && (r.split.Some? && i == c + 1 ==> out[i] == r.split.value.right && After(out, i, after) == After(kids, c, after))
            && (i < c || (r.split.None? && i > c) ==> out[i] == kids[i] && After(out, i, after) == After(kids, i, after))
            && (r.split.Some? && i > c + 1 ==> out[i] == kids[i - 1] && After(out, i, after) == After(kids, i - 1, after))
  {
  }

  /** Splitting the children of a node splits their chain where the right half starts. */
  lemma SplitKidsRep(nodes: seq<Node>, kids: seq<Tree>, m: nat, after: Option<nat>)
    requires 0 < m < |kids| && RepKids(nodes, kids, after)
    ensures RepKids(nodes, kids[..m], Some(FirstLeaf(kids[m])))
    ensures RepKids(nodes, kids[m..], after)
  {
    var right := kids[m..];
    forall i | 0 <= i < |right|
      ensures Rep(nodes, right[i], After(right, i, after))
    {
      assert Rep(nodes, kids[m + i], After(kids, m + i, after));
    }
  }
}
