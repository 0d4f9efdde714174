/** The leaves of a tree in key order, and the chain that links them. */
module LeafChain {
  import opened Base
  import opened IndexKeys
  import opened Leaves
  import opened TreeModel
  import opened Arena

  datatype Pair = Pair(key: IndexKey, id: NovaId)

  ghost function LeavesOf(t: Tree): seq<Tree>
    decreases t, 1
  {
    match t
    case Leaf(_, _) => [t]
    case Inner(_, _, kids) => LeavesOfAll(kids)
  }

  ghost function LeavesOfAll(kids: seq<Tree>): seq<Tree>
    decreases kids, 0
  {
    if kids == [] then [] else LeavesOf(kids[0]) + LeavesOfAll(kids[1..])
  }

  ghost function EntriesOf(leaves: seq<Tree>): seq<Entry> {
    if leaves == [] then []
    else (if leaves[0].Leaf? then leaves[0].entries else []) + EntriesOf(leaves[1..])
  }

  /** All entries of the tree, leaf by leaf. */
  ghost function Flat(t: Tree): seq<Entry> {
    EntriesOf(LeavesOf(t))
  }

  lemma {:induction false} EntriesConcat(a: seq<Tree>, b: seq<Tree>)
    ensures EntriesOf(a + b) == EntriesOf(a) + EntriesOf(b)
  {
    if a == [] {
      assert a + b == b;
    } else {
      assert (a + b)[1..] == a[1..] + b;
      EntriesConcat(a[1..], b);
    }
  }

  lemma {:induction false} LeavesConcat(a: seq<Tree>, b: seq<Tree>)
    ensures LeavesOfAll(a + b) == LeavesOfAll(a) + LeavesOfAll(b)
  {
    if a == [] {
      assert a + b == b;
    } else {
      assert (a + b)[1..] == a[1..] + b;
      LeavesConcat(a[1..], b);
    }
  }

  lemma JoinEntries(a: seq<Entry>, b: seq<Entry>, sep: IndexKey, lo: Option<IndexKey>, hi: Option<IndexKey>)
    requires EntriesOk(a, lo, Some(sep)) && EntriesOk(b, Some(sep), hi) && StrictlyInside(sep, lo, hi)
    ensures EntriesOk(a + b, lo, hi)
  {
    var all := a + b;
    forall i, j | 0 <= i < j < |all|
      ensures Rank(all[i].key) < Rank(all[j].key)
    {
      assert i < |a| <= j ==> InBounds(a[i].key, lo, Some(sep)) && InBounds(b[j - |a|].key, Some(sep), hi);
    }
  }

  lemma {:induction false} FlatOk(t: Tree, lo: Option<IndexKey>, hi: Option<IndexKey>, max: nat, height: nat)
    requires Ordered(t, lo, hi, max, height)
    ensures EntriesOk(Flat(t), lo, hi)
    decreases t, 1
  {
    match t
    case Leaf(_, es) =>
      assert Flat(t) == es + EntriesOf([t][1..]) == es;
    case Inner(_, keys, kids) =>
      FlatKidsOk(keys, kids, lo, hi, max, height - 1);
  }

  lemma {:induction false} FlatKidsOk(keys: seq<IndexKey>, kids: seq<Tree>, lo: Option<IndexKey>, hi: Option<IndexKey>, max: nat, height: nat)
    requires KidsOrdered(keys, kids, lo, hi, max, height)
    ensures EntriesOk(EntriesOf(LeavesOfAll(kids)), lo, hi)
    decreases kids, 0
  {
    var rest := LeavesOfAll(kids[1..]);
    EntriesConcat(LeavesOf(kids[0]), rest);
    FlatOk(kids[0], lo, UpperOf(keys, 0, hi), max, height);
    if |keys| == 0 {
      assert rest == [];
    } else {
      SplitInnerOrdered(keys, kids, 0, lo, hi, max, height);
      FlatKidsOk(keys[1..], kids[1..], Some(keys[0]), hi, max, height);
      JoinEntries(Flat(kids[0]), EntriesOf(rest), keys[0], lo, hi);
    }
  }

  lemma {:induction false} FlatHas(t: Tree, key: IndexKey, id: NovaId)
    ensures HasPair(Flat(t), key, id) <==> Has(t, key, id)
    decreases t, 1
  {
    match t
    case Leaf(_, es) =>
      assert Flat(t) == es + EntriesOf([t][1..]) == es;
    case Inner(_, _, kids) =>
      FlatKidsHas(kids, key, id);
  }

  lemma {:induction false} FlatKidsHas(kids: seq<Tree>, key: IndexKey, id: NovaId)
    ensures HasPair(EntriesOf(LeavesOfAll(kids)), key, id) <==> AnyHas(kids, key, id)
    decreases kids, 0
  {
    if kids != [] {
      FlatHas(kids[0], key, id);
      FlatKidsHas(kids[1..], key, id);
      assert kids == [kids[0]] + kids[1..];
      AnyHasConcat([kids[0]], kids[1..], key, id);
      assert AnyHas([kids[0]], key, id) <==> Has([kids[0]][0], key, id);
      var all := EntriesOf(LeavesOfAll(kids));
      EntriesConcat(LeavesOf(kids[0]), LeavesOfAll(kids[1..]));
      SplitPairs(all, |Flat(kids[0])|, key, id);
      assert all[..|Flat(kids[0])|] == Flat(kids[0]);
      assert all[|Flat(kids[0])|..] == EntriesOf(LeavesOfAll(kids[1..]));
    }
  }

  // ---------- the linked chain ----------

  /** Following links from `from` visits exactly `leaves`, in that order. */
  ghost predicate Chain(nodes: seq<Node>, from: Option<nat>, leaves: seq<Tree>)
    decreases |leaves|
  {
    if leaves == [] then from == None
    else
      && from == Some(leaves[0].id) && leaves[0].Leaf? && leaves[0].id < |nodes|
      && nodes[leaves[0].id].LeafNode? && nodes[leaves[0].id].entries == leaves[0].entries
      && Chain(nodes, nodes[leaves[0].id].next, leaves[1..])
  }

  /** The leaf chain of a stored tree is its leaves in order. */
  lemma {:induction false} ChainOf(nodes: seq<Node>, t: Tree, after: Option<nat>, rest: seq<Tree>)
    requires Rep(nodes, t, after) && Chain(nodes, after, rest)
    ensures Chain(nodes, Some(FirstLeaf(t)), LeavesOf(t) + rest)
    decreases t, 1
  {
    match t
    case Leaf(_, _) =>
      assert ([t] + rest)[1..] == rest;
    case Inner(_, _, kids) =>
      ChainOfKids(nodes, kids, after, rest);
  }

  lemma {:induction false} ChainOfKids(nodes: seq<Node>, kids: seq<Tree>, after: Option<nat>, rest: seq<Tree>)
    requires kids != [] && RepKids(nodes, kids, after) && Chain(nodes, after, rest)
    ensures Chain(nodes, Some(FirstLeaf(kids[0])), LeavesOfAll(kids) + rest)
    decreases kids, 0
  {
    hide Chain;
    assert Rep(nodes, kids[0], After(kids, 0, after));
    if |kids| == 1 {
      ChainOf(nodes, kids[0], after, rest);
      assert LeavesOfAll(kids) == LeavesOf(kids[0]);
    } else {
      SplitKidsRep(nodes, kids, 1, after);
      ChainOfKids(nodes, kids[1..], after, rest);
      ChainOf(nodes, kids[0], Some(FirstLeaf(kids[1])), LeavesOfAll(kids[1..]) + rest);
      assert LeavesOfAll(kids) + rest == LeavesOf(kids[0]) + (LeavesOfAll(kids[1..]) + rest);
    }
  }

  lemma {:induction false} ChainSuffix(nodes: seq<Node>, from: Option<nat>, leaves: seq<Tree>, n: nat)
    requires Chain(nodes, from, leaves) && n < |leaves|
    ensures Chain(nodes, Some(leaves[n].id), leaves[n..])
    decreases n
  {
    if n > 0 {
      ChainSuffix(nodes, nodes[leaves[0].id].next, leaves[1..], n - 1);
      assert leaves[1..][n - 1..] == leaves[n..];
    }
  }

  /** The position of the routed leaf among all leaves. */
  ghost function RouteIndex(t: Tree, key: IndexKey): nat
    requires Shaped(t)
    decreases t
  {
    match t
    case Leaf(_, _) => 0
    case Inner(_, keys, kids) =>
      var c := ChildIndex(keys, key);
      |LeavesOfAll(kids[..c])| + RouteIndex(kids[c], key)
  }

  ghost predicate AllBelow(es: seq<Entry>, key: IndexKey) {
    forall i :: 0 <= i < |es| ==> Rank(es[i].key) < Rank(key)
  }

  lemma TakeInner<T>(a: seq<T>, b: seq<T>, c: seq<T>, n: nat)
    requires n < |b|
    ensures (a + (b + c))[..|a| + n] == a + b[..n] && (a + (b + c))[|a| + n] == b[n]
  {
  }

  lemma RouteSplit(kids: seq<Tree>, c: nat, n: nat)
    requires c < |kids| && n < |LeavesOf(kids[c])|
    ensures var before := LeavesOfAll(kids[..c]);
            && |before| + n < |LeavesOfAll(kids)| && LeavesOfAll(kids)[|before| + n] == LeavesOf(kids[c])[n]
            && EntriesOf(LeavesOfAll(kids)[..|before| + n]) == EntriesOf(before) + EntriesOf(LeavesOf(kids[c])[..n])
  {
    var before, here, rest := LeavesOfAll(kids[..c]), LeavesOf(kids[c]), LeavesOfAll(kids[c..][1..]);
    assert kids == kids[..c] + kids[c..];
    LeavesConcat(kids[..c], kids[c..]);
    assert LeavesOfAll(kids[c..]) == here + rest;
    TakeInner(before, here, rest, n);
    EntriesConcat(before, here[..n]);
  }

  lemma AllBelowConcat(a: seq<Entry>, b: seq<Entry>, key: IndexKey)
    requires AllBelow(a, key) && AllBelow(b, key)
    ensures AllBelow(a + b, key)
  {
  }

  lemma KidsBelow(keys: seq<IndexKey>, kids: seq<Tree>, c: nat, key: IndexKey,
                  lo: Option<IndexKey>, hi: Option<IndexKey>, max: nat, height: nat)
    requires KidsOrdered(keys, kids, lo, hi, max, height) && c <= |keys|
    requires c > 0 ==> Rank(keys[c - 1]) <= Rank(key)
    ensures AllBelow(EntriesOf(LeavesOfAll(kids[..c])), key)
  {
    if c > 0 {
      SplitInnerOrdered(keys, kids, c - 1, lo, hi, max, height);
      FlatKidsOk(keys[..c - 1], kids[..c], lo, Some(keys[c - 1]), max, height);
    }
  }

  /** Every entry in the leaves before the routed one has a smaller key. */
  lemma {:induction false} RouteChain(t: Tree, key: IndexKey, lo: Option<IndexKey>, hi: Option<IndexKey>, max: nat, height: nat)
    requires Shaped(t) && Ordered(t, lo, hi, max, height)
    ensures RouteIndex(t, key) < |LeavesOf(t)| && LeavesOf(t)[RouteIndex(t, key)] == Route(t, key)
    ensures AllBelow(EntriesOf(LeavesOf(t)[..RouteIndex(t, key)]), key)
    decreases t
  {
    hide AllBelow, EntriesOf, LeavesOfAll;
    if t.Leaf? {
      NoneBelow(t, key);
    } else {
      var keys, kids := t.keys, t.kids;
      var c := ChildIndex(keys, key);
      RouteChain(kids[c], key, LowerOf(keys, c, lo), UpperOf(keys, c, hi), max, height - 1);
      KidsBelow(keys, kids, c, key, lo, hi, max, height - 1);
      RouteBelow(kids, c, RouteIndex(kids[c], key), key);
    }
  }

  lemma NoneBelow(leaf: Tree, key: IndexKey)
    ensures AllBelow(EntriesOf([leaf][..0]), key)
  {
  }

  lemma RouteBelow(kids: seq<Tree>, c: nat, n: nat, key: IndexKey)
    requires c < |kids| && n < |LeavesOf(kids[c])|
    requires AllBelow(EntriesOf(LeavesOfAll(kids[..c])), key) && AllBelow(EntriesOf(LeavesOf(kids[c])[..n]), key)
    ensures var m := |LeavesOfAll(kids[..c])| + n;
            && m < |LeavesOfAll(kids)| && LeavesOfAll(kids)[m] == LeavesOf(kids[c])[n]
            && AllBelow(EntriesOf(LeavesOfAll(kids)[..m]), key)
  {
    hide AllBelow;
    RouteSplit(kids, c, n);
    AllBelowConcat(EntriesOf(LeavesOfAll(kids[..c])), EntriesOf(LeavesOf(kids[c])[..n]), key);
  }

  // ---------- ranges ----------

  /** The pairs with keys in the closed interval, entry by entry. */
  function PairsBetween(es: seq<Entry>, start: IndexKey, end: IndexKey): seq<Pair> {
    if es == [] then []
    else
      var last := es[|es| - 1];
      PairsBetween(es[..|es| - 1], start, end) +
      (if Less(last.key, start) || Less(end, last.key) then [] else PairsOf(last))
  }

  lemma PairsBetweenStep(es: seq<Entry>, e: Entry, start: IndexKey, end: IndexKey)
    ensures PairsBetween(es + [e], start, end) ==
            PairsBetween(es, start, end) + (if Between(e.key, start, end) then PairsOf(e) else [])
  {
    assert (es + [e])[..|es|] == es;
  }

  function PairsOf(e: Entry): seq<Pair> {
    seq(|e.ids|, i requires 0 <= i < |e.ids| => Pair(e.key, e.ids[i]))
  }

  ghost predicate PairLess(a: Pair, b: Pair) {
    Rank(a.key) < Rank(b.key) || (a.key == b.key && a.id < b.id)
  }

  ghost predicate SortedPairs(ps: seq<Pair>) {
    forall i, j :: 0 <= i < j < |ps| ==> PairLess(ps[i], ps[j])
  }

  ghost predicate Between(key: IndexKey, start: IndexKey, end: IndexKey) {
    Rank(start) <= Rank(key) <= Rank(end)
  }

  /** Entries outside the interval contribute nothing. */
  lemma {:induction false} PairsBetweenTail(a: seq<Entry>, b: seq<Entry>, start: IndexKey, end: IndexKey)
    requires forall i :: 0 <= i < |b| ==> !Between(b[i].key, start, end)
    ensures PairsBetween(a + b, start, end) == PairsBetween(a, start, end)
    decreases |b|
  {
    if b == [] {
      assert a + b == a;
    } else {
      var all := a + b;
      assert all[..|all| - 1] == a + b[..|b| - 1];
      PairsBetweenTail(a, b[..|b| - 1], start, end);
    }
  }

  lemma {:induction false} PairsBetweenOk(es: seq<Entry>, start: IndexKey, end: IndexKey)
    requires EntriesOk(es, None, None)
    ensures SortedPairs(PairsBetween(es, start, end))
    ensures forall p :: p in PairsBetween(es, start, end) <==> HasPair(es, p.key, p.id) && Between(p.key, start, end)
  {
    if es != [] {
      var front, last := es[..|es| - 1], es[|es| - 1];
      PairsBetweenOk(front, start, end);
      assert es == front + [last];
      PairsBetweenStep(front, last, start, end);
      var a, b := PairsBetween(front, start, end), if Between(last.key, start, end) then PairsOf(last) else [];
      forall p: Pair
        ensures p in a + b <==> HasPair(es, p.key, p.id) && Between(p.key, start, end)
      {
        SplitPairs(es, |front|, p.key, p.id);
        assert es[|front|..] == [last];
        PairsOfMembers(last, p);
      }
      AppendSorted(a, b, last);
    }
  }

  lemma AppendSorted(a: seq<Pair>, b: seq<Pair>, last: Entry)
    requires SortedPairs(a) && SortedIds(last.ids) && (b == PairsOf(last) || b == [])
    requires forall p :: p in a ==> Rank(p.key) < Rank(last.key)
    ensures SortedPairs(a + b)
  {
    var all := a + b;
    forall i, j | 0 <= i < j < |all|
      ensures PairLess(all[i], all[j])
    {
      assert i < |a| ==> a[i] in a;
    }
  }

  lemma PairsOfMembers(e: Entry, p: Pair)
    ensures p in PairsOf(e) <==> p.key == e.key && p.id in e.ids
    ensures HasPair([e], p.key, p.id) <==> p.key == e.key && p.id in e.ids
  {
    if p.key == e.key && p.id in e.ids {
      var i :| 0 <= i < |e.ids| && e.ids[i] == p.id;
      assert PairsOf(e)[i] == p;
      assert [e][0].key == p.key;
    }
  }
}
