/** The structural check that `sync` and `open` run, and exactly which arenas it accepts. */
module TreeVerify {
  import opened Base
  import opened IndexKeys
  import opened Leaves
  import opened TreeModel
  import opened Arena
  import opened LeafChain

  /** The arena holds `t`, whatever the leaf links are. */
  ghost predicate Agrees(nodes: seq<Node>, t: Tree)
    decreases t, 1
  {
    && t.id < |nodes|
    && match t
       case Leaf(slot, es) => nodes[slot].LeafNode? && nodes[slot].entries == es
       case Inner(slot, keys, kids) => nodes[slot] == InnerNode(keys, Slots(kids)) && AgreesAll(nodes, kids)
  }

  ghost predicate AgreesAll(nodes: seq<Node>, kids: seq<Tree>)
    decreases kids, 0
  {
    forall i :: 0 <= i < |kids| ==> Agrees(nodes, kids[i])
  }

  /**
   * What `verify_node` checks of a subtree. Unlike `Ordered`, the keys of an inner node are not
   * compared with the bounds the node inherits.
   */
  ghost predicate Checked(t: Tree, lo: Option<IndexKey>, hi: Option<IndexKey>, max: nat, height: nat)
    decreases t, 1
  {
    match t
    case Leaf(_, es) => height == 0 && |es| <= max && EntriesOk(es, lo, hi)
    case Inner(_, keys, kids) =>
      height > 0 && 1 <= |keys| <= max && |kids| == |keys| + 1 && SortedKeys(keys) && CheckedAll(keys, kids, lo, hi, max, height - 1)
  }

  ghost predicate CheckedAll(keys: seq<IndexKey>, kids: seq<Tree>, lo: Option<IndexKey>, hi: Option<IndexKey>, max: nat, height: nat)
    requires |kids| <= |keys| + 1
    decreases kids, 0
  {
    forall i :: 0 <= i < |kids| ==> Checked(kids[i], LowerOf(keys, i, lo), UpperOf(keys, i, hi), max, height)
  }

  ghost predicate NextsInRange(nodes: seq<Node>, t: Tree) {
    forall x: nat :: Uses(t, x) > 0 && x < |nodes| && nodes[x].LeafNode? && nodes[x].next.Some? ==> nodes[x].next.value < |nodes|
  }

  function Unvisited(visited: seq<bool>): set<nat> {
    set x: nat | x < |visited| && !visited[x]
  }

  function KeysOf(entries: seq<Entry>): seq<IndexKey> {
    seq(|entries|, i requires 0 <= i < |entries| => entries[i].key)
  }

  lemma KeysOfSorted(entries: seq<Entry>)
    ensures SortedKeys(KeysOf(entries)) <==> SortedEntries(entries)
  {
    assert forall i :: 0 <= i < |entries| ==> KeysOf(entries)[i] == entries[i].key;
  }

  /** The leaf checks: capacity, link, order, bounds and ids. */
  method VerifyLeaf(entries: seq<Entry>, next: Option<nat>, size: nat, max: nat, lower: Option<IndexKey>, upper: Option<IndexKey>)
    returns (ok: bool)
    ensures ok <==> |entries| <= max && EntriesOk(entries, lower, upper) && (next.Some? ==> next.value < size)
  {
    if |entries| > max || (next.Some? && next.value >= size) {
      return false;
    }
    var sorted := KeysIncrease(KeysOf(entries));
    KeysOfSorted(entries);
    if !sorted {
      return false;
    }
    var i := 0;
    while i < |entries|
      invariant i <= |entries|
      invariant forall j :: 0 <= j < i ==> InBounds(entries[j].key, lower, upper) && entries[j].ids != [] && SortedIds(entries[j].ids)
    {
      if (lower.Some? && Less(entries[i].key, lower.value)) || (upper.Some? && !Less(entries[i].key, upper.value)) {
        return false;
      }
      var idsIncrease := IdsIncrease(entries[i].ids);
      if entries[i].ids == [] || !idsIncrease {
        return false;
      }
      i := i + 1;
    }
    return true;
  }

  /** `windows(2)` over keys. */
  method KeysIncrease(keys: seq<IndexKey>) returns (ok: bool)
    ensures ok <==> SortedKeys(keys)
  {
    if keys == [] {
      return true;
    }
    var i := 1;
    while i < |keys|
      invariant 1 <= i <= |keys| && SortedKeys(keys[..i])
    {
      if !Less(keys[i - 1], keys[i]) {
        return false;
      }
      i := i + 1;
    }
    assert keys[..i] == keys;
    return true;
  }

  method IdsIncrease(ids: seq<NovaId>) returns (ok: bool)
    ensures ok <==> SortedIds(ids)
  {
    if ids == [] {
      return true;
    }
    var i := 1;
    while i < |ids|
      invariant 1 <= i <= |ids| && SortedIds(ids[..i])
    {
      if ids[i - 1] >= ids[i] {
        return false;
      }
      i := i + 1;
    }
    assert ids[..i] == ids;
    return true;
  }

  /** One if slot `x` was visited between the two states. */
  ghost function Newly(before: seq<bool>, now: seq<bool>, x: nat): nat {
    if x < |before| && x < |now| && !before[x] && now[x] then 1 else 0
  }

  ghost predicate Grows(before: seq<bool>, now: seq<bool>) {
    |before| == |now| && forall x: nat :: x < |before| && before[x] ==> now[x]
  }

  /** What a successful visit has established: a checked subtree, each slot of which was new. */
  ghost predicate Visited(nodes: seq<Node>, max: nat, lower: Option<IndexKey>, upper: Option<IndexKey>,
                          depth: nat, leafDepth: nat, before: seq<bool>, now: seq<bool>, t: Tree)
  {
    && Agrees(nodes, t) && NextsInRange(nodes, t)
    && depth <= leafDepth && Checked(t, lower, upper, max, leafDepth - depth)
    && forall x: nat :: Uses(t, x) == Newly(before, now, x)
  }

  ghost predicate VisitedKids(nodes: seq<Node>, max: nat, keys: seq<IndexKey>, lower: Option<IndexKey>, upper: Option<IndexKey>,
                              depth: nat, leafDepth: nat, before: seq<bool>, now: seq<bool>, kids: seq<Tree>)
  {
    && AgreesAll(nodes, kids) && (forall i :: 0 <= i < |kids| ==> NextsInRange(nodes, kids[i]))
    && depth <= leafDepth && |kids| <= |keys| + 1 && CheckedAll(keys, kids, lower, upper, max, leafDepth - depth)
    && forall x: nat :: UsesOf(kids, x) == Newly(before, now, x)
  }

  ghost predicate AllNew(visited: seq<bool>, uses: nat, x: nat) {
    uses <= if x < |visited| && !visited[x] then 1 else 0
  }

  /** A subtree that a visit has to accept. */
  ghost predicate Acceptable(nodes: seq<Node>, max: nat, lower: Option<IndexKey>, upper: Option<IndexKey>,
                             depth: nat, leafDepth: Option<nat>, visited: seq<bool>, t: Tree, height: nat)
  {
    && Agrees(nodes, t) && NextsInRange(nodes, t) && Checked(t, lower, upper, max, height)
    && (leafDepth.Some? ==> leafDepth.value == depth + height)
    && forall x: nat :: AllNew(visited, Uses(t, x), x)
  }

  ghost predicate AcceptableKids(nodes: seq<Node>, max: nat, keys: seq<IndexKey>, lower: Option<IndexKey>, upper: Option<IndexKey>,
                                 depth: nat, leafDepth: Option<nat>, visited: seq<bool>, kids: seq<Tree>, height: nat)
  {
    && AgreesAll(nodes, kids) && (forall i :: 0 <= i < |kids| ==> NextsInRange(nodes, kids[i]))
    && |kids| == |keys| + 1 && CheckedAll(keys, kids, lower, upper, max, height)
    && (leafDepth.Some? ==> leafDepth.value == depth + height)
    && forall x: nat :: AllNew(visited, UsesOf(kids, x), x)
  }

  /**
   * `verify_node`: accepts exactly when some checked tree lies at `slot`, all of it new.
   * `t` and `height` name such a tree, if there is one.
   */
  method VerifyNode(nodes: seq<Node>, max: nat, slot: nat, lower: Option<IndexKey>, upper: Option<IndexKey>,
                    depth: nat, leafDepth: Option<nat>, visited: seq<bool>, ghost t: Tree, ghost height: nat)
    returns (ok: bool, leafDepth': Option<nat>, visited': seq<bool>, ghost found: Tree)
    requires |visited| == |nodes|
    ensures Grows(visited, visited')
    ensures ok ==> found.id == slot && leafDepth'.Some? && (leafDepth.Some? ==> leafDepth == leafDepth')
    ensures ok ==> Visited(nodes, max, lower, upper, depth, leafDepth'.value, visited, visited', found)
    ensures t.id == slot && Acceptable(nodes, max, lower, upper, depth, leafDepth, visited, t, height) ==>
              ok && leafDepth' == Some(depth + height) && found == t
    decreases Unvisited(visited), 0
  {
    ok, leafDepth', visited', found := false, leafDepth, visited, t;
    OwnSlot(t);
    assert Acceptable(nodes, max, lower, upper, depth, leafDepth, visited, t, height) ==> AllNew(visited, Uses(t, t.id), t.id);
    if slot >= |nodes| || visited[slot] {
      return;
    }
    visited' := visited[slot := true];
    match nodes[slot]
    case LeafNode(entries, next) =>
      ok := VerifyLeaf(entries, next, |nodes|, max, lower, upper);
      if !ok {
        return;
      }
      if leafDepth.Some? && leafDepth.value != depth {
        ok := false;
        return;
      }
      found, leafDepth' := Leaf(slot, entries), Some(depth);
    case InnerNode(_, _) =>
      assert slot in Unvisited(visited) && slot !in Unvisited(visited');
      ok, leafDepth', visited', found := VerifyInner(nodes, max, slot, lower, upper, depth, leafDepth, visited', t, height);
      if ok {
        InnerVisited(nodes, max, slot, found.keys, lower, upper, depth, leafDepth'.value, visited, visited', found.kids);
      }
  }

  /** The inner case, after the node itself was marked. */
  method VerifyInner(nodes: seq<Node>, max: nat, slot: nat, lower: Option<IndexKey>, upper: Option<IndexKey>,
                     depth: nat, leafDepth: Option<nat>, visited: seq<bool>, ghost t: Tree, ghost height: nat)
    returns (ok: bool, leafDepth': Option<nat>, visited': seq<bool>, ghost found: Tree)
    requires |visited| == |nodes| && slot < |nodes| && nodes[slot].InnerNode? && visited[slot]
    ensures Grows(visited, visited')
    ensures ok ==> found.Inner? && found.id == slot && leafDepth'.Some? && (leafDepth.Some? ==> leafDepth == leafDepth')
    ensures ok ==> nodes[slot] == InnerNode(found.keys, Slots(found.kids)) && |found.kids| == |found.keys| + 1
    ensures ok ==> 1 <= |found.keys| <= max && SortedKeys(found.keys)
    ensures ok ==> VisitedKids(nodes, max, found.keys, lower, upper, depth + 1, leafDepth'.value, visited, visited', found.kids)
    ensures t.id == slot && Acceptable(nodes, max, lower, upper, depth, leafDepth, visited[slot := false], t, height) ==>
              ok && leafDepth' == Some(depth + height) && found == t
    decreases Unvisited(visited), 2
  {
    ok, leafDepth', visited', found := false, leafDepth, visited, t;
    var keys, children := nodes[slot].keys, nodes[slot].children;
    ghost var fits := t.id == slot && Acceptable(nodes, max, lower, upper, depth, leafDepth, visited[slot := false], t, height);
    if fits {
      InnerAcceptable(nodes, max, lower, upper, depth, leafDepth, visited[slot := false], t, height);
    }
    assert visited[slot := false][slot := true] == visited;
    if keys == [] || |keys| > max || |children| != |keys| + 1 {
      return;
    }
    var increasing := KeysIncrease(keys);
    if !increasing {
      return;
    }
    ghost var kids;
    ok, leafDepth', visited', kids := VerifyChildren(nodes, max, keys, children, lower, upper, depth + 1, leafDepth, visited,
                                                     if fits then t.kids else [], if fits then height - 1 else 0);
    found := if ok then Inner(slot, keys, kids) else t;
  }

  lemma OwnSlot(t: Tree)
    ensures Uses(t, t.id) > 0
  {
  }

  lemma InnerVisited(nodes: seq<Node>, max: nat, slot: nat, keys: seq<IndexKey>, lower: Option<IndexKey>, upper: Option<IndexKey>,
                     depth: nat, leafDepth: nat, before: seq<bool>, now: seq<bool>, kids: seq<Tree>)
    requires slot < |before| && !before[slot] && |nodes| == |before|
    requires Grows(before[slot := true], now)
    requires VisitedKids(nodes, max, keys, lower, upper, depth + 1, leafDepth, before[slot := true], now, kids)
    requires nodes[slot] == InnerNode(keys, Slots(kids)) && |kids| == |keys| + 1 && 1 <= |keys| <= max && SortedKeys(keys)
    ensures Visited(nodes, max, lower, upper, depth, leafDepth, before, now, Inner(slot, keys, kids))
  {
    var t := Inner(slot, keys, kids);
    forall x: nat
      ensures Uses(t, x) == Newly(before, now, x)
    {
      assert UsesOf(kids, x) == Newly(before[slot := true], now, x);
    }
    InnerNexts(nodes, t);
  }

  lemma InnerNexts(nodes: seq<Node>, t: Tree)
    requires t.Inner? && t.id < |nodes| && nodes[t.id].InnerNode?
    ensures NextsInRange(nodes, t) <==> forall i :: 0 <= i < |t.kids| ==> NextsInRange(nodes, t.kids[i])
  {
    forall x: nat
      ensures Uses(t, x) > 0 && x != t.id ==> exists i :: 0 <= i < |t.kids| && Uses(t.kids[i], x) > 0
      ensures forall i :: 0 <= i < |t.kids| && Uses(t.kids[i], x) > 0 ==> Uses(t, x) > 0
    {
      SomeKidUses(t.kids, x);
      forall i | 0 <= i < |t.kids| && Uses(t.kids[i], x) > 0
        ensures Uses(t, x) > 0
      {
        KidUses(t.kids, i, x);
      }
    }
  }

  lemma {:induction false} SomeKidUses(kids: seq<Tree>, x: nat)
    ensures UsesOf(kids, x) > 0 ==> exists i :: 0 <= i < |kids| && Uses(kids[i], x) > 0
  {
    if kids != [] && Uses(kids[0], x) == 0 {
      SomeKidUses(kids[1..], x);
      if UsesOf(kids[1..], x) > 0 {
        var i :| 0 <= i < |kids[1..]| && Uses(kids[1..][i], x) > 0;
        assert Uses(kids[i + 1], x) > 0;
      }
    }
  }

  lemma InnerAcceptable(nodes: seq<Node>, max: nat, lower: Option<IndexKey>, upper: Option<IndexKey>,
                        depth: nat, leafDepth: Option<nat>, visited: seq<bool>, t: Tree, height: nat)
    requires Acceptable(nodes, max, lower, upper, depth, leafDepth, visited, t, height)
    requires t.Inner? && t.id < |visited|
    ensures height > 0
    ensures AcceptableKids(nodes, max, t.keys, lower, upper, depth + 1, leafDepth, visited[t.id := true], t.kids, height - 1)
  {
    InnerNexts(nodes, t);
    forall x: nat
      ensures AllNew(visited[t.id := true], UsesOf(t.kids, x), x)
    {
      assert AllNew(visited, Uses(t, x), x);
    }
  }

  /** The loop over children; each must be new in its turn. */
  method VerifyChildren(nodes: seq<Node>, max: nat, keys: seq<IndexKey>, children: seq<nat>,
                        lower: Option<IndexKey>, upper: Option<IndexKey>, depth: nat, leafDepth: Option<nat>,
                        visited: seq<bool>, ghost kids: seq<Tree>, ghost height: nat)
    returns (ok: bool, leafDepth': Option<nat>, visited': seq<bool>, ghost found: seq<Tree>)
    requires |visited| == |nodes| && |children| == |keys| + 1
    ensures Grows(visited, visited')
    ensures ok ==> Slots(found) == children && leafDepth'.Some? && (leafDepth.Some? ==> leafDepth == leafDepth')
    ensures ok ==> VisitedKids(nodes, max, keys, lower, upper, depth, leafDepth'.value, visited, visited', found)
    ensures Slots(kids) == children && AcceptableKids(nodes, max, keys, lower, upper, depth, leafDepth, visited, kids, height) ==>
              ok && leafDepth' == Some(depth + height) && found == kids
    decreases Unvisited(visited), 1
  {
    hide VisitedKids, Visited, Acceptable, AcceptableKids;
    leafDepth', visited', found := leafDepth, visited, [];
    ghost var fits := Slots(kids) == children && AcceptableKids(nodes, max, keys, lower, upper, depth, leafDepth, visited, kids, height);
    var i := 0;
    while i < |children|
      invariant i == |found| <= |children| && Grows(visited, visited') && Slots(found) == children[..i]
      invariant leafDepth.Some? ==> leafDepth == leafDepth'
      invariant i > 0 ==> leafDepth'.Some?
      invariant i > 0 ==> VisitedKids(nodes, max, keys, lower, upper, depth, leafDepth'.value, visited, visited', found)
      invariant i == 0 ==> visited' == visited && leafDepth' == leafDepth
      invariant fits ==> found == kids[..i] && (i > 0 ==> leafDepth' == Some(depth + height))
    {
      ghost var kid := if fits then kids[i] else Leaf(0, []);
      if fits {
        NextAcceptable(nodes, max, keys, lower, upper, depth, leafDepth, visited, visited', kids, i, height);
      }
      var lo, hi := LowerOf(keys, i, lower), UpperOf(keys, i, upper);
      var mid := visited';
      assert Unvisited(mid) <= Unvisited(visited);
      ghost var next;
      ok, leafDepth', visited', next := VerifyNode(nodes, max, children[i], lo, hi, depth, leafDepth', mid, kid, height);
      if !ok {
        return;
      }
      AppendVisited(nodes, max, keys, lower, upper, depth, leafDepth'.value, visited, mid, visited', found, next);
      found := found + [next];
      i := i + 1;
    }
    ok := true;
  }

  lemma NextAcceptable(nodes: seq<Node>, max: nat, keys: seq<IndexKey>, lower: Option<IndexKey>, upper: Option<IndexKey>,
                       depth: nat, leafDepth: Option<nat>, before: seq<bool>, now: seq<bool>, kids: seq<Tree>, i: nat, height: nat)
    requires AcceptableKids(nodes, max, keys, lower, upper, depth, leafDepth, before, kids, height) && i < |kids|
    requires Grows(before, now)
    requires if i == 0 then now == before else VisitedKids(nodes, max, keys, lower, upper, depth, depth + height, before, now, kids[..i])
    ensures Acceptable(nodes, max, LowerOf(keys, i, lower), UpperOf(keys, i, upper), depth,
                       if i == 0 then leafDepth else Some(depth + height), now, kids[i], height)
  {
    forall x: nat
      ensures AllNew(now, Uses(kids[i], x), x)
    {
      UsesSplit(kids, i, x);
      assert AllNew(before, UsesOf(kids, x), x);
      assert i > 0 ==> UsesOf(kids[..i], x) == Newly(before, now, x);
    }
  }

  lemma AppendVisited(nodes: seq<Node>, max: nat, keys: seq<IndexKey>, lower: Option<IndexKey>, upper: Option<IndexKey>,
                      depth: nat, leafDepth: nat, before: seq<bool>, mid: seq<bool>, now: seq<bool>, kids: seq<Tree>, kid: Tree)
    requires Grows(before, mid) && Grows(mid, now) && |kids| <= |keys|
    requires if kids == [] then mid == before
             else VisitedKids(nodes, max, keys, lower, upper, depth, leafDepth, before, mid, kids)
    requires Visited(nodes, max, LowerOf(keys, |kids|, lower), UpperOf(keys, |kids|, upper), depth, leafDepth, mid, now, kid)
    ensures VisitedKids(nodes, max, keys, lower, upper, depth, leafDepth, before, now, kids + [kid])
  {
    forall x: nat
      ensures UsesOf(kids + [kid], x) == Newly(before, now, x)
    {
      UsesConcat(kids, [kid], x);
      assert Uses(kid, x) == Newly(mid, now, x);
      assert kids != [] ==> UsesOf(kids, x) == Newly(before, mid, x);
    }
  }

  // ---------- the chain check ----------

  function LeafCount(nodes: seq<Node>): nat {
    if nodes == [] then 0 else LeafCount(nodes[..|nodes| - 1]) + if nodes[|nodes| - 1].LeafNode? then 1 else 0
  }

  ghost function EntriesAt(nodes: seq<Node>, slots: seq<nat>): seq<Entry>
    requires forall i :: 0 <= i < |slots| ==> slots[i] < |nodes| && nodes[slots[i]].LeafNode?
  {
    if slots == [] then [] else EntriesAt(nodes, slots[..|slots| - 1]) + nodes[slots[|slots| - 1]].entries
  }

  ghost predicate Walk(nodes: seq<Node>, from: nat, slots: seq<nat>) {
    && (forall i :: 0 <= i < |slots| ==> slots[i] < |nodes| && nodes[slots[i]].LeafNode?)
    && (|slots| > 0 ==> slots[0] == from)
    && (forall i, j :: 0 <= i < |slots| && j == i + 1 < |slots| ==> nodes[slots[i]].next == Some(slots[j]))
    && (forall i, j :: 0 <= i < j < |slots| ==> slots[i] != slots[j])
    && SortedEntries(EntriesAt(nodes, slots))
  }

  /** A chain that visits every leaf of the arena once, in global key order, and ends. */
  ghost predicate Linked(nodes: seq<Node>, from: nat, slots: seq<nat>) {
    && Walk(nodes, from, slots) && slots != [] && nodes[slots[|slots| - 1]].next == None
    && |slots| == LeafCount(nodes)
  }

  lemma {:induction false} EntriesAtPrefix(nodes: seq<Node>, from: nat, slots: seq<nat>, n: nat)
    requires Walk(nodes, from, slots) && n <= |slots|
    ensures EntriesAt(nodes, slots[..n]) <= EntriesAt(nodes, slots) && Walk(nodes, from, slots[..n])
  {
    if n == |slots| {
      assert slots[..n] == slots;
    } else {
      var front := slots[..|slots| - 1];
      assert EntriesAt(nodes, front) <= EntriesAt(nodes, slots);
      assert Walk(nodes, from, front);
      EntriesAtPrefix(nodes, from, front, n);
      assert front[..n] == slots[..n];
    }
  }

  function LastKey(es: seq<Entry>): Option<IndexKey> {
    if es == [] then None else Some(es[|es| - 1].key)
  }

  /** The entry loop of the chain check, carrying the previous key across leaves. */
  method KeysContinue(entries: seq<Entry>, previous: Option<IndexKey>, ghost before: seq<Entry>) returns (ok: bool, last: Option<IndexKey>)
    requires SortedEntries(before) && previous == LastKey(before)
    ensures ok <==> SortedEntries(before + entries)
    ensures ok ==> last == LastKey(before + entries)
  {
    last := previous;
    var i := 0;
    assert before + entries[..0] == before;
    while i < |entries|
      invariant i <= |entries| && SortedEntries(before + entries[..i]) && last == LastKey(before + entries[..i])
    {
      SortedStep(before, entries, i);
      if last.Some? && !Less(last.value, entries[i].key) {
        return false, last;
      }
      last := Some(entries[i].key);
      i := i + 1;
    }
    assert entries[..i] == entries;
    return true, last;
  }

  /** One more entry stays sorted exactly when its key exceeds the last one. */
  lemma SortedStep(before: seq<Entry>, entries: seq<Entry>, i: nat)
    requires i < |entries| && SortedEntries(before + entries[..i])
    ensures var last := LastKey(before + entries[..i]);
            if last.Some? && !Less(last.value, entries[i].key) then !SortedEntries(before + entries)
            else SortedEntries(before + entries[..i + 1]) && LastKey(before + entries[..i + 1]) == Some(entries[i].key)
  {
    var all, done := before + entries, before + entries[..i];
    assert before + entries[..i + 1] == done + [entries[i]];
    assert all[|done|] == entries[i] && (done != [] ==> all[|done| - 1] == done[|done| - 1]);
  }

  method CountLeaves(nodes: seq<Node>) returns (count: nat)
    ensures count == LeafCount(nodes)
  {
    count := 0;
    var i := 0;
    while i < |nodes|
      invariant i <= |nodes| && count == LeafCount(nodes[..i])
    {
      if nodes[i].LeafNode? {
        count := count + 1;
      }
      assert nodes[..i + 1][..i] == nodes[..i];
      i := i + 1;
    }
    assert nodes[..i] == nodes;
  }

  ghost predicate LinksInRange(nodes: seq<Node>) {
    forall x :: 0 <= x < |nodes| && nodes[x].LeafNode? && nodes[x].next.Some? ==> nodes[x].next.value < |nodes|
  }

  /** The leftmost descent that starts the chain check. */
  method LeftmostLeaf(nodes: seq<Node>, root: nat, ghost t: Tree, ghost max: nat, ghost height: nat) returns (slot: nat)
    requires root == t.id && Agrees(nodes, t) && Checked(t, None, None, max, height)
    ensures slot == FirstLeaf(t) && slot < |nodes|
  {
    slot := root;
    ghost var cur, lo, hi, h := t, None, None, height;
    while nodes[slot].InnerNode?
      invariant slot == cur.id && Agrees(nodes, cur) && Checked(cur, lo, hi, max, h) && FirstLeaf(cur) == FirstLeaf(t)
      decreases cur
    {
      slot := nodes[slot].children[0];
      cur, lo, hi, h := cur.kids[0], LowerOf(cur.keys, 0, lo), UpperOf(cur.keys, 0, hi), h - 1;
    }
  }

  lemma WalkExtend(nodes: seq<Node>, from: nat, walked: seq<nat>, slot: nat)
    requires Walk(nodes, from, walked) && slot !in walked && slot < |nodes| && nodes[slot].LeafNode?
    requires if walked == [] then slot == from else nodes[walked[|walked| - 1]].next == Some(slot)
    requires SortedEntries(EntriesAt(nodes, walked) + nodes[slot].entries)
    ensures Walk(nodes, from, walked + [slot])
    ensures EntriesAt(nodes, walked + [slot]) == EntriesAt(nodes, walked) + nodes[slot].entries
  {
    assert (walked + [slot])[..|walked|] == walked;
  }

  ghost predicate Marks(seen: seq<bool>, walked: seq<nat>) {
    forall x: nat :: x < |seen| ==> (seen[x] <==> x in walked)
  }

  lemma MarksAt(seen: seq<bool>, walked: seq<nat>, slot: nat)
    requires Marks(seen, walked) && slot < |seen|
    ensures seen[slot] <==> slot in walked
  {
  }

  lemma WalkNothing(nodes: seq<Node>, from: nat, seen: seq<bool>)
    requires forall x :: 0 <= x < |seen| ==> !seen[x]
    ensures Walk(nodes, from, []) && LastKey(EntriesAt(nodes, [])) == None && Marks(seen, [])
  {
  }

  lemma MarksStep(seen: seq<bool>, walked: seq<nat>, slot: nat)
    requires Marks(seen, walked) && slot < |seen|
    ensures Marks(seen[slot := true], walked + [slot])
  {
    forall x: nat
      ensures x in walked + [slot] <==> x in walked || x == slot
    {
    }
  }

  lemma GoalStep(nodes: seq<Node>, from: nat, goal: seq<nat>, walked: seq<nat>, slot: nat)
    requires Linked(nodes, from, goal)
    requires |walked| < |goal| && walked == goal[..|walked|] && goal[|walked|] == slot
    ensures slot !in walked && slot < |nodes| && nodes[slot].LeafNode? && Walk(nodes, from, walked)
    ensures SortedEntries(EntriesAt(nodes, walked) + nodes[slot].entries)
    ensures nodes[slot].next == if |walked| + 1 == |goal| then None else Some(goal[|walked| + 1])
    ensures walked + [slot] == goal[..|walked| + 1]
  {
    EntriesAtPrefix(nodes, from, goal, |walked|);
    EntriesAtPrefix(nodes, from, goal, |walked| + 1);
    assert goal[..|walked| + 1][..|walked|] == walked;
  }

  /** `verify_leaf_chain` from the leftmost leaf; `goal` is an accepted chain, if there is one. */
  method WalkChain(nodes: seq<Node>, from: nat, ghost goal: seq<nat>) returns (ok: bool, ghost walked: seq<nat>)
    requires from < |nodes| && LinksInRange(nodes)
    ensures ok ==> Linked(nodes, from, walked)
    ensures Linked(nodes, from, goal) ==> ok
  {
    hide SortedEntries, LeafCount, LastKey, Marks;
    var seen := seq(|nodes|, _ => false);
    var slot := from;
    var previous, count := None, 0;
    WalkNothing(nodes, from, seen);
    walked := [];
    ghost var fits := Linked(nodes, from, goal);
    while true
      invariant slot < |nodes| && |seen| == |nodes| && count == |walked|
      invariant Walk(nodes, from, walked) && previous == LastKey(EntriesAt(nodes, walked))
      invariant if walked == [] then slot == from else nodes[walked[|walked| - 1]].next == Some(slot)
      invariant Marks(seen, walked)
      invariant fits ==> |walked| < |goal| && walked == goal[..|walked|] && goal[|walked|] == slot
      decreases Unvisited(seen)
    {
      MarksAt(seen, walked, slot);
      if fits {
        GoalStep(nodes, from, goal, walked, slot);
      }
      if seen[slot] {
        return false, walked;
      }
      ghost var before := seen;
      assert slot in Unvisited(seen);
      seen := seen[slot := true];
      assert slot !in Unvisited(seen);
      count := count + 1;
      if nodes[slot].InnerNode? {
        return false, walked;
      }
      var increasing;
      increasing, previous := KeysContinue(nodes[slot].entries, previous, EntriesAt(nodes, walked));
      if !increasing {
        return false, walked;
      }
      WalkExtend(nodes, from, walked, slot);
      MarksStep(before, walked, slot);
      walked := walked + [slot];
      if nodes[slot].next.None? {
        break;
      }
      slot := nodes[slot].next.value;
    }
    var actual := CountLeaves(nodes);
    ok := count == actual;
  }

  // ---------- the whole check ----------

  ghost predicate CheckedTree(nodes: seq<Node>, root: nat, max: nat, t: Tree, height: nat) {
    && t.id == root && Agrees(nodes, t) && NextsInRange(nodes, t) && Checked(t, None, None, max, height)
    && forall x: nat :: Uses(t, x) == Fresh(0, |nodes|, x)
  }

  /** The arenas that the check accepts. */
  ghost predicate Accepted(nodes: seq<Node>, root: nat, max: nat) {
    && ValidMaxKeys(max)
    && exists t, height, slots :: CheckedTree(nodes, root, max, t, height) && Linked(nodes, FirstLeaf(t), slots)
  }

  /** A successful visit that reached every node has found the whole tree. */
  lemma AllVisited(nodes: seq<Node>, root: nat, max: nat, leafDepth: nat, blank: seq<bool>, visited: seq<bool>, t: Tree)
    requires |blank| == |nodes| == |visited| && t.id == root
    requires forall x: nat :: x < |blank| ==> !blank[x]
    requires Visited(nodes, max, None, None, 0, leafDepth, blank, visited, t)
    ensures CheckedTree(nodes, root, max, t, leafDepth) <==> forall x: nat :: x < |nodes| ==> visited[x]
    ensures CheckedTree(nodes, root, max, t, leafDepth) ==> LinksInRange(nodes)
  {
    forall x: nat
      ensures Uses(t, x) == if x < |nodes| && visited[x] then 1 else 0
    {
      assert Uses(t, x) == Newly(blank, visited, x);
    }
    if CheckedTree(nodes, root, max, t, leafDepth) {
      forall x: nat | x < |nodes|
        ensures visited[x] && (nodes[x].LeafNode? && nodes[x].next.Some? ==> nodes[x].next.value < |nodes|)
      {
        assert Uses(t, x) == Fresh(0, |nodes|, x);
      }
    }
  }

  method Verify(nodes: seq<Node>, root: nat, max: nat) returns (ok: bool)
    ensures ok <==> Accepted(nodes, root, max)
  {
    if nodes == [] || root >= |nodes| {
      return false;
    }
    if !ValidMaxKeys(max) {
      return false;
    }
    ghost var t: Tree, height: nat, slots: seq<nat> := Leaf(0, []), 0, [];
    if Accepted(nodes, root, max) {
      t, height, slots :| CheckedTree(nodes, root, max, t, height) && Linked(nodes, FirstLeaf(t), slots);
    }
    var visited := seq(|nodes|, _ => false);
    ghost var blank, found := visited, t;
    var depth: Option<nat>;
    ok, depth, visited, found := VerifyNode(nodes, max, root, None, None, 0, None, visited, t, height);
    assert CheckedTree(nodes, root, max, t, height) ==> Acceptable(nodes, max, None, None, 0, None, blank, t, height);
    if !ok {
      return;
    }
    AllVisited(nodes, root, max, depth.value, blank, visited, found);
    if exists x: nat :: x < |nodes| && !visited[x] {
      return false;
    }
    var first := LeftmostLeaf(nodes, root, found, max, depth.value);
    ghost var walked;
    ok, walked := WalkChain(nodes, first, slots);
  }
}
