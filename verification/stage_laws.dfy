/** What the stages of a pipeline give, and what an assignment or an insertion stores. */
module StageLaws {
  import opened Base
  import opened IndexKeys
  import opened Documents
  import opened Ast
  import opened Evaluate
  import opened EvaluateLaws
  import opened Planner
  import opened Sorting
  import opened SortLaws
  import opened Pipeline

  // ---------- filters ----------

  /** The documents at these places, in this order. */
  ghost predicate Picks(documents: seq<Document>, places: seq<nat>, kept: seq<Document>) {
    && |kept| == |places| && (forall i, j :: 0 <= i < j < |places| ==> places[i] < places[j])
    && forall i :: 0 <= i < |places| ==> places[i] < |documents| && kept[i] == documents[places[i]]
  }

  /** The predicate has the value true. */
  ghost predicate Accepts(predicate_: Expr, document: Document, floats: FloatArithmetic) {
    Eval(predicate_, document, floats) == Ok(RtBool(true))
  }

  ghost predicate HasVerdict(predicate_: Expr, document: Document, floats: FloatArithmetic) {
    var r := Eval(predicate_, document, floats);
    r.Ok? && r.value.RtBool?
  }

  lemma FilterHead(predicate_: Expr, documents: seq<Document>, floats: FloatArithmetic)
    requires documents != []
    ensures var r, rest := FilterDocuments(predicate_, documents, floats), FilterDocuments(predicate_, documents[1..], floats);
            && (r.Ok? <==> HasVerdict(predicate_, documents[0], floats) && rest.Ok?)
            && (r.Ok? ==> r.value == (if Accepts(predicate_, documents[0], floats) then [documents[0]] else []) + rest.value)
  {
    hide Eval;
  }

  /** A filter fails exactly if some document has no truth value, and otherwise keeps the true ones in their order. */
  lemma {:induction false} FilterMeans(predicate_: Expr, documents: seq<Document>, floats: FloatArithmetic) returns (places: seq<nat>)
    ensures var r := FilterDocuments(predicate_, documents, floats);
            && (r.Ok? <==> forall i :: 0 <= i < |documents| ==> HasVerdict(predicate_, documents[i], floats))
            && (r.Ok? ==> Filtered(predicate_, documents, floats, places, r.value))
    decreases |documents|
  {
    places := [];
    if documents != [] {
      hide HasVerdict, Accepts, Filtered, FilterDocuments;
      FilterHead(predicate_, documents, floats);
      var later := FilterMeans(predicate_, documents[1..], floats);
      assert documents == [documents[0]] + documents[1..];
      if FilterDocuments(predicate_, documents, floats).Ok? {
        places := (if Accepts(predicate_, documents[0], floats) then [0] else []) + Shifted(later);
        FilteredShift(predicate_, documents, floats, later, places, FilterDocuments(predicate_, documents[1..], floats).value);
      }
    }
  }

  lemma FilteredShift(predicate_: Expr, documents: seq<Document>, floats: FloatArithmetic, later: seq<nat>, places: seq<nat>, kept: seq<Document>)
    requires documents != [] && Filtered(predicate_, documents[1..], floats, later, kept)
    requires places == (if Accepts(predicate_, documents[0], floats) then [0] else []) + Shifted(later)
    ensures Filtered(predicate_, documents, floats, places, (if Accepts(predicate_, documents[0], floats) then [documents[0]] else []) + kept)
  {
    hide Accepts, Picks;
    PlacesShift(predicate_, documents, floats, later, places);
    PicksShift(documents, later, kept);
    if Accepts(predicate_, documents[0], floats) {
      PicksFirst(documents, Shifted(later), kept);
    } else {
      assert places == Shifted(later) && [] + kept == kept;
    }
  }

  lemma PicksShift(documents: seq<Document>, later: seq<nat>, kept: seq<Document>)
    requires documents != [] && Picks(documents[1..], later, kept)
    ensures Picks(documents, Shifted(later), kept) && forall i :: 0 <= i < |later| ==> Shifted(later)[i] > 0
  {
  }

  lemma PicksFirst(documents: seq<Document>, places: seq<nat>, kept: seq<Document>)
    requires documents != [] && Picks(documents, places, kept) && forall i :: 0 <= i < |places| ==> places[i] > 0
    ensures Picks(documents, [0] + places, [documents[0]] + kept)
  {
  }

  function Shifted(places: seq<nat>): (r: seq<nat>)
    ensures |r| == |places| && forall i :: 0 <= i < |r| ==> r[i] == places[i] + 1
  {
    seq(|places|, i requires 0 <= i < |places| => places[i] + 1)
  }

  lemma PlacesShift(predicate_: Expr, documents: seq<Document>, floats: FloatArithmetic, later: seq<nat>, places: seq<nat>)
    requires documents != [] && forall i: nat :: i in later <==> i < |documents| - 1 && Accepts(predicate_, documents[1..][i], floats)
    requires places == (if Accepts(predicate_, documents[0], floats) then [0] else []) + Shifted(later)
    ensures forall i: nat :: i in places <==> i < |documents| && Accepts(predicate_, documents[i], floats)
  {
    hide Accepts;
    forall i: nat
      ensures i in places <==> i < |documents| && Accepts(predicate_, documents[i], floats)
    {
      assert i in Shifted(later) <==> i > 0 && i - 1 in later by {
        if i > 0 && i - 1 in later {
          var k :| 0 <= k < |later| && later[k] == i - 1;
          assert Shifted(later)[k] == i;
        }
      }
      if 0 < i < |documents| {
        assert documents[1..][i - 1] == documents[i];
      }
    }
  }

  // ---------- stages ----------

  /** What a stage gives for documents, in terms of positions and values. */
  ghost predicate StageMeans(stage: Stage, documents: seq<Document>, floats: FloatArithmetic, ids: seq<NovaId>, r: Result<Drawn<seq<Document>>>) {
    match stage
    case Filter(p) =>
      && (r.Ok? <==> forall i :: 0 <= i < |documents| ==> HasVerdict(p, documents[i], floats))
      && (r.Ok? ==> r.value.ids == ids && exists places :: Filtered(p, documents, floats, places, r.value.value))
    case Project(paths) =>
      r.Ok? ==> r.value.ids == ids && |r.value.value| == |documents|
                && forall i :: 0 <= i < |documents| ==> Pipeline.Project(documents[i], paths) == Ok(r.value.value[i])
    case Sort(keys) =>
      && (r.Ok? <==> AllSort(Decorate(documents, keys), |keys|))
      && (r.Ok? ==> r.value.ids == ids && exists order :: Reordered(documents, keys, order, r.value.value))
    case Limit(count) =>
      && r.Ok? && r.value.ids == ids && |r.value.value| <= count && r.value.value <= documents
      && (|r.value.value| == count || r.value.value == documents)
    case Skip(count) =>
      && r.Ok? && r.value.ids == ids
      && (count >= |documents| ==> r.value.value == [])
      && (count < |documents| ==> exists skipped :: |skipped| == count && documents == skipped + r.value.value)
    case Set(assignments) =>
      r.Ok? ==> exists supplies :: Assigned(documents, assignments, floats, supplies, r.value.value)
                                   && supplies[0] == ids && supplies[|documents|] == r.value.ids
  }

  /** The documents of these places are the ones with the value true. */
  ghost predicate Filtered(p: Expr, documents: seq<Document>, floats: FloatArithmetic, places: seq<nat>, kept: seq<Document>) {
    Picks(documents, places, kept) && forall i: nat :: i in places <==> i < |documents| && Accepts(p, documents[i], floats)
  }

  /** Each document is assigned to on its own, and draws its ids where the one before it stopped. */
  ghost predicate Assigned(documents: seq<Document>, assignments: seq<Assignment>, floats: FloatArithmetic, supplies: seq<seq<NovaId>>,
                           changed: seq<Document>) {
    && |changed| == |documents| == |supplies| - 1
    && forall i :: 0 <= i < |documents| ==>
                     AssignAll(documents[i], assignments, floats, supplies[i]) == Ok(Drawn(changed[i], supplies[i + 1]))
  }

  ghost predicate Reordered(documents: seq<Document>, keys: seq<SortKey>, order: seq<nat>, sorted: seq<Document>) {
    var rows := Decorate(documents, keys);
    && |sorted| == |order| == |documents| && (forall k: nat :: k in order <==> k < |documents|)
    && (forall p :: 0 <= p < |order| ==> order[p] < |rows| && sorted[p] == documents[order[p]])
    && forall p, q :: 0 <= p < q < |order| ==> order[p] != order[q] && InPlace(keys, rows, order[p], order[q])
  }

  lemma StageOk(stage: Stage, documents: seq<Document>, floats: FloatArithmetic, ids: seq<NovaId>)
    ensures StageMeans(stage, documents, floats, ids, RunStage(stage, documents, floats, ids))
  {
    hide FilterDocuments, SortedDocuments, ProjectEach, AssignEach, AllSort, InPlace, Picks, Accepts, HasVerdict;
    match stage
    case Filter(p) =>
      var places := FilterMeans(p, documents, floats);
      var kept := FilterDocuments(p, documents, floats);
      if kept.Ok? {
        assert Filtered(p, documents, floats, places, kept.value);
      }
    case Project(paths) => EachProjected(documents, paths);
    case Sort(keys) =>
      var order := SortedByKeys(documents, keys);
      var sorted := SortedDocuments(documents, keys);
      if sorted.Ok? {
        assert Reordered(documents, keys, order, sorted.value);
      }
    case Limit(count) => assert documents == documents[..Least(count, |documents|)] + documents[Least(count, |documents|)..];
    case Skip(count) => assert documents == documents[..Least(count, |documents|)] + documents[Least(count, |documents|)..];
    case Set(assignments) =>
      var supplies := EachAssigned(documents, assignments, floats, ids);
      var changed := AssignEach(documents, assignments, floats, ids);
      if changed.Ok? {
        assert Assigned(documents, assignments, floats, supplies, changed.value.value);
      }
  }

  lemma {:induction false} EachProjected(documents: seq<Document>, paths: seq<seq<Text>>)
    ensures var r := ProjectEach(documents, paths);
            r.Ok? ==> |r.value| == |documents| && forall i :: 0 <= i < |documents| ==> Pipeline.Project(documents[i], paths) == Ok(r.value[i])
    decreases |documents|
  {
    hide Pipeline.Project;
    if documents != [] {
      EachProjected(documents[1..], paths);
      assert documents == [documents[0]] + documents[1..];
    }
  }

  lemma {:induction false} EachAssigned(documents: seq<Document>, assignments: seq<Assignment>, floats: FloatArithmetic, ids: seq<NovaId>)
    returns (supplies: seq<seq<NovaId>>)
    ensures var r := AssignEach(documents, assignments, floats, ids);
            r.Ok? ==> Assigned(documents, assignments, floats, supplies, r.value.value)
                      && supplies[0] == ids && supplies[|documents|] == r.value.ids
    decreases |documents|
  {
    hide AssignAll;
    supplies := [ids];
    if documents != [] {
      var first := AssignAll(documents[0], assignments, floats, ids);
      if first.Ok? {
        var later := EachAssigned(documents[1..], assignments, floats, first.value.ids);
        supplies := [ids] + later;
      }
    }
  }
}
