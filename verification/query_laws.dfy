/** What whole queries answer and leave behind, told by values and ids. */
module QueryLaws {
  import opened Base
  import opened Documents
  import opened Ast
  import opened Evaluate
  import opened EvaluateLaws
  import opened Planner
  import opened Sorting
  import opened SortLaws
  import opened Pipeline
  import opened StageLaws
  import opened StoredValues
  import opened Catalog
  import opened Backend
  import opened BackendRuns
  import opened Queries

  // ---------- which stages a command takes ----------

  /** A get stores nothing, an update stores whole documents, and a delete only chooses documents. */
  lemma StagesAllowed(stages: seq<Stage>)
    ensures ValidStages(stages, GetAll) <==> forall assignments :: Set(assignments) !in stages
    ensures ValidStages(stages, UpdateAll) <==> forall paths :: Stage.Project(paths) !in stages
    ensures ValidStages(stages, DeleteAll) <==> ValidStages(stages, GetAll) && ValidStages(stages, UpdateAll)
  {
    if !ValidStages(stages, GetAll) {
      var i :| 0 <= i < |stages| && stages[i].Set?;
      assert Set(stages[i].assignments) in stages;
    }
    if !ValidStages(stages, UpdateAll) {
      var i :| 0 <= i < |stages| && stages[i].Project?;
      assert Stage.Project(stages[i].paths) in stages;
    }
  }

  // ---------- the ids that pass through a pipeline ----------

  /** Every id of `out` stands once in it, and in `documents`. */
  ghost predicate IdsFrom(out: seq<Document>, documents: seq<Document>) {
    DistinctIds(out) && forall i :: 0 <= i < |out| ==> HasId(documents, out[i].id)
  }

  ghost predicate HasId(documents: seq<Document>, id: NovaId) {
    exists j :: 0 <= j < |documents| && documents[j].id == id
  }

  /** The documents of `out` stand in `documents`, each once. */
  ghost predicate MembersFrom(out: seq<Document>, documents: seq<Document>) {
    DistinctIds(out) && forall i :: 0 <= i < |out| ==> out[i] in documents
  }

  lemma PlacesDistinct(documents: seq<Document>, places: seq<nat>, out: seq<Document>)
    requires DistinctIds(documents) && |out| == |places|
    requires forall i :: 0 <= i < |places| ==> places[i] < |documents| && out[i] == documents[places[i]]
    requires forall i, j :: 0 <= i < j < |places| ==> places[i] != places[j]
    ensures MembersFrom(out, documents)
  {
    forall i, j | 0 <= i < j < |out|
      ensures out[i].id != out[j].id
    {
      var a, b := places[i], places[j];
      assert a < b || b < a;
    }
  }

  /** Filters, sorts, limits and skips only choose documents. */
  lemma StageChooses(stage: Stage, documents: seq<Document>, floats: FloatArithmetic, ids: seq<NovaId>)
    requires !stage.Project? && !stage.Set? && DistinctIds(documents) && RunStage(stage, documents, floats, ids).Ok?
    ensures MembersFrom(RunStage(stage, documents, floats, ids).value.value, documents)
  {
    hide RunStage, AllSort, InPlace, HasVerdict, Accepts, Decorate;
    StageOk(stage, documents, floats, ids);
    var out := RunStage(stage, documents, floats, ids).value.value;
    match stage
    case Filter(p) =>
      var places :| Filtered(p, documents, floats, places, out);
      PlacesDistinct(documents, places, out);
    case Sort(keys) =>
      var order :| Reordered(documents, keys, order, out);
      PlacesDistinct(documents, order, out);
    case Limit(_) =>
    case Skip(count) =>
      if count < |documents| {
        var skipped :| |skipped| == count && documents == skipped + out;
        forall i | 0 <= i < |out|
          ensures out[i] == documents[count + i]
        {
        }
      }
    case _ =>
  }

  lemma StageKeepsIds(stage: Stage, documents: seq<Document>, floats: FloatArithmetic, ids: seq<NovaId>)
    requires DistinctIds(documents) && RunStage(stage, documents, floats, ids).Ok?
    ensures IdsFrom(RunStage(stage, documents, floats, ids).value.value, documents)
  {
    hide RunStage, AllSort, InPlace, HasVerdict, Accepts, Decorate;
    var out := RunStage(stage, documents, floats, ids).value.value;
    if stage.Project? || stage.Set? {
      StageOk(stage, documents, floats, ids);
      SamePlaces(stage, documents, floats, ids);
      forall i | 0 <= i < |out|
        ensures HasId(documents, out[i].id)
      {
        assert documents[i].id == out[i].id;
      }
    } else {
      StageChooses(stage, documents, floats, ids);
    }
  }

  lemma SamePlaces(stage: Stage, documents: seq<Document>, floats: FloatArithmetic, ids: seq<NovaId>)
    requires (stage.Project? || stage.Set?) && RunStage(stage, documents, floats, ids).Ok?
    ensures var out := RunStage(stage, documents, floats, ids).value.value;
            |out| == |documents| && forall i :: 0 <= i < |out| ==> out[i].id == documents[i].id
  {
    StageOk(stage, documents, floats, ids);
    hide RunStage, AllSort, InPlace, HasVerdict, Accepts, Decorate;
    var out := RunStage(stage, documents, floats, ids).value.value;
    if stage.Set? {
      var supplies :| Assigned(documents, stage.assignments, floats, supplies, out);
      forall i | 0 <= i < |out|
        ensures out[i].id == documents[i].id
      {
        assert AssignAll(documents[i], stage.assignments, floats, supplies[i]) == Ok(Drawn(out[i], supplies[i + 1]));
      }
    } else {
      forall i | 0 <= i < |out|
        ensures out[i].id == documents[i].id
      {
        assert Pipeline.Project(documents[i], stage.paths) == Ok(out[i]);
      }
    }
  }

  lemma {:induction false} PipelineKeepsIds(stages: seq<Stage>, documents: seq<Document>, floats: FloatArithmetic, ids: seq<NovaId>)
    requires DistinctIds(documents) && RunStages(stages, documents, floats, ids).Ok?
    ensures IdsFrom(RunStages(stages, documents, floats, ids).value.value, documents)
    decreases |stages|
  {
    hide RunStage;
    if stages != [] {
      StageKeepsIds(stages[0], documents, floats, ids);
      var next := RunStage(stages[0], documents, floats, ids).value;
      PipelineKeepsIds(stages[1..], next.value, floats, next.ids);
      var out := RunStages(stages, documents, floats, ids).value.value;
      forall i | 0 <= i < |out|
        ensures HasId(documents, out[i].id)
      {
        assert HasId(next.value, out[i].id);
        var j :| 0 <= j < |next.value| && next.value[j].id == out[i].id;
        assert HasId(documents, next.value[j].id);
      }
    }
  }

  lemma {:induction false} PipelineChooses(stages: seq<Stage>, documents: seq<Document>, floats: FloatArithmetic, ids: seq<NovaId>)
    requires ValidStages(stages, DeleteAll) && DistinctIds(documents) && RunStages(stages, documents, floats, ids).Ok?
    ensures MembersFrom(RunStages(stages, documents, floats, ids).value.value, documents)
    decreases |stages|
  {
    hide RunStage;
    if stages != [] {
      StageChooses(stages[0], documents, floats, ids);
      var next := RunStage(stages[0], documents, floats, ids).value;
      PipelineChooses(stages[1..], next.value, floats, next.ids);
      var out := RunStages(stages, documents, floats, ids).value.value;
      forall i | 0 <= i < |out|
        ensures out[i] in documents
      {
        assert out[i] in next.value;
      }
    }
  }

  // ---------- what queries leave behind ----------

  lemma GetKeepsStore(store: Store, query: Query, scan: seq<Document>, alphabet: Alphabet, floats: FloatArithmetic, ids: seq<NovaId>)
    requires query.command.GetAll?
    ensures Plain(store, query, scan, alphabet, floats, ids).store == store
  {
  }

  ghost function IdSet(documents: seq<Document>): set<NovaId> {
    set d | d in documents :: d.id
  }

  ghost predicate Present(store: Store, collection: Text, documents: seq<Document>) {
    && collection in store.collections && DistinctIds(documents)
    && forall i :: 0 <= i < |documents| ==> documents[i].id in store.collections[collection]
  }

  /** The store with this collection in place of its own. */
  ghost function With(store: Store, collection: Text, documents: Collection): Store {
    Store(store.collections[collection := documents], store.definitions)
  }

  lemma {:induction false} DeletedEach(store: Store, collection: Text, documents: seq<Document>, alphabet: Alphabet)
    requires Present(store, collection, documents)
    ensures DeleteEach(store, collection, documents, alphabet) ==
            Outcome(Ok(()), With(store, collection, store.collections[collection] - IdSet(documents)))
    decreases |documents|
  {
    var here := store.collections[collection];
    if documents == [] {
      assert here - IdSet(documents) == here;
    } else {
      hide DeleteEach, Next;
      var id, rest := documents[0].id, documents[1..];
      var next := With(store, collection, here - {id});
      DeleteHead(store, collection, documents, alphabet);
      assert documents == [documents[0]] + rest;
      DeletedEach(next, collection, rest, alphabet);
      assert IdSet(documents) == {id} + IdSet(rest);
      assert here - {id} - IdSet(rest) == here - IdSet(documents);
    }
  }

  lemma DeleteHead(store: Store, collection: Text, documents: seq<Document>, alphabet: Alphabet)
    requires Present(store, collection, documents) && documents != []
    ensures DeleteEach(store, collection, documents, alphabet) ==
            DeleteEach(With(store, collection, store.collections[collection] - {documents[0].id}), collection, documents[1..], alphabet)
    ensures Present(With(store, collection, store.collections[collection] - {documents[0].id}), collection, documents[1..])
  {
    var next := Next(store, DeleteFrom(collection, documents[0].id), alphabet);
    assert next == With(store, collection, store.collections[collection] - {documents[0].id});
  }

  lemma ScanDistinct(documents: Collection, scan: seq<Document>)
    requires IsScan(documents, scan)
    ensures DistinctIds(scan) && forall i :: 0 <= i < |scan| ==> scan[i].id in documents && documents[scan[i].id] == scan[i]
  {
  }

  /** A delete removes exactly the documents that its pipeline chooses, or fails with the pipeline and removes none. */
  lemma DeleteExactly(store: Store, query: Query, scan: seq<Document>, alphabet: Alphabet, floats: FloatArithmetic, ids: seq<NovaId>)
    requires query.command.DeleteAll? && ValidStages(query.stages, DeleteAll) && query.collection in store.collections
    requires IsScan(store.collections[query.collection], scan)
    ensures var kept, here := ValueOf(RunStages(query.stages, scan, floats, ids)), store.collections[query.collection];
            && (kept.Err? ==> Plain(store, query, scan, alphabet, floats, ids) == Outcome(Err(kept.error), store))
            && (kept.Ok? ==> MembersFrom(kept.value, scan)
                             && Plain(store, query, scan, alphabet, floats, ids) ==
                                Outcome(Ok(Deleted(|kept.value|)), With(store, query.collection, here - IdSet(kept.value))))
  {
    hide RunStages, DeleteEach, With;
    var kept: Result<seq<Document>> := ValueOf(RunStages(query.stages, scan, floats, ids));
    var here := store.collections[query.collection];
    if kept.Ok? {
      ScanDistinct(here, scan);
      PipelineChooses(query.stages, scan, floats, ids);
      forall i | 0 <= i < |kept.value|
        ensures kept.value[i].id in here
      {
        assert kept.value[i] in scan;
      }
      DeletedEach(store, query.collection, kept.value, alphabet);
    }
  }

  /** Each of `documents` stands under its id, and everything else is as it was. */
  ghost predicate Replaced(before: Collection, documents: seq<Document>, after: Collection) {
    && after.Keys == before.Keys
    && (forall i :: 0 <= i < |documents| ==> documents[i].id in after && after[documents[i].id] == documents[i])
    && forall id :: id in before && id !in IdSet(documents) ==> after[id] == before[id]
  }

  /** Every index of the collection takes the first `n` documents, and the next one, if there is any, is refused by some. */
  ghost predicate TakenUpTo(store: Store, collection: Text, documents: seq<Document>, n: nat) {
    && n <= |documents| && (forall i :: 0 <= i < n ==> Takes(store, collection, documents[i]))
    && (n < |documents| ==> !Takes(store, collection, documents[n]))
  }

  lemma {:induction false} ReplacedEach(store: Store, collection: Text, documents: seq<Document>, alphabet: Alphabet, n: nat)
    requires Present(store, collection, documents) && TakenUpTo(store, collection, documents, n)
    ensures var r := ReplaceEach(store, collection, documents, alphabet);
            && r.result == (if n == |documents| then Ok(()) else Err(InvalidArgument))
            && collection in r.store.collections && r.store == With(store, collection, r.store.collections[collection])
            && Replaced(store.collections[collection], documents[..n], r.store.collections[collection])
    decreases |documents|
  {
    hide ReplaceEach, Takes, Replaced;
    if n == 0 {
      ReplaceNone(store, collection, documents, alphabet);
    } else {
      var here, rest := store.collections[collection], documents[1..];
      var next := With(store, collection, WithDocument(here, documents[0]));
      TakenNext(store, collection, documents, n, next);
      ReplaceHead(store, collection, documents, alphabet);
      ReplacedEach(next, collection, rest, alphabet, n - 1);
      var after := ReplaceEach(next, collection, rest, alphabet).store.collections[collection];
      assert With(next, collection, after) == With(store, collection, after);
      assert documents[..n] == [documents[0]] + rest[..n - 1];
      ReplacedMore(here, documents[0], rest[..n - 1], after);
    }
  }

  lemma ReplaceNone(store: Store, collection: Text, documents: seq<Document>, alphabet: Alphabet)
    requires Present(store, collection, documents) && TakenUpTo(store, collection, documents, 0)
    ensures ReplaceEach(store, collection, documents, alphabet) == Outcome(if documents == [] then Ok(()) else Err(InvalidArgument), store)
    ensures store == With(store, collection, store.collections[collection])
    ensures Replaced(store.collections[collection], documents[..0], store.collections[collection])
  {
    hide Takes;
  }

  /** After the first replacement the rest is still present and taken as before. */
  lemma TakenNext(store: Store, collection: Text, documents: seq<Document>, n: nat, next: Store)
    requires Present(store, collection, documents) && TakenUpTo(store, collection, documents, n) && n > 0
    requires next == With(store, collection, WithDocument(store.collections[collection], documents[0]))
    ensures documents != [] && Takes(store, collection, documents[0]) && n <= |documents|
    ensures Present(next, collection, documents[1..]) && TakenUpTo(next, collection, documents[1..], n - 1)
    ensures documents[0].id in store.collections[collection] && documents[0].id !in IdSet(documents[1..][..n - 1])
  {
    hide Takes;
    forall d
      ensures Takes(next, collection, d) == Takes(store, collection, d)
    {
      SameTakes(next, store, collection, d);
    }
  }

  lemma SameTakes(a: Store, b: Store, collection: Text, document: Document)
    requires a.definitions == b.definitions
    ensures Takes(a, collection, document) == Takes(b, collection, document)
  {
  }

  lemma ReplaceHead(store: Store, collection: Text, documents: seq<Document>, alphabet: Alphabet)
    requires Present(store, collection, documents) && documents != [] && Takes(store, collection, documents[0])
    ensures ReplaceEach(store, collection, documents, alphabet) ==
            ReplaceEach(With(store, collection, WithDocument(store.collections[collection], documents[0])), collection, documents[1..], alphabet)
  {
    hide Takes;
    var next := Next(store, ReplaceIn(collection, documents[0]), alphabet);
    assert next == With(store, collection, WithDocument(store.collections[collection], documents[0]));
  }

  lemma ReplacedMore(before: Collection, first: Document, rest: seq<Document>, after: Collection)
    requires first.id in before && first.id !in IdSet(rest) && Replaced(WithDocument(before, first), rest, after)
    ensures Replaced(before, [first] + rest, after)
  {
    var all := [first] + rest;
    assert first in all && forall d :: d in rest ==> d in all;
    forall i | 0 <= i < |all|
      ensures all[i].id in after && after[all[i].id] == all[i]
    {
      assert i > 0 ==> all[i] == rest[i - 1];
    }
  }

  /**
   * An update replaces the documents that come out of its pipeline by themselves, each under its id, and nothing else;
   * it stops with an error at the first one that an index refuses, and keeps what was replaced before.
   */
  lemma UpdateExactly(store: Store, query: Query, scan: seq<Document>, alphabet: Alphabet, floats: FloatArithmetic, ids: seq<NovaId>, n: nat)
    requires query.command.UpdateAll? && ValidStages(query.stages, UpdateAll) && query.collection in store.collections
    requires IsScan(store.collections[query.collection], scan)
    requires var kept := ValueOf(RunStages(query.stages, scan, floats, ids));
             kept.Ok? ==> TakenUpTo(store, query.collection, kept.value, n)
    ensures var kept, r := ValueOf(RunStages(query.stages, scan, floats, ids)), Plain(store, query, scan, alphabet, floats, ids);
            && (kept.Err? ==> r == Outcome(Err(kept.error), store))
            && (kept.Ok? ==>
                  && IdsFrom(kept.value, scan)
                  && r.result == (if n == |kept.value| then Ok(Updated(n)) else Err(InvalidArgument))
                  && query.collection in r.store.collections && r.store == With(store, query.collection, r.store.collections[query.collection])
                  && Replaced(store.collections[query.collection], kept.value[..n], r.store.collections[query.collection]))
  {
    hide RunStages, ReplaceEach, With, Replaced, TakenUpTo;
    var kept: Result<seq<Document>> := ValueOf(RunStages(query.stages, scan, floats, ids));
    var here := store.collections[query.collection];
    if kept.Ok? {
      ScanDistinct(here, scan);
      PipelineKeepsIds(query.stages, scan, floats, ids);
      forall i | 0 <= i < |kept.value|
        ensures kept.value[i].id in here
      {
        assert HasId(scan, kept.value[i].id);
      }
      ReplacedEach(store, query.collection, kept.value, alphabet, n);
      assert n <= |kept.value| by {
        UpToLength(store, query.collection, kept.value, n);
      }
    }
  }

  lemma UpToLength(store: Store, collection: Text, documents: seq<Document>, n: nat)
    requires TakenUpTo(store, collection, documents, n)
    ensures n <= |documents|
  {
  }

  // ---------- inserting ----------

  /** An insertion stores the value of its object under a generated id, or fails if there is no such value. */
  lemma InsertStores(expression: Expr, floats: FloatArithmetic, ids: seq<NovaId>)
    ensures var r, v := NewDocument(expression, floats, ids), Eval(expression, Document(0, []), floats);
            && (r.Ok? <==> expression.ObjectExpr? && v.Ok? && Storable(v.value) && Objects(v.value) <= |ids|)
            && (r.Ok? ==> r.value.id == ids[0] && FromValue(Nested(r.value)) == v.value)
  {
    hide Storable, Objects, FromValue, Eval;
    if expression.ObjectExpr? {
      OrderedFields(Document(0, []));
      EvalRises(expression, Document(0, []), floats);
      ObjectMeans(expression.members, Document(0, []), floats);
      var v := Eval(expression, Document(0, []), floats);
      if v.Ok? {
        StoredReadsBack(v.value, ids);
        if IntoValue(v.value, ids).Ok? {
          StoredUnderFirst(v.value, ids);
        }
      }
    }
  }

  lemma StoredUnderFirst(v: RuntimeValue, ids: seq<NovaId>)
    requires v.RtObject? && IntoValue(v, ids).Ok?
    ensures ids != [] && IntoValue(v, ids).value.value.Nested? && IntoValue(v, ids).value.value.document.id == ids[0]
  {
  }

  // ---------- queries by comparison ----------

  /** What a comparison with the literal says about the document. */
  ghost function DocumentVerdict(op: BinaryOp, path: seq<Text>, literal: Literal, document: Document): Option<bool>
    requires IsComparison(op)
  {
    Verdict(op, ReadPath(document, path), EvaluateLiteral(literal))
  }

  lemma ComparisonDecides(op: BinaryOp, path: seq<Text>, literal: Literal, document: Document, floats: FloatArithmetic)
    requires IsComparison(op)
    ensures var p, verdict := Binary(Path(path), op, Lit(literal)), DocumentVerdict(op, path, literal, document);
            (HasVerdict(p, document, floats) <==> verdict.Some?) && (Accepts(p, document, floats) <==> verdict == Some(true))
  {
    hide Verdict;
    BinaryOk(Path(path), op, Lit(literal), document, floats);
  }

  lemma FilterCompares(op: BinaryOp, path: seq<Text>, literal: Literal, documents: seq<Document>, floats: FloatArithmetic)
    returns (places: seq<nat>)
    requires IsComparison(op)
    ensures var r := FilterDocuments(Binary(Path(path), op, Lit(literal)), documents, floats);
            && (r.Ok? <==> forall i :: 0 <= i < |documents| ==> DocumentVerdict(op, path, literal, documents[i]).Some?)
            && (r.Err? ==> r == Err(InvalidArgument))
            && (r.Ok? ==> Picks(documents, places, r.value)
                          && forall i: nat :: i in places <==>
                                              i < |documents| && DocumentVerdict(op, path, literal, documents[i]) == Some(true))
  {
    hide HasVerdict, Accepts, DocumentVerdict, FilterDocuments, Picks;
    var p := Binary(Path(path), op, Lit(literal));
    places := FilterMeans(p, documents, floats);
    FilterFails(p, documents, floats);
    forall i | 0 <= i < |documents|
      ensures HasVerdict(p, documents[i], floats) <==> DocumentVerdict(op, path, literal, documents[i]).Some?
      ensures Accepts(p, documents[i], floats) <==> DocumentVerdict(op, path, literal, documents[i]) == Some(true)
    {
      ComparisonDecides(op, path, literal, documents[i], floats);
    }
  }

  lemma FilterOnly(predicate_: Expr, documents: seq<Document>, floats: FloatArithmetic, ids: seq<NovaId>)
    ensures ValueOf(RunStages([Filter(predicate_)], documents, floats, ids)) == FilterDocuments(predicate_, documents, floats)
  {
    hide FilterDocuments;
    assert [Filter(predicate_)][1..] == [];
  }

  /**
   * A get or delete of the documents that compare with a literal: it fails exactly if the comparison does not apply to
   * some document. A get finds those that compare, in scan order, and a delete leaves those that do not.
   */
  lemma QueryCompares(store: Store, query: Query, op: BinaryOp, path: seq<Text>, literal: Literal, scan: seq<Document>,
                      alphabet: Alphabet, floats: FloatArithmetic, ids: seq<NovaId>)
    returns (places: seq<nat>, kept: seq<Document>)
    requires IsComparison(op) && query.collection in store.collections && IsScan(store.collections[query.collection], scan)
    requires query.stages == [Filter(Binary(Path(path), op, Lit(literal)))] && (query.command.GetAll? || query.command.DeleteAll?)
    ensures var r, here := Plain(store, query, scan, alphabet, floats, ids), store.collections[query.collection];
            if exists i :: 0 <= i < |scan| && DocumentVerdict(op, path, literal, scan[i]).None? then r == Outcome(Err(InvalidArgument), store)
            else
              && Picks(scan, places, kept)
              && (forall i: nat :: i in places <==> i < |scan| && DocumentVerdict(op, path, literal, scan[i]) == Some(true))
              && (query.command.GetAll? ==> r == Outcome(Ok(Found(kept)), store))
              && (query.command.DeleteAll? ==>
                    r == Outcome(Ok(Deleted(|kept|)), With(store, query.collection, here - IdSet(kept))))
  {
    hide DocumentVerdict, FilterDocuments, Picks, DeleteEach, RunStages, IsScan;
    var p := Binary(Path(path), op, Lit(literal));
    places := FilterCompares(op, path, literal, scan, floats);
    FilterOnly(p, scan, floats, ids);
    kept := if FilterDocuments(p, scan, floats).Ok? then FilterDocuments(p, scan, floats).value else [];
    if query.command.DeleteAll? {
      DeleteExactly(store, query, scan, alphabet, floats, ids);
    }
  }
}
