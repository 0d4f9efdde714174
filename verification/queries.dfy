/** Whole queries over the indexed backend, against the same queries over plain collections. */
module Queries {
  import opened Base
  import opened IndexKeys
  import opened Documents
  import opened Ast
  import opened Evaluate
  import opened Planner
  import opened Pipeline
  import opened Catalog
  import opened Backend
  import opened BackendRuns
  import opened BPlusTrees

  datatype Command = GetAll | UpdateAll | DeleteAll | InsertOne(document: Expr)

  datatype Query = Query(command: Command, collection: Text, stages: seq<Stage>)

  datatype Answer = Found(documents: seq<Document>) | Inserted(id: NovaId) | Updated(count: nat) | Deleted(count: nat)

  /** The stages after the filter, with the ids that assignments may draw. */
  function Others(floats: FloatArithmetic, ids: seq<NovaId>): OtherStages {
    (stages: seq<Stage>, documents: seq<Document>) => ValueOf(RunStages(stages, documents, floats, ids))
  }

  function ValueOf<T>(r: Result<Drawn<T>>): Result<T> {
    match r
    case Ok(drawn) => Ok(drawn.value)
    case Err(error) => Err(error)
  }

  /** The pipeline with its filter in front is the pipeline stage by stage. */
  lemma PipelineIsStages(documents: seq<Document>, stages: seq<Stage>, floats: FloatArithmetic, ids: seq<NovaId>)
    ensures RunPipeline(documents, stages, floats, Others(floats, ids)) == ValueOf(RunStages(stages, documents, floats, ids))
  {
    hide FilterDocuments, AssignEach, ProjectEach;
  }

  predicate ValidStages(stages: seq<Stage>, command: Command) {
    forall i :: 0 <= i < |stages| ==>
                  match command
                  case GetAll => !stages[i].Set?
                  case UpdateAll => !stages[i].Project?
                  case DeleteAll => !stages[i].Project? && !stages[i].Set?
                  case InsertOne(_) => true
  }

  // ---------- queries over plain collections ----------

  datatype Outcome<T> = Outcome(result: Result<T>, store: Store)

  /** Replacing documents one by one, until one fails. */
  ghost function ReplaceEach(store: Store, collection: Text, documents: seq<Document>, alphabet: Alphabet): Outcome<()>
    decreases |documents|
  {
    if documents == [] then Outcome(Ok(()), store)
    else if !Takes(store, collection, documents[0]) then Outcome(Err(InvalidArgument), store)
    else if collection !in store.collections || documents[0].id !in store.collections[collection] then Outcome(Err(NotFound), store)
    else ReplaceEach(Next(store, ReplaceIn(collection, documents[0]), alphabet), collection, documents[1..], alphabet)
  }

  ghost function DeleteEach(store: Store, collection: Text, documents: seq<Document>, alphabet: Alphabet): Outcome<()>
    decreases |documents|
  {
    if documents == [] then Outcome(Ok(()), store)
    else if collection !in store.collections || documents[0].id !in store.collections[collection] then Outcome(Err(NotFound), store)
    else DeleteEach(Next(store, DeleteFrom(collection, documents[0].id), alphabet), collection, documents[1..], alphabet)
  }

  /** The document that an insertion stores. */
  function NewDocument(expression: Expr, floats: FloatArithmetic, ids: seq<NovaId>): Result<Document> {
    if !expression.ObjectExpr? then Err(InvalidArgument)
    else
      var fields :- Eval(expression, Document(0, []), floats);
      var value :- ValueOf(IntoValue(fields, ids));
      if value.Nested? then Ok(value.document) else Err(InvalidArgument)
  }

  ghost function InsertNew(store: Store, collection: Text, document: Document, alphabet: Alphabet): Outcome<Answer> {
    if !Takes(store, collection, document) then Outcome(Err(InvalidArgument), store)
    else if collection !in store.collections then Outcome(Err(NotFound), store)
    else if document.id in store.collections[collection] then Outcome(Err(AlreadyExists), store)
    else Outcome(Ok(Inserted(document.id)), Next(store, InsertInto(collection, document), alphabet))
  }

  function Counted(r: Result<()>, answer: Answer): Result<Answer> {
    match r
    case Ok(_) => Ok(answer)
    case Err(error) => Err(error)
  }

  /** What the command does with the documents that the pipeline gave. */
  ghost function Apply(store: Store, query: Query, documents: seq<Document>, alphabet: Alphabet): Outcome<Answer> {
    match query.command
    case UpdateAll =>
      var done := ReplaceEach(store, query.collection, documents, alphabet);
      Outcome(Counted(done.result, Updated(|documents|)), done.store)
    case DeleteAll =>
      var done := DeleteEach(store, query.collection, documents, alphabet);
      Outcome(Counted(done.result, Deleted(|documents|)), done.store)
    case _ => Outcome(Ok(Found(documents)), store)
  }

  /** The query over plain collections, from the scan of its collection; there is no index to choose. */
  ghost function Plain(store: Store, query: Query, scan: seq<Document>, alphabet: Alphabet, floats: FloatArithmetic, ids: seq<NovaId>): Outcome<Answer> {
    if query.command.InsertOne? then
      match NewDocument(query.command.document, floats, ids)
      case Err(error) => Outcome(Err(error), store)
      case Ok(document) => InsertNew(store, query.collection, document, alphabet)
    else if !ValidStages(query.stages, query.command) then Outcome(Err(InvalidArgument), store)
    else if query.collection !in store.collections then Outcome(Err(NotFound), store)
    else
      match ValueOf(RunStages(query.stages, scan, floats, ids))
      case Err(error) => Outcome(Err(error), store)
      case Ok(documents) => Apply(store, query, documents, alphabet)
  }

  // ---------- the executor ----------

  method ReplaceAll(backend: IndexedBackend, collection: Text, documents: seq<Document>, ghost store: Store)
    returns (r: Result<()>, ghost after: Store)
    requires backend.Valid() && Holds(backend, store)
    modifies backend.Repr()
    ensures backend.Valid() && Holds(backend, after) && fresh(backend.Repr() - old(backend.Repr()))
    ensures Outcome(r, after) == ReplaceEach(store, collection, documents, backend.indexes.alphabet)
  {
    hide IndexedBackend.Valid, Holds, Next, Takes;
    after := store;
    var i := 0;
    assert documents[0..] == documents;
    while i < |documents|
      invariant i <= |documents| && backend.Valid() && Holds(backend, after) && fresh(backend.Repr() - old(backend.Repr()))
      invariant ReplaceEach(after, collection, documents[i..], backend.indexes.alphabet) ==
                ReplaceEach(store, collection, documents, backend.indexes.alphabet)
    {
      assert documents[i..][1..] == documents[i + 1..];
      r, after := ReplaceOne(backend, collection, documents[i], after);
      if r.Err? {
        return;
      }
      i := i + 1;
    }
    r := Ok(());
  }

  method ReplaceOne(backend: IndexedBackend, collection: Text, document: Document, ghost store: Store)
    returns (r: Result<()>, ghost after: Store)
    requires backend.Valid() && Holds(backend, store)
    modifies backend.Repr()
    ensures backend.Valid() && Holds(backend, after) && fresh(backend.Repr() - old(backend.Repr()))
    ensures r == if !Takes(store, collection, document) then Err(InvalidArgument)
                 else if collection !in store.collections || document.id !in store.collections[collection] then Err(NotFound)
                 else Ok(())
    ensures after == if r.Ok? then Next(store, ReplaceIn(collection, document), backend.indexes.alphabet) else store
  {
    hide ValidDefinition, BPlusTree.Valid, BPlusTree.Contents, IndexedBackend.Valid, DocumentKey;
    r := backend.Replace(collection, document);
    after := Next(store, ReplaceIn(collection, document), backend.indexes.alphabet);
  }

  method DeleteDocuments(backend: IndexedBackend, collection: Text, documents: seq<Document>, ghost store: Store)
    returns (r: Result<()>, ghost after: Store)
    requires backend.Valid() && Holds(backend, store)
    modifies backend.Repr()
    ensures backend.Valid() && Holds(backend, after) && fresh(backend.Repr() - old(backend.Repr()))
    ensures Outcome(r, after) == DeleteEach(store, collection, documents, backend.indexes.alphabet)
  {
    hide IndexedBackend.Valid, Holds, Next;
    after := store;
    var i := 0;
    assert documents[0..] == documents;
    while i < |documents|
      invariant i <= |documents| && backend.Valid() && Holds(backend, after) && fresh(backend.Repr() - old(backend.Repr()))
      invariant DeleteEach(after, collection, documents[i..], backend.indexes.alphabet) ==
                DeleteEach(store, collection, documents, backend.indexes.alphabet)
    {
      assert documents[i..][1..] == documents[i + 1..];
      r, after := DeleteOne(backend, collection, documents[i].id, after);
      if r.Err? {
        return;
      }
      i := i + 1;
    }
    r := Ok(());
  }

  method DeleteOne(backend: IndexedBackend, collection: Text, id: NovaId, ghost store: Store)
    returns (r: Result<()>, ghost after: Store)
    requires backend.Valid() && Holds(backend, store)
    modifies backend.Repr()
    ensures backend.Valid() && Holds(backend, after) && fresh(backend.Repr() - old(backend.Repr()))
    ensures r == if collection !in store.collections || id !in store.collections[collection] then Err(NotFound) else Ok(())
    ensures after == if r.Ok? then Next(store, DeleteFrom(collection, id), backend.indexes.alphabet) else store
  {
    hide ValidDefinition, BPlusTree.Valid, BPlusTree.Contents, IndexedBackend.Valid, DocumentKey;
    r := backend.Delete(collection, id);
    after := Next(store, DeleteFrom(collection, id), backend.indexes.alphabet);
  }

  method InsertDocument(backend: IndexedBackend, collection: Text, document: Document, ghost store: Store)
    returns (r: Result<Answer>, ghost after: Store)
    requires backend.Valid() && Holds(backend, store)
    modifies backend.Repr()
    ensures backend.Valid() && Holds(backend, after) && fresh(backend.Repr() - old(backend.Repr()))
    ensures Outcome(r, after) == InsertNew(store, collection, document, backend.indexes.alphabet)
  {
    hide ValidDefinition, BPlusTree.Valid, BPlusTree.Contents, IndexedBackend.Valid, DocumentKey;
    var inserted := backend.Insert(collection, document);
    after := Next(store, InsertInto(collection, document), backend.indexes.alphabet);
    r := if inserted.Ok? then Ok(Inserted(inserted.value)) else Err(inserted.error);
  }

  ghost predicate ScansTo(store: Store, query: Query, scan: seq<Document>) {
    query.collection in store.collections ==> IsScan(store.collections[query.collection], scan)
  }

  /** What the query reads: the documents of the chosen index, or the scan. */
  ghost function ReadBy(store: Store, query: Query, scan: seq<Document>): seq<Document> {
    PlannedRead(query.collection, query.stages, store.definitions, scan)
  }

  ghost predicate Safe(store: Store, query: Query, scan: seq<Document>, floats: FloatArithmetic) {
    SafePlan(query.collection, query.stages, store.definitions, scan, floats)
  }

  /**
   * `execute`: plans, reads through the planned path, runs the pipeline and applies the command. The answer and the
   * collections afterwards are those of the plain query over what was read, and of the plain query over the whole
   * scan, failures included, on every query whose plan is safe.
   */
  method Execute(backend: IndexedBackend, query: Query, floats: FloatArithmetic, ids: seq<NovaId>, ghost store: Store)
    returns (r: Result<Answer>, ghost after: Store, ghost scan: seq<Document>)
    requires backend.Valid() && Holds(backend, store) && FilterFirst(query.stages)
    modifies backend.Repr()
    ensures backend.Valid() && Holds(backend, after) && fresh(backend.Repr() - old(backend.Repr()))
    ensures !query.command.InsertOne? && ValidStages(query.stages, query.command) ==> ScansTo(store, query, scan)
    ensures Outcome(r, after) == Plain(store, query, ReadBy(store, query, scan), backend.indexes.alphabet, floats, ids)
    ensures Safe(store, query, scan, floats) ==>
              Outcome(r, after) == Plain(store, query, scan, backend.indexes.alphabet, floats, ids)
  {
    hide ValidDefinition, BPlusTree.Valid, BPlusTree.Contents, IndexedBackend.Valid, Holds, Next, InsertNew, ReplaceEach, DeleteEach;
    hide RunStages, Safe, ReadBy, IsScan, NewDocument;
    after, scan := store, [];
    if query.command.InsertOne? {
      var document := NewDocument(query.command.document, floats, ids);
      if document.Err? {
        return Err(document.error), after, scan;
      }
      r, after := InsertDocument(backend, query.collection, document.value, store);
      return;
    }
    if !ValidStages(query.stages, query.command) {
      return Err(InvalidArgument), after, scan;
    }
    var documents;
    documents, scan := Read(backend, query, floats, ids, store);
    if documents.Err? {
      return Err(documents.error), after, scan;
    }
    if query.command.UpdateAll? {
      var done;
      done, after := ReplaceAll(backend, query.collection, documents.value, store);
      r := Counted(done, Updated(|documents.value|));
    } else if query.command.DeleteAll? {
      var done;
      done, after := DeleteDocuments(backend, query.collection, documents.value, store);
      r := Counted(done, Deleted(|documents.value|));
    } else {
      r := Ok(Found(documents.value));
    }
  }

  /** The reading half: the planned access and the pipeline. */
  method Read(backend: IndexedBackend, query: Query, floats: FloatArithmetic, ids: seq<NovaId>, ghost store: Store)
    returns (r: Result<seq<Document>>, ghost scan: seq<Document>)
    requires backend.Valid() && Holds(backend, store) && FilterFirst(query.stages)
    ensures query.collection !in store.collections ==> r == Err(NotFound)
    ensures ScansTo(store, query, scan)
    ensures query.collection in store.collections ==>
              && r == ValueOf(RunStages(query.stages, ReadBy(store, query, scan), floats, ids))
              && (Safe(store, query, scan, floats) ==> r == ValueOf(RunStages(query.stages, scan, floats, ids)))
  {
    hide ValidDefinition, BPlusTree.Valid, BPlusTree.Contents, IndexedBackend.Valid, RunStages, RunPipeline, SafePlan, PlannedRead, IsScan;
    r, scan := backend.RunPlanned(query.collection, query.stages, floats, Others(floats, ids));
    HeldDefinitions(backend, store);
    PipelineIsStages(scan, query.stages, floats, ids);
    PipelineIsStages(ReadBy(store, query, scan), query.stages, floats, ids);
  }

  /** The query answers, and leaves the collections, as without indexes over what its plan reads; over the scan if that is safe. */
  ghost predicate Refines(outcome: Outcome<Answer>, store: Store, query: Query, scan: seq<Document>,
                          alphabet: Alphabet, floats: FloatArithmetic, ids: seq<NovaId>)
  {
    && outcome == Plain(store, query, ReadBy(store, query, scan), alphabet, floats, ids)
    && (Safe(store, query, scan, floats) ==> outcome == Plain(store, query, scan, alphabet, floats, ids))
  }

  /** After any history of a backend with indexes. */
  method ExecuteAfter(steps: seq<Step>, alphabet: Alphabet, query: Query, floats: FloatArithmetic, ids: seq<NovaId>)
    returns (backend: IndexedBackend, r: Result<Answer>, ghost after: Store)
    requires FilterFirst(query.stages)
    ensures backend.Valid() && Holds(backend, after)
    ensures forall scan :: ScansTo(StoreAfter(steps, alphabet), query, scan) ==>
                             Refines(Outcome(r, after), StoreAfter(steps, alphabet), query, scan, alphabet, floats, ids)
  {
    hide ValidDefinition, BPlusTree.Valid, BPlusTree.Contents, IndexedBackend.Valid, StoreAfter, RunStages, Safe, ReadBy, IsScan;
    hide Holds, Apply, InsertNew, NewDocument;
    backend := BackendRuns.Run(steps, alphabet);
    ghost var scan;
    ghost var store := StoreAfter(steps, alphabet);
    r, after, scan := Execute(backend, query, floats, ids, store);
    if !query.command.InsertOne? && ValidStages(query.stages, query.command) && query.collection in store.collections {
      forall other | IsScan(store.collections[query.collection], other)
        ensures other == scan
      {
        OneScan(store.collections[query.collection], other, scan);
      }
    }
  }
}
