/** Whole histories of the indexed backend, told without indexes. */
module BackendRuns {
  import opened Base
  import opened IndexKeys
  import opened Documents
  import opened Ast
  import opened Evaluate
  import opened Planner
  import opened Catalog
  import opened Backend
  import opened BPlusTrees
  import opened Listings

  datatype Step =
    | MakeCollection(collection: Text)
    | DropCollection(collection: Text)
    | MakeIndex(name: Text, collection: Text, field: seq<Text>)
    | DropIndex(name: Text)
    | InsertInto(collection: Text, document: Document)
    | ReplaceIn(collection: Text, document: Document)
    | DeleteFrom(collection: Text, id: NovaId)

  /** Plain collections, and the definitions of the indexes. */
  datatype Store = Store(collections: Collections, definitions: map<Text, IndexDefinition>)

  /** Every index of the collection can take the document. */
  predicate Takes(store: Store, collection: Text, document: Document) {
    forall name :: name in store.definitions && store.definitions[name].collection == collection ==>
                     DocumentKey(store.definitions[name], document).Ok?
  }

  /** What a step does, or nothing if it fails. */
  ghost function Next(store: Store, step: Step, alphabet: Alphabet): Store {
    var collections, definitions := store.collections, store.definitions;
    match step
    case MakeCollection(c) => if c in collections then store else store.(collections := collections[c := map[]])
    case DropCollection(c) =>
      if c !in collections then store
      else Store(collections - {c}, map name | name in definitions && definitions[name].collection != c :: definitions[name])
    case MakeIndex(name, c, field) =>
      if c in collections && ValidDefinition(IndexDefinition(name, c, field), alphabet) && name !in definitions
         && AllIndexable(IndexDefinition(name, c, field), collections[c])
      then store.(definitions := definitions[name := IndexDefinition(name, c, field)])
      else store
    case DropIndex(name) => store.(definitions := definitions - {name})
    case InsertInto(c, d) =>
      if Takes(store, c, d) && c in collections && d.id !in collections[c]
      then store.(collections := collections[c := WithDocument(collections[c], d)]) else store
    case ReplaceIn(c, d) =>
      if Takes(store, c, d) && c in collections && d.id in collections[c]
      then store.(collections := collections[c := WithDocument(collections[c], d)]) else store
    case DeleteFrom(c, id) =>
      if c in collections && id in collections[c] then store.(collections := collections[c := collections[c] - {id}]) else store
  }

  ghost function StoreAfter(steps: seq<Step>, alphabet: Alphabet): Store {
    if steps == [] then Store(map[], map[]) else Next(StoreAfter(steps[..|steps| - 1], alphabet), steps[|steps| - 1], alphabet)
  }

  /** The backend holds the store. */
  ghost predicate Holds(backend: IndexedBackend, store: Store)
    reads backend.Repr()
  {
    && backend.inner.collections == store.collections
    && backend.indexes.indexes.Keys == store.definitions.Keys
    && forall name :: name in store.definitions ==> backend.indexes.indexes[name].definition == store.definitions[name]
  }

  lemma NoOrphans(backend: IndexedBackend)
    requires backend.Valid()
    ensures forall name :: name in backend.indexes.indexes ==>
              backend.indexes.indexes[name].definition.collection in backend.inner.collections
  {
    hide IndexedBackend.Valid;
    forall name | name in backend.indexes.indexes
      ensures backend.indexes.indexes[name].definition.collection in backend.inner.collections
    {
      backend.CollectionThere(name);
    }
  }

  method Act(backend: IndexedBackend, step: Step, ghost store: Store)
    requires backend.Valid() && Holds(backend, store)
    modifies backend.Repr()
    ensures backend.Valid() && Holds(backend, Next(store, step, backend.indexes.alphabet)) && fresh(backend.Repr() - old(backend.Repr()))
  {
    hide IndexedBackend.Valid, Holds, Next;
    match step
    case InsertInto(_, _) => ActOnDocument(backend, step, store);
    case ReplaceIn(_, _) => ActOnDocument(backend, step, store);
    case DeleteFrom(_, _) => ActOnDocument(backend, step, store);
    case _ => ActOnSchema(backend, step, store);
  }

  method ActOnSchema(backend: IndexedBackend, step: Step, ghost store: Store)
    requires backend.Valid() && Holds(backend, store) && !step.InsertInto? && !step.ReplaceIn? && !step.DeleteFrom?
    modifies backend.Repr()
    ensures backend.Valid() && Holds(backend, Next(store, step, backend.indexes.alphabet)) && fresh(backend.Repr() - old(backend.Repr()))
  {
    hide ValidDefinition, BPlusTree.Valid, BPlusTree.Contents, IndexedBackend.Valid, AllIndexable;
    match step
    case MakeCollection(c) => var _ := backend.CreateCollection(c);
    case DropCollection(c) => ActOnDrop(backend, c, store);
    case MakeIndex(name, c, field) => var _ := backend.CreateIndex(name, c, field);
    case DropIndex(name) => var _ := backend.DropIndex(name);
  }

  method ActOnDrop(backend: IndexedBackend, collection: Text, ghost store: Store)
    requires backend.Valid() && Holds(backend, store)
    modifies backend.Repr()
    ensures backend.Valid() && fresh(backend.Repr() - old(backend.Repr()))
    ensures Holds(backend, Next(store, DropCollection(collection), backend.indexes.alphabet))
  {
    hide ValidDefinition, BPlusTree.Valid, BPlusTree.Contents, IndexedBackend.Valid;
    NoOrphans(backend);
    var _ := backend.DropCollection(collection);
  }

  method ActOnDocument(backend: IndexedBackend, step: Step, ghost store: Store)
    requires backend.Valid() && Holds(backend, store) && (step.InsertInto? || step.ReplaceIn? || step.DeleteFrom?)
    modifies backend.Repr()
    ensures backend.Valid() && Holds(backend, Next(store, step, backend.indexes.alphabet)) && fresh(backend.Repr() - old(backend.Repr()))
  {
    hide ValidDefinition, BPlusTree.Valid, BPlusTree.Contents, IndexedBackend.Valid, DocumentKey;
    match step
    case InsertInto(c, d) => var _ := backend.Insert(c, d);
    case ReplaceIn(c, d) => var _ := backend.Replace(c, d);
    case DeleteFrom(c, id) => var _ := backend.Delete(c, id);
  }

  method Run(steps: seq<Step>, alphabet: Alphabet) returns (backend: IndexedBackend)
    ensures fresh(backend.Repr()) && backend.Valid() && Holds(backend, StoreAfter(steps, alphabet)) && backend.indexes.alphabet == alphabet
  {
    hide ValidDefinition, BPlusTree.Valid, BPlusTree.Contents, IndexedBackend.Valid, Next, Holds;
    backend := new IndexedBackend(alphabet);
    HoldsNothing(backend);
    var i := 0;
    while i < |steps|
      invariant i <= |steps| && fresh(backend.Repr()) && backend.Valid() && Holds(backend, StoreAfter(steps[..i], alphabet)) && backend.indexes.alphabet == alphabet
    {
      Act(backend, steps[i], StoreAfter(steps[..i], alphabet));
      assert steps[..i + 1][..i] == steps[..i];
      i := i + 1;
    }
    assert steps[..i] == steps;
  }

  lemma HoldsNothing(backend: IndexedBackend)
    requires backend.inner.collections == map[] && backend.indexes.indexes == map[]
    ensures Holds(backend, Store(map[], map[]))
  {
  }

  /**
   * After any history, failing steps included: looking up any key in any index returns exactly the ids of that
   * collection's documents whose extracted key equals it.
   */
  method LookupAfter(steps: seq<Step>, alphabet: Alphabet, name: Text, key: IndexKey) returns (result: Result<seq<NovaId>>)
    ensures var store := StoreAfter(steps, alphabet);
            if name !in store.definitions then result == Err(NotFound)
            else var definition := store.definitions[name];
                 result.Ok? && definition.collection in store.collections
                 && forall id :: id in result.value <==>
                                 id in store.collections[definition.collection]
                                 && DocumentKey(definition, store.collections[definition.collection][id]) == Ok(Some(key))
  {
    hide ValidDefinition, BPlusTree.Valid, BPlusTree.Contents, IndexedBackend.Valid, StoreAfter, DocumentKey;
    var backend := Run(steps, alphabet);
    result := backend.Lookup(name, key);
  }

  /** A collection has only one scan. */
  lemma OneScan(documents: Collection, a: seq<Document>, b: seq<Document>)
    requires IsScan(documents, a) && IsScan(documents, b)
    ensures a == b
  {
    OneListing((x: Document, y: Document) => x.id < y.id, a, b);
  }

  /**
   * After any history: a planned query runs its pipeline over the documents of the chosen index, which is the answer
   * of the pipeline over the plain collection, failures included, whenever the plan is safe.
   */
  method QueryAfter(steps: seq<Step>, alphabet: Alphabet, collection: Text, stages: seq<Stage>,
                    floats: FloatArithmetic, others: OtherStages)
    returns (result: Result<seq<Document>>)
    requires FilterFirst(stages)
    ensures collection !in StoreAfter(steps, alphabet).collections ==> result == Err(NotFound)
    ensures collection in StoreAfter(steps, alphabet).collections ==>
              forall scan :: IsScan(StoreAfter(steps, alphabet).collections[collection], scan) ==>
                               Answers(result, StoreAfter(steps, alphabet).definitions, collection, stages, scan, floats, others)
  {
    hide ValidDefinition, BPlusTree.Valid, BPlusTree.Contents, IndexedBackend.Valid, StoreAfter, RunPipeline, SafePlan, IsScan, PlannedRead;
    var backend := Run(steps, alphabet);
    ghost var scan;
    result, scan := backend.RunPlanned(collection, stages, floats, others);
    ghost var store := StoreAfter(steps, alphabet);
    HeldDefinitions(backend, store);
    if collection in store.collections {
      forall other | IsScan(store.collections[collection], other)
        ensures other == scan
      {
        OneScan(store.collections[collection], other, scan);
      }
    }
  }

  /** The answer is that of the planned read, and that of the full scan if the plan is safe. */
  ghost predicate Answers(result: Result<seq<Document>>, definitions: map<Text, IndexDefinition>, collection: Text, stages: seq<Stage>,
                          scan: seq<Document>, floats: FloatArithmetic, others: OtherStages)
  {
    && result == RunPipeline(PlannedRead(collection, stages, definitions, scan), stages, floats, others)
    && (SafePlan(collection, stages, definitions, scan, floats) ==> result == RunPipeline(scan, stages, floats, others))
  }

  lemma HeldDefinitions(backend: IndexedBackend, store: Store)
    requires Holds(backend, store)
    ensures backend.DefinitionMap() == store.definitions
  {
  }
}
