/** The in-memory backend, and the indexed backend that refines it. */
module Backend {
  import opened Base
  import opened IndexKeys
  import opened Documents
  import opened Ast
  import opened Evaluate
  import opened Planner
  import opened Catalog
  import opened BPlusTrees
  import opened LeafChain

  type Collections = map<Text, Collection>

  ghost predicate Keyed(documents: Collection) {
    forall id :: id in documents ==> documents[id].id == id
  }

  /** `scan` lists the documents of a collection once each, in id order. */
  ghost predicate IsScan(documents: Collection, scan: seq<Document>) {
    && (forall i :: 0 <= i < |scan| ==> scan[i].id in documents && documents[scan[i].id] == scan[i])
    && (forall id :: id in documents ==> documents[id] in scan)
    && forall i, j :: 0 <= i < j < |scan| ==> scan[i].id < scan[j].id
  }

  method LeastId(ids: set<NovaId>) returns (least: NovaId)
    requires ids != {}
    ensures least in ids && forall id :: id in ids ==> least <= id
  {
    least :| least in ids;
    var rest := ids - {least};
    while rest != {}
      invariant least in ids && rest <= ids && forall id :: id in ids && id !in rest ==> least <= id
    {
      var id :| id in rest;
      if id < least {
        least := id;
      }
      rest := rest - {id};
    }
  }

  /** Iterating an ordered map. */
  method ListInOrder(documents: Collection) returns (scan: seq<Document>)
    requires Keyed(documents)
    ensures IsScan(documents, scan)
  {
    scan := [];
    var rest := documents.Keys;
    while rest != {}
      invariant rest <= documents.Keys
      invariant forall i :: 0 <= i < |scan| ==> scan[i].id in documents && documents[scan[i].id] == scan[i]
      invariant forall id :: id in documents && id !in rest ==> documents[id] in scan
      invariant forall i, id :: 0 <= i < |scan| && id in rest ==> scan[i].id < id
      invariant forall i, j :: 0 <= i < j < |scan| ==> scan[i].id < scan[j].id
    {
      var id := LeastId(rest);
      scan := scan + [documents[id]];
      rest := rest - {id};
    }
  }

  function WithDocument(documents: Collection, document: Document): Collection {
    var id: NovaId := document.id;
    documents[id := document]
  }

  class MemoryBackend {
    var collections: Collections

    ghost predicate Valid()
      reads this
    {
      forall c :: c in collections ==> Keyed(collections[c])
    }

    constructor ()
      ensures Valid() && collections == map[]
    {
      collections := map[];
    }

    method Scan(collection: Text) returns (result: Result<seq<Document>>)
      requires Valid()
      ensures result.Err? ==> collection !in collections && result.error == NotFound
      ensures result.Ok? ==> collection in collections && IsScan(collections[collection], result.value)
    {
      if collection !in collections {
        return Err(NotFound);
      }
      var scan := ListInOrder(collections[collection]);
      return Ok(scan);
    }

    method Insert(collection: Text, document: Document) returns (result: Result<NovaId>)
      requires Valid()
      modifies this
      ensures Valid()
      ensures result == if collection !in old(collections) then Err(NotFound)
                        else if document.id in old(collections)[collection] then Err(AlreadyExists) else Ok(document.id)
      ensures collections == if result.Ok? then old(collections)[collection := WithDocument(old(collections)[collection], document)]
                             else old(collections)
    {
      if collection !in collections {
        return Err(NotFound);
      }
      if document.id in collections[collection] {
        return Err(AlreadyExists);
      }
      collections := collections[collection := WithDocument(collections[collection], document)];
      return Ok(document.id);
    }

    method Replace(collection: Text, document: Document) returns (result: Result<()>)
      requires Valid()
      modifies this
      ensures Valid()
      ensures result == if collection in old(collections) && document.id in old(collections)[collection] then Ok(()) else Err(NotFound)
      ensures collections == if result.Ok? then old(collections)[collection := WithDocument(old(collections)[collection], document)]
                             else old(collections)
    {
      if collection !in collections || document.id !in collections[collection] {
        return Err(NotFound);
      }
      collections := collections[collection := WithDocument(collections[collection], document)];
      return Ok(());
    }

    method Delete(collection: Text, id: NovaId) returns (result: Result<()>)
      requires Valid()
      modifies this
      ensures Valid()
      ensures result == if collection in old(collections) && id in old(collections)[collection] then Ok(()) else Err(NotFound)
      ensures collections == if result.Ok? then old(collections)[collection := old(collections)[collection] - {id}] else old(collections)
    {
      if collection !in collections || id !in collections[collection] {
        return Err(NotFound);
      }
      collections := collections[collection := collections[collection] - {id}];
      return Ok(());
    }

    method CreateCollection(name: Text) returns (result: Result<()>)
      requires Valid()
      modifies this
      ensures Valid()
      ensures result == if name in old(collections) then Err(AlreadyExists) else Ok(())
      ensures collections == if result.Ok? then old(collections)[name := map[]] else old(collections)
    {
      if name in collections {
        return Err(AlreadyExists);
      }
      collections := collections[name := map[]];
      return Ok(());
    }

    method DropCollection(name: Text) returns (result: Result<()>)
      requires Valid()
      modifies this
      ensures Valid()
      ensures result == if name in old(collections) then Ok(()) else Err(NotFound)
      ensures collections == old(collections) - {name}
    {
      if name !in collections {
        return Err(NotFound);
      }
      collections := collections - {name};
      return Ok(());
    }
  }

  // ---------- what an index has to contain, edit by edit ----------

  ghost predicate AllIndexable(definition: IndexDefinition, documents: Collection) {
    forall id :: id in documents ==> DocumentKey(definition, documents[id]).Ok?
  }

  lemma ExpectedInsert(definition: IndexDefinition, documents: Collection, document: Document)
    requires AllIndexable(definition, documents) && document.id !in documents && DocumentKey(definition, document).Ok?
    ensures AllIndexable(definition, WithDocument(documents, document))
    ensures Expected(definition, WithDocument(documents, document)) ==
            Edited(definition, AddDocument(document), Expected(definition, documents))
  {
  }

  lemma ExpectedReplace(definition: IndexDefinition, documents: Collection, document: Document)
    requires Keyed(documents) && document.id in documents
    requires AllIndexable(definition, documents) && DocumentKey(definition, document).Ok?
    ensures AllIndexable(definition, WithDocument(documents, document))
    ensures Expected(definition, WithDocument(documents, document)) ==
            Edited(definition, ReplaceWith(documents[document.id], document), Expected(definition, documents))
  {
  }

  lemma ExpectedDelete(definition: IndexDefinition, documents: Collection, id: NovaId)
    requires Keyed(documents) && id in documents && AllIndexable(definition, documents)
    ensures AllIndexable(definition, documents - {id}) && DocumentKey(definition, documents[id]).Ok?
    ensures Expected(definition, documents - {id}) ==
            Edited(definition, DropDocument(documents[id]), Expected(definition, documents))
  {
  }

  lemma ExpectedScan(definition: IndexDefinition, documents: Collection, scan: seq<Document>)
    requires IsScan(documents, scan) && Keyed(documents)
    ensures ExpectedOfAll(definition, scan) == Expected(definition, documents)
  {
    forall p: Pair | p in Expected(definition, documents)
      ensures p in ExpectedOfAll(definition, scan)
    {
      var i :| 0 <= i < |scan| && scan[i] == documents[p.id];
    }
  }

  /** A collection can be indexed exactly if no document of it holds a refused value under the field. */
  lemma AllIndexableExactly(definition: IndexDefinition, documents: Collection)
    requires ValidField(definition.field)
    ensures AllIndexable(definition, documents) <==> forall id :: id in documents ==> !Refuses(definition.field, documents[id])
  {
    hide DocumentKey, Refuses;
    forall id | id in documents
      ensures DocumentKey(definition, documents[id]).Err? <==> Refuses(definition.field, documents[id])
    {
      KeyExactly(definition, documents[id]);
    }
  }

  lemma ScanIndexable(definition: IndexDefinition, documents: Collection, scan: seq<Document>)
    requires IsScan(documents, scan) && Keyed(documents)
    ensures AllIndexable(definition, documents) <==> forall i :: 0 <= i < |scan| ==> DocumentKey(definition, scan[i]).Ok?
  {
    hide DocumentKey;
    forall id | id in documents && forall i :: 0 <= i < |scan| ==> DocumentKey(definition, scan[i]).Ok?
      ensures DocumentKey(definition, documents[id]).Ok?
    {
      assert documents[id] in scan;
    }
    forall i | AllIndexable(definition, documents) && 0 <= i < |scan|
      ensures DocumentKey(definition, scan[i]).Ok?
    {
      assert scan[i] in scan;
    }
  }

  /** An index over these collections has these contents. */
  ghost predicate InAgreement(definition: IndexDefinition, collections: Collections, contents: iset<Pair>) {
    && definition.collection in collections
    && AllIndexable(definition, collections[definition.collection])
    && contents == Expected(definition, collections[definition.collection])
  }

  /** The documents that the edit makes of a collection. */
  ghost predicate Makes(edit: Edit, before: Collection, documents: Collection) {
    match edit
    case AddDocument(document) => document.id !in before && documents == WithDocument(before, document)
    case DropDocument(document) => document.id in before && before[document.id] == document && documents == before - {document.id}
    case ReplaceWith(old_, document) =>
      document.id in before && before[document.id] == old_ && documents == WithDocument(before, document)
  }

  ghost predicate Acceptable(definition: IndexDefinition, edit: Edit) {
    match edit
    case AddDocument(document) => DocumentKey(definition, document).Ok?
    case DropDocument(_) => true
    case ReplaceWith(_, document) => DocumentKey(definition, document).Ok?
  }

  /** An index that changes as its own edits say, and only with its collection, stays in agreement. */
  lemma EditAgrees(definition: IndexDefinition, collection: Text, edit: Edit, before: Collections, documents: Collection, contents: iset<Pair>)
    requires InAgreement(definition, before, contents) && collection in before && Keyed(before[collection])
    requires Makes(edit, before[collection], documents) && (definition.collection == collection ==> Acceptable(definition, edit))
    ensures InAgreement(definition, before[collection := documents],
                        if definition.collection == collection then Edited(definition, edit, contents) else contents)
  {
    hide Edited, Expected, DocumentKey;
    if definition.collection == collection {
      match edit
      case AddDocument(document) => ExpectedInsert(definition, before[collection], document);
      case DropDocument(document) => ExpectedDelete(definition, before[collection], document.id);
      case ReplaceWith(_, document) => ExpectedReplace(definition, before[collection], document);
    }
  }

  /** Keeps every index of a collection equal to what its documents require. */
  class IndexedBackend {
    const inner: MemoryBackend
    const indexes: IndexCatalog

    ghost function Repr(): set<object>
      reads indexes
    {
      {inner, indexes} + indexes.Trees()
    }

    ghost predicate Valid()
      reads indexes, Repr()
    {
      && inner.Valid() && indexes.Valid()
      && forall name :: name in indexes.indexes ==> Agrees(name)
    }

    /** Looking up any key in this index gives exactly the ids of the documents with that key. */
    ghost predicate Agrees(name: Text)
      requires name in indexes.indexes
      reads indexes, Repr()
    {
      InAgreement(indexes.indexes[name].definition, inner.collections, indexes.ContentsOf(name))
    }

    constructor (alphabet: Alphabet)
      ensures Valid() && fresh(Repr()) && inner.collections == map[] && indexes.indexes == map[] && indexes.alphabet == alphabet
    {
      inner := new MemoryBackend();
      indexes := new IndexCatalog(alphabet);
    }

    method Insert(collection: Text, document: Document) returns (result: Result<NovaId>)
      requires Valid()
      modifies Repr()
      ensures Valid() && indexes.indexes == old(indexes.indexes)
      ensures result == if !old(indexes.Indexable(collection, document)) then Err(InvalidArgument)
                        else if collection !in old(inner.collections) then Err(NotFound)
                        else if document.id in old(inner.collections)[collection] then Err(AlreadyExists)
                        else Ok(document.id)
      ensures result == Err(InvalidArgument) <==> old(indexes.RefusedBy(collection, document))
      ensures inner.collections ==
              if result.Ok? then old(inner.collections)[collection := WithDocument(old(inner.collections)[collection], document)]
              else old(inner.collections)
    {
      hide ValidDefinition, BPlusTree.Valid, BPlusTree.Contents, Edited, InAgreement, DocumentKey, Refuses;
      indexes.IndexableExactly(collection, document);
      var valid := indexes.ValidateDocument(collection, document);
      if valid.Err? {
        return Err(valid.error);
      }
      result := inner.Insert(collection, document);
      if result.Err? {
        return;
      }
      var indexed := indexes.InsertDocument(collection, document);
      ghost var before := old(inner.collections);
      forall name | name in indexes.indexes
        ensures Agrees(name)
      {
        assert old(Agrees(name));
        EditAgrees(indexes.indexes[name].definition, collection, AddDocument(document), before, WithDocument(before[collection], document), old(indexes.ContentsOf(name)));
      }
    }

    /** Whatever is stored can be indexed by every index of its collection. */
    lemma StoredIndexable(collection: Text, id: NovaId)
      requires Valid() && collection in inner.collections && id in inner.collections[collection]
      ensures indexes.Indexable(collection, inner.collections[collection][id]) && inner.collections[collection][id].id == id
      ensures Keyed(inner.collections[collection])
    {
      hide ValidDefinition, BPlusTree.Valid, BPlusTree.Contents, Expected, DocumentKey;
      forall name | name in indexes.indexes && indexes.indexes[name].definition.collection == collection
        ensures DocumentKey(indexes.indexes[name].definition, inner.collections[collection][id]).Ok?
      {
        assert Agrees(name);
      }
    }

    method FindDocument(collection: Text, id: NovaId) returns (result: Result<Document>)
      requires Valid()
      ensures result == if collection in inner.collections && id in inner.collections[collection]
                        then Ok(inner.collections[collection][id]) else Err(NotFound)
    {
      var scan := inner.Scan(collection);
      if scan.Err? {
        return Err(scan.error);
      }
      var i := 0;
      while i < |scan.value|
        invariant i <= |scan.value| && forall j :: 0 <= j < i ==> scan.value[j].id != id
      {
        if scan.value[i].id == id {
          return Ok(scan.value[i]);
        }
        i := i + 1;
      }
      return Err(NotFound);
    }

    method Replace(collection: Text, document: Document) returns (result: Result<()>)
      requires Valid()
      modifies Repr()
      ensures Valid() && indexes.indexes == old(indexes.indexes)
      ensures result == if !old(indexes.Indexable(collection, document)) then Err(InvalidArgument)
                        else if collection in old(inner.collections) && document.id in old(inner.collections)[collection] then Ok(())
                        else Err(NotFound)
      ensures result == Err(InvalidArgument) <==> old(indexes.RefusedBy(collection, document))
      ensures inner.collections ==
              if result.Ok? then old(inner.collections)[collection := WithDocument(old(inner.collections)[collection], document)]
              else old(inner.collections)
    {
      hide ValidDefinition, BPlusTree.Valid, BPlusTree.Contents, Edited, InAgreement, DocumentKey, Refuses;
      indexes.IndexableExactly(collection, document);
      result := indexes.ValidateDocument(collection, document);
      if result.Err? {
        return;
      }
      var found := FindDocument(collection, document.id);
      if found.Err? {
        return Err(found.error);
      }
      StoredIndexable(collection, document.id);
      result := inner.Replace(collection, document);
      var indexed := indexes.ReplaceDocument(collection, found.value, document);
      ghost var before := old(inner.collections);
      forall name | name in indexes.indexes
        ensures Agrees(name)
      {
        assert old(Agrees(name));
        EditAgrees(indexes.indexes[name].definition, collection, ReplaceWith(found.value, document), before, WithDocument(before[collection], document), old(indexes.ContentsOf(name)));
      }
    }

    method Delete(collection: Text, id: NovaId) returns (result: Result<()>)
      requires Valid()
      modifies Repr()
      ensures Valid() && indexes.indexes == old(indexes.indexes)
      ensures result == if collection in old(inner.collections) && id in old(inner.collections)[collection] then Ok(()) else Err(NotFound)
      ensures inner.collections ==
              if result.Ok? then old(inner.collections)[collection := old(inner.collections)[collection] - {id}] else old(inner.collections)
    {
      hide ValidDefinition, BPlusTree.Valid, BPlusTree.Contents, Edited, InAgreement, DocumentKey;
      var found := FindDocument(collection, id);
      if found.Err? {
        return Err(found.error);
      }
      StoredIndexable(collection, id);
      result := inner.Delete(collection, id);
      var indexed := indexes.DeleteDocument(collection, found.value);
      ghost var before := old(inner.collections);
      forall name | name in indexes.indexes
        ensures Agrees(name)
      {
        assert old(Agrees(name));
        EditAgrees(indexes.indexes[name].definition, collection, DropDocument(found.value), before, before[collection] - {id}, old(indexes.ContentsOf(name)));
      }
    }

    method CreateCollection(name: Text) returns (result: Result<()>)
      requires Valid()
      modifies Repr()
      ensures Valid() && indexes.indexes == old(indexes.indexes)
      ensures result == if name in old(inner.collections) then Err(AlreadyExists) else Ok(())
      ensures inner.collections == if result.Ok? then old(inner.collections)[name := map[]] else old(inner.collections)
    {
      hide ValidDefinition, BPlusTree.Valid, BPlusTree.Contents, Expected;
      result := inner.CreateCollection(name);
    }

    method DropCollection(name: Text) returns (result: Result<()>)
      requires Valid()
      modifies Repr()
      ensures Valid()
      ensures result == if name in old(inner.collections) then Ok(()) else Err(NotFound)
      ensures inner.collections == old(inner.collections) - {name}
      ensures forall n :: n in indexes.indexes <==> n in old(indexes.indexes) && old(indexes.indexes)[n].definition.collection != name
      ensures forall n :: n in indexes.indexes ==> indexes.indexes[n] == old(indexes.indexes)[n]
    {
      hide ValidDefinition, BPlusTree.Valid, BPlusTree.Contents, Expected;
      result := inner.DropCollection(name);
      if result.Ok? {
        indexes.DropCollectionIndexes(name);
      }
    }

    method CreateIndex(name: Text, collection: Text, field: seq<Text>) returns (result: Result<()>)
      requires Valid()
      modifies indexes
      ensures Valid() && inner.collections == old(inner.collections)
      ensures var definition := IndexDefinition(name, collection, field);
              result == if collection !in inner.collections then Err(NotFound)
                        else if !ValidDefinition(definition, indexes.alphabet) then Err(InvalidArgument)
                        else if name in old(indexes.indexes) then Err(AlreadyExists)
                        else if !AllIndexable(definition, inner.collections[collection]) then Err(InvalidArgument)
                        else Ok(())
      ensures collection in inner.collections && ValidDefinition(IndexDefinition(name, collection, field), indexes.alphabet)
              && name !in old(indexes.indexes) ==>
                (result.Ok? <==> forall id :: id in inner.collections[collection] ==> !Refuses(field, inner.collections[collection][id]))
      ensures result.Ok? ==> indexes.indexes.Keys == old(indexes.indexes.Keys) + {name}
                             && indexes.indexes[name].definition == IndexDefinition(name, collection, field)
                             && fresh(indexes.indexes[name].tree)
      ensures forall n :: n in old(indexes.indexes) ==> n in indexes.indexes && indexes.indexes[n] == old(indexes.indexes)[n]
      ensures result.Err? ==> indexes.indexes == old(indexes.indexes)
    {
      hide ValidDefinition, BPlusTree.Valid, BPlusTree.Contents, Expected, ExpectedOfAll, DocumentKey, AllIndexable, IsScan, Refuses;
      var scan := inner.Scan(collection);
      if scan.Err? {
        return Err(scan.error);
      }
      var definition := IndexDefinition(name, collection, field);
      ScanIndexable(definition, inner.collections[collection], scan.value);
      ExpectedScan(definition, inner.collections[collection], scan.value);
      if ValidDefinition(definition, indexes.alphabet) {
        DefinitionHasNoDots(definition, indexes.alphabet);
        AllIndexableExactly(definition, inner.collections[collection]);
      }
      result := indexes.CreateIndex(name, collection, field, scan.value);
      if result.Err? {
        return;
      }
      assert Agrees(name);
      return Ok(());
    }

    method DropIndex(name: Text) returns (result: Result<()>)
      requires Valid()
      modifies indexes
      ensures Valid() && inner.collections == old(inner.collections)
      ensures result == if name in old(indexes.indexes) then Ok(()) else Err(NotFound)
      ensures indexes.indexes == old(indexes.indexes) - {name}
    {
      hide ValidDefinition, BPlusTree.Valid, BPlusTree.Contents, Expected;
      result := indexes.DropIndex(name);
    }

    /** Every lookup answers from the documents. */
    method Lookup(name: Text, key: IndexKey) returns (result: Result<seq<NovaId>>)
      requires Valid()
      ensures result.Ok? <==> name in indexes.indexes
      ensures result.Err? ==> result.error == NotFound
      ensures result.Ok? ==>
                var definition := indexes.indexes[name].definition;
                && definition.collection in inner.collections
                && forall id :: id in result.value <==>
                                id in inner.collections[definition.collection]
                                && DocumentKey(definition, inner.collections[definition.collection][id]) == Ok(Some(key))
    {
      hide ValidDefinition, BPlusTree.Valid, BPlusTree.Contents;
      result := indexes.Lookup(name, key);
      if result.Ok? {
        assert Agrees(name);
      }
    }

    /** `scan_index`: the documents whose ids the index returns, in scan order. */
    method ScanIndex(collection: Text, index: Text, key: IndexKey) returns (result: Result<seq<Document>>, ghost scan: seq<Document>, ghost ids: set<NovaId>)
      requires Valid()
      ensures result.Ok? <==> index in indexes.indexes && collection in inner.collections
      ensures result.Ok? ==> IsScan(inner.collections[collection], scan) && result.value == Select(scan, ids)
      ensures result.Ok? && indexes.indexes[index].definition.collection == collection ==>
                IndexAgrees(indexes.indexes[index].definition, key, scan, ids)
    {
      hide ValidDefinition, BPlusTree.Valid, BPlusTree.Contents;
      scan, ids := [], {};
      var found := Lookup(index, key);
      if found.Err? {
        return Err(found.error), scan, ids;
      }
      var wanted := set id | id in found.value;
      var all := inner.Scan(collection);
      if all.Err? {
        return Err(all.error), scan, ids;
      }
      return Ok(Select(all.value, wanted)), all.value, wanted;
    }

    /** `index_definitions`. */
    method Definitions() returns (definitions: seq<IndexDefinition>)
      requires Valid()
      ensures forall d :: d in definitions <==> exists name :: name in indexes.indexes && indexes.indexes[name].definition == d
    {
      hide ValidDefinition, BPlusTree.Valid, BPlusTree.Contents;
      definitions := [];
      var names := indexes.indexes.Keys;
      while names != {}
        invariant names <= indexes.indexes.Keys
        invariant forall d :: d in definitions ==> exists name :: name in indexes.indexes && indexes.indexes[name].definition == d
        invariant forall name :: name in indexes.indexes && name !in names ==> indexes.indexes[name].definition in definitions
      {
        var name :| name in names;
        definitions := definitions + [indexes.indexes[name].definition];
        names := names - {name};
      }
    }

    lemma CollectionThere(name: Text)
      requires Valid() && name in indexes.indexes
      ensures indexes.indexes[name].definition.collection in inner.collections
    {
      hide ValidDefinition, BPlusTree.Valid, BPlusTree.Contents, Expected;
      assert Agrees(name);
    }

    ghost function DefinitionMap(): map<Text, IndexDefinition>
      reads indexes
    {
      map name | name in indexes.indexes :: indexes.indexes[name].definition
    }

    /**
     * Plans and runs the reading part of a get, update or delete: the pipeline over the documents of the chosen index,
     * or over the scan. This is the answer of the full scan, failures included, whenever the plan is safe.
     */
    method RunPlanned(collection: Text, stages: seq<Stage>, floats: FloatArithmetic, others: OtherStages)
      returns (result: Result<seq<Document>>, ghost scan: seq<Document>)
      requires Valid() && FilterFirst(stages)
      ensures collection !in inner.collections ==> result == Err(NotFound)
      ensures collection in inner.collections ==>
                && IsScan(inner.collections[collection], scan)
                && result == RunPipeline(PlannedRead(collection, stages, DefinitionMap(), scan), stages, floats, others)
                && (SafePlan(collection, stages, DefinitionMap(), scan, floats) ==> result == RunPipeline(scan, stages, floats, others))
    {
      hide ValidDefinition, BPlusTree.Valid, BPlusTree.Contents, IsScan, RunPipeline, SafePlan, PlannedRead, FirstFilter, EqualityKey, IndexAgrees, Usable, InAgreement, FilterFirst;
      scan := [];
      var definitions := Definitions();
      PlanIsChosen(collection, stages, definitions, DefinitionMap());
      match Plan(collection, stages, definitions)
      case CollectionScan(_) =>
        var documents := inner.Scan(collection);
        if documents.Err? {
          return Err(documents.error), scan;
        }
        NotChosen(collection, stages, DefinitionMap(), documents.value, floats);
        return RunPipeline(documents.value, stages, floats, others), documents.value;
      case IndexScan(_, index, key) =>
        ghost var definition := DefinitionMap()[index];
        CollectionThere(index);
        UsableHere(definition, collection, FirstFilter(stages).value);
        ghost var ids;
        var documents;
        documents, scan, ids := ScanIndex(collection, index, key);
        DefinitionHasNoDots(definition, indexes.alphabet);
        IndexAnswer(collection, stages, DefinitionMap(), scan, ids, definition, key, floats, others);
        return RunPipeline(documents.value, stages, floats, others), scan;
    }
  }

  /** Selecting the ids of the chosen index is the planned read, and safe exactly when the plan is. */
  lemma IndexAnswer(collection: Text, stages: seq<Stage>, definitions: map<Text, IndexDefinition>, scan: seq<Document>, ids: set<NovaId>,
                    definition: IndexDefinition, key: IndexKey, floats: FloatArithmetic, others: OtherStages)
    requires FilterFirst(stages) && IsChosen(definition, collection, stages, definitions) && ValidField(definition.field)
    requires EqualityKey(FirstFilter(stages).value, definition.field) == Some(key) && IndexAgrees(definition, key, scan, ids)
    ensures Select(scan, ids) == PlannedRead(collection, stages, definitions, scan)
    ensures SafePlan(collection, stages, definitions, scan, floats) ==>
              RunPipeline(Select(scan, ids), stages, floats, others) == RunPipeline(scan, stages, floats, others)
  {
    ChosenRead(collection, stages, definitions, scan, definition);
    SelectHolding(definition, key, scan, ids);
    SafeChosen(collection, stages, definitions, scan, floats, definition);
    IndexScanKeepsAnswer(stages, definition, key, scan, ids, floats);
  }

  lemma NotChosen(collection: Text, stages: seq<Stage>, definitions: map<Text, IndexDefinition>, scan: seq<Document>, floats: FloatArithmetic)
    requires forall d :: !IsChosen(d, collection, stages, definitions)
    ensures PlannedRead(collection, stages, definitions, scan) == scan
  {
  }

  lemma UsableHere(definition: IndexDefinition, collection: Text, predicate_: Expr)
    requires Usable(definition, collection, predicate_)
    ensures definition.collection == collection
  {
  }
}
