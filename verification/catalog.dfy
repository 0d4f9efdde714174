/** The catalog of named indexes and how documents move through it. */
module Catalog {
  import opened Base
  import opened IndexKeys
  import opened Documents
  import opened Planner
  import opened BPlusTrees
  import opened LeafChain

  datatype OpenIndex = OpenIndex(definition: IndexDefinition, tree: BPlusTree)

  type Collection = map<NovaId, Document>

  const DEFAULT_MAX_KEYS: nat := 31

  /** Which characters beyond ASCII are alphanumeric, as Unicode has it; a character is its UTF-8 bytes. */
  type Alphabet = Text -> bool

  /** How many continuation bytes the text starts with. */
  function Tails(text: Text): (n: nat)
    ensures n <= |text| && forall i :: 0 <= i < n ==> text[i] >= 128
  {
    if text == [] || !(128 <= text[0] < 192) then 0 else 1 + Tails(text[1..])
  }

  function Characters(text: Text): seq<Text> {
    if text == [] then []
    else
      var n := 1 + Tails(text[1..]);
      [text[..n]] + Characters(text[n..])
  }

  predicate WordCharacter(character: Text, alphabet: Alphabet)
    requires character != []
  {
    var c := character[0];
    if c < 128 then c == 95 || 48 <= c <= 57 || 65 <= c <= 90 || 97 <= c <= 122 else alphabet(character)
  }

  predicate AllWord(characters: seq<Text>, alphabet: Alphabet) {
    forall i :: 0 <= i < |characters| ==> characters[i] != [] && WordCharacter(characters[i], alphabet)
  }

  /** Non-empty, and every character alphanumeric or `_`. */
  predicate ValidIdentifier(text: Text, alphabet: Alphabet) {
    text != [] && AllWord(Characters(text), alphabet)
  }

  predicate ValidPath(field: seq<Text>, alphabet: Alphabet) {
    field != [] && forall i :: 0 <= i < |field| ==> ValidIdentifier(field[i], alphabet)
  }

  lemma {:induction false} WordHasNoDot(text: Text, alphabet: Alphabet)
    requires AllWord(Characters(text), alphabet)
    ensures DOT !in text
  {
    if text != [] {
      var n := 1 + Tails(text[1..]);
      var rest := Characters(text[n..]);
      assert Characters(text)[0] == text[..n] && Characters(text)[1..] == rest;
      assert WordCharacter(Characters(text)[0], alphabet);
      WordHasNoDot(text[n..], alphabet);
      assert forall i :: 1 <= i < n ==> text[i] == text[1..][i - 1];
      assert text == text[..n] + text[n..];
    }
  }

  /** Every definition has a name, a collection and a field of identifiers; nothing else can be indexed. */
  predicate ValidDefinition(definition: IndexDefinition, alphabet: Alphabet) {
    ValidIdentifier(definition.name, alphabet) && ValidIdentifier(definition.collection, alphabet) && ValidPath(definition.field, alphabet)
  }

  lemma DefinitionHasNoDots(definition: IndexDefinition, alphabet: Alphabet)
    requires ValidDefinition(definition, alphabet)
    ensures ValidField(definition.field)
  {
    forall i | 0 <= i < |definition.field|
      ensures DOT !in definition.field[i]
    {
      WordHasNoDot(definition.field[i], alphabet);
    }
  }

  /** The one pair a document contributes to an index, if any. */
  ghost function PairOf(definition: IndexDefinition, document: Document): iset<Pair> {
    match DocumentKey(definition, document)
    case Ok(Some(key)) => iset{Pair(key, document.id)}
    case _ => iset{}
  }

  /** What an index over a collection has to contain. */
  ghost function Expected(definition: IndexDefinition, documents: Collection): iset<Pair> {
    iset p: Pair | p.id in documents && DocumentKey(definition, documents[p.id]) == Ok(Some(p.key))
  }

  /** How one document changes the indexes of its collection. */
  datatype Edit = AddDocument(document: Document) | DropDocument(document: Document) | ReplaceWith(before: Document, after: Document)

  ghost predicate Editable(definition: IndexDefinition, edit: Edit) {
    match edit
    case AddDocument(document) => DocumentKey(definition, document).Ok?
    case DropDocument(document) => DocumentKey(definition, document).Ok?
    case ReplaceWith(before, after) =>
      before.id == after.id && DocumentKey(definition, before).Ok? && DocumentKey(definition, after).Ok?
  }

  ghost function Edited(definition: IndexDefinition, edit: Edit, contents: iset<Pair>): iset<Pair> {
    match edit
    case AddDocument(document) => contents + PairOf(definition, document)
    case DropDocument(document) => contents - PairOf(definition, document)
    case ReplaceWith(before, after) =>
      if DocumentKey(definition, before) == DocumentKey(definition, after) then contents
      else contents - PairOf(definition, before) + PairOf(definition, after)
  }

  method EditTree(index: OpenIndex, edit: Edit)
    requires index.tree.Valid() && Editable(index.definition, edit)
    modifies index.tree
    ensures index.tree.Valid()
    ensures index.tree.Contents() == Edited(index.definition, edit, old(index.tree.Contents()))
  {
    hide ValidDefinition, BPlusTree.Valid, BPlusTree.Contents;
    match edit
    case AddDocument(document) =>
      var key := DocumentKey(index.definition, document).value;
      if key.Some? {
        index.tree.Insert(key.value, document.id);
      }
    case DropDocument(document) =>
      var key := DocumentKey(index.definition, document).value;
      if key.Some? {
        var _ := index.tree.Remove(key.value, document.id);
      }
    case ReplaceWith(before, after) =>
      var oldKey, newKey := DocumentKey(index.definition, before).value, DocumentKey(index.definition, after).value;
      if oldKey != newKey {
        if oldKey.Some? {
          var _ := index.tree.Remove(oldKey.value, before.id);
        }
        if newKey.Some? {
          index.tree.Insert(newKey.value, after.id);
        }
      }
  }

  class IndexCatalog {
    const alphabet: Alphabet
    var indexes: map<Text, OpenIndex>

    ghost function Trees(): set<BPlusTree>
      reads this
    {
      set name | name in indexes :: indexes[name].tree
    }

    ghost predicate Valid()
      reads this, Trees()
    {
      && (forall name :: name in indexes ==>
            indexes[name].definition.name == name && ValidDefinition(indexes[name].definition, alphabet) && indexes[name].tree.Valid())
      && (forall m, n :: m in indexes && n in indexes && m != n ==> indexes[m].tree != indexes[n].tree)
    }

    ghost function ContentsOf(name: Text): iset<Pair>
      requires name in indexes
      reads this, indexes[name].tree
    {
      indexes[name].tree.Contents()
    }

    constructor (alphabet: Alphabet)
      ensures Valid() && indexes == map[] && this.alphabet == alphabet
    {
      this.alphabet := alphabet;
      indexes := map[];
    }

    /** `keys_for_document`: fails if any index of the collection cannot take the document. */
    predicate Indexable(collection: Text, document: Document)
      reads this
    {
      forall name :: name in indexes && indexes[name].definition.collection == collection ==>
                       DocumentKey(indexes[name].definition, document).Ok?
    }

    /** Some index of the collection refuses the value that the document has under its field. */
    ghost predicate RefusedBy(collection: Text, document: Document)
      reads this
    {
      exists name :: name in indexes && indexes[name].definition.collection == collection && Refuses(indexes[name].definition.field, document)
    }

    lemma IndexableExactly(collection: Text, document: Document)
      requires Valid()
      ensures Indexable(collection, document) <==> !RefusedBy(collection, document)
    {
      hide ValidDefinition, BPlusTree.Valid, DocumentKey, Refuses;
      forall name | name in indexes
        ensures DocumentKey(indexes[name].definition, document).Err? <==> Refuses(indexes[name].definition.field, document)
      {
        DefinitionHasNoDots(indexes[name].definition, alphabet);
        KeyExactly(indexes[name].definition, document);
      }
    }

    method ValidateDocument(collection: Text, document: Document) returns (result: Result<()>)
      ensures result == if Indexable(collection, document) then Ok(()) else Err(InvalidArgument)
    {
      var names := indexes.Keys;
      while names != {}
        invariant names <= indexes.Keys
        invariant forall name :: name in indexes && name !in names && indexes[name].definition.collection == collection ==>
                                   DocumentKey(indexes[name].definition, document).Ok?
      {
        var name :| name in names;
        var definition := indexes[name].definition;
        if definition.collection == collection {
          var key := DocumentKey(definition, document);
          if key.Err? {
            KeyErrors(definition, document);
            return Err(key.error);
          }
        }
        names := names - {name};
      }
      return Ok(());
    }

    /** The loop over the indexes of a collection, each edited on its own. */
    method EditAll(collection: Text, edit: Edit)
      requires Valid()
      requires forall name :: name in indexes && indexes[name].definition.collection == collection ==>
                                Editable(indexes[name].definition, edit)
      modifies Trees()
      ensures Valid()
      ensures forall name :: name in indexes ==>
                ContentsOf(name) == if indexes[name].definition.collection == collection
                                    then Edited(indexes[name].definition, edit, old(ContentsOf(name)))
                                    else old(ContentsOf(name))
    {
      hide ValidDefinition, BPlusTree.Valid, BPlusTree.Contents, Edited, Editable;
      var names := indexes.Keys;
      while names != {}
        invariant names <= indexes.Keys && Valid()
        invariant forall name :: name in indexes ==>
                    ContentsOf(name) == if name !in names && indexes[name].definition.collection == collection
                                        then Edited(indexes[name].definition, edit, old(ContentsOf(name)))
                                        else old(ContentsOf(name))
      {
        var name :| name in names;
        if indexes[name].definition.collection == collection {
          EditTree(indexes[name], edit);
        }
        names := names - {name};
      }
    }

    method InsertDocument(collection: Text, document: Document) returns (result: Result<()>)
      requires Valid()
      modifies Trees()
      ensures Valid()
      ensures result == if Indexable(collection, document) then Ok(()) else Err(InvalidArgument)
      ensures forall name :: name in indexes ==>
                ContentsOf(name) == if result.Ok? && indexes[name].definition.collection == collection
                                    then Edited(indexes[name].definition, AddDocument(document), old(ContentsOf(name)))
                                    else old(ContentsOf(name))
    {
      hide ValidDefinition, BPlusTree.Valid, BPlusTree.Contents, Edited;
      result := ValidateDocument(collection, document);
      if result.Ok? {
        EditAll(collection, AddDocument(document));
      }
    }

    method DeleteDocument(collection: Text, document: Document) returns (result: Result<()>)
      requires Valid()
      modifies Trees()
      ensures Valid()
      ensures result == if Indexable(collection, document) then Ok(()) else Err(InvalidArgument)
      ensures forall name :: name in indexes ==>
                ContentsOf(name) == if result.Ok? && indexes[name].definition.collection == collection
                                    then Edited(indexes[name].definition, DropDocument(document), old(ContentsOf(name)))
                                    else old(ContentsOf(name))
    {
      hide ValidDefinition, BPlusTree.Valid, BPlusTree.Contents, Edited;
      result := ValidateDocument(collection, document);
      if result.Ok? {
        EditAll(collection, DropDocument(document));
      }
    }

    /** `replace_document`: moves the id wherever the key changed. */
    method ReplaceDocument(collection: Text, before: Document, after: Document) returns (result: Result<()>)
      requires Valid()
      modifies Trees()
      ensures Valid()
      ensures result == if before.id == after.id && Indexable(collection, before) && Indexable(collection, after)
                        then Ok(()) else Err(InvalidArgument)
      ensures forall name :: name in indexes ==>
                ContentsOf(name) == if result.Ok? && indexes[name].definition.collection == collection
                                    then Edited(indexes[name].definition, ReplaceWith(before, after), old(ContentsOf(name)))
                                    else old(ContentsOf(name))
    {
      hide ValidDefinition, BPlusTree.Valid, BPlusTree.Contents, Edited;
      if before.id != after.id {
        return Err(InvalidArgument);
      }
      result := ValidateDocument(collection, before);
      if result.Err? {
        return;
      }
      result := ValidateDocument(collection, after);
      if result.Ok? {
        EditAll(collection, ReplaceWith(before, after));
      }
    }

    /** `create_index`: validates, then backfills a new tree from the documents. */
    method CreateIndex(name: Text, collection: Text, field: seq<Text>, documents: seq<Document>) returns (result: Result<()>)
      requires Valid()
      modifies this
      ensures Valid()
      ensures result.Ok? <==> ValidDefinition(IndexDefinition(name, collection, field), alphabet) && name !in old(indexes)
                              && forall i :: 0 <= i < |documents| ==> DocumentKey(IndexDefinition(name, collection, field), documents[i]).Ok?
      ensures result.Err? ==> indexes == old(indexes)
                              && result.error == if ValidDefinition(IndexDefinition(name, collection, field), alphabet) && name in old(indexes)
                                                 then AlreadyExists else InvalidArgument
      ensures result.Ok? ==>
                && indexes.Keys == old(indexes.Keys) + {name} && (forall n :: n in old(indexes) ==> indexes[n] == old(indexes)[n])
                && fresh(indexes[name].tree) && indexes[name].definition == IndexDefinition(name, collection, field)
                && ContentsOf(name) == ExpectedOfAll(indexes[name].definition, documents)
    {
      hide ValidDefinition, BPlusTree.Valid, BPlusTree.Contents;
      if !ValidDefinition(IndexDefinition(name, collection, field), alphabet) {
        return Err(InvalidArgument);
      }
      if name in indexes {
        return Err(AlreadyExists);
      }
      var definition := IndexDefinition(name, collection, field);
      result := CheckDocuments(definition, documents);
      if result.Err? {
        return;
      }
      var tree := Backfill(definition, documents);
      indexes := indexes[name := OpenIndex(definition, tree)];
    }

    method DropIndex(name: Text) returns (result: Result<()>)
      requires Valid()
      modifies this
      ensures Valid()
      ensures result == if name in old(indexes) then Ok(()) else Err(NotFound)
      ensures indexes == old(indexes) - {name}
    {
      hide ValidDefinition, BPlusTree.Valid, BPlusTree.Contents;
      if name !in indexes {
        return Err(NotFound);
      }
      indexes := indexes - {name};
      return Ok(());
    }

    method DropCollectionIndexes(collection: Text)
      requires Valid()
      modifies this
      ensures Valid()
      ensures indexes == map name | name in old(indexes) && old(indexes)[name].definition.collection != collection :: old(indexes)[name]
    {
      hide ValidDefinition, BPlusTree.Valid, BPlusTree.Contents;
      var names := set name | name in indexes && indexes[name].definition.collection == collection;
      while names != {}
        invariant Valid() && names <= indexes.Keys
        invariant indexes == map name | name in old(indexes) && (old(indexes)[name].definition.collection != collection || name in names) :: old(indexes)[name]
      {
        var name :| name in names;
        var _ := DropIndex(name);
        names := names - {name};
      }
    }

    method Lookup(name: Text, key: IndexKey) returns (result: Result<seq<NovaId>>)
      requires Valid()
      ensures result.Ok? <==> name in indexes
      ensures result.Err? ==> result.error == NotFound
      ensures result.Ok? ==> forall id :: id in result.value <==> Pair(key, id) in ContentsOf(name)
    {
      hide ValidDefinition, BPlusTree.Valid, BPlusTree.Contents;
      if name !in indexes {
        return Err(NotFound);
      }
      var ids := indexes[name].tree.Get(key);
      return Ok(ids);
    }
  }

  ghost function ExpectedOfAll(definition: IndexDefinition, documents: seq<Document>): iset<Pair> {
    iset p: Pair | exists i :: 0 <= i < |documents| && documents[i].id == p.id && DocumentKey(definition, documents[i]) == Ok(Some(p.key))
  }

  method CheckDocuments(definition: IndexDefinition, documents: seq<Document>) returns (result: Result<()>)
    ensures result.Ok? <==> forall i :: 0 <= i < |documents| ==> DocumentKey(definition, documents[i]).Ok?
    ensures result.Err? ==> result.error == InvalidArgument
  {
    var i := 0;
    while i < |documents|
      invariant i <= |documents| && forall j :: 0 <= j < i ==> DocumentKey(definition, documents[j]).Ok?
    {
      var key := DocumentKey(definition, documents[i]);
      if key.Err? {
        KeyErrors(definition, documents[i]);
        return Err(key.error);
      }
      i := i + 1;
    }
    return Ok(());
  }

  method Backfill(definition: IndexDefinition, documents: seq<Document>) returns (tree: BPlusTree)
    requires forall i :: 0 <= i < |documents| ==> DocumentKey(definition, documents[i]).Ok?
    ensures fresh(tree) && tree.Valid() && tree.Contents() == ExpectedOfAll(definition, documents)
  {
    hide ValidDefinition, BPlusTree.Valid, BPlusTree.Contents;
    tree := new BPlusTree(DEFAULT_MAX_KEYS);
    var i := 0;
    while i < |documents|
      invariant i <= |documents| && fresh(tree) && tree.Valid() && tree.Contents() == ExpectedOfAll(definition, documents[..i])
    {
      EditTree(OpenIndex(definition, tree), AddDocument(documents[i]));
      ExpectedStep(definition, documents, i);
      i := i + 1;
    }
    assert documents[..i] == documents;
  }

  lemma ExpectedStep(definition: IndexDefinition, documents: seq<Document>, i: nat)
    requires i < |documents|
    ensures ExpectedOfAll(definition, documents[..i + 1]) == ExpectedOfAll(definition, documents[..i]) + PairOf(definition, documents[i])
  {
    var all := documents[..i + 1];
    forall p: Pair
      ensures p in ExpectedOfAll(definition, all) <==> p in ExpectedOfAll(definition, documents[..i]) || p in PairOf(definition, documents[i])
    {
      if p in ExpectedOfAll(definition, documents[..i]) {
        var j :| 0 <= j < i && documents[..i][j].id == p.id && DocumentKey(definition, documents[..i][j]) == Ok(Some(p.key));
        assert all[j] == documents[..i][j];
      }
      if p in PairOf(definition, documents[i]) {
        assert all[i] == documents[i];
      }
      if p in ExpectedOfAll(definition, all) {
        var j :| 0 <= j <= i && all[j].id == p.id && DocumentKey(definition, all[j]) == Ok(Some(p.key));
        assert j < i ==> documents[..i][j] == all[j];
      }
    }
  }

  lemma KeyErrors(definition: IndexDefinition, document: Document)
    ensures DocumentKey(definition, document).Err? ==> DocumentKey(definition, document).error == InvalidArgument
  {
  }
}
