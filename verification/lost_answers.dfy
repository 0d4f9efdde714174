/** Two short histories after which an index changes what a query answers or deletes. */
module LostAnswers {
  import opened Base
  import opened IndexKeys
  import opened Documents
  import opened Ast
  import opened Evaluate
  import opened Planner
  import opened Pipeline
  import opened Catalog
  import opened Backend
  import opened BackendRuns
  import opened Queries

  const NAME: Text := [99]

  /** A collection with the index on x. */
  function Indexed(): seq<Step> {
    [MakeCollection(NAME), MakeIndex(ZERO_INDEX.name, NAME, ZERO_INDEX.field)]
  }

  lemma StoreStep(steps: seq<Step>, step: Step, alphabet: Alphabet)
    ensures StoreAfter(steps + [step], alphabet) == Next(StoreAfter(steps, alphabet), step, alphabet)
  {
    hide Next;
    assert (steps + [step])[..|steps|] == steps;
  }

  lemma LetterValid(b: byte, alphabet: Alphabet)
    requires 97 <= b <= 122
    ensures ValidIdentifier([b], alphabet)
  {
    var text := [b];
    assert text[1..] == [] && text[..1] == [b];
    assert Characters(text) == [text[..1]] + Characters([]);
  }

  lemma IndexValid(alphabet: Alphabet)
    ensures ValidDefinition(ZERO_INDEX, alphabet)
  {
    LetterValid(105, alphabet);
    LetterValid(99, alphabet);
    LetterValid(120, alphabet);
    hide ValidIdentifier;
  }

  function Holder(documents: Collection): Store {
    Store(map[NAME := documents], map[ZERO_INDEX.name := ZERO_INDEX])
  }

  lemma IndexedStore(alphabet: Alphabet)
    ensures StoreAfter(Indexed(), alphabet) == Holder(map[])
  {
    IndexValid(alphabet);
    hide ValidDefinition;
    StoreStep([], MakeCollection(NAME), alphabet);
    StoreStep([MakeCollection(NAME)], MakeIndex(ZERO_INDEX.name, NAME, ZERO_INDEX.field), alphabet);
    assert Indexed() == ([] + [MakeCollection(NAME)]) + [MakeIndex(ZERO_INDEX.name, NAME, ZERO_INDEX.field)];
  }

  lemma InsertedStore(steps: seq<Step>, documents: Collection, d: Document, alphabet: Alphabet)
    requires StoreAfter(steps, alphabet) == Holder(documents) && d.id !in documents && DocumentKey(ZERO_INDEX, d).Ok?
    ensures StoreAfter(steps + [InsertInto(NAME, d)], alphabet) == Holder(documents[d.id := d])
  {
    hide DocumentKey;
    StoreStep(steps, InsertInto(NAME, d), alphabet);
  }

  /** Reading through the only index. */
  lemma OnlyIndex(documents: Collection, query: Query, key: IndexKey, scan: seq<Document>)
    requires query.collection == NAME && FirstFilter(query.stages).Some?
    requires EqualityKey(FirstFilter(query.stages).value, ZERO_INDEX.field) == Some(key)
    ensures ReadBy(Holder(documents), query, scan) == Holding(ZERO_INDEX, key, scan)
  {
    hide EqualityKey, Holding;
    ChosenRead(NAME, query.stages, Holder(documents).definitions, scan, ZERO_INDEX);
  }

  lemma FilterOnly(predicate_: Expr, documents: seq<Document>, floats: FloatArithmetic, ids: seq<NovaId>)
    ensures FilterFirst([Filter(predicate_)]) && FirstFilter([Filter(predicate_)]) == Some(predicate_)
    ensures ValueOf(RunStages([Filter(predicate_)], documents, floats, ids)) == FilterDocuments(predicate_, documents, floats)
  {
    hide FilterDocuments;
    var stages := [Filter(predicate_)];
    assert stages[1..] == [];
  }

  lemma ScanOne(d: Document)
    ensures IsScan(map[d.id := d], [d])
  {
  }

  lemma ZeroHistory(d: Document, alphabet: Alphabet, floats: FloatArithmetic)
    requires d == ZERO_DOCUMENT
    ensures StoreAfter(Indexed() + [InsertInto(NAME, d)], alphabet) == Holder(map[d.id := d])
  {
    ZeroFacts(floats);
    IndexedStore(alphabet);
    hide StoreAfter, DocumentKey, Indexed;
    InsertedStore(Indexed(), map[], d, alphabet);
  }

  lemma ZeroAnswers(store: Store, d: Document, query: Query, alphabet: Alphabet, floats: FloatArithmetic)
    requires d == ZERO_DOCUMENT && query == Query(GetAll, NAME, [Filter(ZERO_FILTER)]) && store == Holder(map[d.id := d])
    ensures ScansTo(store, query, [d]) && FilterFirst(query.stages)
    ensures Plain(store, query, [d], alphabet, floats, []).result == Ok(Found([d]))
    ensures Plain(store, query, ReadBy(store, query, [d]), alphabet, floats, []).result == Ok(Found([]))
  {
    OppositeZeroIsLost(floats);
    hide EvaluatePredicate, DocumentKey, EqualityKey, FilterDocuments, RunStages, Select;
    FilterOnly(ZERO_FILTER, [d], floats, []);
    FilterOnly(ZERO_FILTER, [], floats, []);
    OnlyIndex(map[d.id := d], query, Float64(0), [d]);
    SelectHolding(ZERO_INDEX, Float64(0), [d], {});
    SelectNone([d]);
    FilterNone(ZERO_FILTER, floats);
    ScanOne(d);
  }

  lemma SelectNone(documents: seq<Document>)
    ensures Select(documents, {}) == []
  {
  }

  lemma FilterNone(predicate_: Expr, floats: FloatArithmetic)
    ensures FilterDocuments(predicate_, [], floats) == Ok([])
  {
  }

  /** `x == 0.0` after inserting {x: -0.0}: the indexed backend finds nothing, the plain collection the document. */
  method ZeroLost(d: Document, query: Query, alphabet: Alphabet, floats: FloatArithmetic) returns (r: Result<Answer>, ghost store: Store)
    requires d == ZERO_DOCUMENT && query == Query(GetAll, NAME, [Filter(ZERO_FILTER)])
    ensures store == StoreAfter(Indexed() + [InsertInto(NAME, d)], alphabet)
    ensures ScansTo(store, query, [d]) && Plain(store, query, [d], alphabet, floats, []).result == Ok(Found([d]))
    ensures r == Ok(Found([]))
  {
    ZeroHistory(d, alphabet, floats);
    hide Plain, ReadBy, StoreAfter, Indexed;
    var steps := Indexed() + [InsertInto(NAME, d)];
    store := StoreAfter(steps, alphabet);
    ZeroAnswers(store, d, query, alphabet, floats);
    var backend;
    ghost var after;
    backend, r, after := ExecuteAfter(steps, alphabet, query, floats, []);
    assert Refines(Outcome(r, after), store, query, [d], alphabet, floats, []);
  }

  lemma TwoHeld(documents: Collection, a: Document, b: Document)
    requires a.id < b.id && documents == map[a.id := a, b.id := b]
    ensures IsScan(documents, [a, b])
  {
    var scan := [a, b];
    assert scan[0] == a && scan[1] == b;
  }

  lemma HoldingFirst(key: IndexKey, a: Document, b: Document)
    requires DocumentKey(ZERO_INDEX, a) == Ok(Some(key)) && DocumentKey(ZERO_INDEX, b) != Ok(Some(key))
    ensures Holding(ZERO_INDEX, key, [a, b]) == [a]
  {
    hide DocumentKey;
    assert [a, b][1..] == [b] && [b][1..] == [];
    assert Holding(ZERO_INDEX, key, [b]) == [];
  }

  lemma DeleteFirst(store: Store, a: Document, b: Document, alphabet: Alphabet)
    requires a.id != b.id && store == Holder(map[a.id := a, b.id := b])
    ensures DeleteEach(store, NAME, [a], alphabet) == Outcome(Ok(()), Holder(map[b.id := b]))
  {
    assert [a][1..] == [] && store.collections[NAME] - {a.id} == map[b.id := b];
    assert store.collections[NAME := map[b.id := b]] == map[NAME := map[b.id := b]];
    assert DeleteEach(Next(store, DeleteFrom(NAME, a.id), alphabet), NAME, [], alphabet).result == Ok(());
  }

  lemma FailureHistory(a: Document, b: Document, alphabet: Alphabet, floats: FloatArithmetic)
    requires a == SIX && b == TEXT
    ensures StoreAfter(Indexed() + [InsertInto(NAME, a)] + [InsertInto(NAME, b)], alphabet) == Holder(map[a.id := a, b.id := b])
  {
    SixFacts(a, floats);
    TextFacts(b, floats);
    IndexedStore(alphabet);
    hide StoreAfter, DocumentKey, Indexed;
    InsertedStore(Indexed(), map[], a, alphabet);
    InsertedStore(Indexed() + [InsertInto(NAME, a)], map[a.id := a], b, alphabet);
  }

  lemma FailureFilters(a: Document, b: Document, floats: FloatArithmetic)
    requires a == SIX && b == TEXT
    ensures ValueOf(RunStages([Filter(BOTH_FILTER)], [a, b], floats, [])) == Err(InvalidArgument)
    ensures ValueOf(RunStages([Filter(BOTH_FILTER)], [a], floats, [])) == Ok([a])
    ensures Holding(ZERO_INDEX, Int64(1), [a, b]) == [a] && EqualityKey(BOTH_FILTER, ZERO_INDEX.field) == Some(Int64(1))
  {
    SixFacts(a, floats);
    TextFacts(b, floats);
    FailureIsLost([a, b], floats);
    hide EvaluatePredicate, DocumentKey, FilterDocuments, RunStages, Select;
    FilterOnly(BOTH_FILTER, [a, b], floats, []);
    FilterOnly(BOTH_FILTER, [a], floats, []);
    FilterOne(BOTH_FILTER, a, floats);
    HoldingFirst(Int64(1), a, b);
  }

  lemma PlainDelete(store: Store, query: Query, documents: seq<Document>, alphabet: Alphabet, floats: FloatArithmetic, ids: seq<NovaId>)
    requires query.command.DeleteAll? && ValidStages(query.stages, DeleteAll) && query.collection in store.collections
    ensures var kept := ValueOf(RunStages(query.stages, documents, floats, ids));
            && (kept.Err? ==> Plain(store, query, documents, alphabet, floats, ids) == Outcome(Err(kept.error), store))
            && (kept.Ok? ==> Plain(store, query, documents, alphabet, floats, ids) ==
                             Outcome(Counted(DeleteEach(store, query.collection, kept.value, alphabet).result, Deleted(|kept.value|)),
                                     DeleteEach(store, query.collection, kept.value, alphabet).store))
  {
    hide RunStages, DeleteEach;
  }

  lemma FailureAnswers(store: Store, a: Document, b: Document, query: Query, alphabet: Alphabet, floats: FloatArithmetic)
    requires a == SIX && b == TEXT && query == Query(DeleteAll, NAME, [Filter(BOTH_FILTER)])
    requires store == Holder(map[a.id := a, b.id := b])
    ensures ScansTo(store, query, [a, b]) && FilterFirst(query.stages)
    ensures Plain(store, query, [a, b], alphabet, floats, []) == Outcome(Err(InvalidArgument), store)
    ensures Plain(store, query, ReadBy(store, query, [a, b]), alphabet, floats, []) ==
            Outcome(Ok(Deleted(1)), Holder(map[b.id := b]))
  {
    FailureFilters(a, b, floats);
    hide EqualityKey, RunStages, Holding, DeleteEach, ReadBy, Plain;
    OnlyIndex(store.collections[NAME], query, Int64(1), [a, b]);
    PlainDelete(store, query, [a, b], alphabet, floats, []);
    PlainDelete(store, query, [a], alphabet, floats, []);
    TwoHeld(store.collections[NAME], a, b);
    DeleteFirst(store, a, b, alphabet);
  }

  /**
   * `delete` where `y > 5 and x == 1`, over {x: 1, y: 6} and {x: 2, y: "s"}: over plain collections the filter fails and
   * nothing changes; the indexed backend deletes the first document.
   */
  method FailureDeletes(a: Document, b: Document, query: Query, alphabet: Alphabet, floats: FloatArithmetic)
    returns (r: Result<Answer>, ghost before: Store, ghost after: Store)
    requires a == SIX && b == TEXT && query == Query(DeleteAll, NAME, [Filter(BOTH_FILTER)])
    ensures before == StoreAfter(Indexed() + [InsertInto(NAME, a)] + [InsertInto(NAME, b)], alphabet)
    ensures ScansTo(before, query, [a, b]) && Plain(before, query, [a, b], alphabet, floats, []) == Outcome(Err(InvalidArgument), before)
    ensures before == Holder(map[a.id := a, b.id := b])
    ensures r == Ok(Deleted(1)) && after == Holder(map[b.id := b])
  {
    FailureHistory(a, b, alphabet, floats);
    hide Plain, ReadBy, StoreAfter, Indexed;
    var steps := Indexed() + [InsertInto(NAME, a)] + [InsertInto(NAME, b)];
    before := StoreAfter(steps, alphabet);
    FailureAnswers(before, a, b, query, alphabet, floats);
    var backend;
    backend, r, after := ExecuteAfter(steps, alphabet, query, floats, []);
    assert Refines(Outcome(r, after), before, query, [a, b], alphabet, floats, []);
  }
}
