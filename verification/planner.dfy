/** Access path selection, and why an index scan keeps the answer of a query. */
module Planner {
  import opened Base
  import opened IndexKeys
  import opened Documents
  import opened Ast
  import opened Evaluate

  datatype IndexDefinition = IndexDefinition(name: Text, collection: Text, field: seq<Text>)

  /** `IndexKey::try_from`. */
  function KeyOfValue(value: Value): Result<IndexKey> {
    match value
    case Int(v) => Ok(Int64(v))
    case Float(bits) => Ok(MakeFloat(bits))
    case Str(text) => Ok(String(text))
    case Ref(id) => Ok(Id(id))
    case _ => Err(InvalidArgument)
  }

  /** The key under which a definition indexes a document; missing and null fields have none. */
  function DocumentKey(definition: IndexDefinition, document: Document): Result<Option<IndexKey>> {
    if definition.field == ID_PATH then Ok(Some(Id(document.id)))
    else
      match Lookup(document, Join(definition.field))
      case None => Ok(None)
      case Some(value) =>
        if value.Null? then Ok(None)
        else
          var key :- KeyOfValue(value);
          Ok(Some(key))
  }

  datatype AccessPath =
    | CollectionScan(collection: Text)
    | IndexScan(collection: Text, index: Text, key: IndexKey)

  function LiteralKey(literal: Literal): Option<IndexKey> {
    match literal
    case IntLit(v) => Some(Int64(v))
    case FloatLit(bits) => Some(MakeFloat(bits))
    case StrLit(text) => Some(String(text))
    case _ => None
  }

  function PathLiteral(path: Expr, literal: Expr, field: seq<Text>): Option<IndexKey> {
    if path.Path? && path.segments == field && literal.Lit? then LiteralKey(literal.literal) else None
  }

  function OrElse<T>(a: Option<T>, b: Option<T>): Option<T> {
    if a.Some? then a else b
  }

  /** An equality with a literal that every match of the predicate must satisfy. */
  function EqualityKey(expression: Expr, field: seq<Text>): Option<IndexKey> {
    if expression.Binary? && expression.op.And? then
      OrElse(EqualityKey(expression.left, field), EqualityKey(expression.right, field))
    else if expression.Binary? && expression.op.Equal? then
      OrElse(PathLiteral(expression.left, expression.right, field), PathLiteral(expression.right, expression.left, field))
    else None
  }

  function FirstFilter(stages: seq<Stage>): Option<Expr> {
    if stages == [] then None
    else if stages[0].Filter? then Some(stages[0].predicate_)
    else FirstFilter(stages[1..])
  }

  function Candidates(collection: Text, definitions: seq<IndexDefinition>): seq<IndexDefinition> {
    if definitions == [] then []
    else if definitions[0].collection == collection then InsertByName(definitions[0], Candidates(collection, definitions[1..]))
    else Candidates(collection, definitions[1..])
  }

  /** One step of the stable sort by name. */
  function InsertByName(definition: IndexDefinition, sorted: seq<IndexDefinition>): seq<IndexDefinition> {
    if sorted == [] || !BytesLess(sorted[0].name, definition.name) then [definition] + sorted
    else [sorted[0]] + InsertByName(definition, sorted[1..])
  }

  function FindIndex(predicate_: Expr, candidates: seq<IndexDefinition>): Option<(IndexDefinition, IndexKey)> {
    if candidates == [] then None
    else
      var key := EqualityKey(predicate_, candidates[0].field);
      if key.Some? then Some((candidates[0], key.value)) else FindIndex(predicate_, candidates[1..])
  }

  function FindIndexScan(collection: Text, stages: seq<Stage>, definitions: seq<IndexDefinition>): Option<(IndexDefinition, IndexKey)> {
    var filter := FirstFilter(stages);
    if filter.None? then None else FindIndex(filter.value, Candidates(collection, definitions))
  }

  /** `plan` for the commands that read a collection. */
  function Plan(collection: Text, stages: seq<Stage>, definitions: seq<IndexDefinition>): AccessPath {
    match FindIndexScan(collection, stages, definitions)
    case None => CollectionScan(collection)
    case Some((definition, key)) => IndexScan(collection, definition.name, key)
  }

  // ---------- which equality term gives the key ----------

  /** The terms that all must hold, from left to right. */
  function Conjuncts(expression: Expr): seq<Expr> {
    if expression.Binary? && expression.op.And? then Conjuncts(expression.left) + Conjuncts(expression.right) else [expression]
  }

  /** The literal can be a key. */
  predicate LiteralCarries(literal: Literal, key: IndexKey) {
    match literal
    case IntLit(x) => key == Int64(x)
    case FloatLit(bits) => key == Float64(if IsNan(bits) then CANONICAL_NAN else bits)
    case StrLit(text) => key == String(text)
    case _ => false
  }

  /** The term sets the field equal to a literal with this key, in either order. */
  ghost predicate Pins(term: Expr, field: seq<Text>, key: IndexKey) {
    exists literal ::
      LiteralCarries(literal, key)
      && (term == Binary(Path(field), Equal, Lit(literal)) || term == Binary(Lit(literal), Equal, Path(field)))
  }

  ghost predicate NonePins(terms: seq<Expr>, field: seq<Text>) {
    forall j, key :: 0 <= j < |terms| ==> !Pins(terms[j], field, key)
  }

  ghost predicate PinnedFirst(terms: seq<Expr>, field: seq<Text>, key: IndexKey, i: nat) {
    i < |terms| && Pins(terms[i], field, key) && NonePins(terms[..i], field)
  }

  lemma NonePinsBoth(l: seq<Expr>, r: seq<Expr>, field: seq<Text>)
    ensures NonePins(l + r, field) <==> NonePins(l, field) && NonePins(r, field)
  {
    hide Pins;
    if NonePins(l + r, field) {
      forall j, key | 0 <= j < |r|
        ensures !Pins(r[j], field, key)
      {
        assert (l + r)[|l| + j] == r[j];
      }
      forall j, key | 0 <= j < |l|
        ensures !Pins(l[j], field, key)
      {
        assert (l + r)[j] == l[j];
      }
    }
  }

  lemma TermKey(term: Expr, field: seq<Text>)
    requires !(term.Binary? && term.op.And?)
    ensures forall key :: EqualityKey(term, field) == Some(key) <==> Pins(term, field, key)
  {
    forall key
      ensures EqualityKey(term, field) == Some(key) <==> Pins(term, field, key)
    {
      if EqualityKey(term, field) == Some(key) {
        var literal := if term.left.Path? then term.right.literal else term.left.literal;
        assert LiteralCarries(literal, key);
      }
    }
  }

  /** The key comes from the first term that sets the field equal to a literal, and there is none without such a term. */
  lemma {:induction false} EqualityKeyExactly(expression: Expr, field: seq<Text>)
    ensures var terms, r := Conjuncts(expression), EqualityKey(expression, field);
            && (r.None? ==> NonePins(terms, field))
            && (r.Some? ==> exists i: nat :: PinnedFirst(terms, field, r.value, i))
    decreases expression
  {
    hide Pins, LiteralKey, NonePins;
    if expression.Binary? && expression.op.And? {
      var l, r := Conjuncts(expression.left), Conjuncts(expression.right);
      EqualityKeyExactly(expression.left, field);
      EqualityKeyExactly(expression.right, field);
      NonePinsBoth(l, r, field);
      assert Conjuncts(expression) == l + r;
      if EqualityKey(expression.left, field).Some? {
        var key := EqualityKey(expression.left, field).value;
        var i: nat :| PinnedFirst(l, field, key, i);
        assert (l + r)[..i] == l[..i];
        assert PinnedFirst(l + r, field, key, i);
      } else if EqualityKey(expression.right, field).Some? {
        var key := EqualityKey(expression.right, field).value;
        var i: nat :| PinnedFirst(r, field, key, i);
        NonePinsBoth(l, r[..i], field);
        assert (l + r)[..|l| + i] == l + r[..i];
        assert PinnedFirst(l + r, field, key, |l| + i) && EqualityKey(expression, field) == Some(key);
      }
    } else {
      OneTerm(expression, field);
      var r := EqualityKey(expression, field);
      assert Conjuncts(expression) == [expression];
      if r.Some? {
        assert PinnedFirst(Conjuncts(expression), field, r.value, 0);
      }
    }
  }

  lemma OneTerm(term: Expr, field: seq<Text>)
    requires !(term.Binary? && term.op.And?)
    ensures EqualityKey(term, field).None? ==> NonePins([term], field)
    ensures EqualityKey(term, field).Some? ==> PinnedFirst([term], field, EqualityKey(term, field).value, 0)
  {
    hide Pins, EqualityKey;
    TermKey(term, field);
  }

  // ---------- which index is chosen ----------

  predicate Usable(definition: IndexDefinition, collection: Text, predicate_: Expr) {
    definition.collection == collection && EqualityKey(predicate_, definition.field).Some?
  }

  ghost predicate NamesAscend(ds: seq<IndexDefinition>) {
    forall i, j :: 0 <= i < j < |ds| ==> !BytesLess(ds[j].name, ds[i].name)
  }

  lemma BytesLessTotal(a: Text, b: Text, c: Text)
    ensures !BytesLess(a, b) && !BytesLess(b, c) ==> !BytesLess(a, c)
    ensures BytesLess(a, b) ==> !BytesLess(b, a)
  {
    FractionEmbeds(a, b);
    FractionEmbeds(b, c);
    FractionEmbeds(a, c);
    FractionEmbeds(b, a);
  }

  lemma {:induction false} InsertByNameSorted(d: IndexDefinition, ds: seq<IndexDefinition>)
    requires NamesAscend(ds)
    ensures NamesAscend(InsertByName(d, ds))
    ensures forall x :: x in InsertByName(d, ds) <==> x in ds || x == d
  {
    if ds == [] {
    } else if !BytesLess(ds[0].name, d.name) {
      forall i | 0 <= i < |ds|
        ensures !BytesLess(ds[i].name, d.name)
      {
        BytesLessTotal(ds[i].name, ds[0].name, d.name);
        assert i > 0 ==> !BytesLess(ds[i].name, ds[0].name);
      }
    } else {
      InsertByNameSorted(d, ds[1..]);
      var rest := InsertByName(d, ds[1..]);
      assert ds == [ds[0]] + ds[1..];
      forall j | 0 <= j < |rest|
        ensures !BytesLess(rest[j].name, ds[0].name)
      {
        assert rest[j] in rest;
        if rest[j] == d {
          BytesLessTotal(ds[0].name, d.name, d.name);
        } else {
          var i :| 0 <= i < |ds[1..]| && ds[1..][i] == rest[j];
          assert ds[i + 1] == rest[j];
        }
      }
    }
  }

  lemma {:induction false} CandidatesSorted(collection: Text, ds: seq<IndexDefinition>)
    ensures NamesAscend(Candidates(collection, ds))
    ensures forall d :: d in Candidates(collection, ds) <==> d in ds && d.collection == collection
  {
    if ds != [] {
      CandidatesSorted(collection, ds[1..]);
      assert ds == [ds[0]] + ds[1..];
      if ds[0].collection == collection {
        InsertByNameSorted(ds[0], Candidates(collection, ds[1..]));
      }
    }
  }

  lemma {:induction false} FindIndexFirst(predicate_: Expr, ds: seq<IndexDefinition>)
    requires NamesAscend(ds)
    ensures FindIndex(predicate_, ds).None? <==> forall d :: d in ds ==> EqualityKey(predicate_, d.field).None?
    ensures var found := FindIndex(predicate_, ds);
            found.Some? ==>
              && found.value.0 in ds && EqualityKey(predicate_, found.value.0.field) == Some(found.value.1)
              && forall d :: d in ds && EqualityKey(predicate_, d.field).Some? ==> !BytesLess(d.name, found.value.0.name)
  {
    if ds != [] {
      FindIndexFirst(predicate_, ds[1..]);
      assert ds == [ds[0]] + ds[1..];
      forall d | d in ds
        ensures !BytesLess(d.name, ds[0].name)
      {
        BytesLessTotal(d.name, d.name, d.name);
        var i :| 0 <= i < |ds| && ds[i] == d;
      }
    }
  }

  /** The plan scans an index exactly when some definition is usable, and then the first usable one by name. */
  lemma PlanChoosesFirstUsable(collection: Text, stages: seq<Stage>, ds: seq<IndexDefinition>)
    ensures Plan(collection, stages, ds).CollectionScan? <==>
            FirstFilter(stages).None? || forall d :: d in ds ==> !Usable(d, collection, FirstFilter(stages).value)
    ensures var path := Plan(collection, stages, ds);
            path.IndexScan? ==>
              && path.collection == collection && FirstFilter(stages).Some?
              && exists d :: d in ds && d.name == path.index && Usable(d, collection, FirstFilter(stages).value)
                             && EqualityKey(FirstFilter(stages).value, d.field) == Some(path.key)
                             && forall e :: e in ds && Usable(e, collection, FirstFilter(stages).value) ==> !BytesLess(e.name, d.name)
  {
    CandidatesSorted(collection, ds);
    if FirstFilter(stages).Some? {
      FindIndexFirst(FirstFilter(stages).value, Candidates(collection, ds));
    }
  }

  // ---------- index scans keep the answer ----------

  /** The other zero: equal for `==`, but a different key. */
  predicate OtherZero(value: RuntimeValue, key: IndexKey) {
    value.RtFloat? && key.Float64? && IsZero(value.bits) && IsZero(key.bits) && value.bits != key.bits
  }

  predicate ValidField(field: seq<Text>) {
    field != [] && forall i :: 0 <= i < |field| ==> DOT !in field[i]
  }

  /** What the key is made of: exactly the payload of the value, and one NaN for all. */
  predicate Carries(key: IndexKey, value: Value) {
    match key
    case Int64(x) => value == Int(x)
    case Float64(bits) => value.Float? && bits == if IsNan(value.bits) then CANONICAL_NAN else value.bits
    case String(text) => value == Str(text)
    case Id(id) => value == Ref(id)
  }

  /** No index on this field takes the document: it holds a value there that has no order among keys. */
  predicate Refuses(field: seq<Text>, document: Document) {
    field != ID_PATH
    && match LookupParts(document, field)
       case None => false
       case Some(value) => value.Boolean? || value.Array? || value.Nested? || value.Timestamp?
  }

  /**
   * Indexing `_id` gives the id of the document. Under another field a document has no key exactly if nothing or null
   * is there, is refused exactly for a value of an unordered kind, and otherwise has the key that carries the value.
   */
  lemma KeyExactly(definition: IndexDefinition, document: Document)
    requires ValidField(definition.field)
    ensures var r, value := DocumentKey(definition, document), LookupParts(document, definition.field);
            if definition.field == ID_PATH then r == Ok(Some(Id(document.id)))
            else
              && (r == Ok(None) <==> value.None? || value == Some(Null))
              && (r == Err(InvalidArgument) <==> Refuses(definition.field, document))
              && forall key :: r == Ok(Some(key)) <==> value.Some? && Carries(key, value.value)
    ensures DocumentKey(definition, document).Err? <==> Refuses(definition.field, document)
  {
    SplitJoin(definition.field);
  }

  /** A document equal to the literal has the literal's key, unless the two are opposite zeros. */
  lemma EqualValueKey(definition: IndexDefinition, document: Document, literal: Literal)
    requires ValidField(definition.field)
    requires LiteralKey(literal).Some?
    requires RtEqual(ReadPath(document, definition.field), EvaluateLiteral(literal))
             || RtEqual(EvaluateLiteral(literal), ReadPath(document, definition.field))
    ensures DocumentKey(definition, document) == Ok(LiteralKey(literal))
            || OtherZero(ReadPath(document, definition.field), LiteralKey(literal).value)
    ensures OtherZero(ReadPath(document, definition.field), LiteralKey(literal).value) ==>
              DocumentKey(definition, document).Ok? && DocumentKey(definition, document) != Ok(LiteralKey(literal))
  {
    SplitJoin(definition.field);
    assert Lookup(document, Join(definition.field)) == LookupParts(document, definition.field);
    hide Lookup, LookupParts, Join;
  }

  /** Every document that satisfies the predicate has the key that the planner looks up. */
  lemma {:induction false} MatchHasKey(expression: Expr, definition: IndexDefinition, document: Document, floats: FloatArithmetic)
    requires ValidField(definition.field) && EqualityKey(expression, definition.field).Some?
    requires EvaluatePredicate(expression, document, floats) == Ok(true)
    ensures var key := EqualityKey(expression, definition.field).value;
            && DocumentKey(definition, document).Ok?
            && (DocumentKey(definition, document) == Ok(Some(key)) <==> !OtherZero(ReadPath(document, definition.field), key))
  {
    var field := definition.field;
    if expression.op.And? {
      if EqualityKey(expression.left, field).Some? {
        MatchHasKey(expression.left, definition, document, floats);
      } else {
        MatchHasKey(expression.right, definition, document, floats);
      }
    } else {
      var l, r := Eval(expression.left, document, floats), Eval(expression.right, document, floats);
      assert l.Ok? && r.Ok? && RtEqual(l.value, r.value);
      if PathLiteral(expression.left, expression.right, field).Some? {
        assert l.value == ReadPath(document, field) && r.value == EvaluateLiteral(expression.right.literal);
        EqualValueKey(definition, document, expression.right.literal);
      } else {
        assert r.value == ReadPath(document, field) && l.value == EvaluateLiteral(expression.left.literal);
        EqualValueKey(definition, document, expression.left.literal);
      }
    }
  }

  function FilterDocuments(predicate_: Expr, documents: seq<Document>, floats: FloatArithmetic): Result<seq<Document>> {
    if documents == [] then Ok([])
    else
      var keep :- EvaluatePredicate(predicate_, documents[0], floats);
      var rest :- FilterDocuments(predicate_, documents[1..], floats);
      Ok(if keep then [documents[0]] + rest else rest)
  }

  /** The documents whose ids an index returned, in scan order. */
  function Select(documents: seq<Document>, ids: set<NovaId>): seq<Document> {
    if documents == [] then []
    else (if documents[0].id in ids then [documents[0]] else []) + Select(documents[1..], ids)
  }

  /** The stages after the first: any function of the stages and the documents. */
  type OtherStages = (seq<Stage>, seq<Document>) -> Result<seq<Document>>

  /** `run_pipeline` on stages whose filter, if any, comes first, as the parser arranges. */
  function RunPipeline(documents: seq<Document>, stages: seq<Stage>, floats: FloatArithmetic, others: OtherStages): Result<seq<Document>> {
    if stages != [] && stages[0].Filter? then
      var kept :- FilterDocuments(stages[0].predicate_, documents, floats);
      others(stages[1..], kept)
    else others(stages, documents)
  }

  predicate FilterFirst(stages: seq<Stage>) {
    forall i :: 0 < i < |stages| ==> !stages[i].Filter?
  }

  lemma FirstFilterIsFirst(stages: seq<Stage>)
    requires FilterFirst(stages) && FirstFilter(stages).Some?
    ensures stages[0].Filter? && FirstFilter(stages) == Some(stages[0].predicate_)
  {
    if !stages[0].Filter? {
      NoFilter(stages[1..]);
    }
  }

  lemma {:induction false} NoFilter(stages: seq<Stage>)
    requires forall i :: 0 <= i < |stages| ==> !stages[i].Filter?
    ensures FirstFilter(stages).None?
  {
    if stages != [] {
      NoFilter(stages[1..]);
    }
  }

  /** The index agrees with the documents: it returns exactly those whose key equals `key`. */
  ghost predicate IndexAgrees(definition: IndexDefinition, key: IndexKey, documents: seq<Document>, ids: set<NovaId>) {
    forall i :: 0 <= i < |documents| ==> (documents[i].id in ids <==> DocumentKey(definition, documents[i]) == Ok(Some(key)))
  }

  /** A document that the filter accepts but whose field is the opposite zero of the key. */
  ghost predicate Hidden(predicate_: Expr, definition: IndexDefinition, key: IndexKey, document: Document, floats: FloatArithmetic) {
    EvaluatePredicate(predicate_, document, floats) == Ok(true) && OtherZero(ReadPath(document, definition.field), key)
  }

  ghost predicate NoneHidden(predicate_: Expr, definition: IndexDefinition, key: IndexKey, documents: seq<Document>, floats: FloatArithmetic) {
    forall i :: 0 <= i < |documents| ==> !Hidden(predicate_, definition, key, documents[i], floats)
  }

  lemma SelectStep(predicate_: Expr, documents: seq<Document>, ids: set<NovaId>, floats: FloatArithmetic)
    requires documents != [] && EvaluatePredicate(predicate_, documents[0], floats).Ok?
    requires FilterDocuments(predicate_, Select(documents[1..], ids), floats).Ok?
    ensures var rest := FilterDocuments(predicate_, Select(documents[1..], ids), floats).value;
            FilterDocuments(predicate_, Select(documents, ids), floats) ==
            Ok(if documents[0].id in ids && EvaluatePredicate(predicate_, documents[0], floats).value then [documents[0]] + rest else rest)
  {
    var selected := Select(documents[1..], ids);
    if documents[0].id in ids {
      assert Select(documents, ids) == [documents[0]] + selected;
      assert ([documents[0]] + selected)[1..] == selected;
    } else {
      assert Select(documents, ids) == selected;
    }
  }

  /** Where the filter accepts or rejects every document, the candidates give its answer exactly when no match is hidden. */
  lemma {:induction false} FilterSelectOk(predicate_: Expr, definition: IndexDefinition, key: IndexKey,
                                          documents: seq<Document>, ids: set<NovaId>, floats: FloatArithmetic)
    requires ValidField(definition.field) && EqualityKey(predicate_, definition.field) == Some(key)
    requires IndexAgrees(definition, key, documents, ids)
    requires FilterDocuments(predicate_, documents, floats).Ok?
    ensures FilterDocuments(predicate_, Select(documents, ids), floats).Ok?
    ensures |FilterDocuments(predicate_, Select(documents, ids), floats).value| <= |FilterDocuments(predicate_, documents, floats).value|
    ensures FilterDocuments(predicate_, Select(documents, ids), floats) == FilterDocuments(predicate_, documents, floats)
            <==> NoneHidden(predicate_, definition, key, documents, floats)
  {
    if documents != [] {
      var first, rest := documents[0], documents[1..];
      FilterSelectOk(predicate_, definition, key, rest, ids, floats);
      assert NoneHidden(predicate_, definition, key, documents, floats) <==>
             !Hidden(predicate_, definition, key, first, floats) && NoneHidden(predicate_, definition, key, rest, floats) by {
        assert documents == [first] + rest;
      }
      var selected := Select(rest, ids);
      var a, b := FilterDocuments(predicate_, rest, floats).value, FilterDocuments(predicate_, selected, floats).value;
      SelectStep(predicate_, documents, ids, floats);
      if EvaluatePredicate(predicate_, first, floats) == Ok(true) {
        MatchHasKey(predicate_, definition, first, floats);
        assert first.id in ids <==> !Hidden(predicate_, definition, key, first, floats);
        assert FilterDocuments(predicate_, documents, floats) == Ok([first] + a);
        assert ([first] + a)[1..] == a && ([first] + b)[1..] == b;
      } else {
        assert FilterDocuments(predicate_, documents, floats) == Ok(a);
      }
    }
  }

  // ---------- filters that fail ----------

  lemma {:induction false} EvalFails(expression: Expr, document: Document, floats: FloatArithmetic)
    ensures Eval(expression, document, floats).Err? ==> Eval(expression, document, floats).error == InvalidArgument
    decreases expression, 1
  {
    match expression
    case ArrayExpr(items) => EvalAllFails(items, document, floats);
    case ObjectExpr(members) => EvalMembersFails(members, document, floats, []);
    case Unary(_, operand) => EvalFails(operand, document, floats);
    case Binary(left, _, right) =>
      EvalFails(left, document, floats);
      EvalFails(right, document, floats);
    case _ =>
  }

  lemma {:induction false} EvalAllFails(items: seq<Expr>, document: Document, floats: FloatArithmetic)
    ensures EvalAll(items, document, floats).Err? ==> EvalAll(items, document, floats).error == InvalidArgument
    decreases items, 0
  {
    if items != [] {
      EvalFails(items[0], document, floats);
      EvalAllFails(items[1..], document, floats);
    }
  }

  lemma {:induction false} EvalMembersFails(members: seq<Member>, document: Document, floats: FloatArithmetic, entries: seq<RtEntry>)
    ensures EvalMembers(members, document, floats, entries).Err? ==> EvalMembers(members, document, floats, entries).error == InvalidArgument
    decreases members, 0
  {
    if members != [] {
      EvalFails(members[0].value, document, floats);
      var value := Eval(members[0].value, document, floats);
      if value.Ok? {
        EvalMembersFails(members[1..], document, floats, InsertEntry(entries, RtEntry(members[0].name, value.value)));
      }
    }
  }

  /** The filter fails on some document. */
  ghost predicate SomeFails(predicate_: Expr, documents: seq<Document>, floats: FloatArithmetic) {
    exists d :: d in documents && EvaluatePredicate(predicate_, d, floats).Err?
  }

  /** A filter fails exactly when it fails on some document, and always in the same way. */
  lemma {:induction false} FilterFails(predicate_: Expr, documents: seq<Document>, floats: FloatArithmetic)
    ensures FilterDocuments(predicate_, documents, floats) == Err(InvalidArgument) <==> SomeFails(predicate_, documents, floats)
    ensures FilterDocuments(predicate_, documents, floats).Err? ==> FilterDocuments(predicate_, documents, floats) == Err(InvalidArgument)
  {
    hide EvaluatePredicate;
    if documents != [] {
      PredicateFails(predicate_, documents[0], floats);
      FilterFails(predicate_, documents[1..], floats);
      assert documents == [documents[0]] + documents[1..];
    }
  }

  lemma PredicateFails(predicate_: Expr, document: Document, floats: FloatArithmetic)
    ensures EvaluatePredicate(predicate_, document, floats).Err? ==> EvaluatePredicate(predicate_, document, floats) == Err(InvalidArgument)
  {
    EvalFails(predicate_, document, floats);
  }

  lemma {:induction false} SelectMembers(documents: seq<Document>, ids: set<NovaId>, d: Document)
    ensures d in Select(documents, ids) <==> d in documents && d.id in ids
  {
    if documents != [] {
      SelectMembers(documents[1..], ids, d);
      assert documents == [documents[0]] + documents[1..];
    }
  }

  /** The documents with this key under the definition, in scan order. */
  function Holding(definition: IndexDefinition, key: IndexKey, documents: seq<Document>): seq<Document> {
    if documents == [] then []
    else (if DocumentKey(definition, documents[0]) == Ok(Some(key)) then [documents[0]] else []) + Holding(definition, key, documents[1..])
  }

  lemma {:induction false} SelectHolding(definition: IndexDefinition, key: IndexKey, documents: seq<Document>, ids: set<NovaId>)
    requires IndexAgrees(definition, key, documents, ids)
    ensures Select(documents, ids) == Holding(definition, key, documents)
  {
    if documents != [] {
      SelectHolding(definition, key, documents[1..], ids);
    }
  }

  /**
   * Reading through the index is safe: the filter decides every document and hides no match, or it fails on some
   * document that the index returns.
   */
  ghost predicate SafeScan(predicate_: Expr, definition: IndexDefinition, key: IndexKey, documents: seq<Document>, floats: FloatArithmetic) {
    if FilterDocuments(predicate_, documents, floats).Ok? then NoneHidden(predicate_, definition, key, documents, floats)
    else exists d :: d in documents && DocumentKey(definition, d) == Ok(Some(key)) && EvaluatePredicate(predicate_, d, floats).Err?
  }

  /** Filtering the index candidates gives what filtering all documents gives, failures included, exactly when that is safe. */
  lemma FilterSelect(predicate_: Expr, definition: IndexDefinition, key: IndexKey,
                     documents: seq<Document>, ids: set<NovaId>, floats: FloatArithmetic)
    requires ValidField(definition.field) && EqualityKey(predicate_, definition.field) == Some(key)
    requires IndexAgrees(definition, key, documents, ids)
    ensures FilterDocuments(predicate_, Select(documents, ids), floats) == FilterDocuments(predicate_, documents, floats)
            <==> SafeScan(predicate_, definition, key, documents, floats)
  {
    hide EvaluatePredicate, NoneHidden, FilterDocuments, Select, DocumentKey, EqualityKey;
    if FilterDocuments(predicate_, documents, floats).Ok? {
      FilterSelectOk(predicate_, definition, key, documents, ids, floats);
    } else {
      FilterFails(predicate_, documents, floats);
      FilterFails(predicate_, Select(documents, ids), floats);
      forall d
        ensures d in Select(documents, ids) <==> d in documents && DocumentKey(definition, d) == Ok(Some(key))
      {
        SelectMembers(documents, ids, d);
      }
    }
  }

  /** The pipeline over the chosen index and over the whole collection agree, whatever follows the filter, exactly when that is safe. */
  lemma IndexScanKeepsAnswer(stages: seq<Stage>, definition: IndexDefinition, key: IndexKey, documents: seq<Document>,
                             ids: set<NovaId>, floats: FloatArithmetic)
    requires FilterFirst(stages) && FirstFilter(stages).Some? && ValidField(definition.field)
    requires EqualityKey(FirstFilter(stages).value, definition.field) == Some(key)
    requires IndexAgrees(definition, key, documents, ids)
    ensures SafeScan(FirstFilter(stages).value, definition, key, documents, floats) <==>
            forall others: OtherStages ::
              RunPipeline(Select(documents, ids), stages, floats, others) == RunPipeline(documents, stages, floats, others)
  {
    FirstFilterIsFirst(stages);
    FilterSelect(stages[0].predicate_, definition, key, documents, ids, floats);
    hide FilterDocuments, SafeScan, Select, EqualityKey, IndexAgrees;
    var same: OtherStages := (rest: seq<Stage>, kept: seq<Document>) => Ok(kept);
    assert RunPipeline(Select(documents, ids), stages, floats, same) == FilterDocuments(stages[0].predicate_, Select(documents, ids), floats);
    assert RunPipeline(documents, stages, floats, same) == FilterDocuments(stages[0].predicate_, documents, floats);
  }

  // ---------- the chosen index ----------

  /** Of the usable definitions this is the first one by name. */
  ghost predicate FirstUsable(d: IndexDefinition, collection: Text, predicate_: Expr, definitions: map<Text, IndexDefinition>) {
    && d.name in definitions && definitions[d.name] == d && Usable(d, collection, predicate_)
    && forall name :: name in definitions && Usable(definitions[name], collection, predicate_) ==> !BytesLess(name, d.name)
  }

  lemma OneFirstUsable(a: IndexDefinition, b: IndexDefinition, collection: Text, predicate_: Expr, definitions: map<Text, IndexDefinition>)
    requires FirstUsable(a, collection, predicate_, definitions) && FirstUsable(b, collection, predicate_, definitions)
    ensures a == b
  {
    FractionEmbeds(a.name, b.name);
    FractionEmbeds(b.name, a.name);
  }

  ghost predicate IsChosen(d: IndexDefinition, collection: Text, stages: seq<Stage>, definitions: map<Text, IndexDefinition>) {
    FirstFilter(stages).Some? && FirstUsable(d, collection, FirstFilter(stages).value, definitions)
  }

  /** The definitions that the planner is given, under their names. */
  ghost predicate Lists(ds: seq<IndexDefinition>, definitions: map<Text, IndexDefinition>) {
    && (forall d :: d in ds ==> d.name in definitions && definitions[d.name] == d)
    && (forall name :: name in definitions ==> definitions[name] in ds && definitions[name].name == name)
  }

  /** The plan scans the chosen index, or the collection if there is none. */
  lemma PlanIsChosen(collection: Text, stages: seq<Stage>, ds: seq<IndexDefinition>, definitions: map<Text, IndexDefinition>)
    requires Lists(ds, definitions)
    ensures Plan(collection, stages, ds).CollectionScan? ==> forall d :: !IsChosen(d, collection, stages, definitions)
    ensures var path := Plan(collection, stages, ds);
            path.IndexScan? ==> path.index in definitions && IsChosen(definitions[path.index], collection, stages, definitions)
                                && EqualityKey(FirstFilter(stages).value, definitions[path.index].field) == Some(path.key)
  {
    PlanChoosesFirstUsable(collection, stages, ds);
    hide Plan, FirstFilter, EqualityKey;
  }

  /** The documents that the planned access path reads, in scan order. */
  ghost function PlannedRead(collection: Text, stages: seq<Stage>, definitions: map<Text, IndexDefinition>, scan: seq<Document>): seq<Document> {
    if d :| IsChosen(d, collection, stages, definitions)
    then Holding(d, EqualityKey(FirstFilter(stages).value, d.field).value, scan) else scan
  }

  /** No index is chosen, or reading through the chosen one is safe. */
  ghost predicate SafePlan(collection: Text, stages: seq<Stage>, definitions: map<Text, IndexDefinition>, scan: seq<Document>, floats: FloatArithmetic) {
    forall d :: IsChosen(d, collection, stages, definitions) ==>
                  SafeScan(FirstFilter(stages).value, d, EqualityKey(FirstFilter(stages).value, d.field).value, scan, floats)
  }

  ghost predicate DistinctIds(documents: seq<Document>) {
    forall i, j :: 0 <= i < j < |documents| ==> documents[i].id != documents[j].id
  }

  /** What an index in agreement returns. */
  ghost function IdsHolding(definition: IndexDefinition, key: IndexKey, documents: seq<Document>): set<NovaId> {
    set d | d in documents && DocumentKey(definition, d) == Ok(Some(key)) :: d.id
  }

  lemma HoldingAgrees(definition: IndexDefinition, key: IndexKey, documents: seq<Document>)
    requires DistinctIds(documents)
    ensures IndexAgrees(definition, key, documents, IdsHolding(definition, key, documents))
  {
    hide DocumentKey;
    forall i | 0 <= i < |documents| && documents[i].id in IdsHolding(definition, key, documents)
      ensures DocumentKey(definition, documents[i]) == Ok(Some(key))
    {
      var d :| d in documents && DocumentKey(definition, d) == Ok(Some(key)) && d.id == documents[i].id;
      var j :| 0 <= j < |documents| && documents[j] == d;
      assert i == j;
    }
  }

  /** The planned read gives the answer of the full scan, whatever follows the filter, exactly when the plan is safe. */
  lemma PlanKeepsAnswer(collection: Text, stages: seq<Stage>, definitions: map<Text, IndexDefinition>, scan: seq<Document>, floats: FloatArithmetic)
    requires FilterFirst(stages) && DistinctIds(scan) && forall name :: name in definitions ==> ValidField(definitions[name].field)
    ensures SafePlan(collection, stages, definitions, scan, floats) <==>
            forall others: OtherStages ::
              RunPipeline(PlannedRead(collection, stages, definitions, scan), stages, floats, others) == RunPipeline(scan, stages, floats, others)
  {
    hide SafeScan, RunPipeline, EqualityKey, IndexAgrees, Holding, DistinctIds, FirstFilter, FilterFirst;
    if d :| IsChosen(d, collection, stages, definitions) {
      ChosenRead(collection, stages, definitions, scan, d);
      var key := EqualityKey(FirstFilter(stages).value, d.field).value;
      HoldingAgrees(d, key, scan);
      SelectHolding(d, key, scan, IdsHolding(d, key, scan));
      IndexScanKeepsAnswer(stages, d, key, scan, IdsHolding(d, key, scan), floats);
      SafeChosen(collection, stages, definitions, scan, floats, d);
    }
  }

  lemma ChosenRead(collection: Text, stages: seq<Stage>, definitions: map<Text, IndexDefinition>, scan: seq<Document>, d: IndexDefinition)
    requires IsChosen(d, collection, stages, definitions)
    ensures PlannedRead(collection, stages, definitions, scan) == Holding(d, EqualityKey(FirstFilter(stages).value, d.field).value, scan)
  {
    hide Usable, Holding, EqualityKey;
    forall e | IsChosen(e, collection, stages, definitions)
      ensures e == d
    {
      OneFirstUsable(d, e, collection, FirstFilter(stages).value, definitions);
    }
  }

  lemma SafeChosen(collection: Text, stages: seq<Stage>, definitions: map<Text, IndexDefinition>, scan: seq<Document>,
                   floats: FloatArithmetic, d: IndexDefinition)
    requires IsChosen(d, collection, stages, definitions)
    ensures SafePlan(collection, stages, definitions, scan, floats) <==>
            SafeScan(FirstFilter(stages).value, d, EqualityKey(FirstFilter(stages).value, d.field).value, scan, floats)
  {
    hide SafeScan;
    forall e | IsChosen(e, collection, stages, definitions)
      ensures e == d
    {
      OneFirstUsable(d, e, collection, FirstFilter(stages).value, definitions);
    }
  }

  // ---------- two queries that lose ----------

  /** A document with x = -0.0, an index on x, and the predicate `x == 0.0`. */
  const ZERO_DOCUMENT: Document := Document(1, [Field([120], Float(SIGN_BIT))])
  const ZERO_INDEX: IndexDefinition := IndexDefinition([105], [99], [[120]])
  const ZERO_FILTER: Expr := Binary(Path([[120]]), Equal, Lit(FloatLit(0)))

  lemma ZeroFacts(floats: FloatArithmetic)
    ensures EvaluatePredicate(ZERO_FILTER, ZERO_DOCUMENT, floats) == Ok(true)
    ensures DocumentKey(ZERO_INDEX, ZERO_DOCUMENT) == Ok(Some(Float64(SIGN_BIT)))
  {
    SplitJoin(ZERO_INDEX.field);
    assert LookupParts(ZERO_DOCUMENT, [[120]]) == Some(Float(SIGN_BIT));
    assert ReadPath(ZERO_DOCUMENT, [[120]]) == RtFloat(SIGN_BIT);
    assert Eval(ZERO_FILTER, ZERO_DOCUMENT, floats) == Ok(RtBool(true));
  }

  /** The filter matches the document, but the index key of the literal misses it. */
  lemma OppositeZeroIsLost(floats: FloatArithmetic)
    ensures EqualityKey(ZERO_FILTER, ZERO_INDEX.field) == Some(Float64(0))
    ensures IndexAgrees(ZERO_INDEX, Float64(0), [ZERO_DOCUMENT], {})
    ensures FilterDocuments(ZERO_FILTER, [ZERO_DOCUMENT], floats) == Ok([ZERO_DOCUMENT])
    ensures FilterDocuments(ZERO_FILTER, Select([ZERO_DOCUMENT], {}), floats) == Ok([])
  {
    ZeroFacts(floats);
    var documents := [ZERO_DOCUMENT];
    assert FilterDocuments(ZERO_FILTER, documents[1..], floats) == Ok([]) && [ZERO_DOCUMENT] + [] == documents;
    assert Select(documents, {}) == Select(documents[1..], {}) == [];
  }

  /** The predicate `y > 5 and x == 1` over {x: 1, y: 6} and {x: 2, y: "s"}, with the index on x. */
  const SIX: Document := Document(1, [Field([120], Int(1)), Field([121], Int(6))])
  const TEXT: Document := Document(2, [Field([120], Int(2)), Field([121], Str([115]))])
  const BOTH_FILTER: Expr :=
    Binary(Binary(Path([[121]]), Greater, Lit(IntLit(5))), And, Binary(Path([[120]]), Equal, Lit(IntLit(1))))

  lemma TwoFields(d: Document, x: Value, y: Value)
    requires d.fields == [Field([120], x), Field([121], y)]
    ensures ReadPath(d, [[120]]) == FromValue(x) && ReadPath(d, [[121]]) == FromValue(y)
    ensures Lookup(d, Join([[120]])) == Some(x)
  {
    SplitJoin([[120]]);
    assert d.fields[1..] == [Field([121], y)] && GetField(d.fields[1..], [121]) == Some(y);
    assert LookupParts(d, [[121]]) == Some(y);
  }

  lemma SixFacts(d: Document, floats: FloatArithmetic)
    requires d == SIX
    ensures EvaluatePredicate(BOTH_FILTER, d, floats) == Ok(true) && DocumentKey(ZERO_INDEX, d) == Ok(Some(Int64(1)))
  {
    TwoFields(d, Int(1), Int(6));
    hide ReadPath, Lookup, Join;
    var left, right := BOTH_FILTER.left, BOTH_FILTER.right;
    assert Eval(left, d, floats) == Ok(RtBool(true)) && Eval(right, d, floats) == Ok(RtBool(true));
  }

  lemma TextFacts(d: Document, floats: FloatArithmetic)
    requires d == TEXT
    ensures EvaluatePredicate(BOTH_FILTER, d, floats) == Err(InvalidArgument) && DocumentKey(ZERO_INDEX, d) == Ok(Some(Int64(2)))
  {
    TwoFields(d, Int(2), Str([115]));
    hide ReadPath, Lookup, Join;
    var left := BOTH_FILTER.left;
    assert Eval(left, d, floats) == Err(InvalidArgument);
  }

  lemma SelectFirst(a: Document, b: Document, ids: set<NovaId>)
    requires a.id in ids && b.id !in ids
    ensures Select([a, b], ids) == [a]
  {
    assert [a, b][1..] == [b] && [b][1..] == [];
    assert Select([b], ids) == [];
  }

  lemma FilterOne(predicate_: Expr, a: Document, floats: FloatArithmetic)
    requires EvaluatePredicate(predicate_, a, floats) == Ok(true)
    ensures FilterDocuments(predicate_, [a], floats) == Ok([a])
  {
    hide EvaluatePredicate;
    assert [a][1..] == [] && FilterDocuments(predicate_, [], floats) == Ok([]) && [a] + [] == [a];
  }

  lemma FailureAgrees(documents: seq<Document>, floats: FloatArithmetic)
    requires documents == [SIX, TEXT]
    ensures IndexAgrees(ZERO_INDEX, Int64(1), documents, {1}) && NoneHidden(BOTH_FILTER, ZERO_INDEX, Int64(1), documents, floats)
  {
    SixFacts(documents[0], floats);
    TextFacts(documents[1], floats);
    TwoFields(documents[0], Int(1), Int(6));
    hide EvaluatePredicate, DocumentKey, ReadPath;
  }

  /** The full scan fails on the second document; the index never reads it and answers with the first. */
  lemma FailureIsLost(documents: seq<Document>, floats: FloatArithmetic)
    requires documents == [SIX, TEXT]
    ensures EqualityKey(BOTH_FILTER, ZERO_INDEX.field) == Some(Int64(1)) && IndexAgrees(ZERO_INDEX, Int64(1), documents, {1})
    ensures NoneHidden(BOTH_FILTER, ZERO_INDEX, Int64(1), documents, floats) && !SafeScan(BOTH_FILTER, ZERO_INDEX, Int64(1), documents, floats)
    ensures FilterDocuments(BOTH_FILTER, documents, floats) == Err(InvalidArgument)
    ensures FilterDocuments(BOTH_FILTER, Select(documents, {1}), floats) == Ok([documents[0]])
  {
    FailureAgrees(documents, floats);
    SixFacts(documents[0], floats);
    TextFacts(documents[1], floats);
    hide EvaluatePredicate, DocumentKey, FilterDocuments, Select, NoneHidden, IndexAgrees;
    SelectFirst(documents[0], documents[1], {1});
    FilterOne(BOTH_FILTER, documents[0], floats);
    FilterFails(BOTH_FILTER, documents, floats);
  }
}
