/** The stages of a query pipeline, and what assignments and projections do to a document. */
module Pipeline {
  import opened Base
  import opened IndexKeys
  import opened Documents
  import opened Ast
  import opened Evaluate
  import opened Planner
  import opened Sorting

  /** A result, and the generated ids that are still to be drawn; an empty supply is an entropy failure. */
  datatype Drawn<+T> = Drawn(value: T, ids: seq<NovaId>)

  /** Inserting into the ordered map of fields, replacing an equal name. */
  function PutField(fields: seq<Field>, name: Text, value: Value): seq<Field> {
    if fields == [] then [Field(name, value)]
    else if fields[0].name == name then [Field(name, value)] + fields[1..]
    else if BytesLess(name, fields[0].name) then [Field(name, value)] + fields
    else [fields[0]] + PutField(fields[1..], name, value)
  }

  // ---------- assignments ----------

  /** `into_nova_value`: objects become documents with generated ids. */
  function IntoValue(v: RuntimeValue, ids: seq<NovaId>): Result<Drawn<Value>>
    decreases v, 1
  {
    match v
    case Missing => Err(InvalidArgument)
    case RtNull => Ok(Drawn(Null, ids))
    case RtBool(flag) => Ok(Drawn(Boolean(flag), ids))
    case RtInt(x) => Ok(Drawn(Int(x), ids))
    case RtFloat(bits) => if IsFinite(bits) then Ok(Drawn(Float(bits), ids)) else Err(InvalidArgument)
    case RtStr(text) => Ok(Drawn(Str(text), ids))
    case RtArray(values) =>
      var items :- IntoValues(values, ids);
      Ok(Drawn(Array(items.value), items.ids))
    case RtObject(entries) =>
      if ids == [] then Err(Internal)
      else
        var fields :- IntoFields(entries, ids[1..], []);
        Ok(Drawn(Nested(Document(ids[0], fields.value)), fields.ids))
    case RtTimestamp(millis) => Ok(Drawn(Timestamp(millis), ids))
    case RtId(id) => Ok(Drawn(Ref(id), ids))
  }

  function IntoValues(values: seq<RuntimeValue>, ids: seq<NovaId>): Result<Drawn<seq<Value>>>
    decreases values, 0
  {
    if values == [] then Ok(Drawn([], ids))
    else
      var first :- IntoValue(values[0], ids);
      var rest :- IntoValues(values[1..], first.ids);
      Ok(Drawn([first.value] + rest.value, rest.ids))
  }

  function IntoFields(entries: seq<RtEntry>, ids: seq<NovaId>, fields: seq<Field>): Result<Drawn<seq<Field>>>
    decreases entries, 0
  {
    if entries == [] then Ok(Drawn(fields, ids))
    else
      var value :- IntoValue(entries[0].value, ids);
      IntoFields(entries[1..], value.ids, PutField(fields, entries[0].name, value.value))
  }

  /** `set_segments`: documents that are missing on the way are generated. */
  function SetSegments(document: Document, segments: seq<Text>, value: Value, ids: seq<NovaId>): (r: Result<Drawn<Document>>)
    ensures r.Ok? ==> segments != [] && r.value.value.id == document.id
    decreases |segments|
  {
    if segments == [] then Err(InvalidArgument)
    else if |segments| == 1 then Ok(Drawn(Document(document.id, PutField(document.fields, segments[0], value)), ids))
    else
      var here := GetField(document.fields, segments[0]);
      if here.Some? && !here.value.Nested? then Err(InvalidArgument)
      else if here.None? && ids == [] then Err(Internal)
      else
        var inner :- if here.Some? then SetSegments(here.value.document, segments[1..], value, ids)
                     else SetSegments(Document(ids[0], []), segments[1..], value, ids[1..]);
        Ok(Drawn(Document(document.id, PutField(document.fields, segments[0], Nested(inner.value))), inner.ids))
  }

  /** The id of a document cannot be set. */
  predicate StartsAtId(segments: seq<Text>) {
    segments != [] && segments[0] == ID_PATH[0]
  }

  function Assign(document: Document, assignment: Assignment, floats: FloatArithmetic, ids: seq<NovaId>): (r: Result<Drawn<Document>>)
    ensures r.Ok? ==> r.value.value.id == document.id
  {
    var runtime :- Eval(assignment.value, document, floats);
    var value :- IntoValue(runtime, ids);
    if StartsAtId(assignment.path) then Err(InvalidArgument)
    else SetSegments(document, assignment.path, value.value, value.ids)
  }

  /** `apply_assignments`: each one sees what the ones before it have set. */
  function AssignAll(document: Document, assignments: seq<Assignment>, floats: FloatArithmetic, ids: seq<NovaId>): (r: Result<Drawn<Document>>)
    ensures r.Ok? ==> r.value.value.id == document.id
    decreases |assignments|
  {
    if assignments == [] then Ok(Drawn(document, ids))
    else
      var first :- Assign(document, assignments[0], floats, ids);
      AssignAll(first.value, assignments[1..], floats, first.ids)
  }

  function AssignEach(documents: seq<Document>, assignments: seq<Assignment>, floats: FloatArithmetic, ids: seq<NovaId>): Result<Drawn<seq<Document>>> {
    if documents == [] then Ok(Drawn([], ids))
    else
      var first :- AssignAll(documents[0], assignments, floats, ids);
      var rest :- AssignEach(documents[1..], assignments, floats, first.ids);
      Ok(Drawn([first.value] + rest.value, rest.ids))
  }

  // ---------- projections ----------

  /** `project_segments`: copies what lies at the path, if anything, below copies of the documents on the way. */
  function ProjectSegments(source: Document, target: Document, segments: seq<Text>): (r: Result<Document>)
    ensures r.Ok? ==> r.value.id == target.id
    decreases |segments|
  {
    if segments == [] then Ok(target)
    else
      match GetField(source.fields, segments[0])
      case None => Ok(target)
      case Some(value) =>
        if |segments| == 1 then Ok(Document(target.id, PutField(target.fields, segments[0], value)))
        else if !value.Nested? then Ok(target)
        else
          var here := GetField(target.fields, segments[0]);
          if here.Some? && !here.value.Nested? then Err(InvalidArgument)
          else
            var below := if here.Some? then here.value.document else Document(value.document.id, []);
            var inner :- ProjectSegments(value.document, below, segments[1..]);
            Ok(Document(target.id, PutField(target.fields, segments[0], Nested(inner))))
  }

  function ProjectOnto(source: Document, target: Document, paths: seq<seq<Text>>): (r: Result<Document>)
    ensures r.Ok? ==> r.value.id == target.id
    decreases |paths|
  {
    if paths == [] then Ok(target)
    else
      var next :- if paths[0] == ID_PATH then Ok(target) else ProjectSegments(source, target, paths[0]);
      ProjectOnto(source, next, paths[1..])
  }

  function Project(source: Document, paths: seq<seq<Text>>): (r: Result<Document>)
    ensures r.Ok? ==> r.value.id == source.id
  {
    ProjectOnto(source, Document(source.id, []), paths)
  }

  function ProjectEach(documents: seq<Document>, paths: seq<seq<Text>>): Result<seq<Document>> {
    if documents == [] then Ok([])
    else
      var first :- Project(documents[0], paths);
      var rest :- ProjectEach(documents[1..], paths);
      Ok([first] + rest)
  }

  // ---------- the pipeline ----------

  function Least(a: nat, b: nat): nat {
    if a < b then a else b
  }

  function RunStage(stage: Stage, documents: seq<Document>, floats: FloatArithmetic, ids: seq<NovaId>): Result<Drawn<seq<Document>>> {
    match stage
    case Filter(predicate_) =>
      var kept :- FilterDocuments(predicate_, documents, floats);
      Ok(Drawn(kept, ids))
    case Project(paths) =>
      var projected :- ProjectEach(documents, paths);
      Ok(Drawn(projected, ids))
    case Sort(keys) =>
      var sorted :- SortedDocuments(documents, keys);
      Ok(Drawn(sorted, ids))
    case Limit(count) => Ok(Drawn(documents[..Least(count, |documents|)], ids))
    case Skip(count) => Ok(Drawn(documents[Least(count, |documents|)..], ids))
    case Set(assignments) => AssignEach(documents, assignments, floats, ids)
  }

  function RunStages(stages: seq<Stage>, documents: seq<Document>, floats: FloatArithmetic, ids: seq<NovaId>): Result<Drawn<seq<Document>>> {
    if stages == [] then Ok(Drawn(documents, ids))
    else
      var next :- RunStage(stages[0], documents, floats, ids);
      RunStages(stages[1..], next.value, floats, next.ids)
  }

  /** `run_pipeline`: stage after stage. */
  method RunAll(documents: seq<Document>, stages: seq<Stage>, floats: FloatArithmetic, ids: seq<NovaId>) returns (r: Result<Drawn<seq<Document>>>)
    ensures r == RunStages(stages, documents, floats, ids)
  {
    hide RunStage;
    var state := Drawn(documents, ids);
    var i := 0;
    assert stages[0..] == stages;
    while i < |stages|
      invariant i <= |stages|
      invariant RunStages(stages[i..], state.value, floats, state.ids) == RunStages(stages, documents, floats, ids)
    {
      assert stages[i..][1..] == stages[i + 1..];
      state :- RunOne(stages[i], state.value, floats, state.ids);
      i := i + 1;
    }
    return Ok(state);
  }

  /** The loops over documents, and the sort. */
  method RunOne(stage: Stage, documents: seq<Document>, floats: FloatArithmetic, ids: seq<NovaId>) returns (r: Result<Drawn<seq<Document>>>)
    ensures r == RunStage(stage, documents, floats, ids)
  {
    hide SortedDocuments, FilterDocuments, ProjectEach, AssignEach;
    match stage
    case Filter(predicate_) =>
      var kept := FilterLoop(predicate_, documents, floats);
      r := if kept.Ok? then Ok(Drawn(kept.value, ids)) else Err(kept.error);
    case Project(paths) =>
      var projected := ProjectLoop(documents, paths);
      r := if projected.Ok? then Ok(Drawn(projected.value, ids)) else Err(projected.error);
    case Sort(keys) =>
      var sorted, _ := SortDocuments(documents, keys);
      r := if sorted.Ok? then Ok(Drawn(sorted.value, ids)) else Err(sorted.error);
    case Limit(count) => r := Ok(Drawn(documents[..Least(count, |documents|)], ids));
    case Skip(count) => r := Ok(Drawn(documents[Least(count, |documents|)..], ids));
    case Set(assignments) => r := AssignLoop(documents, assignments, floats, ids);
  }

  /** `done` before what the rest gives. */
  function Prefixed<T>(done: seq<T>, rest: Result<seq<T>>): Result<seq<T>> {
    match rest
    case Err(error) => Err(error)
    case Ok(more) => Ok(done + more)
  }

  method FilterLoop(predicate_: Expr, documents: seq<Document>, floats: FloatArithmetic) returns (r: Result<seq<Document>>)
    ensures r == FilterDocuments(predicate_, documents, floats)
  {
    hide EvaluatePredicate;
    var filtered: seq<Document> := [];
    var i := 0;
    PrefixNothing(FilterDocuments(predicate_, documents, floats));
    assert documents[0..] == documents;
    while i < |documents|
      invariant i <= |documents|
      invariant Prefixed(filtered, FilterDocuments(predicate_, documents[i..], floats)) == FilterDocuments(predicate_, documents, floats)
    {
      assert documents[i..][1..] == documents[i + 1..];
      var keep :- EvaluatePredicate(predicate_, documents[i], floats);
      if keep {
        PrefixStep(filtered, documents[i], FilterDocuments(predicate_, documents[i + 1..], floats));
        filtered := filtered + [documents[i]];
      }
      i := i + 1;
    }
    assert filtered + [] == filtered;
    return Ok(filtered);
  }

  method ProjectLoop(documents: seq<Document>, paths: seq<seq<Text>>) returns (r: Result<seq<Document>>)
    ensures r == ProjectEach(documents, paths)
  {
    hide Project;
    var projected: seq<Document> := [];
    var i := 0;
    PrefixNothing(ProjectEach(documents, paths));
    assert documents[0..] == documents;
    while i < |documents|
      invariant i <= |documents|
      invariant Prefixed(projected, ProjectEach(documents[i..], paths)) == ProjectEach(documents, paths)
    {
      assert documents[i..][1..] == documents[i + 1..];
      var next :- Project(documents[i], paths);
      PrefixStep(projected, next, ProjectEach(documents[i + 1..], paths));
      projected := projected + [next];
      i := i + 1;
    }
    assert projected + [] == projected;
    return Ok(projected);
  }

  method AssignLoop(documents: seq<Document>, assignments: seq<Assignment>, floats: FloatArithmetic, ids: seq<NovaId>)
    returns (r: Result<Drawn<seq<Document>>>)
    ensures r == AssignEach(documents, assignments, floats, ids)
  {
    hide AssignAll;
    var changed: seq<Document>, left := [], ids;
    var i := 0;
    DrawNothing(AssignEach(documents, assignments, floats, ids));
    assert documents[0..] == documents;
    while i < |documents|
      invariant i <= |documents|
      invariant PrefixedDrawn(changed, AssignEach(documents[i..], assignments, floats, left)) == AssignEach(documents, assignments, floats, ids)
    {
      assert documents[i..][1..] == documents[i + 1..];
      var next :- AssignAll(documents[i], assignments, floats, left);
      DrawStep(changed, next.value, AssignEach(documents[i + 1..], assignments, floats, next.ids));
      changed, left := changed + [next.value], next.ids;
      i := i + 1;
    }
    assert changed + [] == changed;
    return Ok(Drawn(changed, left));
  }

  function PrefixedDrawn<T>(done: seq<T>, rest: Result<Drawn<seq<T>>>): Result<Drawn<seq<T>>> {
    match rest
    case Err(error) => Err(error)
    case Ok(more) => Ok(Drawn(done + more.value, more.ids))
  }

  lemma PrefixNothing<T>(rest: Result<seq<T>>)
    ensures Prefixed([], rest) == rest
  {
    if rest.Ok? {
      assert [] + rest.value == rest.value;
    }
  }

  lemma PrefixStep<T>(done: seq<T>, x: T, rest: Result<seq<T>>)
    ensures Prefixed(done, Prefixed([x], rest)) == Prefixed(done + [x], rest)
  {
    if rest.Ok? {
      assert done + ([x] + rest.value) == (done + [x]) + rest.value;
    }
  }

  lemma DrawNothing<T>(rest: Result<Drawn<seq<T>>>)
    ensures PrefixedDrawn([], rest) == rest
  {
    if rest.Ok? {
      assert [] + rest.value.value == rest.value.value;
    }
  }

  lemma DrawStep<T>(done: seq<T>, x: T, rest: Result<Drawn<seq<T>>>)
    ensures PrefixedDrawn(done, PrefixedDrawn([x], rest)) == PrefixedDrawn(done + [x], rest)
  {
    if rest.Ok? {
      assert done + ([x] + rest.value.value) == (done + [x]) + rest.value.value;
    }
  }

  // ---------- what an assignment sets ----------

  lemma {:induction false} PutGet(fields: seq<Field>, name: Text, value: Value, other: Text)
    ensures GetField(PutField(fields, name, value), other) == if other == name then Some(value) else GetField(fields, other)
  {
    if fields != [] && fields[0].name != name && !BytesLess(name, fields[0].name) {
      PutGet(fields[1..], name, value, other);
    }
  }

  predicate Apart(p: seq<Text>, q: seq<Text>) {
    !(p <= q) && !(q <= p)
  }

  /** After an assignment the path reads as the value, and every path off it as before. */
  lemma {:induction false} SetReads(document: Document, segments: seq<Text>, value: Value, ids: seq<NovaId>, off: seq<Text>)
    requires SetSegments(document, segments, value, ids).Ok?
    ensures var after := SetSegments(document, segments, value, ids).value.value;
            && LookupParts(after, segments) == Some(value)
            && (Apart(segments, off) ==> LookupParts(after, off) == LookupParts(document, off))
    decreases |segments|
  {
    var name, here := segments[0], GetField(document.fields, segments[0]);
    var first := if off == [] then name else off[0];
    if off != [] && Apart(segments, off) && first == name {
      ApartBelow(segments, off);
    }
    if |segments| == 1 {
      PutGet(document.fields, name, value, name);
      PutGet(document.fields, name, value, first);
    } else {
      var nested, more := if here.Some? then here.value.document else Document(ids[0], []), if here.Some? then ids else ids[1..];
      SetReads(nested, segments[1..], value, more, if off == [] then [] else off[1..]);
      var inner := SetSegments(nested, segments[1..], value, more).value.value;
      PutGet(document.fields, name, Nested(inner), name);
      PutGet(document.fields, name, Nested(inner), first);
    }
  }

  lemma ApartBelow(p: seq<Text>, q: seq<Text>)
    requires p != [] && q != [] && Apart(p, q) && p[0] == q[0]
    ensures |p| >= 2 && |q| >= 2 && Apart(p[1..], q[1..])
  {
    assert p == [p[0]] + p[1..] && q == [q[0]] + q[1..];
  }

  // ---------- what a projection keeps ----------

  ghost predicate SortedDocument(d: Document) {
    Ascending(d.fields) && forall i :: 0 <= i < |d.fields| && d.fields[i].value.Nested? ==> SortedDocument(d.fields[i].value.document)
  }

  /** Every field of `a` is one of `b`, or part of a nested document of `b`. */
  ghost predicate PartOf(a: Document, b: Document)
    decreases a, 1
  {
    a.id == b.id && AllPart(a.fields, b)
  }

  ghost predicate AllPart(fields: seq<Field>, b: Document)
    decreases fields, 0
  {
    forall i :: 0 <= i < |fields| ==> FieldPart(fields[i].name, fields[i].value, b)
  }

  ghost predicate FieldPart(name: Text, value: Value, b: Document)
    decreases value, 2
  {
    var there := GetField(b.fields, name);
    there.Some? && (there.value == value || (there.value.Nested? && value.Nested? && PartOf(value.document, there.value.document)))
  }

  lemma LessOnce(a: Text, b: Text)
    requires BytesLess(a, b)
    ensures a != b && !BytesLess(b, a)
  {
    FractionEmbeds(a, b);
    FractionEmbeds(b, a);
  }

  lemma {:induction false} GetAt(fields: seq<Field>, name: Text) returns (i: nat)
    requires GetField(fields, name).Some?
    ensures i < |fields| && fields[i] == Field(name, GetField(fields, name).value)
  {
    if fields[0].name == name {
      i := 0;
    } else {
      var j := GetAt(fields[1..], name);
      i := j + 1;
    }
  }

  lemma {:induction false} AtGet(fields: seq<Field>, i: nat)
    requires Ascending(fields) && i < |fields|
    ensures GetField(fields, fields[i].name) == Some(fields[i].value)
  {
    if i > 0 {
      LessOnce(fields[0].name, fields[i].name);
      AtGet(fields[1..], i - 1);
    }
  }

  lemma {:induction false} PartSelf(d: Document)
    requires SortedDocument(d)
    ensures PartOf(d, d)
  {
    forall i | 0 <= i < |d.fields|
      ensures FieldPart(d.fields[i].name, d.fields[i].value, d)
    {
      AtGet(d.fields, i);
    }
  }

  lemma {:induction false} PutSame(fields: seq<Field>, name: Text)
    requires Ascending(fields) && GetField(fields, name).Some?
    ensures PutField(fields, name, GetField(fields, name).value) == fields
  {
    var i := GetAt(fields, name);
    if fields[0].name != name {
      LessOnce(fields[0].name, name);
      PutSame(fields[1..], name);
    }
  }

  lemma {:induction false} PutPart(fields: seq<Field>, name: Text, value: Value, b: Document)
    requires FieldPart(name, value, b) && AllPart(fields, b)
    ensures AllPart(PutField(fields, name, value), b)
  {
    var out := PutField(fields, name, value);
    if fields != [] && fields[0].name != name && !BytesLess(name, fields[0].name) {
      var rest := PutField(fields[1..], name, value);
      PutPart(fields[1..], name, value, b);
      forall i | 0 <= i < |out|
        ensures FieldPart(out[i].name, out[i].value, b)
      {
        assert if i == 0 then out[i] == fields[0] else out[i] == rest[i - 1];
      }
    } else {
      forall i | 0 <= i < |out|
        ensures FieldPart(out[i].name, out[i].value, b)
      {
        assert out[i] == Field(name, value) || (i > 0 && (out[i] == fields[i - 1] || (i < |fields| && out[i] == fields[i])));
      }
    }
  }

  /** What stands at a name in a part of a document. */
  lemma PartGet(a: Document, b: Document, name: Text)
    requires PartOf(a, b) && GetField(a.fields, name).Some?
    ensures FieldPart(name, GetField(a.fields, name).value, b)
  {
    var i := GetAt(a.fields, name);
  }

  lemma NestedSorted(d: Document, name: Text)
    requires SortedDocument(d) && GetField(d.fields, name).Some? && GetField(d.fields, name).value.Nested?
    ensures SortedDocument(GetField(d.fields, name).value.document)
  {
    var i := GetAt(d.fields, name);
  }

  /** Where a projection continues below `name`: in a part of what the source has there. */
  lemma PartBelow(source: Document, target: Document, name: Text)
    requires SortedDocument(source) && PartOf(target, source)
    requires GetField(source.fields, name).Some? && GetField(source.fields, name).value.Nested?
    ensures GetField(target.fields, name).Some? ==> GetField(target.fields, name).value.Nested?
    ensures PartOf(Below(source, target, name), GetField(source.fields, name).value.document)
  {
    NestedSorted(source, name);
    if GetField(target.fields, name).Some? {
      PartGet(target, source, name);
      PartSelf(GetField(source.fields, name).value.document);
    }
  }

  function Below(source: Document, target: Document, name: Text): Document
    requires GetField(source.fields, name).Some? && GetField(source.fields, name).value.Nested?
  {
    var here := GetField(target.fields, name);
    if here.Some? && here.value.Nested? then here.value.document else Document(GetField(source.fields, name).value.document.id, [])
  }

  /** Projecting a path onto a part of the document gives a part of it again. */
  lemma {:induction false} ProjectPart(source: Document, target: Document, segments: seq<Text>)
    requires SortedDocument(source) && PartOf(target, source)
    ensures ProjectSegments(source, target, segments).Ok? && PartOf(ProjectSegments(source, target, segments).value, source)
    decreases |segments|
  {
    if segments != [] && GetField(source.fields, segments[0]).Some? {
      var name, value := segments[0], GetField(source.fields, segments[0]).value;
      if |segments| == 1 {
        PutPart(target.fields, name, value, source);
      } else if value.Nested? {
        PartBelow(source, target, name);
        NestedSorted(source, name);
        ProjectPart(value.document, Below(source, target, name), segments[1..]);
        var inner := ProjectSegments(value.document, Below(source, target, name), segments[1..]).value;
        PutPart(target.fields, name, Nested(inner), source);
      }
    }
  }

  /** Afterwards the path reads as in the document, and every path off it as before. */
  lemma {:induction false} ProjectReads(source: Document, target: Document, segments: seq<Text>, off: seq<Text>)
    requires SortedDocument(source) && PartOf(target, source) && ProjectSegments(source, target, segments).Ok?
    ensures var after := ProjectSegments(source, target, segments).value;
            && (LookupParts(source, segments).Some? ==> LookupParts(after, segments) == LookupParts(source, segments))
            && (Apart(segments, off) ==> LookupParts(after, off) == LookupParts(target, off))
    decreases |segments|
  {
    if segments != [] && GetField(source.fields, segments[0]).Some? {
      var name, value := segments[0], GetField(source.fields, segments[0]).value;
      var first := if off == [] then name else off[0];
      if |segments| == 1 {
        PutGet(target.fields, name, value, name);
        PutGet(target.fields, name, value, first);
      } else if value.Nested? {
        PartBelow(source, target, name);
        NestedSorted(source, name);
        var below := Below(source, target, name);
        ProjectPart(value.document, below, segments[1..]);
        ProjectReads(value.document, below, segments[1..], if |off| > 1 then off[1..] else segments[1..]);
        var inner := ProjectSegments(value.document, below, segments[1..]).value;
        PutGet(target.fields, name, Nested(inner), name);
        PutGet(target.fields, name, Nested(inner), first);
        if off != [] && Apart(segments, off) && first == name {
          ApartBelow(segments, off);
        }
      }
    }
  }

  /** Projecting onto the whole document changes nothing. */
  lemma {:induction false} ProjectSame(d: Document, segments: seq<Text>)
    requires SortedDocument(d)
    ensures ProjectSegments(d, d, segments) == Ok(d)
    decreases |segments|
  {
    if segments != [] && GetField(d.fields, segments[0]).Some? {
      PutSame(d.fields, segments[0]);
      var value := GetField(d.fields, segments[0]).value;
      if |segments| > 1 && value.Nested? {
        NestedSorted(d, segments[0]);
        ProjectSame(value.document, segments[1..]);
      }
    }
  }

  /** What already reads as in the document goes on doing so. */
  lemma {:induction false} ProjectKeeps(source: Document, target: Document, segments: seq<Text>, p: seq<Text>)
    requires SortedDocument(source) && PartOf(target, source) && ProjectSegments(source, target, segments).Ok?
    requires LookupParts(source, p).Some? && LookupParts(target, p) == LookupParts(source, p)
    ensures LookupParts(ProjectSegments(source, target, segments).value, p) == LookupParts(source, p)
    decreases |segments|
  {
    if segments != [] && GetField(source.fields, segments[0]).Some? {
      var name, value := segments[0], GetField(source.fields, segments[0]).value;
      if |segments| == 1 {
        PutGet(target.fields, name, value, p[0]);
      } else if value.Nested? {
        PartBelow(source, target, name);
        NestedSorted(source, name);
        var below := Below(source, target, name);
        ProjectPart(value.document, below, segments[1..]);
        var inner := ProjectSegments(value.document, below, segments[1..]).value;
        PutGet(target.fields, name, Nested(inner), p[0]);
        if p[0] == name {
          if |p| == 1 {
            ProjectSame(value.document, segments[1..]);
          } else {
            ProjectKeeps(value.document, below, segments[1..], p[1..]);
          }
        }
      }
    }
  }

  /** `p` is a path of the projection that the document has. */
  predicate Wanted(source: Document, paths: seq<seq<Text>>, p: seq<Text>) {
    p in paths && p != ID_PATH && LookupParts(source, p).Some?
  }

  lemma {:induction false} ProjectPaths(source: Document, target: Document, paths: seq<seq<Text>>, p: seq<Text>)
    requires SortedDocument(source) && PartOf(target, source)
    ensures ProjectOnto(source, target, paths).Ok?
    ensures var after := ProjectOnto(source, target, paths).value;
            && PartOf(after, source)
            && (Wanted(source, paths, p) || (LookupParts(source, p).Some? && LookupParts(target, p) == LookupParts(source, p)) ==>
                  LookupParts(after, p) == LookupParts(source, p))
            && ((forall q :: q in paths ==> Apart(q, p)) ==> LookupParts(after, p) == LookupParts(target, p))
    decreases |paths|
  {
    if paths != [] {
      var q := paths[0];
      assert p in paths <==> p == q || p in paths[1..];
      ProjectPart(source, target, q);
      ProjectReads(source, target, q, p);
      if LookupParts(source, p).Some? && LookupParts(target, p) == LookupParts(source, p) {
        ProjectKeeps(source, target, q, p);
      }
      var next := if q == ID_PATH then target else ProjectSegments(source, target, q).value;
      ProjectPaths(source, next, paths[1..], p);
    }
  }

  /**
   * A projection of a document never fails. It is part of the document, holds every listed path that the document
   * has, and nothing on paths apart from the listed ones.
   */
  lemma ProjectExactly(source: Document, paths: seq<seq<Text>>, p: seq<Text>)
    requires SortedDocument(source)
    ensures Project(source, paths).Ok? && PartOf(Project(source, paths).value, source)
    ensures Wanted(source, paths, p) ==> LookupParts(Project(source, paths).value, p) == LookupParts(source, p)
    ensures (forall q :: q in paths ==> Apart(q, p)) ==> LookupParts(Project(source, paths).value, p).None?
  {
    ProjectPaths(source, Document(source.id, []), paths, p);
  }
}
