/** What assignments and insertions store: the value of the expression, which reads back as it was. */
module StoredValues {
  import opened Base
  import opened IndexKeys
  import opened Documents
  import opened Ast
  import opened Evaluate
  import opened EvaluateLaws
  import opened Pipeline

  /** The names in every object inside rise, as in an ordered map. */
  ghost predicate Rises(v: RuntimeValue) {
    match v
    case RtArray(values) => forall i :: 0 <= i < |values| ==> Rises(values[i])
    case RtObject(entries) => NamesRise(entries) && forall i :: 0 <= i < |entries| ==> Rises(entries[i].value)
    case _ => true
  }

  /** Nothing inside is missing, or a float that is not finite. */
  ghost predicate Storable(v: RuntimeValue) {
    match v
    case Missing => false
    case RtFloat(bits) => IsFinite(bits)
    case RtArray(values) => forall i :: 0 <= i < |values| ==> Storable(values[i])
    case RtObject(entries) => forall i :: 0 <= i < |entries| ==> Storable(entries[i].value)
    case _ => true
  }

  /** How many documents the stored value holds, each with a generated id. */
  ghost function Objects(v: RuntimeValue): nat
    decreases v, 1
  {
    match v
    case RtArray(values) => ObjectsIn(values)
    case RtObject(entries) => 1 + ObjectsOf(entries)
    case _ => 0
  }

  ghost function ObjectsIn(values: seq<RuntimeValue>): nat
    decreases values, 0
  {
    if values == [] then 0 else Objects(values[0]) + ObjectsIn(values[1..])
  }

  ghost function ObjectsOf(entries: seq<RtEntry>): nat
    decreases entries, 0
  {
    if entries == [] then 0 else Objects(entries[0].value) + ObjectsOf(entries[1..])
  }

  /** The stored form of `v` reads back as `v`, and has drawn the first `n` ids. */
  ghost predicate Keeps(v: RuntimeValue, ids: seq<NovaId>, n: nat, r: Drawn<Value>) {
    FromValue(r.value) == v && n <= |ids| && r.ids == ids[n..]
  }

  ghost predicate KeepsAll(values: seq<RuntimeValue>, ids: seq<NovaId>, n: nat, r: Drawn<seq<Value>>) {
    && |r.value| == |values| && n <= |ids| && r.ids == ids[n..]
    && forall i :: 0 <= i < |values| ==> FromValue(r.value[i]) == values[i]
  }

  /** The fields with the names of the entries and these values. */
  ghost function FieldsWith(entries: seq<RtEntry>, stored: seq<Value>): (fields: seq<Field>)
    requires |stored| == |entries|
    ensures |fields| == |entries| && forall i :: 0 <= i < |fields| ==> fields[i] == Field(entries[i].name, stored[i])
  {
    seq(|entries|, i requires 0 <= i < |entries| => Field(entries[i].name, stored[i]))
  }

  ghost predicate ReadBack(entries: seq<RtEntry>, stored: seq<Value>) {
    |stored| == |entries| && forall i :: 0 <= i < |entries| ==> FromValue(stored[i]) == entries[i].value
  }

  /**
   * A value can be stored exactly if nothing inside is missing or not finite and there are ids for its documents, and
   * then it reads back as it was.
   */
  lemma {:induction false} StoredReadsBack(v: RuntimeValue, ids: seq<NovaId>)
    requires Rises(v)
    ensures IntoValue(v, ids).Ok? <==> Storable(v) && Objects(v) <= |ids|
    ensures IntoValue(v, ids).Ok? ==> Keeps(v, ids, Objects(v), IntoValue(v, ids).value)
    decreases v, 1
  {
    match v
    case RtArray(values) =>
      StoredArray(values, ids);
      var items := IntoValues(values, ids);
      if items.Ok? {
        ArrayBack(values, items.value.value);
      }
    case RtObject(entries) =>
      if ids != [] {
        var stored := StoredFields(entries, ids[1..], []);
        if IntoFields(entries, ids[1..], []).Ok? {
          ObjectBack(entries, ids[0], stored);
          assert [] + FieldsWith(entries, stored) == FieldsWith(entries, stored);
          assert ids[1..][ObjectsOf(entries)..] == ids[Objects(v)..];
        }
      }
    case _ =>
  }

  lemma ArrayBack(values: seq<RuntimeValue>, stored: seq<Value>)
    requires |stored| == |values| && forall i :: 0 <= i < |values| ==> FromValue(stored[i]) == values[i]
    ensures FromValue(Array(stored)) == RtArray(values)
  {
    assert FromValue(Array(stored)).values == values;
  }

  lemma ObjectBack(entries: seq<RtEntry>, id: NovaId, stored: seq<Value>)
    requires ReadBack(entries, stored)
    ensures FromValue(Nested(Document(id, FieldsWith(entries, stored)))) == RtObject(entries)
  {
    var fields := FieldsWith(entries, stored);
    var back := FromValue(Nested(Document(id, fields)));
    forall i | 0 <= i < |entries|
      ensures back.entries[i] == entries[i]
    {
      assert back.entries[i] == RtEntry(fields[i].name, FromValue(fields[i].value));
    }
    assert back.entries == entries;
  }

  lemma {:induction false} StoredArray(values: seq<RuntimeValue>, ids: seq<NovaId>)
    requires forall i :: 0 <= i < |values| ==> Rises(values[i])
    ensures var r := IntoValues(values, ids);
            && (r.Ok? <==> (forall i :: 0 <= i < |values| ==> Storable(values[i])) && ObjectsIn(values) <= |ids|)
            && (r.Ok? ==> KeepsAll(values, ids, ObjectsIn(values), r.value))
    decreases values, 0
  {
    if values != [] {
      assert values == [values[0]] + values[1..];
      hide IntoValue, Rises, Storable, Objects;
      StoredReadsBack(values[0], ids);
      var first := IntoValue(values[0], ids);
      if first.Ok? {
        StoredArray(values[1..], first.value.ids);
        assert Objects(values[0]) + ObjectsIn(values[1..]) <= |ids| ==>
                 ids[Objects(values[0])..][ObjectsIn(values[1..])..] == ids[ObjectsIn(values)..];
      }
    }
  }

  ghost predicate After(done: seq<Field>, entries: seq<RtEntry>) {
    forall i, j :: 0 <= i < |done| && 0 <= j < |entries| ==> BytesLess(done[i].name, entries[j].name)
  }

  lemma {:induction false} PutLast(fields: seq<Field>, name: Text, value: Value)
    requires forall i :: 0 <= i < |fields| ==> BytesLess(fields[i].name, name)
    ensures PutField(fields, name, value) == fields + [Field(name, value)]
  {
    if fields != [] {
      NamesOrder(fields[0].name, name, name);
      NamesOrder(name, fields[0].name, name);
      PutLast(fields[1..], name, value);
      assert fields == [fields[0]] + fields[1..];
    }
  }

  lemma IntoHead(entries: seq<RtEntry>, ids: seq<NovaId>, done: seq<Field>)
    requires entries != []
    ensures var first := IntoValue(entries[0].value, ids);
            && (first.Err? ==> IntoFields(entries, ids, done).Err?)
            && (first.Ok? ==> IntoFields(entries, ids, done) ==
                              IntoFields(entries[1..], first.value.ids, PutField(done, entries[0].name, first.value.value)))
  {
    hide IntoValue, PutField;
  }

  lemma AfterTail(done: seq<Field>, entries: seq<RtEntry>, value: Value)
    requires entries != [] && NamesRise(entries) && After(done, entries)
    ensures NamesRise(entries[1..]) && After(done + [Field(entries[0].name, value)], entries[1..])
    ensures PutField(done, entries[0].name, value) == done + [Field(entries[0].name, value)]
  {
    PutLast(done, entries[0].name, value);
  }

  lemma FieldsPushed(done: seq<Field>, entries: seq<RtEntry>, value: Value, more: seq<Value>)
    requires entries != [] && FromValue(value) == entries[0].value && ReadBack(entries[1..], more)
    ensures ReadBack(entries, [value] + more)
    ensures (done + [Field(entries[0].name, value)]) + FieldsWith(entries[1..], more) == done + FieldsWith(entries, [value] + more)
  {
    var all, rest := FieldsWith(entries, [value] + more), FieldsWith(entries[1..], more);
    forall i | 0 <= i < |entries|
      ensures all[i] == ([Field(entries[0].name, value)] + rest)[i]
      ensures FromValue(([value] + more)[i]) == entries[i].value
    {
      if i > 0 {
        assert rest[i - 1] == Field(entries[1..][i - 1].name, more[i - 1]) && entries[1..][i - 1] == entries[i];
      }
    }
    assert all == [Field(entries[0].name, value)] + rest;
  }

  lemma {:induction false} StoredFields(entries: seq<RtEntry>, ids: seq<NovaId>, done: seq<Field>) returns (stored: seq<Value>)
    requires NamesRise(entries) && (forall i :: 0 <= i < |entries| ==> Rises(entries[i].value)) && After(done, entries)
    ensures var r, n := IntoFields(entries, ids, done), ObjectsOf(entries);
            && (r.Ok? <==> (forall i :: 0 <= i < |entries| ==> Storable(entries[i].value)) && n <= |ids|)
            && (r.Ok? ==> ReadBack(entries, stored) && r.value == Drawn(done + FieldsWith(entries, stored), ids[n..]))
    decreases entries, 0
  {
    stored := [];
    if entries == [] {
      assert done + FieldsWith(entries, stored) == done;
    } else {
      var rest := entries[1..];
      assert entries == [entries[0]] + rest;
      hide IntoValue, IntoFields, Rises, Storable, Objects, NamesRise, After, ReadBack, FieldsWith;
      StoredReadsBack(entries[0].value, ids);
      IntoHead(entries, ids, done);
      var first := IntoValue(entries[0].value, ids);
      if first.Ok? {
        var value := first.value.value;
        AfterTail(done, entries, value);
        var more := StoredFields(rest, first.value.ids, done + [Field(entries[0].name, value)]);
        if IntoFields(entries, ids, done).Ok? {
          stored := [value] + more;
          FieldsPushed(done, entries, value, more);
          assert ids[Objects(entries[0].value)..][ObjectsOf(rest)..] == ids[ObjectsOf(entries)..];
        }
      }
    }
  }

  // ---------- documents whose fields are in order ----------

  ghost predicate InOrder(document: Document) {
    Rises(FromValue(Nested(document)))
  }

  lemma OrderedFields(document: Document)
    ensures InOrder(document) <==> Ascending(document.fields) && forall i :: 0 <= i < |document.fields| ==> Rises(FromValue(document.fields[i].value))
  {
    var fields, entries := document.fields, FromValue(Nested(document)).entries;
    assert |entries| == |fields|;
    assert forall i :: 0 <= i < |fields| ==> entries[i] == RtEntry(fields[i].name, FromValue(fields[i].value));
    if NamesRise(entries) {
      forall i, j | 0 <= i < j < |fields|
        ensures BytesLess(fields[i].name, fields[j].name)
      {
        assert BytesLess(entries[i].name, entries[j].name);
      }
    }
    if InOrder(document) {
      forall i | 0 <= i < |fields|
        ensures Rises(FromValue(fields[i].value))
      {
        assert Rises(entries[i].value);
      }
    }
  }

  lemma {:induction false} FieldRises(fields: seq<Field>, name: Text)
    requires forall i :: 0 <= i < |fields| ==> Rises(FromValue(fields[i].value))
    ensures GetField(fields, name).Some? ==> Rises(FromValue(GetField(fields, name).value))
  {
    if fields != [] && fields[0].name != name {
      FieldRises(fields[1..], name);
    }
  }

  lemma {:induction false} LookupRises(document: Document, parts: seq<Text>)
    requires InOrder(document)
    ensures LookupParts(document, parts).Some? ==> Rises(FromValue(LookupParts(document, parts).value))
    decreases |parts|
  {
    if parts != [] {
      OrderedFields(document);
      FieldRises(document.fields, parts[0]);
      var value := GetField(document.fields, parts[0]);
      if value.Some? && value.value.Nested? {
        LookupRises(value.value.document, parts[1..]);
      }
    }
  }

  predicate Scalar(v: RuntimeValue) {
    !v.RtArray? && !v.RtObject?
  }

  lemma OperatorsGiveScalars(expression: Expr, document: Document, floats: FloatArithmetic)
    requires expression.Lit? || expression.Unary? || expression.Binary?
    ensures Eval(expression, document, floats).Ok? ==> Scalar(Eval(expression, document, floats).value)
  {
    hide RtEqual, IntArithmetic, ScalarOrder, ContainsValue;
    match expression
    case Binary(left, op, right) =>
      var a, b := Eval(left, document, floats), Eval(right, document, floats);
      if a.Ok? && b.Ok? {
        StrictScalar(floats, a.value, op, b.value);
      }
    case _ =>
  }

  lemma StrictScalar(floats: FloatArithmetic, a: RuntimeValue, op: BinaryOp, b: RuntimeValue)
    ensures Strict(floats, a, op, b).Ok? ==> Scalar(Strict(floats, a, op, b).value)
  {
    hide RtEqual, Ordered, Arithmetic, ContainsValue;
    TestsScalar(a, op, b);
    ArithmeticScalar(floats, a, op, b);
  }

  lemma TestsScalar(a: RuntimeValue, op: BinaryOp, b: RuntimeValue)
    ensures Ordered(op, a, b).Ok? ==> Scalar(Ordered(op, a, b).value)
    ensures ContainsValue(a, b).Ok? ==> Scalar(ContainsValue(a, b).value)
  {
    hide RtEqual, ScalarOrder;
  }

  lemma ArithmeticScalar(floats: FloatArithmetic, a: RuntimeValue, op: BinaryOp, b: RuntimeValue)
    ensures Arithmetic(floats, a, op, b).Ok? ==> Scalar(Arithmetic(floats, a, op, b).value)
  {
    hide IsFinite, IsZero;
  }

  /** Whatever an expression gives has its objects in order. */
  lemma {:induction false} EvalRises(expression: Expr, document: Document, floats: FloatArithmetic)
    requires InOrder(document)
    ensures Eval(expression, document, floats).Ok? ==> Rises(Eval(expression, document, floats).value)
    decreases expression
  {
    hide EvalAll, EvalMembers, EvaluateUnary, Strict, InOrder;
    match expression
    case Path(segments) => LookupRises(document, segments);
    case ArrayExpr(items) =>
      ArrayMeans(items, document, floats);
      forall i | 0 <= i < |items|
        ensures Eval(items[i], document, floats).Ok? ==> Rises(Eval(items[i], document, floats).value)
      {
        EvalRises(items[i], document, floats);
      }
    case ObjectExpr(members) =>
      forall i | 0 <= i < |members|
        ensures Eval(members[i].value, document, floats).Ok? ==> Rises(Eval(members[i].value, document, floats).value)
      {
        EvalRises(members[i].value, document, floats);
      }
      ObjectRises(members, document, floats);
    case _ => OperatorsGiveScalars(expression, document, floats);
  }

  lemma ObjectRises(members: seq<Member>, document: Document, floats: FloatArithmetic)
    requires forall i :: 0 <= i < |members| ==>
                           (Eval(members[i].value, document, floats).Ok? ==> Rises(Eval(members[i].value, document, floats).value))
    ensures var r := Eval(ObjectExpr(members), document, floats); r.Ok? ==> Rises(r.value)
  {
    hide Eval;
    ObjectMeans(members, document, floats);
    var r := Eval(ObjectExpr(members), document, floats);
    if r.Ok? {
      forall i | 0 <= i < |r.value.entries|
        ensures Rises(r.value.entries[i].value)
      {
        var e := r.value.entries[i];
        assert e in r.value.entries && MemberEntry(members, e, document, floats);
        var k: nat :| LastMember(members, k) && members[k].name == e.name && Eval(members[k].value, document, floats) == Ok(e.value);
        assert k < |members|;
      }
    }
  }

  // ---------- assignments ----------

  /** A segment before the last leads to something that is not a document. */
  ghost predicate Blocked(document: Document, segments: seq<Text>) {
    exists k :: 1 <= k < |segments| && Leads(document, segments[..k])
  }

  predicate Leads(document: Document, path: seq<Text>) {
    var there := LookupParts(document, path);
    there.Some? && !there.value.Nested?
  }

  /** How many documents the path goes through that are not there yet, up to its first `k` segments. */
  ghost function MissingOn(document: Document, segments: seq<Text>, k: nat): nat
    requires k <= |segments|
  {
    if k <= 1 then 0
    else MissingOn(document, segments, k - 1) + if LookupParts(document, segments[..k - 1]).None? then 1 else 0
  }

  lemma LookupNext(document: Document, segments: seq<Text>, k: nat)
    requires 2 <= k <= |segments|
    ensures var here := GetField(document.fields, segments[0]);
            LookupParts(document, segments[..k]) ==
            if here.Some? && here.value.Nested? then LookupParts(here.value.document, segments[1..][..k - 1]) else None
    ensures LookupParts(document, segments[..1]) == GetField(document.fields, segments[0])
  {
    assert segments[..k][1..] == segments[1..][..k - 1];
  }

  lemma {:induction false} MissingNext(document: Document, inner: Document, segments: seq<Text>, k: nat)
    requires 2 <= k <= |segments|
    requires var here := GetField(document.fields, segments[0]);
             if here.Some? then here.value == Nested(inner) else inner.fields == []
    ensures MissingOn(document, segments, k) ==
            MissingOn(inner, segments[1..], k - 1) + if GetField(document.fields, segments[0]).None? then 1 else 0
    decreases k
  {
    LookupNext(document, segments, k);
    if k > 2 {
      MissingNext(document, inner, segments, k - 1);
      LookupNext(document, segments, k - 1);
      if GetField(document.fields, segments[0]).None? {
        NothingInside(inner, segments[1..][..k - 2]);
      }
    }
  }

  lemma NothingInside(document: Document, path: seq<Text>)
    requires document.fields == []
    ensures LookupParts(document, path) == None
  {
  }

  lemma BlockedNext(document: Document, inner: Document, segments: seq<Text>)
    requires |segments| >= 2
    requires var here := GetField(document.fields, segments[0]);
             if here.Some? then here.value == Nested(inner) else inner.fields == []
    ensures Blocked(document, segments) <==> Blocked(inner, segments[1..])
  {
    LookupNext(document, segments, 2);
    if Blocked(document, segments) {
      var k :| 1 <= k < |segments| && Leads(document, segments[..k]);
      if k >= 2 {
        LookupNext(document, segments, k);
        assert Leads(inner, segments[1..][..k - 1]);
      }
    }
    if Blocked(inner, segments[1..]) {
      var k :| 1 <= k < |segments[1..]| && Leads(inner, segments[1..][..k]);
      LookupNext(document, segments, k + 1);
      if GetField(document.fields, segments[0]).None? {
        NothingInside(inner, segments[1..][..k]);
      }
      assert Leads(document, segments[..k + 1]);
    }
  }

  lemma OneSegment(document: Document, segments: seq<Text>)
    requires |segments| == 1
    ensures !Blocked(document, segments) && MissingOn(document, segments, 1) == 0
  {
  }

  lemma FirstBlocks(document: Document, segments: seq<Text>)
    requires |segments| >= 2 && GetField(document.fields, segments[0]).Some? && !GetField(document.fields, segments[0]).value.Nested?
    ensures Blocked(document, segments)
  {
    LookupNext(document, segments, 2);
    assert Leads(document, segments[..1]);
  }

  /** A path can be set exactly if it is not empty, not blocked, and there are ids for the missing documents. */
  lemma {:induction false} SetOk(document: Document, segments: seq<Text>, value: Value, ids: seq<NovaId>)
    ensures var r := SetSegments(document, segments, value, ids);
            && (segments == [] ==> r == Err(InvalidArgument))
            && (segments != [] ==>
                  && (r.Ok? <==> !Blocked(document, segments) && MissingOn(document, segments, |segments|) <= |ids|)
                  && (r.Ok? ==> r.value.ids == ids[MissingOn(document, segments, |segments|)..]))
    decreases |segments|
  {
    hide Blocked, MissingOn, GetField, PutField, LookupParts;
    if |segments| == 1 {
      OneSegment(document, segments);
    } else if |segments| > 1 {
      var here := GetField(document.fields, segments[0]);
      if here.Some? && !here.value.Nested? {
        FirstBlocks(document, segments);
      } else {
        var inner := if here.Some? then here.value.document else Document(if ids == [] then 0 else ids[0], []);
        MissingNext(document, inner, segments, |segments|);
        BlockedNext(document, inner, segments);
        if here.Some? {
          SetOk(inner, segments[1..], value, ids);
        } else if ids != [] {
          SetOk(inner, segments[1..], value, ids[1..]);
        }
      }
    }
  }

  lemma {:induction false} PutMembers(fields: seq<Field>, name: Text, value: Value, f: Field)
    requires f in PutField(fields, name, value)
    ensures f == Field(name, value) || f in fields
  {
    if fields != [] && fields[0].name != name && !BytesLess(name, fields[0].name) && f != fields[0] {
      PutMembers(fields[1..], name, value, f);
    }
  }

  lemma {:induction false} PutAscending(fields: seq<Field>, name: Text, value: Value)
    requires Ascending(fields)
    ensures Ascending(PutField(fields, name, value))
  {
    var r := PutField(fields, name, value);
    if fields != [] {
      var head, rest := fields[0], fields[1..];
      if head.name == name {
        assert r == [Field(name, value)] + rest;
      } else if BytesLess(name, head.name) {
        forall i | 0 <= i < |fields|
          ensures BytesLess(name, fields[i].name)
        {
          NamesOrder(name, head.name, fields[i].name);
        }
      } else {
        PutAscending(rest, name, value);
        NamesOrder(head.name, name, name);
        var tail := PutField(rest, name, value);
        forall i | 0 <= i < |tail|
          ensures BytesLess(head.name, tail[i].name)
        {
          PutMembers(rest, name, value, tail[i]);
        }
        assert r == [head] + tail;
      }
    }
  }

  lemma PutRises(fields: seq<Field>, name: Text, value: Value)
    requires Ascending(fields) && Rises(FromValue(value)) && forall i :: 0 <= i < |fields| ==> Rises(FromValue(fields[i].value))
    ensures var r := PutField(fields, name, value);
            Ascending(r) && forall i :: 0 <= i < |r| ==> Rises(FromValue(r[i].value))
  {
    hide PutField, Rises;
    PutAscending(fields, name, value);
    var r := PutField(fields, name, value);
    forall i | 0 <= i < |r|
      ensures Rises(FromValue(r[i].value))
    {
      PutMembers(fields, name, value, r[i]);
    }
  }

  lemma {:induction false} SetInOrder(document: Document, segments: seq<Text>, value: Value, ids: seq<NovaId>)
    requires InOrder(document) && Rises(FromValue(value)) && SetSegments(document, segments, value, ids).Ok?
    ensures InOrder(SetSegments(document, segments, value, ids).value.value)
    decreases |segments|
  {
    hide Rises, FromValue, InOrder;
    OrderedFields(document);
    var after := SetSegments(document, segments, value, ids).value.value;
    OrderedFields(after);
    if |segments| == 1 {
      PutRises(document.fields, segments[0], value);
    } else {
      var here := GetField(document.fields, segments[0]);
      FieldRises(document.fields, segments[0]);
      var nested, more := if here.Some? then here.value.document else Document(ids[0], []), if here.Some? then ids else ids[1..];
      NestedInOrder(here, nested);
      SetInOrder(nested, segments[1..], value, more);
      var inner := SetSegments(nested, segments[1..], value, more).value.value;
      NestedInOrder(Some(Nested(inner)), inner);
      PutRises(document.fields, segments[0], Nested(inner));
    }
  }

  lemma NestedInOrder(here: Option<Value>, nested: Document)
    requires if here.Some? then here.value == Nested(nested) else nested.fields == []
    ensures here.Some? ==> (InOrder(nested) <==> Rises(FromValue(here.value)))
    ensures here.None? ==> InOrder(nested)
  {
    OrderedFields(nested);
  }

  /** How many ids an assignment of `v` draws. */
  ghost function Draws(document: Document, path: seq<Text>, v: RuntimeValue): nat {
    Objects(v) + MissingOn(document, path, |path|)
  }

  /**
   * An assignment succeeds exactly if its expression has a value that can be stored, its path is not empty, does not
   * start at the id and is not blocked, and there are ids. Then the path reads as the value of the expression in the
   * document before, and every path off it as before.
   */
  lemma AssignMeans(document: Document, assignment: Assignment, floats: FloatArithmetic, ids: seq<NovaId>, off: seq<Text>)
    requires InOrder(document)
    ensures var v, r, path := Eval(assignment.value, document, floats), Assign(document, assignment, floats, ids), assignment.path;
            && (r.Ok? <==> v.Ok? && Storable(v.value) && path != [] && path[0] != ID_PATH[0] && !Blocked(document, path)
                           && Draws(document, path, v.value) <= |ids|)
            && (r.Ok? ==>
                  && InOrder(r.value.value) && r.value.ids == ids[Draws(document, path, v.value)..]
                  && Eval(Path(path), r.value.value, floats) == v
                  && (Apart(path, off) ==> LookupParts(r.value.value, off) == LookupParts(document, off)))
  {
    hide InOrder, Rises, Storable, Objects, IntoValue, SetSegments, Blocked, MissingOn;
    var v, path := Eval(assignment.value, document, floats), assignment.path;
    if v.Ok? {
      EvalRises(assignment.value, document, floats);
      StoredReadsBack(v.value, ids);
      var stored := IntoValue(v.value, ids);
      if stored.Ok? {
        SetOk(document, path, stored.value.value, stored.value.ids);
        if SetSegments(document, path, stored.value.value, stored.value.ids).Ok? {
          SetReads(document, path, stored.value.value, stored.value.ids, off);
          SetInOrder(document, path, stored.value.value, stored.value.ids);
        }
      }
    }
  }

  /** Later assignments see what earlier ones have set. */
  lemma {:induction false} AssignLast(document: Document, assignments: seq<Assignment>, last: Assignment, floats: FloatArithmetic, ids: seq<NovaId>)
    ensures var all, before := AssignAll(document, assignments + [last], floats, ids), AssignAll(document, assignments, floats, ids);
            && (before.Err? ==> all.Err?)
            && (before.Ok? ==> all == Assign(before.value.value, last, floats, before.value.ids))
    decreases |assignments|
  {
    hide Assign;
    var all := assignments + [last];
    if assignments == [] {
      assert all[0] == last && all[1..] == [];
    } else {
      assert all[0] == assignments[0] && all[1..] == assignments[1..] + [last];
      var first := Assign(document, assignments[0], floats, ids);
      if first.Ok? {
        AssignLast(first.value.value, assignments[1..], last, floats, first.value.ids);
      }
    }
  }
}
