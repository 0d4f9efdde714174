/** The order of a sort stage, told by the values under its keys. */
module SortLaws {
  import opened Base
  import opened Documents
  import opened Ast
  import opened Evaluate
  import opened EvaluateLaws
  import opened Sorting

  /** Values that a sort can compare: one of them is absent, or both are booleans, or both have an order. */
  predicate SortsWith(a: RuntimeValue, b: RuntimeValue) {
    Absent(a) || Absent(b) || (a.RtBool? && b.RtBool?) || Orderable(a, b)
  }

  /** What is missing comes first, then null; false comes before true; and then the order of the values. */
  ghost predicate SortsBelow(a: RuntimeValue, b: RuntimeValue) {
    || (a.Missing? && !b.Missing?)
    || (a.RtNull? && !Absent(b))
    || (a == RtBool(false) && b == RtBool(true))
    || (Orderable(a, b) && Below(a, b))
  }

  lemma CompareMeans(a: RuntimeValue, b: RuntimeValue)
    ensures Comparable(a, b) <==> SortsWith(a, b)
    ensures CompareForSort(a, b) == Ok(Lt) <==> SortsBelow(a, b)
    ensures CompareForSort(a, b) == Ok(Gt) <==> SortsBelow(b, a)
  {
    hide ScalarOrder, Orderable, Below;
    OrderIsBelow(a, b);
    OrderIsBelow(b, a);
    OrderableBoth(a, b);
  }

  lemma OrderableBoth(a: RuntimeValue, b: RuntimeValue)
    ensures Orderable(a, b) == Orderable(b, a)
    ensures Orderable(a, b) ==> !Absent(a) && !Absent(b) && !a.RtBool? && !b.RtBool?
  {
  }

  ghost predicate Level(a: RuntimeValue, b: RuntimeValue) {
    !SortsBelow(a, b) && !SortsBelow(b, a)
  }

  /** Up to key `c` the rows are level, and there the first one comes first: smaller if the key ascends, larger if it descends. */
  ghost predicate DecidedAt(keys: seq<SortKey>, a: Row, b: Row, c: nat)
    requires |a| == |b| == |keys|
  {
    c < |keys| && (forall d :: 0 <= d < c ==> Level(a[d], b[d]))
    && if keys[c].descending then SortsBelow(b[c], a[c]) else SortsBelow(a[c], b[c])
  }

  ghost predicate AllLevel(a: Row, b: Row)
    requires |a| == |b|
  {
    forall d :: 0 <= d < |a| ==> Level(a[d], b[d])
  }

  ghost predicate Decided(keys: seq<SortKey>, a: Row, b: Row)
    requires |a| == |b| == |keys|
  {
    exists c: nat :: DecidedAt(keys, a, b, c)
  }

  lemma DecidedStep(keys: seq<SortKey>, a: Row, b: Row)
    requires |a| == |b| == |keys| > 0
    ensures Decided(keys, a, b) <==> DecidedAt(keys, a, b, 0) || (Level(a[0], b[0]) && Decided(keys[1..], a[1..], b[1..]))
    ensures AllLevel(a, b) <==> Level(a[0], b[0]) && AllLevel(a[1..], b[1..])
  {
    hide SortsBelow;
    if Decided(keys, a, b) {
      var c: nat :| DecidedAt(keys, a, b, c);
      if c > 0 {
        assert Level(a[0], b[0]);
        assert DecidedAt(keys[1..], a[1..], b[1..], c - 1);
      }
    }
    if Level(a[0], b[0]) && Decided(keys[1..], a[1..], b[1..]) {
      var c: nat :| DecidedAt(keys[1..], a[1..], b[1..], c);
      forall d | 0 <= d < c + 1
        ensures Level(a[d], b[d])
      {
        if d > 0 {
          assert Level(a[1..][d - 1], b[1..][d - 1]);
        }
      }
      assert DecidedAt(keys, a, b, c + 1);
    }
    if AllLevel(a[1..], b[1..]) {
      forall d | 0 < d < |a|
        ensures Level(a[d], b[d])
      {
        assert Level(a[1..][d - 1], b[1..][d - 1]);
      }
    }
  }

  lemma {:induction false} RowsMean(keys: seq<SortKey>, a: Row, b: Row)
    requires |a| == |b| == |keys| && forall c :: 0 <= c < |a| ==> Comparable(a[c], b[c])
    ensures CompareRows(keys, a, b) == Lt <==> Decided(keys, a, b)
    ensures CompareRows(keys, a, b) == Eq <==> AllLevel(a, b)
    decreases |keys|
  {
    hide CompareForSort, SortsBelow;
    if keys != [] {
      CompareMeans(a[0], b[0]);
      assert Comparable(a[0], b[0]);
      DecidedStep(keys, a, b);
      RowsMean(keys[1..], a[1..], b[1..]);
    }
  }

  /** The earlier of two results is decided to come first, or the keys do not tell them apart and it came first before. */
  ghost predicate InPlace(keys: seq<SortKey>, rows: seq<Row>, i: nat, j: nat)
    requires i < |rows| && j < |rows| && forall k :: 0 <= k < |rows| ==> |rows[k]| == |keys|
  {
    Decided(keys, rows[i], rows[j]) || (AllLevel(rows[i], rows[j]) && i < j)
  }

  ghost predicate AllSort(rows: seq<Row>, width: nat)
    requires forall k :: 0 <= k < |rows| ==> |rows[k]| == width
  {
    forall c, i, j :: 0 <= c < width && 0 <= i < |rows| && 0 <= j < |rows| ==> SortsWith(rows[i][c], rows[j][c])
  }

  /**
   * A sort fails exactly if two values under one key cannot be compared. Otherwise it lists every document once, and of
   * any two the first comes first at the first key that tells them apart, or came first before.
   */
  lemma SortedByKeys(documents: seq<Document>, keys: seq<SortKey>) returns (order: seq<nat>)
    ensures var r, rows := SortedDocuments(documents, keys), Decorate(documents, keys);
            && (r.Ok? <==> AllSort(rows, |keys|)) && (r.Err? ==> r.error == InvalidArgument)
            && (r.Ok? ==>
                  && |r.value| == |order| == |documents| && (forall k: nat :: k in order <==> k < |documents|)
                  && (forall p :: 0 <= p < |order| ==> order[p] < |rows| && r.value[p] == documents[order[p]])
                  && forall p, q :: 0 <= p < q < |order| ==> order[p] != order[q] && InPlace(keys, rows, order[p], order[q]))
  {
    hide CompareForSort, SortsWith, SortsBelow, CompareRows, Decided, AllLevel;
    var rows := Decorate(documents, keys);
    order := [];
    SortableMeans(rows, |keys|);
    if Sortable(rows, |keys|) {
      order := SortedOrder(keys, rows, |rows|);
      SortedStable(keys, rows, |rows|);
      forall p, q | 0 <= p < q < |order|
        ensures order[p] != order[q] && InPlace(keys, rows, order[p], order[q])
      {
        BeforeTotal(keys, rows, order[p], order[q]);
        RowsAt(keys, rows, order[p], order[q]);
        RowsMean(keys, rows[order[p]], rows[order[q]]);
        assert Before(keys, rows, order[p], order[q]);
      }
    }
  }

  lemma SortableMeans(rows: seq<Row>, width: nat)
    requires forall k :: 0 <= k < |rows| ==> |rows[k]| == width
    ensures Sortable(rows, width) <==> AllSort(rows, width)
  {
    hide Comparable, SortsWith;
    forall c, i, j | 0 <= c < width && 0 <= i < |rows| && 0 <= j < |rows|
      ensures Comparable(rows[i][c], rows[j][c]) <==> SortsWith(rows[i][c], rows[j][c])
    {
      CompareMeans(rows[i][c], rows[j][c]);
    }
  }
}
