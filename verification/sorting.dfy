/** The sort stage: which columns can be sorted, and the one order that a stable sort gives. */
module Sorting {
  import opened Base
  import opened IndexKeys
  import opened Documents
  import opened Ast
  import opened Evaluate
  import opened Listings

  function CompareForSort(left: RuntimeValue, right: RuntimeValue): Result<Ordering> {
    match (left, right)
    case (Missing, Missing) => Ok(Eq)
    case (RtNull, RtNull) => Ok(Eq)
    case (Missing, _) => Ok(Lt)
    case (_, Missing) => Ok(Gt)
    case (RtNull, _) => Ok(Lt)
    case (_, RtNull) => Ok(Gt)
    case (RtBool(x), RtBool(y)) => Ok(Compare(!x && y, x == y))
    case _ =>
      var order := ScalarOrder(left, right);
      if order.Some? then Ok(order.value) else Err(InvalidArgument)
  }

  predicate Comparable(left: RuntimeValue, right: RuntimeValue) {
    CompareForSort(left, right).Ok?
  }

  predicate Absent(v: RuntimeValue) {
    v.Missing? || v.RtNull?
  }

  ghost predicate AllComparable(values: seq<RuntimeValue>) {
    forall i, j :: 0 <= i < |values| && 0 <= j < |values| ==> Comparable(values[i], values[j])
  }

  lemma SameKind(reference: RuntimeValue, a: RuntimeValue, b: RuntimeValue)
    requires !Absent(reference) && Comparable(reference, a) && Comparable(reference, b) && Comparable(a, a) && Comparable(b, b)
    ensures Comparable(a, b)
  {
  }

  /** Comparing each value with itself and with one reference is enough: then any two values compare. */
  method ValidateSortValues(values: seq<RuntimeValue>) returns (r: Result<()>)
    ensures r.Ok? <==> AllComparable(values)
    ensures r.Err? ==> r.error == InvalidArgument
  {
    hide CompareForSort;
    var i := 0;
    while i < |values|
      invariant i <= |values| && forall j :: 0 <= j < i ==> Comparable(values[j], values[j])
    {
      if !Comparable(values[i], values[i]) {
        return Err(InvalidArgument);
      }
      i := i + 1;
    }
    var k := 0;
    while k < |values| && Absent(values[k])
      invariant k <= |values| && forall j :: 0 <= j < k ==> Absent(values[j])
    {
      k := k + 1;
    }
    if k < |values| {
      i := 0;
      while i < |values|
        invariant i <= |values| && forall j :: 0 <= j < i ==> Absent(values[j]) || Comparable(values[k], values[j])
      {
        if !Absent(values[i]) && !Comparable(values[k], values[i]) {
          return Err(InvalidArgument);
        }
        i := i + 1;
      }
    }
    forall a, b | 0 <= a < |values| && 0 <= b < |values|
      ensures Comparable(values[a], values[b])
    {
      if Absent(values[a]) || Absent(values[b]) {
        AbsentCompares(values[a], values[b]);
      } else {
        SameKind(values[k], values[a], values[b]);
      }
    }
    return Ok(());
  }

  lemma AbsentCompares(a: RuntimeValue, b: RuntimeValue)
    requires Absent(a) || Absent(b)
    ensures Comparable(a, b)
  {
  }

  // ---------- rows ----------

  type Row = seq<RuntimeValue>

  function Reverse(o: Ordering): Ordering {
    match o
    case Lt => Gt
    case Eq => Eq
    case Gt => Lt
  }

  /** One key of the comparison; values that do not compare count as equal. */
  function CompareKey(key: SortKey, a: RuntimeValue, b: RuntimeValue): Ordering {
    var order := if Comparable(a, b) then CompareForSort(a, b).value else Eq;
    if key.descending then Reverse(order) else order
  }

  /** Key after key, until one decides. */
  function CompareRows(keys: seq<SortKey>, a: Row, b: Row): Ordering
    requires |a| == |b| == |keys|
  {
    if keys == [] then Eq
    else
      var order := CompareKey(keys[0], a[0], b[0]);
      if order != Eq then order else CompareRows(keys[1..], a[1..], b[1..])
  }

  /** The rows can be compared column by column. */
  predicate Sortable(rows: seq<Row>, width: nat) {
    && (forall i :: 0 <= i < |rows| ==> |rows[i]| == width)
    && forall c, i, j :: 0 <= c < width && 0 <= i < |rows| && 0 <= j < |rows| ==> Comparable(rows[i][c], rows[j][c])
  }

  /** Where a sortable value stands among the values of its column. */
  ghost function SortRank(v: RuntimeValue): real {
    match v
    case Missing => -0x4_0000_0000_0000_0000 as real
    case RtNull => -0x2_0000_0000_0000_0000 as real
    case RtBool(x) => if x then 1.0 else 0.0
    case RtInt(x) => x as real
    case RtFloat(x) => TotalOrder(x) as real
    case RtStr(x) => Fraction(x)
    case RtTimestamp(x) => x as real
    case RtId(x) => x as real
    case _ => 0.0
  }

  lemma RankCompares(a: RuntimeValue, b: RuntimeValue)
    requires Comparable(a, a) && Comparable(b, b) && Comparable(a, b)
    ensures CompareForSort(a, b).value == Compare(SortRank(a) < SortRank(b), SortRank(a) == SortRank(b))
  {
    if a.RtStr? && b.RtStr? {
      FractionEmbeds(a.text, b.text);
    }
  }

  ghost predicate RowsCompare(a: Row, b: Row) {
    |a| == |b| && forall c :: 0 <= c < |a| ==> Comparable(a[c], b[c]) && Comparable(b[c], a[c]) && Comparable(a[c], a[c]) && Comparable(b[c], b[c])
  }

  lemma RowsCompareTail(a: Row, b: Row)
    requires RowsCompare(a, b) && a != []
    ensures RowsCompare(a[1..], b[1..])
  {
  }

  lemma {:induction false} CompareFlip(keys: seq<SortKey>, a: Row, b: Row)
    requires |a| == |b| == |keys| && RowsCompare(a, b)
    ensures CompareRows(keys, b, a) == Reverse(CompareRows(keys, a, b))
  {
    if keys != [] {
      RankCompares(a[0], b[0]);
      RankCompares(b[0], a[0]);
      RowsCompareTail(a, b);
      CompareFlip(keys[1..], a[1..], b[1..]);
    }
  }

  /** The comparison is transitive, and equal only through equal. */
  lemma {:induction false} CompareTransitive(keys: seq<SortKey>, a: Row, b: Row, c: Row)
    requires |a| == |b| == |c| == |keys| && RowsCompare(a, b) && RowsCompare(b, c) && RowsCompare(a, c)
    requires CompareRows(keys, a, b) != Gt && CompareRows(keys, b, c) != Gt
    ensures CompareRows(keys, a, c) == if CompareRows(keys, a, b) == Eq then CompareRows(keys, b, c) else Lt
  {
    if keys != [] {
      RankCompares(a[0], b[0]);
      RankCompares(b[0], c[0]);
      RankCompares(a[0], c[0]);
      RowsCompareTail(a, b);
      RowsCompareTail(b, c);
      RowsCompareTail(a, c);
      if CompareKey(keys[0], a[0], b[0]) == Eq && CompareKey(keys[0], b[0], c[0]) == Eq {
        CompareTransitive(keys[1..], a[1..], b[1..], c[1..]);
      }
    }
  }

  // ---------- the order ----------

  function CompareAt(keys: seq<SortKey>, rows: seq<Row>, i: nat, j: nat): Ordering
    requires Sortable(rows, |keys|) && i < |rows| && j < |rows|
  {
    RowsAt(keys, rows, i, j);
    CompareRows(keys, rows[i], rows[j])
  }

  lemma RowsAt(keys: seq<SortKey>, rows: seq<Row>, i: nat, j: nat)
    requires Sortable(rows, |keys|) && i < |rows| && j < |rows|
    ensures |rows[i]| == |rows[j]| == |keys| && RowsCompare(rows[i], rows[j])
  {
  }

  /** Row `i` comes before row `j`: it is smaller, or equal and earlier. */
  ghost predicate Before(keys: seq<SortKey>, rows: seq<Row>, i: nat, j: nat)
    requires Sortable(rows, |keys|)
  {
    i < |rows| && j < |rows| && (CompareAt(keys, rows, i, j) == Lt || (CompareAt(keys, rows, i, j) == Eq && i < j))
  }

  /** `Before` is a strict total order. */
  lemma BeforeTotal(keys: seq<SortKey>, rows: seq<Row>, i: nat, j: nat)
    requires Sortable(rows, |keys|) && i < |rows| && j < |rows|
    ensures Before(keys, rows, i, j) <==> i != j && !Before(keys, rows, j, i)
  {
    RowsAt(keys, rows, i, j);
    CompareFlip(keys, rows[i], rows[j]);
  }

  lemma BeforeTransitive(keys: seq<SortKey>, rows: seq<Row>, i: nat, j: nat, k: nat)
    requires Sortable(rows, |keys|) && Before(keys, rows, i, j) && Before(keys, rows, j, k)
    ensures Before(keys, rows, i, k)
  {
    RowsAt(keys, rows, i, j);
    RowsAt(keys, rows, j, k);
    RowsAt(keys, rows, i, k);
    CompareTransitive(keys, rows[i], rows[j], rows[k]);
  }

  ghost predicate Ascends(keys: seq<SortKey>, rows: seq<Row>, order: seq<nat>)
    requires Sortable(rows, |keys|)
  {
    forall p, q :: 0 <= p < q < |order| ==> Before(keys, rows, order[p], order[q])
  }

  /** The indices of the first `n` rows, each once, in order. */
  ghost predicate StableOrder(keys: seq<SortKey>, rows: seq<Row>, order: seq<nat>, n: nat)
    requires Sortable(rows, |keys|)
  {
    (forall k: nat :: k in order <==> k < n) && Ascends(keys, rows, order)
  }

  /** A stable sort can only give one order. */
  lemma OneOrder(keys: seq<SortKey>, rows: seq<Row>, a: seq<nat>, b: seq<nat>)
    requires Sortable(rows, |keys|) && Ascends(keys, rows, a) && Ascends(keys, rows, b)
    requires forall k :: (k in a <==> k in b) && (k in a ==> k < |rows|)
    ensures a == b
  {
    hide Before, Sortable;
    var before := (i: nat, j: nat) => Sortable(rows, |keys|) && Before(keys, rows, i, j);
    forall i: nat, j: nat | before(i, j)
      ensures !before(j, i)
    {
      BeforeAsymmetric(keys, rows, i, j);
    }
    OneListing(before, a, b);
  }

  lemma BeforeAsymmetric(keys: seq<SortKey>, rows: seq<Row>, i: nat, j: nat)
    requires Sortable(rows, |keys|) && Before(keys, rows, i, j)
    ensures !Before(keys, rows, j, i)
  {
    BeforeTotal(keys, rows, i, j);
  }

  /** How far down from `at` row `n` goes: behind the rows that are not greater. */
  function Place(keys: seq<SortKey>, rows: seq<Row>, order: seq<nat>, n: nat, at: nat): (p: nat)
    requires Sortable(rows, |keys|) && n < |rows| && at <= |order| && forall k :: 0 <= k < |order| ==> order[k] < n
    ensures p <= at
  {
    if at > 0 && CompareAt(keys, rows, n, order[at - 1]) == Lt then Place(keys, rows, order, n, at - 1) else at
  }

  /** A stable sort of the first `n` rows, by insertion. */
  function SortedOrder(keys: seq<SortKey>, rows: seq<Row>, n: nat): (order: seq<nat>)
    requires Sortable(rows, |keys|) && n <= |rows|
    ensures |order| == n && forall k :: 0 <= k < n ==> order[k] < n
  {
    if n == 0 then []
    else
      var order := SortedOrder(keys, rows, n - 1);
      var at := Place(keys, rows, order, n - 1, |order|);
      order[..at] + [n - 1] + order[at..]
  }

  method SortOrder(keys: seq<SortKey>, rows: seq<Row>) returns (order: seq<nat>)
    requires Sortable(rows, |keys|)
    ensures order == SortedOrder(keys, rows, |rows|)
  {
    hide Sortable, Place;
    order := [];
    var n := 0;
    while n < |rows|
      invariant n <= |rows| && order == SortedOrder(keys, rows, n)
    {
      var at := FindPlace(keys, rows, order, n);
      order := order[..at] + [n] + order[at..];
      n := n + 1;
    }
  }

  method FindPlace(keys: seq<SortKey>, rows: seq<Row>, order: seq<nat>, n: nat) returns (at: nat)
    requires Sortable(rows, |keys|) && n < |rows| && forall k :: 0 <= k < |order| ==> order[k] < n
    ensures at == Place(keys, rows, order, n, |order|)
  {
    hide Sortable, CompareAt;
    at := |order|;
    while at > 0 && CompareAt(keys, rows, n, order[at - 1]) == Lt
      invariant at <= |order| && Place(keys, rows, order, n, |order|) == Place(keys, rows, order, n, at)
    {
      at := at - 1;
    }
  }

  lemma {:induction false} PlaceOk(keys: seq<SortKey>, rows: seq<Row>, order: seq<nat>, n: nat, at: nat)
    requires Sortable(rows, |keys|) && n < |rows| && at <= |order| && forall k :: 0 <= k < |order| ==> order[k] < n
    ensures var p := Place(keys, rows, order, n, at);
            && (p > 0 ==> Before(keys, rows, order[p - 1], n))
            && forall q :: p <= q < at ==> Before(keys, rows, n, order[q])
    decreases at
  {
    hide Before, Sortable;
    if at > 0 {
      NotAfter(keys, rows, order[at - 1], n);
      if CompareAt(keys, rows, n, order[at - 1]) == Lt {
        PlaceOk(keys, rows, order, n, at - 1);
      }
    }
  }

  lemma {:induction false} SortedStable(keys: seq<SortKey>, rows: seq<Row>, n: nat)
    requires Sortable(rows, |keys|) && n <= |rows|
    ensures StableOrder(keys, rows, SortedOrder(keys, rows, n), n)
    decreases n
  {
    hide Before, Sortable, Ascends;
    if n == 0 {
      NoOrder(keys, rows);
    } else {
      var order := SortedOrder(keys, rows, n - 1);
      SortedStable(keys, rows, n - 1);
      PlaceOk(keys, rows, order, n - 1, |order|);
      Placed(keys, rows, order, n - 1, Place(keys, rows, order, n - 1, |order|));
    }
  }

  lemma NoOrder(keys: seq<SortKey>, rows: seq<Row>)
    requires Sortable(rows, |keys|)
    ensures StableOrder(keys, rows, [], 0)
  {
  }

  lemma NotAfter(keys: seq<SortKey>, rows: seq<Row>, earlier: nat, n: nat)
    requires Sortable(rows, |keys|) && earlier < n < |rows|
    ensures CompareAt(keys, rows, n, earlier) == Lt <==> Before(keys, rows, n, earlier)
    ensures CompareAt(keys, rows, n, earlier) != Lt <==> Before(keys, rows, earlier, n)
  {
    BeforeTotal(keys, rows, earlier, n);
  }

  lemma Placed(keys: seq<SortKey>, rows: seq<Row>, order: seq<nat>, n: nat, at: nat)
    requires Sortable(rows, |keys|) && n < |rows| && StableOrder(keys, rows, order, n) && at <= |order|
    requires at > 0 ==> Before(keys, rows, order[at - 1], n)
    requires forall p: nat :: at <= p < |order| ==> Before(keys, rows, n, order[p])
    ensures StableOrder(keys, rows, order[..at] + [n] + order[at..], n + 1)
  {
    hide Sortable, Before;
    var after := order[..at] + [n] + order[at..];
    forall p | 0 <= p < at
      ensures Before(keys, rows, order[p], n)
    {
      if p < at - 1 {
        BeforeTransitive(keys, rows, order[p], order[at - 1], n);
      }
    }
    forall k: nat
      ensures k in after <==> k < n + 1
    {
      assert order == order[..at] + order[at..];
      assert k in order <==> k in order[..at] || k in order[at..];
      assert k in after <==> k in order[..at] || k == n || k in order[at..];
    }
    forall p, q | 0 <= p < q < |after|
      ensures Before(keys, rows, after[p], after[q])
    {
      if p < at {
        assert after[p] == order[p];
        assert q < at ==> after[q] == order[q];
      } else if p > at {
        assert after[p] == order[p - 1];
      }
      if q > at {
        assert after[q] == order[q - 1];
        assert p < at ==> Before(keys, rows, order[p], order[q - 1]);
      }
    }
  }

  function Decorate(documents: seq<Document>, keys: seq<SortKey>): (rows: seq<Row>)
    ensures |rows| == |documents| && forall i :: 0 <= i < |rows| ==> |rows[i]| == |keys|
  {
    seq(|documents|, i requires 0 <= i < |documents| =>
      seq(|keys|, c requires 0 <= c < |keys| => ReadPath(documents[i], keys[c].path)))
  }

  /** Validates column after column. */
  method ValidateColumns(rows: seq<Row>, width: nat) returns (r: Result<()>)
    requires forall i :: 0 <= i < |rows| ==> |rows[i]| == width
    ensures r.Ok? <==> Sortable(rows, width)
    ensures r.Err? ==> r.error == InvalidArgument
  {
    hide CompareForSort, Comparable, AllComparable;
    var c := 0;
    while c < width
      invariant c <= width
      invariant forall d :: 0 <= d < c ==> AllComparable(Column(rows, d))
    {
      var valid := ValidateSortValues(Column(rows, c));
      if valid.Err? {
        ColumnsSortable(rows, width);
        return valid;
      }
      c := c + 1;
    }
    ColumnsSortable(rows, width);
    return Ok(());
  }

  function Column(rows: seq<Row>, c: nat): (column: seq<RuntimeValue>)
    requires forall i :: 0 <= i < |rows| ==> c < |rows[i]|
    ensures |column| == |rows| && forall i :: 0 <= i < |rows| ==> column[i] == rows[i][c]
  {
    seq(|rows|, i requires 0 <= i < |rows| => rows[i][c])
  }

  lemma ColumnsSortable(rows: seq<Row>, width: nat)
    requires forall i :: 0 <= i < |rows| ==> |rows[i]| == width
    ensures Sortable(rows, width) <==> forall c :: 0 <= c < width ==> AllComparable(Column(rows, c))
  {
    hide Comparable;
    if Sortable(rows, width) {
      forall c | 0 <= c < width
        ensures AllComparable(Column(rows, c))
      {
      }
    }
    if forall c :: 0 <= c < width ==> AllComparable(Column(rows, c)) {
      forall c, i, j | 0 <= c < width && 0 <= i < |rows| && 0 <= j < |rows|
        ensures Comparable(rows[i][c], rows[j][c])
      {
        assert AllComparable(Column(rows, c));
        assert Comparable(Column(rows, c)[i], Column(rows, c)[j]);
      }
    }
  }

  function SortedDocuments(documents: seq<Document>, keys: seq<SortKey>): Result<seq<Document>> {
    var rows := Decorate(documents, keys);
    if Sortable(rows, |keys|) then
      var order := SortedOrder(keys, rows, |rows|);
      Ok(seq(|order|, i requires 0 <= i < |order| => documents[order[i]]))
    else Err(InvalidArgument)
  }

  /**
   * `sort_documents`: fails exactly when some column holds two values that do not compare, and otherwise gives the
   * documents in the stable order by the keys.
   */
  method SortDocuments(documents: seq<Document>, keys: seq<SortKey>) returns (r: Result<seq<Document>>, ghost order: seq<nat>)
    ensures r == SortedDocuments(documents, keys)
    ensures r.Ok? <==> Sortable(Decorate(documents, keys), |keys|)
    ensures r.Ok? ==> StableOrder(keys, Decorate(documents, keys), order, |documents|)
    ensures r.Ok? ==> |r.value| == |order| == |documents|
    ensures r.Ok? ==> forall i :: 0 <= i < |order| ==> order[i] < |documents| && r.value[i] == documents[order[i]]
  {
    hide Sortable, StableOrder;
    var rows := Decorate(documents, keys);
    order := [];
    var valid := ValidateColumns(rows, |keys|);
    if valid.Err? {
      return Err(valid.error), order;
    }
    var sorted := SortOrder(keys, rows);
    order := sorted;
    SortedStable(keys, rows, |rows|);
    return Ok(seq(|sorted|, i requires 0 <= i < |sorted| => documents[sorted[i]])), order;
  }
}
