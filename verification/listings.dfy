/** Listings in a strict order: the members determine the sequence. */
module Listings {
  ghost predicate Asymmetric<T(!new)>(before: (T, T) -> bool) {
    forall x, y :: before(x, y) ==> !before(y, x)
  }

  ghost predicate Listing<T>(before: (T, T) -> bool, a: seq<T>) {
    forall i, j :: 0 <= i < j < |a| ==> before(a[i], a[j])
  }

  lemma {:induction false} OneListing<T(!new)>(before: (T, T) -> bool, a: seq<T>, b: seq<T>)
    requires Asymmetric(before) && Listing(before, a) && Listing(before, b)
    requires forall x :: x in a <==> x in b
    ensures a == b
  {
    assert (a != [] ==> a[0] in a) && (b != [] ==> b[0] in b);
    if a != [] && b != [] {
      FirstBefore(before, a, b[0]);
      FirstBefore(before, b, a[0]);
      forall x
        ensures x in a[1..] <==> x in b[1..]
      {
        RestMembers(before, a, x);
        RestMembers(before, b, x);
      }
      OneListing(before, a[1..], b[1..]);
      assert a == [a[0]] + a[1..] && b == [b[0]] + b[1..];
    }
  }

  lemma FirstBefore<T>(before: (T, T) -> bool, a: seq<T>, x: T)
    requires Listing(before, a) && x in a
    ensures x == a[0] || before(a[0], x)
  {
  }

  lemma RestMembers<T(!new)>(before: (T, T) -> bool, a: seq<T>, x: T)
    requires Asymmetric(before) && Listing(before, a) && a != []
    ensures x in a[1..] <==> x in a && x != a[0]
  {
    assert a == [a[0]] + a[1..];
    forall i | 0 <= i < |a[1..]|
      ensures a[1..][i] != a[0]
    {
      assert before(a[0], a[i + 1]);
    }
  }
}
