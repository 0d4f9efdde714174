/** Fixed-width big-endian numbers and slices of byte strings. */
module Bytes {
  import opened Base

  /** 256 to the power `w`. */
  function Span(w: nat): (s: nat)
    ensures s >= 1
  {
    if w == 0 then 1 else 256 * Span(w - 1)
  }

  /** The last `w` base-256 digits of `x`, most significant first. */
  function Be(x: nat, w: nat): (s: seq<byte>)
    ensures |s| == w
  {
    if w == 0 then [] else Be(x / 256, w - 1) + [x % 256]
  }

  function FromBe(s: seq<byte>): nat {
    if s == [] then 0 else 256 * FromBe(s[..|s| - 1]) + s[|s| - 1]
  }

  lemma {:induction false} BeRoundTrip(x: nat, w: nat)
    requires x < Span(w)
    ensures FromBe(Be(x, w)) == x
  {
    if w > 0 {
      BeRoundTrip(x / 256, w - 1);
      assert Be(x, w)[..w - 1] == Be(x / 256, w - 1);
    }
  }

  lemma {:induction false} FromBeBound(s: seq<byte>)
    ensures FromBe(s) < Span(|s|)
    ensures Be(FromBe(s), |s|) == s
  {
    if s != [] {
      FromBeBound(s[..|s| - 1]);
      assert s == s[..|s| - 1] + [s[|s| - 1]];
    }
  }

  lemma Spans()
    ensures Span(2) == 0x1_0000 && Span(4) == 0x1_0000_0000 && Span(8) == 0x1_0000_0000_0000_0000
    ensures Span(16) == 0x1_0000_0000_0000_0000_0000_0000_0000_0000
  {
    assert Span(3) == 256 * Span(2);
    assert Span(6) == 256 * Span(5) && Span(7) == 256 * Span(6);
    assert Span(9) == 256 * Span(8) && Span(10) == 256 * Span(9) && Span(11) == 256 * Span(10);
    assert Span(12) == 256 * Span(11) && Span(13) == 256 * Span(12) && Span(14) == 256 * Span(13) && Span(15) == 256 * Span(14);
  }

  /** The number in `w` bytes at `at`. */
  function Number(bytes: seq<byte>, at: nat, w: nat): (n: nat)
    requires at + w <= |bytes|
    ensures n < Span(w)
  {
    FromBeBound(bytes[at..at + w]);
    FromBe(bytes[at..at + w])
  }

  function Zeros(n: nat): (s: seq<byte>)
    ensures |s| == n && forall i :: 0 <= i < n ==> s[i] == 0
  {
    seq(n, i => 0)
  }

  /** `part` stands at `at` in `bytes`. */
  predicate At(bytes: seq<byte>, at: nat, part: seq<byte>) {
    at + |part| <= |bytes| && bytes[at..at + |part|] == part
  }

  lemma NumberAt(bytes: seq<byte>, at: nat, w: nat, x: nat)
    requires x < Span(w) && At(bytes, at, Be(x, w))
    ensures Number(bytes, at, w) == x
  {
    BeRoundTrip(x, w);
  }

  lemma AtPart(a: seq<byte>, part: seq<byte>, b: seq<byte>)
    ensures At(a + part + b, |a|, part)
  {
  }

  lemma AtPrefix(a: seq<byte>, b: seq<byte>, at: nat, part: seq<byte>)
    requires At(a, at, part)
    ensures At(a + b, at, part)
  {
  }

  lemma AtSuffix(a: seq<byte>, b: seq<byte>, at: nat, part: seq<byte>)
    requires At(b, at, part)
    ensures At(a + b, |a| + at, part)
  {
    assert (a + b)[|a|..|a| + |b|] == b;
    AtInner(a + b, |a|, b, at, part);
  }

  lemma AtInner(s: seq<byte>, at: nat, whole: seq<byte>, k: nat, part: seq<byte>)
    requires At(s, at, whole) && At(whole, k, part)
    ensures At(s, at + k, part)
  {
    forall i | 0 <= i < |part|
      ensures s[at + k + i] == part[i]
    {
      assert part[i] == whole[k..k + |part|][i] == whole[k + i] == s[at..at + |whole|][k + i];
    }
  }

  lemma NumberIn(s: seq<byte>, at: nat, whole: seq<byte>, k: nat, w: nat, x: nat)
    requires x < Span(w) && At(s, at, whole) && At(whole, k, Be(x, w))
    ensures Number(s, at + k, w) == x
  {
    AtInner(s, at, whole, k, Be(x, w));
    NumberAt(s, at + k, w, x);
  }

  /** Where the parts of a concatenation stand. */
  lemma Pieces(b: seq<byte>, c: seq<byte>, d: seq<byte>, e: seq<byte>, f: seq<byte>)
    ensures var s := b + c + d + e + f;
            At(s, 0, b) && At(s, |b|, c) && At(s, |b| + |c|, d) && At(s, |b| + |c| + |d|, e) && At(s, |b| + |c| + |d| + |e|, f)
  {
    var s := b + c + d + e + f;
    assert s == [] + b + (c + d + e + f) && s == b + c + (d + e + f) && s == (b + c) + d + (e + f) && s == (b + c + d + e) + f + [];
  }
}
