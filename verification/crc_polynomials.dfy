/** The checksum as a remainder: polynomials over the field of two elements, as the sets of their exponents. */
module CrcPolynomials {
  import opened Base
  import opened Checksum

  type Poly = set<nat>

  /** x^32 + x^26 + x^23 + x^22 + x^16 + x^12 + x^11 + x^10 + x^8 + x^7 + x^5 + x^4 + x^2 + x + 1. */
  const GENERATOR: Poly := {32, 26, 23, 22, 16, 12, 11, 10, 8, 7, 5, 4, 2, 1, 0}

  /** Terms that occur twice cancel. */
  function Sum(a: Poly, b: Poly): Poly {
    (a - b) + (b - a)
  }

  /** The product with x^k. */
  function Times(a: Poly, k: nat): Poly {
    set e | e in a :: e + k
  }

  /** The sum of the generator's products with x^q. */
  function Multiple(qs: seq<nat>): Poly {
    if qs == [] then {} else Sum(Times(GENERATOR, qs[0]), Multiple(qs[1..]))
  }

  /** The two differ by a multiple of the generator. */
  ghost predicate Congruent(a: Poly, b: Poly) {
    exists qs :: Differ(a, b, qs)
  }

  ghost predicate Differ(a: Poly, b: Poly, qs: seq<nat>) {
    a == Sum(b, Multiple(qs))
  }

  lemma {:induction false} MultipleConcat(p: seq<nat>, q: seq<nat>)
    ensures Multiple(p + q) == Sum(Multiple(p), Multiple(q))
  {
    if p == [] {
      assert p + q == q;
    } else {
      MultipleConcat(p[1..], q);
      assert (p + q)[1..] == p[1..] + q;
    }
  }

  function Raised(qs: seq<nat>, k: nat): seq<nat> {
    if qs == [] then [] else [qs[0] + k] + Raised(qs[1..], k)
  }

  lemma TimesSum(a: Poly, b: Poly, k: nat)
    ensures Times(Sum(a, b), k) == Sum(Times(a, k), Times(b, k))
  {
  }

  lemma TimesTimes(a: Poly, j: nat, k: nat)
    ensures Times(Times(a, j), k) == Times(a, j + k)
  {
    forall e | e in Times(a, j + k)
      ensures e in Times(Times(a, j), k)
    {
      assert e - j - k in a && e - k in Times(a, j);
    }
  }

  lemma {:induction false} MultipleRaised(qs: seq<nat>, k: nat)
    ensures Multiple(Raised(qs, k)) == Times(Multiple(qs), k)
  {
    if qs != [] {
      MultipleRaised(qs[1..], k);
      TimesTimes(GENERATOR, qs[0], k);
      TimesSum(Times(GENERATOR, qs[0]), Multiple(qs[1..]), k);
      assert Raised(qs, k)[1..] == Raised(qs[1..], k);
    }
  }

  lemma CongruentSum(a: Poly, b: Poly, c: Poly)
    requires Congruent(a, b)
    ensures Congruent(Sum(a, c), Sum(b, c))
  {
    var qs :| Differ(a, b, qs);
    assert Differ(Sum(a, c), Sum(b, c), qs);
  }

  lemma CongruentTimes(a: Poly, b: Poly, k: nat)
    requires Congruent(a, b)
    ensures Congruent(Times(a, k), Times(b, k))
  {
    var qs :| Differ(a, b, qs);
    TimesSum(b, Multiple(qs), k);
    MultipleRaised(qs, k);
    assert Differ(Times(a, k), Times(b, k), Raised(qs, k));
  }

  lemma CongruentTrans(a: Poly, b: Poly, c: Poly)
    requires Congruent(a, b) && Congruent(b, c)
    ensures Congruent(a, c)
  {
    var p :| Differ(a, b, p);
    var q :| Differ(b, c, q);
    MultipleConcat(q, p);
    assert Differ(a, c, q + p);
  }

  // ---------- there is one remainder ----------

  ghost predicate Below(a: Poly, n: nat) {
    forall e :: e in a ==> e < n
  }

  /** The sum of the generator's products with x^q for the `q` below `n` in the set. */
  ghost function Products(qs: Poly, n: nat): Poly {
    if n == 0 then {} else Sum(if n - 1 in qs then Times(GENERATOR, n - 1) else {}, Products(qs, n - 1))
  }

  lemma {:induction false} ProductsBelow(qs: Poly, n: nat)
    ensures Below(Products(qs, n), n + 32)
    ensures n > 0 && n - 1 in qs ==> n + 31 in Products(qs, n)
  {
    if n > 0 {
      ProductsBelow(qs, n - 1);
      GeneratorTop(n - 1);
    }
  }

  lemma GeneratorTop(k: nat)
    ensures Below(Times(GENERATOR, k), k + 33) && k + 32 in Times(GENERATOR, k)
  {
    assert 32 in GENERATOR;
  }

  lemma {:induction false} ProductsSum(qs: Poly, q: nat, n: nat)
    ensures Products(Sum(qs, {q}), n) == if q < n then Sum(Times(GENERATOR, q), Products(qs, n)) else Products(qs, n)
  {
    if n > 0 {
      ProductsSum(qs, q, n - 1);
      hide Times;
      var t, u, rest := Times(GENERATOR, q), Times(GENERATOR, n - 1), Products(qs, n - 1);
      if q == n - 1 {
        assert Sum(t, Sum(t, rest)) == rest && Sum({}, rest) == rest;
      } else if q < n - 1 {
        assert Sum(u, Sum(t, rest)) == Sum(t, Sum(u, rest)) && Sum({}, Sum(t, rest)) == Sum(t, Sum({}, rest));
      }
    }
  }

  /** The terms that occur an odd number of times, below a bound. */
  lemma {:induction false} MultipleProducts(qs: seq<nat>) returns (odd: Poly, n: nat)
    ensures Multiple(qs) == Products(odd, n) && Below(odd, n)
  {
    odd, n := {}, 0;
    if qs != [] {
      var rest, m := MultipleProducts(qs[1..]);
      odd, n := Sum(rest, {qs[0]}), if qs[0] < m then m else qs[0] + 1;
      ProductsWiden(rest, m, n);
      ProductsSum(rest, qs[0], n);
    }
  }

  lemma {:induction false} ProductsWiden(qs: Poly, m: nat, n: nat)
    requires m <= n && Below(qs, m)
    ensures Products(qs, n) == Products(qs, m)
    decreases n
  {
    if m < n {
      ProductsWiden(qs, m, n - 1);
      assert Sum({}, Products(qs, n - 1)) == Products(qs, n - 1);
    }
  }

  lemma {:induction false} SmallProducts(qs: Poly, n: nat)
    requires Below(Products(qs, n), 32)
    ensures Products(qs, n) == {}
  {
    if n > 0 {
      ProductsBelow(qs, n);
      SmallProducts(qs, n - 1) by {
        assert n - 1 !in qs;
        assert Sum({}, Products(qs, n - 1)) == Products(qs, n - 1);
      }
      assert Sum({}, Products(qs, n - 1)) == Products(qs, n - 1);
    }
  }

  /** Two polynomials below x^32 are congruent only if they are the same. */
  lemma OneRemainder(a: Poly, b: Poly)
    requires Below(a, 32) && Below(b, 32) && Congruent(a, b)
    ensures a == b
  {
    var qs :| Differ(a, b, qs);
    var odd, n := MultipleProducts(qs);
    assert Sum(a, b) == Multiple(qs) && Below(Sum(a, b), 32);
    SmallProducts(odd, n);
    assert Sum(b, {}) == b;
  }

  // ---------- registers ----------

  predicate Bit(n: nat, k: nat) {
    if k == 0 then n % 2 == 1 else Bit(n / 2, k - 1)
  }

  /** The lowest bit of a register is the coefficient of x^31. */
  function RegisterPoly(r: u32): Poly {
    set k: nat | k < 32 && Bit(r, k) :: 31 - k
  }

  lemma {:induction false} XorBit(a: nat, b: nat, k: nat)
    ensures Bit(Xor(a, b), k) <==> Bit(a, k) != Bit(b, k)
    decreases k
  {
    if a != 0 || b != 0 {
      var x := Xor(a, b);
      assert x / 2 == Xor(a / 2, b / 2) && x % 2 == (if a % 2 == b % 2 then 0 else 1);
      if k > 0 {
        XorBit(a / 2, b / 2, k - 1);
      }
    } else {
      NoBit(k);
    }
  }

  lemma {:induction false} NoBit(k: nat)
    ensures !Bit(0, k)
  {
    if k > 0 {
      NoBit(k - 1);
    }
  }

  lemma RegisterBit(r: u32, e: nat)
    ensures e in RegisterPoly(r) <==> e < 32 && Bit(r, 31 - e)
  {
    if e < 32 && Bit(r, 31 - e) {
      var k: nat := 31 - e;
      assert 31 - k == e;
    }
  }

  lemma XorSum(a: u32, b: u32, c: u32)
    requires c == Xor(a, b)
    ensures RegisterPoly(c) == Sum(RegisterPoly(a), RegisterPoly(b))
  {
    forall e: nat
      ensures e in RegisterPoly(c) <==> e in Sum(RegisterPoly(a), RegisterPoly(b))
    {
      RegisterBit(a, e);
      RegisterBit(b, e);
      RegisterBit(c, e);
      if e < 32 {
        XorBit(a, b, 31 - e);
      }
    }
  }

  lemma {:induction false} HighBit(n: nat, k: nat)
    requires n < Pow2(k)
    ensures !Bit(n, k)
  {
    if k > 0 {
      HighBit(n / 2, k - 1);
    }
  }

  lemma HalfTimes(r: u32)
    ensures RegisterPoly(r / 2) == Times(RegisterPoly(r), 1) - {32}
  {
    Pow2Values();
    HighBit(r / 2, 31);
    forall e: nat
      ensures e in RegisterPoly(r / 2) <==> e in Times(RegisterPoly(r), 1) - {32}
    {
      RegisterBit(r / 2, e);
      if e > 0 {
        RegisterBit(r, e - 1);
        assert e in Times(RegisterPoly(r), 1) <==> e - 1 in RegisterPoly(r);
      }
    }
  }

  lemma PolynomialBits(n: nat)
    requires n == POLYNOMIAL
    ensures RegisterPoly(n) == GENERATOR - {32}
  {
    assert GENERATOR - {32} == {26, 23, 22, 16, 12, 11, 10, 8, 7, 5, 4, 2, 1, 0};
    forall e: nat | e < 32
      ensures e in RegisterPoly(n) <==> e in GENERATOR - {32}
    {
      RegisterBit(n, e);
      BitValues(n, 31 - e);
    }
    forall e: nat | e in RegisterPoly(n)
      ensures e < 32
    {
      RegisterBit(n, e);
    }
  }

  lemma NextBit(n: nat, k: nat)
    requires k >= 1
    ensures Bit(n, k) == Bit(n / 2, k - 1)
  {
  }

  /** The bits of the lowest hexadecimal digit, and the ones above it. */
  lemma DigitBit(n: nat, d: nat, above: nat, k: nat)
    requires n == 16 * above + d && d < 16
    ensures k >= 4 ==> Bit(n, k) == Bit(above, k - 4)
    ensures k == 0 ==> Bit(n, k) == (d % 2 == 1)
    ensures k == 1 ==> Bit(n, k) == (d / 2 % 2 == 1)
    ensures k == 2 ==> Bit(n, k) == (d / 4 % 2 == 1)
    ensures k == 3 ==> Bit(n, k) == (d / 8 == 1)
  {
    var a := n / 2;
    var b := a / 2;
    var c := b / 2;
    assert a == 8 * above + d / 2 && b == 4 * above + d / 4 && c == 2 * above + d / 8 && c / 2 == above;
    if k >= 1 {
      NextBit(n, k);
      if k >= 2 {
        NextBit(a, k - 1);
        if k >= 3 {
          NextBit(b, k - 2);
          if k >= 4 {
            NextBit(c, k - 3);
          }
        }
      }
    }
  }

  lemma FourDigits(n: nat, d: nat, c: nat, b: nat, a: nat, above: nat, k: nat)
    requires n == 0x1_0000 * above + 0x1000 * a + 0x100 * b + 0x10 * c + d && a < 16 && b < 16 && c < 16 && d < 16
    ensures k >= 16 ==> Bit(n, k) == Bit(above, k - 16)
    ensures 0 <= k < 4 ==> Bit(n, k) == Bit(d, k)
    ensures 4 <= k < 8 ==> Bit(n, k) == Bit(c, k - 4)
    ensures 8 <= k < 12 ==> Bit(n, k) == Bit(b, k - 8)
    ensures 12 <= k < 16 ==> Bit(n, k) == Bit(a, k - 12)
  {
    hide Bit;
    var p, q, r := 0x1000 * above + 0x100 * a + 0x10 * b + c, 0x100 * above + 0x10 * a + b, 0x10 * above + a;
    DigitBit(n, d, p, k);
    DigitBit(d, d, 0, k);
    if k >= 4 {
      DigitBit(p, c, q, k - 4);
      DigitBit(c, c, 0, k - 4);
    }
    if k >= 8 {
      DigitBit(q, b, r, k - 8);
      DigitBit(b, b, 0, k - 8);
    }
    if k >= 12 {
      DigitBit(r, a, above, k - 12);
      DigitBit(a, a, 0, k - 12);
    }
  }

  lemma BitValues(n: nat, k: nat)
    requires n == 0xedb8_8320 && k < 32
    ensures Bit(n, k) <==> 31 - k in {26, 23, 22, 16, 12, 11, 10, 8, 7, 5, 4, 2, 1, 0}
  {
    FourDigits(n, 0x0, 0x2, 0x3, 0x8, 0xedb8, k);
    if k >= 16 {
      FourDigits(0xedb8, 0x8, 0xb, 0xd, 0xe, 0, k - 16);
    }
    DigitBits(k % 4);
  }

  lemma DigitBits(k: nat)
    requires k < 4
    ensures !Bit(0x0, k) && (Bit(0x2, k) <==> k == 1) && (Bit(0x3, k) <==> k <= 1) && (Bit(0x8, k) <==> k == 3)
    ensures (Bit(0xb, k) <==> k != 2) && (Bit(0xd, k) <==> k != 1) && (Bit(0xe, k) <==> k != 0)
  {
    assert k == 0 || k == 1 || k == 2 || k == 3;
  }

  /** One shift multiplies by x, modulo the generator. */
  lemma ShiftTimes(r: u32)
    ensures Congruent(RegisterPoly(Shift(r)), Times(RegisterPoly(r), 1))
  {
    var half, doubled := RegisterPoly(r / 2), Times(RegisterPoly(r), 1);
    HalfTimes(r);
    RegisterBit(r, 31);
    assert 32 in doubled <==> 31 in RegisterPoly(r);
    assert Bit(r, 0) <==> r % 2 == 1;
    if r % 2 == 1 {
      Pow2Values();
      XorBound(r / 2, POLYNOMIAL, 32);
      XorSum(r / 2, POLYNOMIAL, Shift(r));
      PolynomialBits(POLYNOMIAL);
      OneMultiple();
      assert half == doubled - {32};
      assert RegisterPoly(Shift(r)) == Sum(doubled, GENERATOR);
      assert Differ(RegisterPoly(Shift(r)), doubled, [0]);
    } else {
      assert RegisterPoly(Shift(r)) == doubled == Sum(doubled, Multiple([]));
      assert Differ(RegisterPoly(Shift(r)), doubled, []);
    }
  }

  lemma OneMultiple()
    ensures Multiple([0]) == GENERATOR
  {
    assert Times(GENERATOR, 0) == GENERATOR;
    assert [0][1..] == [] && Multiple([]) == {};
    assert Multiple([0]) == Sum(Times(GENERATOR, 0), {});
  }

  lemma {:induction false} ShiftsTimes(r: u32, n: nat)
    ensures Congruent(RegisterPoly(Shifts(r, n)), Times(RegisterPoly(r), n))
  {
    hide Shift;
    if n == 0 {
      assert RegisterPoly(r) == Times(RegisterPoly(r), 0) == Sum(Times(RegisterPoly(r), 0), Multiple([]));
      assert Differ(RegisterPoly(r), Times(RegisterPoly(r), 0), []);
    } else {
      var before := Shifts(r, n - 1);
      ShiftsTimes(r, n - 1);
      ShiftTimes(before);
      CongruentTimes(RegisterPoly(before), Times(RegisterPoly(r), n - 1), 1);
      TimesTimes(RegisterPoly(r), n - 1, 1);
      CongruentTrans(RegisterPoly(Shift(before)), Times(RegisterPoly(before), 1), Times(RegisterPoly(r), n));
    }
  }

  // ---------- messages ----------

  /** The lowest bit of a byte is the coefficient of x^7. */
  function BytePoly(b: byte): Poly {
    set k: nat | k < 8 && Bit(b, k) :: 7 - k
  }

  /** The message as one polynomial, its first byte highest; the bytes in `[from, to)` count as zero. */
  function MessagePoly(bytes: seq<byte>, from: nat, to: nat): Poly {
    if bytes == [] then {}
    else
      var i := |bytes| - 1;
      Sum(Times(MessagePoly(bytes[..i], from, to), 8), BytePoly(if from <= i < to then 0 else bytes[i]))
  }

  /** x^31 + ... + x + 1. */
  const ONES: Poly := set e: nat | e < 32

  lemma {:induction false} LowBits(n: nat, j: nat, k: nat)
    requires n < Pow2(j) && j <= k
    ensures !Bit(n, k)
    decreases k
  {
    if k > 0 {
      if j > 0 {
        LowBits(n / 2, j - 1, k - 1);
      } else {
        NoBit(k);
      }
    }
  }

  lemma ByteInRegister(b: byte)
    ensures RegisterPoly(b) == Times(BytePoly(b), 24)
  {
    Pow2Values();
    forall e: nat
      ensures e in RegisterPoly(b) <==> e in Times(BytePoly(b), 24)
    {
      RegisterBit(b, e);
      if e < 24 {
        LowBits(b, 8, 31 - e);
      } else if e < 32 {
        assert 31 - e < 8 && 7 - (31 - e) == e - 24;
        assert e - 24 in BytePoly(b) <==> Bit(b, 31 - e);
      }
    }
  }

  lemma {:induction false} AllBits(n: nat, j: nat, k: nat)
    requires n + 1 == Pow2(j) && k < j
    ensures Bit(n, k)
    decreases k
  {
    if k > 0 {
      AllBits(n / 2, j - 1, k - 1);
    }
  }

  lemma OnesRegister()
    ensures RegisterPoly(ALL_ONES) == ONES
  {
    Pow2Values();
    forall e: nat
      ensures e in RegisterPoly(ALL_ONES) <==> e in ONES
    {
      RegisterBit(ALL_ONES, e);
      if e < 32 {
        AllBits(ALL_ONES, 32, 31 - e);
      }
    }
  }

  /** What is divided: the message times x^32, and the initial ones above it. */
  function Dividend(bytes: seq<byte>, from: nat, to: nat): Poly {
    Sum(Times(ONES, 8 * |bytes|), Times(MessagePoly(bytes, from, to), 32))
  }

  /** The register after a message is its remainder: below x^32, and congruent to what is divided. */
  lemma {:induction false} RegisterIsRemainder(bytes: seq<byte>, from: nat, to: nat)
    ensures Congruent(RegisterPoly(Register(bytes, from, to)), Dividend(bytes, from, to))
    ensures Below(RegisterPoly(Register(bytes, from, to)), 32)
  {
    if bytes == [] {
      OnesRegister();
      assert Times(ONES, 0) == ONES && Times({}, 32) == {};
      assert Dividend(bytes, from, to) == ONES == Sum(ONES, Multiple([]));
      assert Differ(ONES, ONES, []);
    } else {
      var i := |bytes| - 1;
      var b := if from <= i < to then 0 else bytes[i];
      RegisterIsRemainder(bytes[..i], from, to);
      FeedCongruent(Register(bytes[..i], from, to), b, Dividend(bytes[..i], from, to));
      DividendNext(bytes, from, to, b);
    }
  }

  lemma FeedCongruent(r: u32, b: byte, d: Poly)
    requires Congruent(RegisterPoly(r), d)
    ensures Congruent(RegisterPoly(Feed(r, b)), Sum(Times(d, 8), Times(BytePoly(b), 32)))
  {
    hide Shifts, Xor;
    Pow2Values();
    XorBound(r, b, 32);
    var mixed := Xor(r, b);
    var high := Times(BytePoly(b), 24);
    XorSum(r, b, mixed);
    ByteInRegister(b);
    CongruentSum(RegisterPoly(r), d, high);
    CongruentTimes(RegisterPoly(mixed), Sum(d, high), 8);
    ShiftsTimes(mixed, 8);
    CongruentTrans(RegisterPoly(Feed(r, b)), Times(RegisterPoly(mixed), 8), Times(Sum(d, high), 8));
    TimesSum(d, high, 8);
    TimesTimes(BytePoly(b), 24, 8);
  }

  lemma DividendNext(bytes: seq<byte>, from: nat, to: nat, b: byte)
    requires bytes != [] && b == if from <= |bytes| - 1 < to then 0 else bytes[|bytes| - 1]
    ensures Dividend(bytes, from, to) == Sum(Times(Dividend(bytes[..|bytes| - 1], from, to), 8), Times(BytePoly(b), 32))
  {
    var front := bytes[..|bytes| - 1];
    var ones, message := Times(ONES, 8 * |front|), MessagePoly(front, from, to);
    TimesSum(ones, Times(message, 32), 8);
    TimesTimes(ONES, 8 * |front|, 8);
    TimesTimes(message, 32, 8);
    TimesTimes(message, 8, 32);
    TimesSum(Times(message, 8), BytePoly(b), 32);
    SumAssociates(Times(ones, 8), Times(message, 40), Times(BytePoly(b), 32));
  }

  lemma SumAssociates(a: Poly, b: Poly, c: Poly)
    ensures Sum(Sum(a, b), c) == Sum(a, Sum(b, c))
  {
  }

  lemma CongruentBack(a: Poly, b: Poly)
    requires Congruent(a, b)
    ensures Congruent(b, a)
  {
    var qs :| Differ(a, b, qs);
    assert Differ(b, a, qs);
  }

  /** The checksum is the complement of the remainder: no other polynomial below x^32 is congruent to what is divided. */
  lemma ChecksumIsRemainder(bytes: seq<byte>, from: nat, to: nat, r: Poly)
    requires Below(r, 32)
    ensures Congruent(r, Dividend(bytes, from, to)) <==> RegisterPoly(Crc32(bytes, from, to)) == Sum(r, ONES)
  {
    hide Register, Xor;
    RegisterIsRemainder(bytes, from, to);
    Pow2Values();
    XorBound(Register(bytes, from, to), ALL_ONES, 32);
    XorSum(Register(bytes, from, to), ALL_ONES, Crc32(bytes, from, to));
    OnesRegister();
    var register := RegisterPoly(Register(bytes, from, to));
    assert Sum(Sum(register, ONES), ONES) == register && Sum(Sum(r, ONES), ONES) == r;
    if Congruent(r, Dividend(bytes, from, to)) {
      CongruentBack(register, Dividend(bytes, from, to));
      CongruentTrans(r, Dividend(bytes, from, to), register);
      OneRemainder(r, register);
    }
  }
}
