/** The order of index keys by what they stand for: numbers by value, strings by their first difference. */
module KeyOrder {
  import opened Base
  import opened IndexKeys

  // ---------- what the bits of a float stand for ----------

  /** The bit above the 52 bits of the fraction. */
  const HIDDEN: u64 := 0x10_0000_0000_0000

  predicate Negative(bits: u64) {
    bits >= SIGN_BIT
  }

  /**
   * The absolute value in units of 2^-1074, the smallest positive float (IEEE 754, section 3.4): without exponent the
   * fraction itself, and otherwise the fraction with its hidden bit, doubled for each further exponent. An infinity
   * comes out as the power of two above all finite values, and NaNs beyond it.
   */
  function Magnitude(bits: u64): nat {
    var exponent, fraction := bits % SIGN_BIT / HIDDEN, bits % HIDDEN;
    Scaled(exponent, fraction)
  }

  function Scaled(exponent: nat, fraction: nat): nat {
    if exponent == 0 then fraction else (HIDDEN + fraction) * Pow2(exponent - 1)
  }

  function Units(bits: u64): int {
    if Negative(bits) then 0 - Magnitude(bits) else Magnitude(bits)
  }

  /** The number that a float stands for. */
  ghost function FloatValue(bits: u64): real
    requires IsFinite(bits)
  {
    Units(bits) as real / Pow2(1074) as real
  }

  /** By value, and the negative zero before the positive one. */
  predicate FloatBelow(a: u64, b: u64) {
    Units(a) < Units(b) || (Units(a) == 0 == Units(b) && Negative(a) && !Negative(b))
  }

  lemma {:induction false} Pow2Grows(j: nat, k: nat)
    requires j <= k
    ensures Pow2(j) <= Pow2(k)
    decreases k
  {
    if j < k {
      Pow2Grows(j, k - 1);
    }
  }

  lemma Products(x: nat, y: nat, p: nat, q: nat)
    requires x <= y && 1 <= p <= q
    ensures x * p <= y * q && (x < y ==> x * p < y * q)
  {
    Increasing(x, y, p);
    Increasing(p, q, y);
    assert y * p == p * y && y * q == q * y;
  }

  lemma Increasing(x: nat, y: nat, p: nat)
    requires x <= y && p >= 0
    ensures x * p <= y * p && (x < y && p >= 1 ==> x * p < y * p)
  {
    assert y * p - x * p == (y - x) * p;
  }

  /** A larger fraction, or a larger exponent, is a larger magnitude. */
  lemma ScaledGrows(e: nat, x: nat, f: nat, y: nat)
    requires x < HIDDEN && y < HIDDEN && (e < f || (e == f && x < y))
    ensures Scaled(e, x) < Scaled(f, y)
  {
    if e == f {
      if e > 0 {
        Products(HIDDEN + x, HIDDEN + y, Pow2(e - 1), Pow2(e - 1));
      }
    } else if e > 0 {
      Pow2Grows(e, f - 1);
      Products(HIDDEN + x, 2 * HIDDEN, Pow2(e - 1), Pow2(e - 1));
      Products(HIDDEN, HIDDEN + y, Pow2(e), Pow2(f - 1));
      assert Pow2(e) == 2 * Pow2(e - 1);
    } else {
      Products(HIDDEN, HIDDEN + y, 1, Pow2(f - 1));
    }
  }

  /** The fraction does not depend on the sign. */
  lemma FractionOf(bits: u64)
    ensures bits % HIDDEN == bits % SIGN_BIT % HIDDEN
  {
  }

  lemma LexicalParts(m: nat, n: nat)
    requires m < n
    ensures m / HIDDEN < n / HIDDEN || (m / HIDDEN == n / HIDDEN && m % HIDDEN < n % HIDDEN)
  {
  }

  lemma MagnitudeGrows(a: u64, b: u64)
    requires a % SIGN_BIT < b % SIGN_BIT
    ensures Magnitude(a) < Magnitude(b)
  {
    hide Scaled;
    FractionOf(a);
    FractionOf(b);
    LexicalParts(a % SIGN_BIT, b % SIGN_BIT);
    ScaledGrows(a % SIGN_BIT / HIDDEN, a % HIDDEN, b % SIGN_BIT / HIDDEN, b % HIDDEN);
  }

  lemma MagnitudeZero(bits: u64)
    ensures Magnitude(bits) == 0 <==> bits % SIGN_BIT == 0
  {
    if bits % SIGN_BIT > 0 {
      MagnitudeGrows(0, bits);
    }
  }

  /** The order of the bits is the order of the values. */
  lemma FloatOrder(a: u64, b: u64)
    ensures TotalOrder(a) < TotalOrder(b) <==> FloatBelow(a, b)
  {
    hide Magnitude;
    var m, n := a % SIGN_BIT, b % SIGN_BIT;
    MagnitudeZero(a);
    MagnitudeZero(b);
    if m < n {
      MagnitudeGrows(a, b);
    } else if n < m {
      MagnitudeGrows(b, a);
    } else {
      SameMagnitude(a, b);
    }
  }

  lemma SameMagnitude(a: u64, b: u64)
    requires a % SIGN_BIT == b % SIGN_BIT
    ensures Magnitude(a) == Magnitude(b)
  {
    hide Scaled;
    FractionOf(a);
    FractionOf(b);
  }

  /** Floats as keys: a smaller number is a smaller key, and only the zeros are the same number twice. */
  lemma FloatsByValue(a: u64, b: u64)
    requires IsFinite(a) && IsFinite(b)
    ensures FloatValue(a) < FloatValue(b) ==> Less(Float64(a), Float64(b))
    ensures FloatValue(a) == FloatValue(b) && a != b ==>
              FloatValue(a) == 0.0 && (Less(Float64(a), Float64(b)) <==> Negative(a))
  {
    hide Magnitude, Pow2;
    FloatOrder(a, b);
    FloatOrder(b, a);
    MagnitudeZero(a);
    QuotientOrder(Units(a), Units(b), Pow2(1074));
  }

  lemma QuotientOrder(x: int, y: int, unit: nat)
    requires unit >= 1
    ensures x as real / unit as real < y as real / unit as real <==> x < y
    ensures x as real / unit as real == y as real / unit as real <==> x == y
    ensures x as real / unit as real == 0.0 <==> x == 0
  {
    var r := unit as real;
    var p, q := x as real / r, y as real / r;
    assert p * r == x as real && q * r == y as real;
    if p < q {
      assert (q - p) * r > 0.0;
    } else if q < p {
      assert (p - q) * r > 0.0;
    }
  }

  /** Finite floats lie below 2^1024, and what lies beyond the infinities is a NaN. */
  lemma Classes(bits: u64)
    ensures IsFinite(bits) <==> Magnitude(bits) < HIDDEN * Pow2(2046)
    ensures IsNan(bits) <==> Magnitude(bits) > HIDDEN * Pow2(2046)
  {
    hide Magnitude, Pow2;
    var infinity: u64 := 0x7ff0_0000_0000_0000;
    InfiniteMagnitude(infinity);
    if bits % SIGN_BIT < infinity {
      MagnitudeGrows(bits, infinity);
    } else if bits % SIGN_BIT > infinity {
      MagnitudeGrows(infinity, bits);
    } else {
      SameMagnitude(bits, infinity);
    }
  }

  lemma InfiniteMagnitude(infinity: u64)
    requires infinity == 0x7ff0_0000_0000_0000
    ensures Magnitude(infinity) == HIDDEN * Pow2(2046)
  {
    hide Pow2;
    assert infinity % SIGN_BIT / HIDDEN == 2047 && infinity % HIDDEN == 0;
  }

  /** The infinities enclose the finite numbers. */
  lemma InfinitiesEnclose(bits: u64)
    requires IsFinite(bits)
    ensures Less(Float64(bits), Float64(0x7ff0_0000_0000_0000)) && Less(Float64(0xfff0_0000_0000_0000), Float64(bits))
  {
    hide Magnitude;
    var infinity, negative: u64 := 0x7ff0_0000_0000_0000, 0xfff0_0000_0000_0000;
    MagnitudeGrows(bits, infinity);
    MagnitudeGrows(bits, negative);
    FloatOrder(bits, infinity);
    FloatOrder(negative, bits);
  }

  /** A closed interval of floats holds the numbers between its ends, and no number outside. */
  lemma FloatInterval(bits: u64, low: u64, high: u64)
    requires IsFinite(bits) && IsFinite(low) && IsFinite(high)
    ensures var inside := !Less(Float64(bits), Float64(low)) && !Less(Float64(high), Float64(bits));
            && (FloatValue(low) < FloatValue(bits) < FloatValue(high) ==> inside)
            && (inside ==> FloatValue(low) <= FloatValue(bits) <= FloatValue(high))
  {
    hide FloatValue, DerivedLess;
    FloatsByValue(bits, low);
    FloatsByValue(low, bits);
    FloatsByValue(high, bits);
    FloatsByValue(bits, high);
  }

  // ---------- strings and keys ----------

  /** The first difference decides, and a proper prefix comes first. */
  ghost predicate TextBelow(a: seq<byte>, b: seq<byte>) {
    exists k: nat :: DiffersFirst(a, b, k)
  }

  predicate DiffersFirst(a: seq<byte>, b: seq<byte>, k: nat) {
    k <= |a| && k < |b| && a[..k] == b[..k] && (k == |a| || a[k] < b[k])
  }

  lemma DiffersLater(a: seq<byte>, b: seq<byte>, k: nat)
    requires a != [] && b != []
    ensures DiffersFirst(a, b, k + 1) <==> a[0] == b[0] && DiffersFirst(a[1..], b[1..], k)
  {
    if k < |a| && k + 1 < |b| {
      assert a[..k + 1] == [a[0]] + a[1..][..k] && b[..k + 1] == [b[0]] + b[1..][..k];
    }
  }

  lemma {:induction false} TextOrder(a: seq<byte>, b: seq<byte>)
    ensures BytesLess(a, b) <==> TextBelow(a, b)
  {
    if a == [] {
      assert b != [] ==> DiffersFirst(a, b, 0);
    } else if b != [] {
      TextOrder(a[1..], b[1..]);
      if TextBelow(a, b) {
        var k: nat :| DiffersFirst(a, b, k);
        if k > 0 {
          DiffersLater(a, b, k - 1);
        }
      }
      if a[0] < b[0] {
        assert DiffersFirst(a, b, 0);
      } else if a[0] == b[0] && TextBelow(a[1..], b[1..]) {
        var k: nat :| DiffersFirst(a[1..], b[1..], k);
        DiffersLater(a, b, k);
      }
    }
  }

  /** Integers before floats before strings before ids; within a kind by what the keys stand for. */
  ghost predicate KeyBelow(a: IndexKey, b: IndexKey) {
    match a
    case Int64(x) => b.Int64? ==> x < b.value
    case Float64(x) => b.String? || b.Id? || (b.Float64? && FloatBelow(x, b.bits))
    case String(x) => b.Id? || (b.String? && TextBelow(x, b.bytes))
    case Id(x) => b.Id? && x < b.id
  }

  lemma LessExactly(a: IndexKey, b: IndexKey)
    ensures Less(a, b) <==> KeyBelow(a, b)
  {
    hide BytesLess, TextBelow, TotalOrder, FloatBelow;
    if a.Float64? && b.Float64? {
      FloatOrder(a.bits, b.bits);
    } else if a.String? && b.String? {
      TextOrder(a.bytes, b.bytes);
    }
  }
}
