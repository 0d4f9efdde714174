/** Scalar index keys and their derived total order. */
module IndexKeys {
  import opened Base

  /** Floats are their 64 bits; `MakeFloat` makes every NaN the same. */
  datatype IndexKey =
    | Int64(value: i64)
    | Float64(bits: u64)
    | String(bytes: seq<byte>)
    | Id(id: NovaId)

  const CANONICAL_NAN: u64 := 0x7ff8_0000_0000_0000
  const SIGN_BIT: u64 := 0x8000_0000_0000_0000

  /** All exponent bits set and a non-zero fraction. */
  predicate IsNan(bits: u64) {
    bits % SIGN_BIT > 0x7ff0_0000_0000_0000
  }

  predicate IsFinite(bits: u64) {
    bits % SIGN_BIT < 0x7ff0_0000_0000_0000
  }

  function MakeFloat(bits: u64): IndexKey {
    Float64(if IsNan(bits) then CANONICAL_NAN else bits)
  }

  /** IEEE 754 totalOrder as a number: negative floats count down from -1. */
  function TotalOrder(bits: u64): int {
    if bits < SIGN_BIT then bits else SIGN_BIT - 1 - bits
  }

  predicate BytesLess(a: seq<byte>, b: seq<byte>) {
    if a == [] then b != []
    else if b == [] then false
    else a[0] < b[0] || (a[0] == b[0] && BytesLess(a[1..], b[1..]))
  }

  function Tag(k: IndexKey): nat {
    match k
    case Int64(_) => 0
    case Float64(_) => 1
    case String(_) => 2
    case Id(_) => 3
  }

  /** The derived order: first by variant, then by payload. */
  predicate DerivedLess(a: IndexKey, b: IndexKey) {
    match (a, b)
    case (Int64(x), Int64(y)) => x < y
    case (Float64(x), Float64(y)) => TotalOrder(x) < TotalOrder(y)
    case (String(x), String(y)) => BytesLess(x, y)
    case (Id(x), Id(y)) => x < y
    case _ => Tag(a) < Tag(b)
  }

  predicate Less(a: IndexKey, b: IndexKey)
    ensures Less(a, b) <==> Rank(a) < Rank(b)
  {
    RankEmbeds(a, b);
    DerivedLess(a, b)
  }

  /** A byte string as a base-257 fraction; a shorter string pads with zero, below every byte. */
  ghost function Fraction(s: seq<byte>): (r: real)
    ensures 0.0 <= r < 1.0
    ensures s != [] ==> r > 0.0
  {
    if s == [] then 0.0 else (s[0] as real + 1.0 + Fraction(s[1..])) / 257.0
  }

  /** An order embedding of keys into the reals, so that order facts are linear arithmetic. */
  ghost function Rank(k: IndexKey): real {
    match k
    case Int64(v) => v as real
    case Float64(b) => (0x2_0000_0000_0000_0000 + TotalOrder(b)) as real
    case String(s) => 0x4_0000_0000_0000_0000 as real + Fraction(s)
    case Id(i) => (0x8_0000_0000_0000_0000 + i) as real
  }

  lemma {:induction false} FractionEmbeds(a: seq<byte>, b: seq<byte>)
    ensures BytesLess(a, b) <==> Fraction(a) < Fraction(b)
    ensures Fraction(a) == Fraction(b) ==> a == b
  {
    if a != [] && b != [] {
      FractionEmbeds(a[1..], b[1..]);
      assert a == [a[0]] + a[1..] && b == [b[0]] + b[1..];
    }
  }

  /** The derived order is total, and equal keys are the same key. */
  lemma {:induction false} RankEmbeds(a: IndexKey, b: IndexKey)
    ensures DerivedLess(a, b) <==> Rank(a) < Rank(b)
    ensures Rank(a) == Rank(b) ==> a == b
  {
    if a.String? && b.String? {
      FractionEmbeds(a.bytes, b.bytes);
    }
  }
}
