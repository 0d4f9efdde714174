/** CRC-32/ISO-HDLC (RFC 1952 section 8), bit by bit over numbers. */
module Checksum {
  import opened Base

  const POLYNOMIAL: u32 := 0xedb8_8320
  const ALL_ONES: u32 := 0xffff_ffff

  /** Bitwise exclusive or. */
  function Xor(a: nat, b: nat): nat
    decreases a + b
  {
    if a == 0 && b == 0 then 0
    else (if a % 2 == b % 2 then 0 else 1) + 2 * Xor(a / 2, b / 2)
  }

  lemma {:induction false} XorBound(a: nat, b: nat, k: nat)
    requires a < Pow2(k) && b < Pow2(k)
    ensures Xor(a, b) < Pow2(k)
    decreases k
  {
    if k > 0 {
      XorBound(a / 2, b / 2, k - 1);
    }
  }

  /** Adding the same number twice cancels. */
  lemma {:induction false} XorCancel(a: nat, b: nat)
    ensures Xor(Xor(a, b), b) == a
    decreases a + b
  {
    if a != 0 || b != 0 {
      XorCancel(a / 2, b / 2);
      var x := Xor(a, b);
      assert x / 2 == Xor(a / 2, b / 2) && x % 2 == (if a % 2 == b % 2 then 0 else 1);
    }
  }

  lemma {:induction false} XorZero(a: nat)
    ensures Xor(a, 0) == a
  {
    if a != 0 {
      XorZero(a / 2);
    }
  }

  /** A number below 2^k cannot clear bit k. */
  lemma {:induction false} XorTop(a: nat, b: nat, k: nat)
    requires a < Pow2(k) <= b
    ensures Xor(a, b) >= Pow2(k)
    decreases k
  {
    if k > 0 {
      XorTop(a / 2, b / 2, k - 1);
    } else {
      assert a == 0;
      XorComm(a, b);
      XorZero(b);
    }
  }

  lemma {:induction false} XorComm(a: nat, b: nat)
    ensures Xor(a, b) == Xor(b, a)
    decreases a + b
  {
    if a != 0 || b != 0 {
      XorComm(a / 2, b / 2);
    }
  }

  lemma Pow2Values()
    ensures Pow2(8) == 0x100 && Pow2(31) == 0x8000_0000 && Pow2(32) == 0x1_0000_0000
  {
    assert Pow2(8) == 0x100;
    assert Pow2(16) == 0x100 * Pow2(8);
    assert Pow2(24) == 0x100 * Pow2(16);
    assert Pow2(31) == 0x80 * Pow2(24);
  }

  /** One bit of the register. */
  function Shift(crc: u32): u32 {
    Pow2Values();
    XorBound(crc / 2, POLYNOMIAL, 32);
    if crc % 2 == 1 then Xor(crc / 2, POLYNOMIAL) else crc / 2
  }

  function Shifts(crc: u32, n: nat): u32 {
    if n == 0 then crc else Shift(Shifts(crc, n - 1))
  }

  function Feed(crc: u32, b: byte): u32 {
    Pow2Values();
    XorBound(crc, b, 32);
    Shifts(Xor(crc, b), 8)
  }

  /** The register after all bytes, those in `[from, to)` counted as zero. */
  function Register(bytes: seq<byte>, from: nat, to: nat): u32 {
    if bytes == [] then ALL_ONES
    else
      var i := |bytes| - 1;
      Feed(Register(bytes[..i], from, to), if from <= i < to then 0 else bytes[i])
  }

  function Crc32(bytes: seq<byte>, from: nat, to: nat): u32 {
    Pow2Values();
    XorBound(Register(bytes, from, to), ALL_ONES, 32);
    Xor(Register(bytes, from, to), ALL_ONES)
  }

  /** `crc32`. */
  method Compute(bytes: seq<byte>, from: nat, to: nat) returns (crc: u32)
    ensures crc == Crc32(bytes, from, to)
  {
    crc := ALL_ONES;
    var i := 0;
    while i < |bytes|
      invariant i <= |bytes| && crc == Register(bytes[..i], from, to)
    {
      Pow2Values();
      ghost var before := crc;
      XorBound(crc, if from <= i < to then 0 else bytes[i], 32);
      crc := Xor(crc, if from <= i < to then 0 else bytes[i]);
      ghost var mixed := crc;
      var k := 0;
      while k < 8
        invariant k <= 8 && crc == Shifts(mixed, k)
      {
        XorBound(crc / 2, POLYNOMIAL, 32);
        crc := if crc % 2 == 1 then Xor(crc / 2, POLYNOMIAL) else crc / 2;
        k := k + 1;
      }
      assert bytes[..i + 1][..i] == bytes[..i];
      i := i + 1;
    }
    assert bytes[..i] == bytes;
    Pow2Values();
    XorBound(crc, ALL_ONES, 32);
    crc := Xor(crc, ALL_ONES);
  }

  // ---------- every step is injective ----------

  lemma XorInjective(a: nat, b: nat, c: nat)
    requires Xor(a, c) == Xor(b, c)
    ensures a == b
  {
    XorCancel(a, c);
    XorCancel(b, c);
  }

  /** The polynomial's top bit tells which way a shift went. */
  lemma ShiftInjective(a: u32, b: u32)
    requires Shift(a) == Shift(b)
    ensures a == b
  {
    Pow2Values();
    XorTop(a / 2, POLYNOMIAL, 31);
    XorTop(b / 2, POLYNOMIAL, 31);
    if a % 2 == 1 && b % 2 == 1 {
      XorInjective(a / 2, b / 2, POLYNOMIAL);
    }
  }

  lemma {:induction false} ShiftsInjective(a: u32, b: u32, n: nat)
    requires Shifts(a, n) == Shifts(b, n)
    ensures a == b
  {
    if n > 0 {
      ShiftInjective(Shifts(a, n - 1), Shifts(b, n - 1));
      ShiftsInjective(a, b, n - 1);
    }
  }

  lemma FeedInjective(a: u32, x: byte, b: u32, y: byte)
    requires Feed(a, x) == Feed(b, y)
    ensures x == y ==> a == b
    ensures a == b ==> x == y
  {
    Pow2Values();
    XorBound(a, x, 32);
    XorBound(b, y, 32);
    ShiftsInjective(Xor(a, x), Xor(b, y), 8);
    if x == y {
      XorInjective(a, b, x);
    }
    if a == b {
      XorComm(a, x);
      XorComm(b, y);
      XorInjective(x, y, a);
    }
  }

  /** The two strings agree everywhere except at `i`. */
  ghost predicate DifferOnlyAt(a: seq<byte>, b: seq<byte>, i: nat) {
    |a| == |b| && i < |a| && a[i] != b[i] && forall j :: 0 <= j < |a| && j != i ==> a[j] == b[j]
  }

  lemma {:induction false} RegisterSame(a: seq<byte>, b: seq<byte>, from: nat, to: nat)
    requires |a| == |b| && forall j :: 0 <= j < |a| && !(from <= j < to) ==> a[j] == b[j]
    ensures Register(a, from, to) == Register(b, from, to)
  {
    if a != [] {
      RegisterSame(a[..|a| - 1], b[..|b| - 1], from, to);
    }
  }

  lemma ChecksumSame(a: seq<byte>, b: seq<byte>, from: nat, to: nat)
    requires |a| == |b| && forall j :: 0 <= j < |a| && !(from <= j < to) ==> a[j] == b[j]
    ensures Crc32(a, from, to) == Crc32(b, from, to)
  {
    RegisterSame(a, b, from, to);
  }

  /** Changing any one checked byte changes the checksum. */
  lemma {:induction false} RegisterDiffers(a: seq<byte>, b: seq<byte>, i: nat, from: nat, to: nat)
    requires DifferOnlyAt(a, b, i) && !(from <= i < to)
    ensures Register(a, from, to) != Register(b, from, to)
  {
    hide Feed, Xor;
    var n := |a| - 1;
    var x, y := if from <= n < to then 0 else a[n], if from <= n < to then 0 else b[n];
    var p, q := Register(a[..n], from, to), Register(b[..n], from, to);
    if i == n {
      RegisterSame(a[..n], b[..n], from, to);
    } else {
      assert DifferOnlyAt(a[..n], b[..n], i);
      RegisterDiffers(a[..n], b[..n], i, from, to);
    }
    if Feed(p, x) == Feed(q, y) {
      FeedInjective(p, x, q, y);
    }
  }

  lemma ChecksumDiffers(a: seq<byte>, b: seq<byte>, i: nat, from: nat, to: nat)
    requires DifferOnlyAt(a, b, i)
    ensures Crc32(a, from, to) == Crc32(b, from, to) <==> from <= i < to
  {
    if from <= i < to {
      RegisterSame(a, b, from, to);
    } else {
      RegisterDiffers(a, b, i, from, to);
      if Crc32(a, from, to) == Crc32(b, from, to) {
        XorInjective(Register(a, from, to), Register(b, from, to), ALL_ONES);
      }
    }
  }
}
