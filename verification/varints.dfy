/** Unsigned LEB128 numbers (DWARF 5 section 7.6) of at most 64 bits. */
module Varints {
  import opened Base

  const MAX_VARINT_BYTES: nat := 10

  /** A value read from the front of some bytes, and how many it took. */
  datatype Parse<+T> = Fail | Done(value: T, size: nat)

  /** The minimal encoding. */
  function Leb(x: nat): (s: seq<byte>)
    ensures s != []
  {
    if x < 0x80 then [x] else [x % 0x80 + 0x80] + Leb(x / 0x80)
  }

  /** 128 to the power `k`. */
  function Groups(k: nat): (g: nat)
    ensures g >= 1
  {
    if k == 0 then 1 else 0x80 * Groups(k - 1)
  }

  /** The groups from `index` on. */
  function ReadGroups(s: seq<byte>, index: nat): Parse<nat>
    requires index <= MAX_VARINT_BYTES
    decreases MAX_VARINT_BYTES - index
  {
    if index == MAX_VARINT_BYTES || index >= |s| then Fail
    else
      var payload := s[index] % 0x80;
      if index == MAX_VARINT_BYTES - 1 && payload > 1 then Fail
      else if s[index] < 0x80 then (if index > 0 && payload == 0 then Fail else Done(payload, index + 1))
      else match ReadGroups(s, index + 1)
        case Fail => Fail
        case Done(rest, size) => Done(payload + 0x80 * rest, size)
  }

  function ReadVarint(s: seq<byte>): (r: Parse<u64>)
    ensures r.Done? ==> 1 <= r.size <= |s|
  {
    ReadBound(s, 0);
    BitLimit();
    match ReadGroups(s, 0)
    case Fail => Fail
    case Done(x, size) => Done(x, size)
  }

  /** What the groups from `index` on may hold: 64 bits less seven for every earlier group. */
  function Limit(index: nat): nat
    requires index <= MAX_VARINT_BYTES
  {
    if index == MAX_VARINT_BYTES then 1 else 2 * Groups(MAX_VARINT_BYTES - 1 - index)
  }

  lemma BitLimit()
    ensures Limit(0) == 0x1_0000_0000_0000_0000
  {
    assert Groups(3) == 0x20_0000;
    assert Groups(6) == 0x80 * (0x80 * (0x80 * Groups(3)));
    assert Groups(9) == 0x80 * (0x80 * (0x80 * Groups(6)));
  }

  lemma {:induction false} ReadBound(s: seq<byte>, index: nat)
    requires index <= MAX_VARINT_BYTES
    ensures var r := ReadGroups(s, index); r.Done? ==> index < r.size <= |s| && r.value < Limit(index)
    decreases MAX_VARINT_BYTES - index
  {
    if index < MAX_VARINT_BYTES - 1 {
      ReadBound(s, index + 1);
    }
  }

  method WriteVarint(x: nat, output: seq<byte>) returns (out: seq<byte>)
    ensures out == output + Leb(x)
  {
    var value: nat := x;
    out := output;
    while value >= 0x80
      invariant out + Leb(value) == output + Leb(x)
    {
      assert out + Leb(value) == out + [value % 0x80 + 0x80] + Leb(value / 0x80);
      out := out + [value % 0x80 + 0x80];
      value := value / 0x80;
    }
    out := out + [value];
  }

  method ParseVarint(s: seq<byte>) returns (r: Parse<u64>)
    ensures r == ReadVarint(s)
  {
    hide Groups, Limit, Place, Shifted, ReadGroups;
    BitLimit();
    ReadBound(s, 0);
    var value: nat, index: nat := 0, 0;
    ShiftNone(ReadGroups(s, 0));
    while index < MAX_VARINT_BYTES
      invariant index <= MAX_VARINT_BYTES
      invariant ReadGroups(s, 0) == Shifted(value, index, ReadGroups(s, index))
    {
      ReadStep(s, index, value);
      if index >= |s| {
        return Fail;
      }
      var payload := s[index] % 0x80;
      if index == MAX_VARINT_BYTES - 1 && payload > 1 {
        return Fail;
      }
      value := value + Place(payload, index);
      if s[index] < 0x80 {
        return if index > 0 && payload == 0 then Fail else Done(value, index + 1);
      }
      index := index + 1;
    }
    ReadStep(s, index, value);
    return Fail;
  }

  /** The value whose groups from `index` on are `rest`, over the groups already read. */
  function Shifted(value: nat, index: nat, rest: Parse<nat>): Parse<nat> {
    match rest
    case Fail => Fail
    case Done(r, size) => Done(value + Groups(index) * r, size)
  }

  /** `payload << (7 * index)`. */
  function Place(payload: nat, index: nat): nat {
    payload * Groups(index)
  }

  lemma ShiftNone(rest: Parse<nat>)
    ensures Shifted(0, 0, rest) == rest
  {
  }

  lemma ReadStep(s: seq<byte>, index: nat, value: nat)
    requires index <= MAX_VARINT_BYTES
    ensures var last := index == MAX_VARINT_BYTES - 1;
            Shifted(value, index, ReadGroups(s, index)) ==
            if index == MAX_VARINT_BYTES || index >= |s| || (last && s[index] % 0x80 > 1) then Fail
            else
              var payload := s[index] % 0x80;
              if s[index] < 0x80 then (if index > 0 && payload == 0 then Fail else Done(value + Place(payload, index), index + 1))
              else Shifted(value + Place(payload, index), index + 1, ReadGroups(s, index + 1))
  {
    hide Groups;
    if index < MAX_VARINT_BYTES && index < |s| {
      var payload := s[index] % 0x80;
      if s[index] < 0x80 {
        Distribute(Groups(index), payload, 0);
      } else if ReadGroups(s, index + 1).Done? {
        Distribute(Groups(index), payload, ReadGroups(s, index + 1).value);
        NextGroup(index);
      }
    }
  }

  lemma NextGroup(k: nat)
    ensures Groups(k + 1) == 0x80 * Groups(k)
  {
  }

  lemma Distribute(g: nat, payload: nat, rest: nat)
    ensures g * (payload + 0x80 * rest) == payload * g + (0x80 * g) * rest
  {
  }

  /** Writing, then reading in front of anything else, gives the value back. */
  lemma VarintRoundTrip(x: u64, t: seq<byte>)
    ensures ReadVarint(Leb(x) + t) == Done(x, |Leb(x)|)
  {
    BitLimit();
    GroupsRoundTrip([], x, t);
    assert [] + Leb(x) + t == Leb(x) + t;
  }

  lemma LimitStep(index: nat)
    requires index < MAX_VARINT_BYTES
    ensures if index < MAX_VARINT_BYTES - 1 then Limit(index) == 0x80 * Limit(index + 1) else Limit(index) == 2
  {
  }

  lemma Digits(x: nat)
    ensures x % 0x80 + 0x80 * (x / 0x80) == x && (x % 0x80 + 0x80) % 0x80 == x % 0x80
  {
  }

  lemma DigitsBack(payload: nat, rest: nat)
    requires payload < 0x80
    ensures (payload + 0x80 * rest) % 0x80 == payload && (payload + 0x80 * rest) / 0x80 == rest
  {
  }

  lemma {:induction false} GroupsRoundTrip(done: seq<byte>, x: nat, t: seq<byte>)
    requires |done| < MAX_VARINT_BYTES && x < Limit(|done|) && (done == [] || x > 0)
    ensures ReadGroups(done + Leb(x) + t, |done|) == Done(x, |done| + |Leb(x)|)
    decreases x
  {
    hide Groups, Limit;
    LimitStep(|done|);
    Digits(x);
    var s := done + Leb(x) + t;
    assert s[|done|] == Leb(x)[0];
    if x >= 0x80 {
      var next := done + [x % 0x80 + 0x80];
      assert s == next + Leb(x / 0x80) + t;
      GroupsRoundTrip(next, x / 0x80, t);
    }
  }

  /** Conversely, only the minimal encoding reads as `x`. */
  lemma VarintUnique(s: seq<byte>)
    requires ReadVarint(s).Done?
    ensures s[..ReadVarint(s).size] == Leb(ReadVarint(s).value)
  {
    GroupsUnique(s, 0);
  }

  lemma {:induction false} GroupsUnique(s: seq<byte>, index: nat)
    requires index <= MAX_VARINT_BYTES && ReadGroups(s, index).Done?
    ensures var r := ReadGroups(s, index);
            index < r.size <= |s| && s[index..r.size] == Leb(r.value) && (index > 0 ==> r.value > 0)
    decreases MAX_VARINT_BYTES - index
  {
    hide Groups, Limit;
    ReadBound(s, index);
    if s[index] >= 0x80 {
      GroupsUnique(s, index + 1);
      var r := ReadGroups(s, index);
      DigitsBack(s[index] % 0x80, ReadGroups(s, index + 1).value);
      assert s[index..r.size] == [s[index]] + s[index + 1..r.size];
    }
  }

  lemma VarintExtends(s: seq<byte>, t: seq<byte>)
    requires ReadVarint(s).Done?
    ensures ReadVarint(s + t) == ReadVarint(s)
  {
    var r := ReadVarint(s);
    VarintUnique(s);
    VarintRoundTrip(r.value, s[r.size..] + t);
    assert s + t == Leb(r.value) + (s[r.size..] + t);
  }
}
