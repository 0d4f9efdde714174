/** Runs of equally coded items. */
module CodedLists {
  import opened Base
  import opened Bytes
  import opened Varints

  type Reader<!T> = seq<byte> -> Parse<T>
  type Writer<!T> = T -> seq<byte>

  /** A reader never claims bytes that are not there. */
  ghost predicate Bounded<T(!new)>(read: Reader<T>) {
    forall s :: read(s).Done? ==> 1 <= read(s).size <= |s|
  }

  function ReadAll<T(!new)>(s: seq<byte>, n: nat, read: Reader<T>): (r: Parse<seq<T>>)
    requires Bounded(read)
    ensures r.Done? ==> r.size <= |s| && |r.value| == n
    decreases n
  {
    if n == 0 then Done([], 0)
    else match read(s)
      case Fail => Fail
      case Done(x, k) =>
        match ReadAll(s[k..], n - 1, read)
        case Fail => Fail
        case Done(rest, m) => Done([x] + rest, k + m)
  }

  function WriteAll<T(!new)>(items: seq<T>, write: Writer<T>): seq<byte> {
    if items == [] then [] else write(items[0]) + WriteAll(items[1..], write)
  }

  /** `read` reads back what `write` wrote for `x`, whatever follows. */
  ghost predicate Inverse<T(!new)>(read: Reader<T>, write: Writer<T>, x: T) {
    forall rest :: read(write(x) + rest) == Done(x, |write(x)|)
  }

  /** What `write` wrote for `x` is refused, whatever follows. */
  ghost predicate Refused<T(!new)>(read: Reader<T>, write: Writer<T>, x: T) {
    forall rest :: read(write(x) + rest) == Fail
  }

  lemma {:induction false} AllRoundTrip<T(!new)>(items: seq<T>, write: Writer<T>, read: Reader<T>, rest: seq<byte>)
    requires Bounded(read) && forall x :: x in items ==> Inverse(read, write, x)
    ensures ReadAll(WriteAll(items, write) + rest, |items|, read) == Done(items, |WriteAll(items, write)|)
  {
    hide Bounded;
    if items != [] {
      var first, more := write(items[0]), WriteAll(items[1..], write);
      assert items[0] in items && (forall x :: x in items[1..] ==> x in items);
      assert Inverse(read, write, items[0]);
      Tail(first, more, rest);
      AllRoundTrip(items[1..], write, read, rest);
      assert items == [items[0]] + items[1..];
    }
  }

  lemma Tail(first: seq<byte>, more: seq<byte>, rest: seq<byte>)
    ensures (first + more) + rest == first + (more + rest) && (first + (more + rest))[|first|..] == more + rest
  {
  }

  /** The first refused item makes the run fail. */
  lemma {:induction false} AllRefused<T(!new)>(items: seq<T>, write: Writer<T>, read: Reader<T>, i: nat, rest: seq<byte>)
    requires Bounded(read) && i < |items| && Refused(read, write, items[i])
    requires forall x :: x in items ==> Inverse(read, write, x) || Refused(read, write, x)
    ensures ReadAll(WriteAll(items, write) + rest, |items|, read) == Fail
    decreases i
  {
    hide Bounded;
    var first, more := write(items[0]), WriteAll(items[1..], write);
    assert items[0] in items && (forall x :: x in items[1..] ==> x in items);
    Tail(first, more, rest);
    if i > 0 && Inverse(read, write, items[0]) {
      AllRefused(items[1..], write, read, i - 1, rest);
    }
  }

  /** The loop that reads the items one by one. */
  method ReadMany<T(!new)>(input: seq<byte>, start: nat, n: nat, read: Reader<T>) returns (r: Parse<seq<T>>)
    requires Bounded(read) && start <= |input|
    ensures r == ReadAll(input[start..], n, read)
  {
    hide ReadAll, Bounded;
    var items: seq<T>, position, i := [], start, 0;
    FromStart(ReadAll(input[start..], n, read));
    while i < n
      invariant i <= n && start <= position <= |input|
      invariant ReadAll(input[start..], n, read) == Prepended(items, position - start, ReadAll(input[position..], n - i, read))
    {
      ReadOne(items, position - start, input[position..], n - i, read);
      var next := read(input[position..]);
      if next.Fail? {
        return Fail;
      }
      assert input[position..][next.size..] == input[position + next.size..];
      items := items + [next.value];
      position := position + next.size;
      i := i + 1;
    }
    ReadNone(items, position - start, input[position..], read);
    return Done(items, position - start);
  }

  lemma ReadOne<T(!new)>(done: seq<T>, size: nat, s: seq<byte>, n: nat, read: Reader<T>)
    requires Bounded(read) && n > 0
    ensures read(s).Fail? ==> Prepended(done, size, ReadAll(s, n, read)) == Fail
    ensures read(s).Done? ==> read(s).size <= |s|
    ensures read(s).Done? ==> Prepended(done, size, ReadAll(s, n, read))
                              == Prepended(done + [read(s).value], size + read(s).size, ReadAll(s[read(s).size..], n - 1, read))
  {
    if read(s).Done? {
      OneMore(done, size, read(s).value, read(s).size, ReadAll(s[read(s).size..], n - 1, read));
    }
  }

  lemma ReadNone<T(!new)>(done: seq<T>, size: nat, s: seq<byte>, read: Reader<T>)
    requires Bounded(read)
    ensures Prepended(done, size, ReadAll(s, 0, read)) == Done(done, size)
  {
    assert done + [] == done;
  }

  function Prepended<T>(done: seq<T>, size: nat, rest: Parse<seq<T>>): Parse<seq<T>> {
    match rest
    case Fail => Fail
    case Done(items, k) => Done(done + items, size + k)
  }

  lemma FromStart<T>(rest: Parse<seq<T>>)
    ensures Prepended([], 0, rest) == rest
  {
    if rest.Done? {
      assert [] + rest.value == rest.value;
    }
  }

  lemma OneMore<T>(done: seq<T>, size: nat, x: T, k: nat, rest: Parse<seq<T>>)
    ensures Prepended(done, size, Prepended([x], k, rest)) == Prepended(done + [x], size + k, rest)
  {
    if rest.Done? {
      assert done + ([x] + rest.value) == (done + [x]) + rest.value;
    }
  }
}
