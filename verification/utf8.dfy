/** UTF-8 text as code points, and what the checks on text accept. */
module Utf8 {
  import opened Base
  import opened Documents
  import opened Catalog
  import Nbf

  /** Unicode scalar values: all code points but the surrogates. */
  predicate Scalar(c: nat) {
    c < 0xd800 || 0xe000 <= c < 0x11_0000
  }

  /** RFC 3629 section 3: six bits in each byte after the first. */
  function Encoded(c: nat): (t: Text)
    requires Scalar(c)
    ensures t != []
  {
    if c < 0x80 then [c]
    else if c < 0x800 then [0xc0 + c / 0x40, 0x80 + c % 0x40]
    else if c < 0x1_0000 then [0xe0 + c / 0x1000, 0x80 + c / 0x40 % 0x40, 0x80 + c % 0x40]
    else [0xf0 + c / 0x4_0000, 0x80 + c / 0x1000 % 0x40, 0x80 + c / 0x40 % 0x40, 0x80 + c % 0x40]
  }

  predicate Scalars(cs: seq<nat>) {
    forall i :: 0 <= i < |cs| ==> Scalar(cs[i])
  }

  function TextOf(cs: seq<nat>): Text
    requires Scalars(cs)
  {
    if cs == [] then [] else Encoded(cs[0]) + TextOf(cs[1..])
  }

  // ---------- valid text ----------

  predicate TwoByteForm(t: Text) {
    |t| == 2 && 0xc2 <= t[0] <= 0xdf && Nbf.Tail(t[1])
  }

  predicate ThreeByteForm(t: Text) {
    |t| == 3 && 0xe0 <= t[0] <= 0xef && Nbf.Tail(t[1]) && Nbf.Tail(t[2]) && (t[0] == 0xe0 ==> t[1] >= 0xa0) && (t[0] == 0xed ==> t[1] < 0xa0)
  }

  predicate FourByteForm(t: Text) {
    && |t| == 4 && 0xf0 <= t[0] <= 0xf4 && Nbf.Tail(t[1]) && Nbf.Tail(t[2]) && Nbf.Tail(t[3])
    && (t[0] == 0xf0 ==> t[1] >= 0x90) && (t[0] == 0xf4 ==> t[1] < 0x90)
  }

  lemma EncodedShape(c: nat)
    requires Scalar(c)
    ensures var t := Encoded(c); (c < 0x80 && t == [c]) || TwoByteForm(t) || ThreeByteForm(t) || FourByteForm(t)
  {
  }

  lemma EncodedValid(c: nat, rest: Text)
    requires Scalar(c)
    ensures Nbf.ValidUtf8(Encoded(c) + rest) <==> Nbf.ValidUtf8(rest)
  {
    hide Encoded;
    EncodedShape(c);
    var t := Encoded(c) + rest;
    assert t[|Encoded(c)|..] == rest;
  }

  /** The first code point of valid text. */
  lemma FirstScalar(t: Text) returns (c: nat)
    requires t != [] && Nbf.ValidUtf8(t)
    ensures Scalar(c) && |Encoded(c)| <= |t| && t == Encoded(c) + t[|Encoded(c)|..]
  {
    if t[0] < 0x80 {
      c := t[0];
    } else if t[0] < 0xe0 {
      c := TwoBytes(t[0] - 0xc0, t[1] - 0x80);
    } else if t[0] < 0xf0 {
      c := ThreeBytes(t[0] - 0xe0, t[1] - 0x80, t[2] - 0x80);
    } else {
      c := FourBytes(t[0] - 0xf0, t[1] - 0x80, t[2] - 0x80, t[3] - 0x80);
    }
  }

  lemma TwoBytes(a: nat, b: nat) returns (c: nat)
    requires b < 0x40
    ensures c == a * 0x40 + b && c / 0x40 == a && c % 0x40 == b
  {
    c := a * 0x40 + b;
  }

  lemma ThreeBytes(a: nat, b: nat, d: nat) returns (c: nat)
    requires a < 0x10 && b < 0x40 && d < 0x40
    ensures c == a * 0x1000 + b * 0x40 + d && c / 0x1000 == a && c / 0x40 % 0x40 == b && c % 0x40 == d
  {
    c := a * 0x1000 + b * 0x40 + d;
    assert c / 0x40 == a * 0x40 + b;
  }

  lemma FourBytes(a: nat, b: nat, d: nat, e: nat) returns (c: nat)
    requires a < 8 && b < 0x40 && d < 0x40 && e < 0x40
    ensures c == a * 0x4_0000 + b * 0x1000 + d * 0x40 + e
    ensures c / 0x4_0000 == a && c / 0x1000 % 0x40 == b && c / 0x40 % 0x40 == d && c % 0x40 == e
  {
    c := a * 0x4_0000 + b * 0x1000 + d * 0x40 + e;
    assert c / 0x1000 == a * 0x40 + b && c / 0x40 == a * 0x1000 + b * 0x40 + d;
  }

  lemma {:induction false} ValidScalars(t: Text) returns (cs: seq<nat>)
    requires Nbf.ValidUtf8(t)
    ensures Scalars(cs) && t == TextOf(cs)
    decreases |t|
  {
    cs := [];
    if t != [] {
      var c := FirstScalar(t);
      var rest := t[|Encoded(c)|..];
      EncodedValid(c, rest);
      var later := ValidScalars(rest);
      cs := [c] + later;
      assert cs[1..] == later;
    }
  }

  lemma {:induction false} ScalarsValid(cs: seq<nat>)
    requires Scalars(cs)
    ensures Nbf.ValidUtf8(TextOf(cs))
  {
    if cs != [] {
      ScalarsValid(cs[1..]);
      EncodedValid(cs[0], TextOf(cs[1..]));
    }
  }

  /** The check accepts exactly the encodings of lists of scalar values. */
  lemma ValidExactly(t: Text)
    ensures Nbf.ValidUtf8(t) <==> exists cs :: Scalars(cs) && t == TextOf(cs)
  {
    if Nbf.ValidUtf8(t) {
      var cs := ValidScalars(t);
    }
    if cs :| Scalars(cs) && t == TextOf(cs) {
      ScalarsValid(cs);
    }
  }

  // ---------- identifiers ----------

  /** Letters, digits and the underscore, and beyond ASCII what the alphabet says. */
  predicate WordScalar(c: nat, alphabet: Alphabet)
    requires Scalar(c)
  {
    || 'a' as int <= c <= 'z' as int || 'A' as int <= c <= 'Z' as int || '0' as int <= c <= '9' as int || c == '_' as int
    || (c >= 0x80 && alphabet(Encoded(c)))
  }

  lemma CharacterSplit(c: nat, rest: Text)
    requires Scalar(c) && (rest != [] ==> !(0x80 <= rest[0] < 0xc0))
    ensures Characters(Encoded(c) + rest) == [Encoded(c)] + Characters(rest)
  {
    EncodedTails(c);
    SplitAfter(Encoded(c), rest);
  }

  lemma EncodedTails(c: nat)
    requires Scalar(c)
    ensures var t := Encoded(c);
            !(0x80 <= t[0] < 0xc0) && (t[0] < 0x80 <==> c < 0x80) && (c < 0x80 ==> t == [c])
            && forall i :: 0 <= i < |t| - 1 ==> 0x80 <= t[1..][i] < 0xc0
  {
  }

  lemma SplitAfter(first: Text, rest: Text)
    requires first != [] && (forall i :: 0 <= i < |first| - 1 ==> 0x80 <= first[1..][i] < 0xc0) && (rest != [] ==> !(0x80 <= rest[0] < 0xc0))
    ensures Characters(first + rest) == [first] + Characters(rest)
  {
    var t := first + rest;
    assert t[1..] == first[1..] + rest;
    TailsOf(first[1..], rest);
    assert t[..|first|] == first && t[|first|..] == rest;
  }

  lemma {:induction false} TailsOf(tails: Text, rest: Text)
    requires (forall i :: 0 <= i < |tails| ==> 0x80 <= tails[i] < 0xc0) && (rest != [] ==> !(0x80 <= rest[0] < 0xc0))
    ensures Tails(tails + rest) == |tails|
  {
    if tails == [] {
      assert tails + rest == rest;
    } else {
      TailsOf(tails[1..], rest);
      assert (tails + rest)[1..] == tails[1..] + rest;
    }
  }

  lemma {:induction false} AllWordScalars(cs: seq<nat>, alphabet: Alphabet)
    requires Scalars(cs)
    ensures AllWord(Characters(TextOf(cs)), alphabet) <==> forall i :: 0 <= i < |cs| ==> WordScalar(cs[i], alphabet)
    ensures TextOf(cs) != [] ==> !(0x80 <= TextOf(cs)[0] < 0xc0)
  {
    hide Encoded, Characters, WordCharacter, WordScalar, AllWord;
    if cs == [] {
      NoCharacters(alphabet);
    } else {
      var first, rest := Encoded(cs[0]), TextOf(cs[1..]);
      AllWordScalars(cs[1..], alphabet);
      EncodedTails(cs[0]);
      CharacterSplit(cs[0], rest);
      WordFirst(first, Characters(rest), alphabet);
      WordIs(cs[0], alphabet);
      assert cs == [cs[0]] + cs[1..];
    }
  }

  lemma NoCharacters(alphabet: Alphabet)
    ensures AllWord(Characters([]), alphabet)
  {
  }

  lemma WordIs(c: nat, alphabet: Alphabet)
    requires Scalar(c)
    ensures WordCharacter(Encoded(c), alphabet) <==> WordScalar(c, alphabet)
  {
    EncodedTails(c);
  }

  lemma WordFirst(first: Text, rest: seq<Text>, alphabet: Alphabet)
    requires first != []
    ensures AllWord([first] + rest, alphabet) <==> WordCharacter(first, alphabet) && AllWord(rest, alphabet)
  {
    var all := [first] + rest;
    assert all[0] == first && all[1..] == rest;
    if AllWord(all, alphabet) {
      forall i | 0 <= i < |rest|
        ensures rest[i] != [] && WordCharacter(rest[i], alphabet)
      {
        assert rest[i] == all[i + 1];
      }
    }
  }

  /** A name is valid exactly if it is not empty and all its code points are letters, digits or underscores. */
  lemma IdentifierExactly(cs: seq<nat>, alphabet: Alphabet)
    requires Scalars(cs)
    ensures ValidIdentifier(TextOf(cs), alphabet) <==> cs != [] && forall i :: 0 <= i < |cs| ==> WordScalar(cs[i], alphabet)
  {
    AllWordScalars(cs, alphabet);
  }
}
