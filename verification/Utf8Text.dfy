/**
 UTF-8 as section 3 of RFC 3629 defines it: the well-formed strings the decoders accept byte
 pattern by byte pattern are the encodings of lists of Unicode scalar values.
 */
module Utf8Text {
  import opened Bytes
  import opened Cbor

  predicate Scalar(c: nat) {
    c <= 0x10_ffff && !(0xd800 <= c <= 0xdfff)
  }

  /** One to four bytes: the leading ones of the first say how many, six bits in each of the others. */
  function Spelling(c: nat): (s: seq<byte>)
    requires Scalar(c)
    ensures 1 <= |s| <= 4
  {
    if c < 0x80 then [c]
    else if c < 0x800 then [0xc0 + c / 0x40, 0x80 + c % 0x40]
    else if c < 0x1_0000 then [0xe0 + c / 0x1000, 0x80 + c / 0x40 % 0x40, 0x80 + c % 0x40]
    else [0xf0 + c / 0x4_0000, 0x80 + c / 0x1000 % 0x40, 0x80 + c / 0x40 % 0x40, 0x80 + c % 0x40]
  }

  predicate Scalars(cs: seq<nat>) {
    forall i :: 0 <= i < |cs| ==> Scalar(cs[i])
  }

  function Spelled(cs: seq<nat>): seq<byte>
    requires Scalars(cs)
  {
    if cs == [] then [] else Spelling(cs[0]) + Spelled(cs[1..])
  }

  ghost predicate IsText(t: seq<byte>) {
    exists cs :: Scalars(cs) && t == Spelled(cs)
  }

  lemma TwoByteChar(c: nat, s: seq<byte>)
    requires 0x80 <= c < 0x800 && |s| >= 2 && s[0] == 0xc0 + c / 0x40 && s[1] == 0x80 + c % 0x40
    ensures CharLen(s) == 2
  {
  }

  lemma ThreeByteChar(c: nat, s: seq<byte>, top: nat, middle: nat)
    requires Scalar(c) && 0x800 <= c < 0x1_0000 && |s| >= 3 && top == c / 0x1000 && middle == c / 0x40 % 0x40
    requires s[0] == 0xe0 + top && s[1] == 0x80 + middle && s[2] == 0x80 + c % 0x40
    ensures CharLen(s) == 3
  {
    assert c / 0x40 == top * 0x40 + middle;
  }

  lemma FourByteChar(c: nat, s: seq<byte>, top: nat, next: nat)
    requires Scalar(c) && 0x1_0000 <= c && |s| >= 4 && top == c / 0x4_0000 && next == c / 0x1000 % 0x40
    requires s[0] == 0xf0 + top && s[1] == 0x80 + next && s[2] == 0x80 + c / 0x40 % 0x40 && s[3] == 0x80 + c % 0x40
    ensures CharLen(s) == 4
  {
    assert c / 0x1000 == top * 0x40 + next;
  }

  /** A spelled scalar value at the front is one well-formed character. */
  lemma SpellingIsChar(c: nat, rest: seq<byte>)
    requires Scalar(c)
    ensures CharLen(Spelling(c) + rest) == |Spelling(c)|
  {
    var s := Spelling(c) + rest;
    assert forall i :: 0 <= i < |Spelling(c)| ==> s[i] == Spelling(c)[i];
    if c < 0x80 {
    } else if c < 0x800 {
      TwoByteChar(c, s);
    } else if c < 0x1_0000 {
      ThreeByteChar(c, s, c / 0x1000, c / 0x40 % 0x40);
    } else {
      FourByteChar(c, s, c / 0x4_0000, c / 0x1000 % 0x40);
    }
  }

  lemma TwoBytes(s: seq<byte>) returns (c: nat)
    requires CharLen(s) == 2
    ensures Scalar(c) && s[..2] == Spelling(c)
  {
    var a: nat, b: nat := s[0] - 0xc0, s[1] - 0x80;
    c := a * 0x40 + b;
    assert c / 0x40 == a && c % 0x40 == b;
  }

  lemma ThreeBytes(s: seq<byte>) returns (c: nat)
    requires CharLen(s) == 3
    ensures Scalar(c) && s[..3] == Spelling(c)
  {
    var a: nat, b: nat, d: nat := s[0] - 0xe0, s[1] - 0x80, s[2] - 0x80;
    var high: nat := a * 0x40 + b;
    c := high * 0x40 + d;
    assert c / 0x40 == high && c % 0x40 == d && c / 0x1000 == a && high % 0x40 == b;
  }

  lemma FourBytes(s: seq<byte>) returns (c: nat)
    requires CharLen(s) == 4
    ensures Scalar(c) && s[..4] == Spelling(c)
  {
    var a: nat, b: nat, d: nat, e: nat := s[0] - 0xf0, s[1] - 0x80, s[2] - 0x80, s[3] - 0x80;
    var top: nat := a * 0x40 + b;
    var high: nat := top * 0x40 + d;
    c := high * 0x40 + e;
    assert c / 0x40 == high && c % 0x40 == e && c / 0x1000 == top && high % 0x40 == d && c / 0x4_0000 == a && top % 0x40 == b;
  }

  /** And a well-formed character spells a scalar value. */
  lemma CharIsSpelling(s: seq<byte>) returns (c: nat)
    requires CharLen(s) > 0
    ensures Scalar(c) && s[..CharLen(s)] == Spelling(c)
  {
    if CharLen(s) == 1 {
      c := s[0];
    } else if CharLen(s) == 2 {
      c := TwoBytes(s);
    } else if CharLen(s) == 3 {
      c := ThreeBytes(s);
    } else {
      c := FourBytes(s);
    }
  }

  lemma {:induction false} SpelledIsUtf8(cs: seq<nat>)
    requires Scalars(cs)
    ensures Utf8(Spelled(cs))
  {
    if cs != [] {
      var (s, rest) := (Spelling(cs[0]), Spelled(cs[1..]));
      SpelledIsUtf8(cs[1..]);
      SpellingIsChar(cs[0], rest);
      assert (s + rest)[|s|..] == rest;
    }
  }

  lemma {:induction false} Utf8IsSpelled(t: seq<byte>) returns (cs: seq<nat>)
    requires Utf8(t)
    ensures Scalars(cs) && t == Spelled(cs)
    decreases |t|
  {
    if t == [] {
      return [];
    }
    var n := CharLen(t);
    var c := CharIsSpelling(t);
    var rest := Utf8IsSpelled(t[n..]);
    cs := [c] + rest;
    assert cs[1..] == rest && t == t[..n] + t[n..];
  }

  /** The strings accepted as UTF-8 are exactly the spelled lists of scalar values. */
  lemma Utf8Iff(t: seq<byte>)
    ensures Utf8(t) <==> IsText(t)
  {
    if Utf8(t) {
      var cs := Utf8IsSpelled(t);
    }
    if IsText(t) {
      var cs :| Scalars(cs) && t == Spelled(cs);
      SpelledIsUtf8(cs);
    }
  }
}
