/** UTF-8 as the encoding of Unicode scalar values, by the table in section 3 of RFC 3629: what the check
    accepts are exactly the encodings. */
module Utf8Encoding {
  import opened Bytes
  import opened Utf8

  predicate IsScalar(c: nat) {
    c < 0xd800 || 0xe000 <= c <= 0x10ffff
  }

  function Encode(c: nat): (s: seq<byte>)
    requires IsScalar(c)
    ensures 1 <= |s| <= 4
  {
    if c < 0x80 then [c]
    else if c < 0x800 then [0xc0 + c / 0x40, 0x80 + c % 0x40]
    else if c < 0x1_0000 then [0xe0 + c / 0x1000, 0x80 + c / 0x40 % 0x40, 0x80 + c % 0x40]
    else [0xf0 + c / 0x4_0000, 0x80 + c / 0x1000 % 0x40, 0x80 + c / 0x40 % 0x40, 0x80 + c % 0x40]
  }

  /** The encoding of a scalar value is one character, whatever follows it. */
  lemma {:induction false} EncodingIsCharacter(c: nat, rest: seq<byte>)
    requires IsScalar(c)
    ensures CharAt(Encode(c) + rest) == |Encode(c)|
  {
    var s := Encode(c) + rest;
    CharAtIs(s);
    assert forall i :: 0 <= i < |Encode(c)| ==> s[i] == Encode(c)[i];
    Places(c);
  }

  lemma {:induction false} Places(c: nat)
    ensures c / 0x1000 == c / 0x40 / 0x40 && c / 0x4_0000 == c / 0x1000 / 0x40
    ensures c == c / 0x40 * 0x40 + c % 0x40 && c / 0x40 == c / 0x1000 * 0x40 + c / 0x40 % 0x40
  {
  }

  /** A character is the encoding of a scalar value. */
  lemma {:induction false} CharacterIsEncoding(s: seq<byte>) returns (c: nat)
    requires CharAt(s) > 0
    ensures IsScalar(c) && s[..CharAt(s)] == Encode(c)
  {
    CharAtIs(s);
    var n := CharLength(s);
    if n == 1 {
      c := s[0];
    } else if n == 2 {
      var a: nat, b: nat := s[0] - 0xc0, s[1] - 0x80;
      c := a * 0x40 + b;
    } else if n == 3 {
      var a: nat, b: nat, d: nat := s[0] - 0xe0, s[1] - 0x80, s[2] - 0x80;
      c := a * 0x1000 + b * 0x40 + d;
      Three(a, b, d, c);
    } else {
      var a: nat, b: nat, d: nat, e: nat := s[0] - 0xf0, s[1] - 0x80, s[2] - 0x80, s[3] - 0x80;
      c := a * 0x4_0000 + b * 0x1000 + d * 0x40 + e;
      Four(a, b, d, e, c);
    }
  }

  lemma {:induction false} Three(a: nat, b: nat, d: nat, c: nat)
    requires b < 0x40 && d < 0x40 && c == a * 0x1000 + b * 0x40 + d
    ensures c / 0x1000 == a && c / 0x40 % 0x40 == b && c % 0x40 == d
  {
    assert c / 0x40 == a * 0x40 + b;
  }

  lemma {:induction false} Four(a: nat, b: nat, d: nat, e: nat, c: nat)
    requires b < 0x40 && d < 0x40 && e < 0x40 && c == a * 0x4_0000 + b * 0x1000 + d * 0x40 + e
    ensures c / 0x4_0000 == a && c / 0x1000 % 0x40 == b && c / 0x40 % 0x40 == d && c % 0x40 == e
  {
    assert c / 0x40 == a * 0x1000 + b * 0x40 + d;
    assert c / 0x1000 == a * 0x40 + b;
  }

  ghost predicate AllScalar(cs: seq<nat>) {
    forall i :: 0 <= i < |cs| ==> IsScalar(cs[i])
  }

  function EncodeAll(cs: seq<nat>): seq<byte>
    requires forall i :: 0 <= i < |cs| ==> IsScalar(cs[i])
  {
    if cs == [] then [] else Encode(cs[0]) + EncodeAll(cs[1..])
  }

  lemma {:induction false} EncodedIsBoundary(cs: seq<nat>, rest: seq<byte>)
    requires AllScalar(cs)
    ensures Boundary(EncodeAll(cs) + rest, |EncodeAll(cs)|)
    decreases |cs|
  {
    if cs != [] {
      var first, more := Encode(cs[0]), EncodeAll(cs[1..]);
      var s := first + more + rest;
      assert s == EncodeAll(cs) + rest && s == first + (more + rest);
      EncodingIsCharacter(cs[0], more + rest);
      assert s[|first|..] == more + rest;
      EncodedIsBoundary(cs[1..], rest);
    }
  }

  lemma {:induction false} BoundaryIsEncoded(s: seq<byte>, p: nat) returns (cs: seq<nat>)
    requires Boundary(s, p) && p <= |s|
    ensures AllScalar(cs) && s[..p] == EncodeAll(cs)
    decreases p
  {
    if p == 0 {
      cs := [];
    } else {
      var n := CharAt(s);
      var c := CharacterIsEncoding(s);
      var more := BoundaryIsEncoded(s[n..], p - n);
      cs := [c] + more;
      FirstOfAll(c, more);
      Slices(s, n, p);
    }
  }

  lemma {:induction false} FirstOfAll(c: nat, more: seq<nat>)
    requires IsScalar(c) && AllScalar(more)
    ensures AllScalar([c] + more) && EncodeAll([c] + more) == Encode(c) + EncodeAll(more)
  {
    assert ([c] + more)[1..] == more;
  }

  lemma {:induction false} Slices(s: seq<byte>, n: nat, p: nat)
    requires n <= p <= |s|
    ensures s[..p] == s[..n] + s[n..][..p - n]
  {
  }

  /** Whole characters are the encoding of some text. */
  lemma {:induction false} BoundaryIff(s: seq<byte>, p: nat)
    requires p <= |s|
    ensures Boundary(s, p) <==> exists cs :: AllScalar(cs) && s[..p] == EncodeAll(cs)
  {
    if Boundary(s, p) {
      var cs := BoundaryIsEncoded(s, p);
    }
    if cs :| AllScalar(cs) && s[..p] == EncodeAll(cs) {
      assert s == EncodeAll(cs) + s[p..];
      EncodedIsBoundary(cs, s[p..]);
    }
  }
}
