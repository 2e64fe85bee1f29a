/** Well-formed UTF-8, by the syntax in section 4 of RFC 3629, and the longest part of a text that
    consists of whole characters. */
module Utf8 {
  import opened Bytes

  predicate IsTail(b: byte) { 0x80 <= b <= 0xbf }

  /** The number of bytes of the character at the start of s; 0 if there is none. */
  function CharLength(s: seq<byte>): (n: nat)
    ensures n <= 4 && n <= |s|
  {
    if s == [] then 0
    else if s[0] <= 0x7f then 1
    else if |s| < 2 then 0
    else if 0xc2 <= s[0] <= 0xdf then (if IsTail(s[1]) then 2 else 0)
    else if |s| < 3 then 0
    else if 0xe0 <= s[0] <= 0xef then
      var low, high := if s[0] == 0xe0 then 0xa0 else 0x80, if s[0] == 0xed then 0x9f else 0xbf;
      (if low <= s[1] <= high && IsTail(s[2]) then 3 else 0)
    else if |s| < 4 then 0
    else if 0xf0 <= s[0] <= 0xf4 then
      var low, high := if s[0] == 0xf0 then 0x90 else 0x80, if s[0] == 0xf4 then 0x8f else 0xbf;
      (if low <= s[1] <= high && IsTail(s[2]) && IsTail(s[3]) then 4 else 0)
    else 0
  }

  /** The quantifier keeps the syntax out of proofs that do not mention it. */
  ghost predicate IsCharLength(s: seq<byte>, n: nat) {
    n <= 4 && n <= |s| && forall t {:trigger CharLength(t)} :: t == s ==> n == CharLength(t)
  }

  ghost function CharAt(s: seq<byte>): (n: nat)
    ensures n <= 4 && n <= |s|
  {
    assert IsCharLength(s, CharLength(s));
    var n: nat :| IsCharLength(s, n);
    n
  }

  lemma {:induction false} CharAtIs(s: seq<byte>)
    ensures CharAt(s) == CharLength(s)
  {
    assert IsCharLength(s, CharAt(s));
  }

  /** Whole characters fill exactly the first p bytes of s. */
  ghost predicate Boundary(s: seq<byte>, p: nat)
    decreases p
  {
    p == 0 || (0 < CharAt(s) <= p && Boundary(s[CharAt(s)..], p - CharAt(s)))
  }

  /** The same, said so that a proof looks at characters only where it mentions a boundary. */
  ghost predicate Complete(s: seq<byte>, p: nat) {
    forall q: nat {:trigger Boundary(s, q)} :: q == p ==> Boundary(s, q)
  }

  lemma {:induction false} CompleteIff(s: seq<byte>, p: nat)
    ensures Complete(s, p) <==> Boundary(s, p)
  {
  }

  /** How far a check for UTF-8 gets that looks at no more than `max` bytes. */
  ghost function Prefix(s: seq<byte>, max: nat): (p: nat)
    ensures p <= max && p <= |s|
    decreases |s|
  {
    var n := CharAt(s);
    if n == 0 || n > max then 0 else n + Prefix(s[n..], max - n)
  }

  /** The check stops at a boundary, and there is none further on within reach. */
  lemma {:induction false} PrefixIsLongest(s: seq<byte>, max: nat)
    ensures Boundary(s, Prefix(s, max))
    ensures forall p: nat :: Boundary(s, p) && p <= max ==> p <= Prefix(s, max)
    decreases |s|
  {
    var n := CharAt(s);
    if 0 < n <= max {
      PrefixIsLongest(s[n..], max - n);
      forall p: nat | Boundary(s, p) && p <= max ensures p <= Prefix(s, max) {
        if p > 0 {
          assert Boundary(s[n..], p - n);
        }
      }
    }
  }

  lemma {:induction false} BoundaryAdds(s: seq<byte>, p: nat, k: nat)
    requires Boundary(s, p) && p <= |s| && Boundary(s[p..], k)
    ensures Boundary(s, p + k)
    decreases p
  {
    if p > 0 {
      var n := CharAt(s);
      assert s[n..][p - n..] == s[p..];
      BoundaryAdds(s[n..], p - n, k);
    } else {
      assert s[0..] == s;
    }
  }

  /** Between two boundaries there are whole characters. */
  lemma {:induction false} BoundaryBetween(s: seq<byte>, p: nat, q: nat)
    requires Boundary(s, p) && Boundary(s, q) && p <= q <= |s|
    ensures Boundary(s[p..], q - p)
    decreases p
  {
    if p > 0 {
      var n := CharAt(s);
      assert s[n..][p - n..] == s[p..];
      BoundaryBetween(s[n..], p - n, q - n);
    } else {
      assert s[0..] == s;
    }
  }

  /** Before the end of the valid part, a check of at least one longest character gets on. */
  lemma {:induction false} PrefixGetsOn(s: seq<byte>, p: nat, q: nat, max: nat)
    requires Boundary(s, p) && Boundary(s, q) && p < q <= |s| && max >= 4
    ensures Prefix(s[p..], max) > 0
  {
    BoundaryBetween(s, p, q);
  }

  method Character(s: seq<byte>) returns (n: nat)
    ensures n == CharAt(s)
  {
    n := CharLength(s);
    CharAtIs(s);
  }

  /** The check itself: it goes from character to character. */
  method Check(s: seq<byte>, max: nat) returns (p: nat)
    ensures p == Prefix(s, max)
  {
    p := 0;
    assert s[0..] == s;
    while true
      invariant p <= max && p <= |s| && Prefix(s, max) == p + Prefix(s[p..], max - p)
      decreases |s| - p
    {
      var n := Character(s[p..]);
      if n == 0 || n > max - p {
        return;
      }
      assert s[p..][n..] == s[p + n..];
      p := p + n;
    }
  }
}
