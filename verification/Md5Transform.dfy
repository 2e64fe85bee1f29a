/** The macros of md5.c and the 64 steps of body(), written out as in the source. */
module Md5Transform {
  import opened Bytes
  import opened Rfc1321

  /** The macros F, G, H, H2 and I. */
  function MacroF(x: word, y: word, z: word): word { z ^ (x & (y ^ z)) }

  function MacroG(x: word, y: word, z: word): word { y ^ (z & (x ^ y)) }

  function MacroH(x: word, y: word, z: word): word { (x ^ y) ^ z }

  function MacroH2(x: word, y: word, z: word): word { x ^ (y ^ z) }

  function MacroI(x: word, y: word, z: word): word { y ^ (x | !z) }

  /** F and G are written with fewer operations than in the RFC. */
  lemma {:induction false} FAgrees(x: word, y: word, z: word)
    ensures MacroF(x, y, z) == F(x, y, z)
  {
    SelectBits(x, y, z);
  }

  lemma {:induction false} GAgrees(x: word, y: word, z: word)
    ensures MacroG(x, y, z) == G(x, y, z)
  {
    SelectBits(z, x, y);
    MoveMask(x, y, z);
  }

  lemma {:induction false} SelectBits(x: word, y: word, z: word)
    ensures z ^ (x & (y ^ z)) == (x & y) | (!x & z)
  {
  }

  lemma {:induction false} MoveMask(x: word, y: word, z: word)
    ensures (z & x) | (!z & y) == (x & z) | (y & !z)
  {
  }

  lemma {:induction false} HAgrees(x: word, y: word, z: word)
    ensures MacroH(x, y, z) == MacroH2(x, y, z) == H(x, y, z)
  {
  }

  lemma {:induction false} IAgrees(x: word, y: word, z: word)
    ensures MacroI(x, y, z) == I(x, y, z)
  {
  }

  /** The macro STEP, for the value f of its function; the result is the new value of `a`. */
  function Step(f: word, a: word, b: word, x: word, t: word, s: nat): word
    requires s < 32
  {
    var sum := a + (f + x + t);
    ((sum << s) | ((sum & 0xffffffff) >> (32 - s))) + b
  }

  lemma {:induction false} StepAgrees(f: word, a: word, b: word, x: word, t: word, s: nat)
    requires s < 32
    ensures Step(f, a, b, x, t, s) == Operate(a, b, f, x, t, s)
  {
    assert a + (f + x + t) == a + f + x + t;
  }

  /** The state after n steps is p. */
  ghost predicate Reached(q: State, x: seq<word>, n: nat, p: State)
    requires |x| == 16
  {
    forall m: nat {:trigger Steps(q, x, m)} :: m == n ==> Steps(q, x, m) == p
  }

  /** STEP(F, a, b, c, d, x[k], t, s): the new value of a. */
  method StepF(a: word, b: word, c: word, d: word, x: seq<word>, k: nat, t: word, s: nat, ghost q: State, ghost j: nat)
    returns (r: word)
    requires |x| == 16 && j < 16 && Round1(j) == Row(k, s, t)
    requires Reached(q, x, 0 + j, State(a, b, c, d))
    ensures Reached(q, x, 1 + j, State(d, r, b, c))
  {
    FAgrees(b, c, d);
    r := Step(MacroF(b, c, d), a, b, x[k], t, s);
    StepAgrees(F(b, c, d), a, b, x[k], t, s);
  }

  /** STEP(G, a, b, c, d, x[k], t, s): the new value of a. */
  method StepG(a: word, b: word, c: word, d: word, x: seq<word>, k: nat, t: word, s: nat, ghost q: State, ghost j: nat)
    returns (r: word)
    requires |x| == 16 && j < 16 && Round2(j) == Row(k, s, t)
    requires Reached(q, x, 16 + j, State(a, b, c, d))
    ensures Reached(q, x, 17 + j, State(d, r, b, c))
  {
    GAgrees(b, c, d);
    r := Step(MacroG(b, c, d), a, b, x[k], t, s);
    StepAgrees(G(b, c, d), a, b, x[k], t, s);
  }

  /** STEP(H, a, b, c, d, x[k], t, s): the new value of a. */
  method StepH(a: word, b: word, c: word, d: word, x: seq<word>, k: nat, t: word, s: nat, ghost q: State, ghost j: nat)
    returns (r: word)
    requires |x| == 16 && j < 16 && Round3(j) == Row(k, s, t)
    requires Reached(q, x, 32 + j, State(a, b, c, d))
    ensures Reached(q, x, 33 + j, State(d, r, b, c))
  {
    HAgrees(b, c, d);
    r := Step(MacroH(b, c, d), a, b, x[k], t, s);
    StepAgrees(H(b, c, d), a, b, x[k], t, s);
  }

  /** STEP(H2, a, b, c, d, x[k], t, s): the new value of a. */
  method StepH2(a: word, b: word, c: word, d: word, x: seq<word>, k: nat, t: word, s: nat, ghost q: State, ghost j: nat)
    returns (r: word)
    requires |x| == 16 && j < 16 && Round3(j) == Row(k, s, t)
    requires Reached(q, x, 32 + j, State(a, b, c, d))
    ensures Reached(q, x, 33 + j, State(d, r, b, c))
  {
    HAgrees(b, c, d);
    r := Step(MacroH2(b, c, d), a, b, x[k], t, s);
    StepAgrees(H(b, c, d), a, b, x[k], t, s);
  }

  /** STEP(I, a, b, c, d, x[k], t, s): the new value of a. */
  method StepI(a: word, b: word, c: word, d: word, x: seq<word>, k: nat, t: word, s: nat, ghost q: State, ghost j: nat)
    returns (r: word)
    requires |x| == 16 && j < 16 && Round4(j) == Row(k, s, t)
    requires Reached(q, x, 48 + j, State(a, b, c, d))
    ensures Reached(q, x, 49 + j, State(d, r, b, c))
  {
    IAgrees(b, c, d);
    r := Step(MacroI(b, c, d), a, b, x[k], t, s);
    StepAgrees(I(b, c, d), a, b, x[k], t, s);
  }

  method Rounds1(a0: word, b0: word, c0: word, d0: word, x: seq<word>, ghost q: State)
    returns (a: word, b: word, c: word, d: word)
    requires |x| == 16 && Reached(q, x, 0, State(a0, b0, c0, d0))
    ensures Reached(q, x, 16, State(a, b, c, d))
  {
    a, b, c, d := a0, b0, c0, d0;
    a := StepF(a, b, c, d, x, 0, 0xd76aa478, 7, q, 0);
    d := StepF(d, a, b, c, x, 1, 0xe8c7b756, 12, q, 1);
    c := StepF(c, d, a, b, x, 2, 0x242070db, 17, q, 2);
    b := StepF(b, c, d, a, x, 3, 0xc1bdceee, 22, q, 3);
    a := StepF(a, b, c, d, x, 4, 0xf57c0faf, 7, q, 4);
    d := StepF(d, a, b, c, x, 5, 0x4787c62a, 12, q, 5);
    c := StepF(c, d, a, b, x, 6, 0xa8304613, 17, q, 6);
    b := StepF(b, c, d, a, x, 7, 0xfd469501, 22, q, 7);
    a := StepF(a, b, c, d, x, 8, 0x698098d8, 7, q, 8);
    d := StepF(d, a, b, c, x, 9, 0x8b44f7af, 12, q, 9);
    c := StepF(c, d, a, b, x, 10, 0xffff5bb1, 17, q, 10);
    b := StepF(b, c, d, a, x, 11, 0x895cd7be, 22, q, 11);
    a := StepF(a, b, c, d, x, 12, 0x6b901122, 7, q, 12);
    d := StepF(d, a, b, c, x, 13, 0xfd987193, 12, q, 13);
    c := StepF(c, d, a, b, x, 14, 0xa679438e, 17, q, 14);
    b := StepF(b, c, d, a, x, 15, 0x49b40821, 22, q, 15);
  }

  method Rounds2(a0: word, b0: word, c0: word, d0: word, x: seq<word>, ghost q: State)
    returns (a: word, b: word, c: word, d: word)
    requires |x| == 16 && Reached(q, x, 16, State(a0, b0, c0, d0))
    ensures Reached(q, x, 32, State(a, b, c, d))
  {
    a, b, c, d := a0, b0, c0, d0;
    a := StepG(a, b, c, d, x, 1, 0xf61e2562, 5, q, 0);
    d := StepG(d, a, b, c, x, 6, 0xc040b340, 9, q, 1);
    c := StepG(c, d, a, b, x, 11, 0x265e5a51, 14, q, 2);
    b := StepG(b, c, d, a, x, 0, 0xe9b6c7aa, 20, q, 3);
    a := StepG(a, b, c, d, x, 5, 0xd62f105d, 5, q, 4);
    d := StepG(d, a, b, c, x, 10, 0x02441453, 9, q, 5);
    c := StepG(c, d, a, b, x, 15, 0xd8a1e681, 14, q, 6);
    b := StepG(b, c, d, a, x, 4, 0xe7d3fbc8, 20, q, 7);
    a := StepG(a, b, c, d, x, 9, 0x21e1cde6, 5, q, 8);
    d := StepG(d, a, b, c, x, 14, 0xc33707d6, 9, q, 9);
    c := StepG(c, d, a, b, x, 3, 0xf4d50d87, 14, q, 10);
    b := StepG(b, c, d, a, x, 8, 0x455a14ed, 20, q, 11);
    a := StepG(a, b, c, d, x, 13, 0xa9e3e905, 5, q, 12);
    d := StepG(d, a, b, c, x, 2, 0xfcefa3f8, 9, q, 13);
    c := StepG(c, d, a, b, x, 7, 0x676f02d9, 14, q, 14);
    b := StepG(b, c, d, a, x, 12, 0x8d2a4c8a, 20, q, 15);
  }

  method Rounds3(a0: word, b0: word, c0: word, d0: word, x: seq<word>, ghost q: State)
    returns (a: word, b: word, c: word, d: word)
    requires |x| == 16 && Reached(q, x, 32, State(a0, b0, c0, d0))
    ensures Reached(q, x, 48, State(a, b, c, d))
  {
    a, b, c, d := a0, b0, c0, d0;
    a := StepH(a, b, c, d, x, 5, 0xfffa3942, 4, q, 0);
    d := StepH2(d, a, b, c, x, 8, 0x8771f681, 11, q, 1);
    c := StepH(c, d, a, b, x, 11, 0x6d9d6122, 16, q, 2);
    b := StepH2(b, c, d, a, x, 14, 0xfde5380c, 23, q, 3);
    a := StepH(a, b, c, d, x, 1, 0xa4beea44, 4, q, 4);
    d := StepH2(d, a, b, c, x, 4, 0x4bdecfa9, 11, q, 5);
    c := StepH(c, d, a, b, x, 7, 0xf6bb4b60, 16, q, 6);
    b := StepH2(b, c, d, a, x, 10, 0xbebfbc70, 23, q, 7);
    a := StepH(a, b, c, d, x, 13, 0x289b7ec6, 4, q, 8);
    d := StepH2(d, a, b, c, x, 0, 0xeaa127fa, 11, q, 9);
    c := StepH(c, d, a, b, x, 3, 0xd4ef3085, 16, q, 10);
    b := StepH2(b, c, d, a, x, 6, 0x04881d05, 23, q, 11);
    a := StepH(a, b, c, d, x, 9, 0xd9d4d039, 4, q, 12);
    d := StepH2(d, a, b, c, x, 12, 0xe6db99e5, 11, q, 13);
    c := StepH(c, d, a, b, x, 15, 0x1fa27cf8, 16, q, 14);
    b := StepH2(b, c, d, a, x, 2, 0xc4ac5665, 23, q, 15);
  }

  method Rounds4(a0: word, b0: word, c0: word, d0: word, x: seq<word>, ghost q: State)
    returns (a: word, b: word, c: word, d: word)
    requires |x| == 16 && Reached(q, x, 48, State(a0, b0, c0, d0))
    ensures Reached(q, x, 64, State(a, b, c, d))
  {
    a, b, c, d := a0, b0, c0, d0;
    a := StepI(a, b, c, d, x, 0, 0xf4292244, 6, q, 0);
    d := StepI(d, a, b, c, x, 7, 0x432aff97, 10, q, 1);
    c := StepI(c, d, a, b, x, 14, 0xab9423a7, 15, q, 2);
    b := StepI(b, c, d, a, x, 5, 0xfc93a039, 21, q, 3);
    a := StepI(a, b, c, d, x, 12, 0x655b59c3, 6, q, 4);
    d := StepI(d, a, b, c, x, 3, 0x8f0ccc92, 10, q, 5);
    c := StepI(c, d, a, b, x, 10, 0xffeff47d, 15, q, 6);
    b := StepI(b, c, d, a, x, 1, 0x85845dd1, 21, q, 7);
    a := StepI(a, b, c, d, x, 8, 0x6fa87e4f, 6, q, 8);
    d := StepI(d, a, b, c, x, 15, 0xfe2ce6e0, 10, q, 9);
    c := StepI(c, d, a, b, x, 6, 0xa3014314, 15, q, 10);
    b := StepI(b, c, d, a, x, 13, 0x4e0811a1, 21, q, 11);
    a := StepI(a, b, c, d, x, 4, 0xf7537e82, 6, q, 12);
    d := StepI(d, a, b, c, x, 11, 0xbd3af235, 10, q, 13);
    c := StepI(c, d, a, b, x, 2, 0x2ad7d2bb, 15, q, 14);
    b := StepI(b, c, d, a, x, 9, 0xeb86d391, 21, q, 15);
  }

  /** The macro SET, as it is for machines of any byte order. */
  function Set(ptr: seq<byte>, n: nat): word
    requires 4 * n + 4 <= |ptr|
  {
    (ptr[n * 4] as word) | ((ptr[n * 4 + 1] as word) << 8) | ((ptr[n * 4 + 2] as word) << 16)
      | ((ptr[n * 4 + 3] as word) << 24)
  }

  lemma {:induction false} SetAgrees(ptr: seq<byte>, n: nat)
    requires 4 * n + 4 <= |ptr|
    ensures Set(ptr, n) == WordAt(ptr, n)
  {
    assert n * 4 == 4 * n;
  }

  function SetAll(ptr: seq<byte>): (x: seq<word>)
    requires |ptr| == 64
    ensures x == Words(ptr)
  {
    var x := seq(16, n requires 0 <= n < 16 => Set(ptr, n));
    assert forall n :: 0 <= n < 16 ==> x[n] == Words(ptr)[n] by {
      forall n | 0 <= n < 16 ensures x[n] == Words(ptr)[n] {
        SetAgrees(ptr, n);
      }
    }
    x
  }

  lemma {:induction false} ReachedStart(q: State, x: seq<word>)
    requires |x| == 16
    ensures Reached(q, x, 0, q)
  {
  }

  lemma {:induction false} ReachedEnd(q: State, x: seq<word>, n: nat, p: State)
    requires |x| == 16 && Reached(q, x, n, p)
    ensures Steps(q, x, n) == p
  {
  }

  /** The body of the loop in body(): one block, with SET and GET reading its bytes. */
  method Transform(q: State, block: seq<byte>) returns (p: State)
    requires |block| == 64
    ensures p == Compress(q, block)
  {
    var x := SetAll(block);
    ReachedStart(q, x);
    var a, b, c, d := Rounds1(q.a, q.b, q.c, q.d, x, q);
    a, b, c, d := Rounds2(a, b, c, d, x, q);
    a, b, c, d := Rounds3(a, b, c, d, x, q);
    a, b, c, d := Rounds4(a, b, c, d, x, q);
    ReachedEnd(q, x, 64, State(a, b, c, d));
    p := Sum(State(a, b, c, d), q);
    CompressSteps(q, block);
  }
}
