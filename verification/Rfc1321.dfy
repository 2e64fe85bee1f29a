/** The MD5 message digest as RFC 1321 defines it: a function of the whole message. */
module Rfc1321 {
  import opened Bytes

  type word = bv32

  datatype State = State(a: word, b: word, c: word, d: word)

  /** The auxiliary functions of section 3.4. */
  function F(x: word, y: word, z: word): word { (x & y) | (!x & z) }

  function G(x: word, y: word, z: word): word { (x & z) | (y & !z) }

  function H(x: word, y: word, z: word): word { x ^ y ^ z }

  function I(x: word, y: word, z: word): word { y ^ (x | !z) }

  /** The function that a round uses. */
  function Auxiliary(round: nat, x: word, y: word, z: word): word {
    if round == 0 then F(x, y, z) else if round == 1 then G(x, y, z) else if round == 2 then H(x, y, z) else I(x, y, z)
  }

  /** A row of the list of operations in section 3.4: the word of the block to add, the distance
      to rotate, and the entry of the table made from the sine function. */
  datatype Row = Row(k: nat, s: nat, t: word)

  function Round1(j: nat): (row: Row)
    ensures row.k < 16 && row.s < 32
  {
    match j
    case 0 => Row(0, 7, 0xd76aa478) case 1 => Row(1, 12, 0xe8c7b756) case 2 => Row(2, 17, 0x242070db) case 3 => Row(3, 22, 0xc1bdceee)
    case 4 => Row(4, 7, 0xf57c0faf) case 5 => Row(5, 12, 0x4787c62a) case 6 => Row(6, 17, 0xa8304613) case 7 => Row(7, 22, 0xfd469501)
    case 8 => Row(8, 7, 0x698098d8) case 9 => Row(9, 12, 0x8b44f7af) case 10 => Row(10, 17, 0xffff5bb1) case 11 => Row(11, 22, 0x895cd7be)
    case 12 => Row(12, 7, 0x6b901122) case 13 => Row(13, 12, 0xfd987193) case 14 => Row(14, 17, 0xa679438e) case 15 => Row(15, 22, 0x49b40821)
    case _ => Row(0, 0, 0)
  }

  function Round2(j: nat): (row: Row)
    ensures row.k < 16 && row.s < 32
  {
    match j
    case 0 => Row(1, 5, 0xf61e2562) case 1 => Row(6, 9, 0xc040b340) case 2 => Row(11, 14, 0x265e5a51) case 3 => Row(0, 20, 0xe9b6c7aa)
    case 4 => Row(5, 5, 0xd62f105d) case 5 => Row(10, 9, 0x02441453) case 6 => Row(15, 14, 0xd8a1e681) case 7 => Row(4, 20, 0xe7d3fbc8)
    case 8 => Row(9, 5, 0x21e1cde6) case 9 => Row(14, 9, 0xc33707d6) case 10 => Row(3, 14, 0xf4d50d87) case 11 => Row(8, 20, 0x455a14ed)
    case 12 => Row(13, 5, 0xa9e3e905) case 13 => Row(2, 9, 0xfcefa3f8) case 14 => Row(7, 14, 0x676f02d9) case 15 => Row(12, 20, 0x8d2a4c8a)
    case _ => Row(0, 0, 0)
  }

  function Round3(j: nat): (row: Row)
    ensures row.k < 16 && row.s < 32
  {
    match j
    case 0 => Row(5, 4, 0xfffa3942) case 1 => Row(8, 11, 0x8771f681) case 2 => Row(11, 16, 0x6d9d6122) case 3 => Row(14, 23, 0xfde5380c)
    case 4 => Row(1, 4, 0xa4beea44) case 5 => Row(4, 11, 0x4bdecfa9) case 6 => Row(7, 16, 0xf6bb4b60) case 7 => Row(10, 23, 0xbebfbc70)
    case 8 => Row(13, 4, 0x289b7ec6) case 9 => Row(0, 11, 0xeaa127fa) case 10 => Row(3, 16, 0xd4ef3085) case 11 => Row(6, 23, 0x04881d05)
    case 12 => Row(9, 4, 0xd9d4d039) case 13 => Row(12, 11, 0xe6db99e5) case 14 => Row(15, 16, 0x1fa27cf8) case 15 => Row(2, 23, 0xc4ac5665)
    case _ => Row(0, 0, 0)
  }

  function Round4(j: nat): (row: Row)
    ensures row.k < 16 && row.s < 32
  {
    match j
    case 0 => Row(0, 6, 0xf4292244) case 1 => Row(7, 10, 0x432aff97) case 2 => Row(14, 15, 0xab9423a7) case 3 => Row(5, 21, 0xfc93a039)
    case 4 => Row(12, 6, 0x655b59c3) case 5 => Row(3, 10, 0x8f0ccc92) case 6 => Row(10, 15, 0xffeff47d) case 7 => Row(1, 21, 0x85845dd1)
    case 8 => Row(8, 6, 0x6fa87e4f) case 9 => Row(15, 10, 0xfe2ce6e0) case 10 => Row(6, 15, 0xa3014314) case 11 => Row(13, 21, 0x4e0811a1)
    case 12 => Row(4, 6, 0xf7537e82) case 13 => Row(11, 10, 0xbd3af235) case 14 => Row(2, 15, 0x2ad7d2bb) case 15 => Row(9, 21, 0xeb86d391)
    case _ => Row(0, 0, 0)
  }

  /** Step i of the 64. */
  function Operation(i: nat): (row: Row)
    ensures row.k < 16 && row.s < 32
  {
    if i < 16 then Round1(i) else if i < 32 then Round2(i - 16) else if i < 48 then Round3(i - 32) else Round4(i - 48)
  }

  /** a becomes b plus the circular shift of a sum. */
  function Operate(a: word, b: word, f: word, x: word, t: word, s: nat): word
    requires s < 32
  {
    var sum := a + f + x + t;
    b + ((sum << s) | (sum >> (32 - s)))
  }

  /** One step of section 3.4. The registers move on by one place, so that the next step
      always finds the register it has to replace in `a`. */
  function StepOf(q: State, x: seq<word>, i: nat): State
    requires |x| == 16
  {
    var Row(k, s, t) := Operation(i);
    State(q.d, Operate(q.a, q.b, Auxiliary(i / 16, q.b, q.c, q.d), x[k], t, s), q.b, q.c)
  }

  function Steps(q: State, x: seq<word>, n: nat): State
    requires |x| == 16
    decreases n, q
  {
    if n == 0 then q else StepOf(Steps(q, x, n - 1), x, n - 1)
  }

  function Sum(p: State, q: State): State {
    State(p.a + q.a, p.b + q.b, p.c + q.c, p.d + q.d)
  }

  /** A word of a block, low-order byte first. */
  function WordAt(block: seq<byte>, n: nat): word
    requires 4 * n + 4 <= |block|
  {
    (block[4 * n] as word) | ((block[4 * n + 1] as word) << 8)
      | ((block[4 * n + 2] as word) << 16) | ((block[4 * n + 3] as word) << 24)
  }

  function Words(block: seq<byte>): (x: seq<word>)
    requires |block| == 64
    ensures |x| == 16
  {
    seq(16, n requires 0 <= n < 16 => WordAt(block, n))
  }

  /** Section 3.4: p is what one block of 16 words makes of the state q. The quantifier keeps the
      arithmetic of the steps out of proofs that do not mention them. */
  ghost predicate Compresses(q: State, block: seq<byte>, p: State)
    requires |block| == 64
  {
    forall x {:trigger Steps(q, x, 64)} :: x == Words(block) ==> p == Sum(Steps(q, x, 64), q)
  }

  ghost function Compress(q: State, block: seq<byte>): (p: State)
    requires |block| == 64
    ensures Compresses(q, block, p)
  {
    assert Compresses(q, block, Sum(Steps(q, Words(block), 64), q));
    var p :| Compresses(q, block, p);
    p
  }

  lemma {:induction false} CompressSteps(q: State, block: seq<byte>)
    requires |block| == 64
    ensures Compress(q, block) == Sum(Steps(q, Words(block), 64), q)
  {
    assert Compresses(q, block, Compress(q, block));
  }

  /** The state after all complete blocks of a message. */
  ghost function Fold(q: State, m: seq<byte>): State
    decreases |m|
  {
    if |m| < 64 then q else Fold(Compress(q, m[..64]), m[64..])
  }

  /** Section 3.3 */
  const INITIAL := State(0x67452301, 0xefcdab89, 0x98badcfe, 0x10325476)

  function Zeros(count: nat): (s: seq<byte>)
    ensures |s| == count
  {
    seq(count, _ => 0)
  }

  /** How many zero bytes section 3.1 asks for: the fewest that bring the length to 56 modulo 64. */
  function ZeroCount(length: nat): (count: nat)
    ensures (length + 1 + count) % 64 == 56 && count < 64
  {
    (119 - length % 64) % 64
  }

  /** Sections 3.1 and 3.2: one bit, zero bits, and the low 64 bits of the length in bits. */
  function Pad(m: seq<byte>): (p: seq<byte>)
    ensures |p| % 64 == 0
  {
    assert (|m| + 1 + ZeroCount(|m|) + 8) % 64 == 0;
    m + [0x80] + Zeros(ZeroCount(|m|)) + LittleEndian(8 * |m| % 0x1_0000_0000_0000_0000, 8)
  }

  /** A word as four bytes, low-order byte first. */
  function WordBytes(w: word): (s: seq<byte>)
    ensures |s| == 4
  {
    [(w & 0xff) as byte, ((w >> 8) & 0xff) as byte, ((w >> 16) & 0xff) as byte, ((w >> 24) & 0xff) as byte]
  }

  function StateBytes(q: State): (s: seq<byte>)
    ensures |s| == 16
  {
    WordBytes(q.a) + WordBytes(q.b) + WordBytes(q.c) + WordBytes(q.d)
  }

  /** Section 3.5: the digest of a message. */
  ghost function Digest(m: seq<byte>): (d: seq<byte>)
    ensures |d| == 16
  {
    StateBytes(Fold(INITIAL, Pad(m)))
  }

  /** Folding can stop at any block boundary and go on from there. */
  lemma {:induction false} FoldSplit(q: State, m: seq<byte>, n: seq<byte>)
    requires |m| % 64 == 0
    ensures Fold(q, m + n) == Fold(Fold(q, m), n)
    decreases |m|
  {
    if m == [] {
      assert m + n == n;
    } else {
      assert (m + n)[..64] == m[..64] && (m + n)[64..] == m[64..] + n;
      FoldSplit(Compress(q, m[..64]), m[64..], n);
    }
  }
}
