/** md5.c: the digest computed piece by piece, over a buffer of one block. */
module Md5 {
  import opened Bytes
  import opened Rfc1321
  import opened Md5Transform

  /** The complete blocks of a message, and what is left of it. */
  function Whole(m: seq<byte>): (w: seq<byte>)
    ensures |w| % 64 == 0 && m == w + Tail(m)
  {
    m[..|m| - |m| % 64]
  }

  function Tail(m: seq<byte>): seq<byte> {
    m[|m| - |m| % 64..]
  }

  lemma {:induction false} ExtendTail(m: seq<byte>, d: seq<byte>)
    requires |m| % 64 + |d| < 64
    ensures Whole(m + d) == Whole(m) && Tail(m + d) == Tail(m) + d
  {
  }

  lemma {:induction false} FillBlock(m: seq<byte>, d: seq<byte>)
    requires |m| % 64 + |d| == 64
    ensures Whole(m + d) == Whole(m) + (Tail(m) + d) && Tail(m + d) == []
  {
  }

  lemma {:induction false} AddBlocks(m: seq<byte>, d: seq<byte>)
    requires |m| % 64 == 0
    ensures Whole(m + d) == Whole(m) + Whole(d) && Tail(m + d) == Tail(d)
  {
    AfterBlocks(|m|, |d|);
    var n := |d| - |d| % 64;
    assert (m + d)[..|m| + n] == m + d[..n];
    assert (m + d)[|m| + n..] == d[n..];
  }

  lemma {:induction false} AfterBlocks(m: nat, d: nat)
    requires m % 64 == 0
    ensures (m + d) % 64 == d % 64
  {
  }

  /** The low 61 bits of the length, split at bit 29. */
  predicate CountOf(n: nat, lo: nat, hi: nat) {
    lo == n % 0x2000_0000 && hi == n / 0x2000_0000 % 0x1_0000_0000
  }

  /** The carry out of the low counter shows as a sum that wrapped below the old value, even
      though `size` may be any size_t. */
  lemma {:induction false} CarryCaught(n: nat, size: nat, lo: nat, hi: nat, sum: nat)
    requires CountOf(n, lo, hi) && size < 0x1_0000_0000_0000_0000
    requires sum == (lo + size) % 0x1_0000_0000_0000_0000 % 0x2000_0000
    ensures var carried := if sum < lo then (hi + 1) % 0x1_0000_0000 else hi;
      CountOf(n + size, sum, (carried + size / 0x2000_0000) % 0x1_0000_0000)
  {
    var r, k, h := size % 0x2000_0000, size / 0x2000_0000, n / 0x2000_0000;
    WrappedSum(lo, size);
    var carry := if sum < lo then 1 else 0;
    assert n + size == (h + k + carry) * 0x2000_0000 + sum;
    HighSum(h, carry, k, hi);
  }

  lemma {:induction false} WrappedSum(lo: nat, size: nat)
    requires lo < 0x2000_0000
    ensures var r, sum := size % 0x2000_0000, (lo + size) % 0x1_0000_0000_0000_0000 % 0x2000_0000;
      sum == if lo + r < 0x2000_0000 then lo + r else lo + r - 0x2000_0000
  {
    ModMod(lo + size);
    ModSum(size / 0x2000_0000, lo + size % 0x2000_0000);
    assert lo + size == size / 0x2000_0000 * 0x2000_0000 + (lo + size % 0x2000_0000);
  }

  lemma {:induction false} ModSum(k: nat, x: nat)
    requires x < 0x4000_0000
    ensures (k * 0x2000_0000 + x) % 0x2000_0000 == if x < 0x2000_0000 then x else x - 0x2000_0000
  {
  }

  lemma {:induction false} ModMod(x: nat)
    ensures x % 0x1_0000_0000_0000_0000 % 0x2000_0000 == x % 0x2000_0000
  {
    assert x == x / 0x1_0000_0000_0000_0000 * 0x8_0000_0000 * 0x2000_0000 + x % 0x1_0000_0000_0000_0000;
  }

  lemma {:induction false} HighSum(h: nat, carry: nat, k: nat, hi: nat)
    requires hi == h % 0x1_0000_0000 && carry <= 1
    ensures ((hi + carry) % 0x1_0000_0000 + k) % 0x1_0000_0000 == (h + k + carry) % 0x1_0000_0000
  {
  }

  lemma {:induction false} LowSix(n: nat, lo: nat)
    requires lo == n % 0x2000_0000
    ensures lo % 64 == n % 64
  {
    assert n == n / 0x2000_0000 * 0x80_0000 * 64 + lo;
  }

  /** The two counters hold the bit length of section 3.2, in bytes from the low end. */
  lemma {:induction false} LengthBytes(n: nat, lo: nat, hi: nat)
    requires CountOf(n, lo, hi)
    ensures LittleEndian(8 * n % 0x1_0000_0000_0000_0000, 8) == LittleEndian(8 * lo, 4) + LittleEndian(hi, 4)
  {
    LowBits(n, lo, hi);
    assert Power256(4) == 0x1_0000_0000;
    Halves(8 * lo, hi, 4, 8 * lo + hi * 0x1_0000_0000, 8);
  }

  lemma {:induction false} LowBits(n: nat, lo: nat, hi: nat)
    requires CountOf(n, lo, hi)
    ensures 8 * n % 0x1_0000_0000_0000_0000 == 8 * lo + hi * 0x1_0000_0000
  {
    var k := n / 0x2000_0000 / 0x1_0000_0000;
    assert 8 * n == k * 0x1_0000_0000_0000_0000 + (8 * lo + hi * 0x1_0000_0000);
  }

  lemma {:induction false} Halves(a: nat, b: nat, k: nat, n: nat, count: nat)
    requires a < Power256(k) && n == a + b * Power256(k) && count == k + 4
    ensures LittleEndian(n, count) == LittleEndian(a, k) + LittleEndian(b, 4)
  {
    if k == 0 {
      assert n == b;
    } else {
      var high := b * Power256(k - 1);
      Spread(a, b, Power256(k - 1), n);
      FirstByte(n, a / 256 + high, a % 256, count);
      FirstByte(a, a / 256, a % 256, k);
      Halves(a / 256, b, k - 1, a / 256 + high, count - 1);
    }
  }

  lemma {:induction false} Spread(a: nat, b: nat, p: nat, n: nat)
    requires a < 256 * p && n == a + b * (256 * p)
    ensures a / 256 < p && n % 256 == a % 256 && n / 256 == a / 256 + b * p
  {
    assert n == a + 256 * (b * p);
  }

  lemma {:induction false} FirstByte(n: nat, rest: nat, low: nat, count: nat)
    requires count > 0 && n / 256 == rest && n % 256 == low < 256
    ensures LittleEndian(n, count) == [low] + LittleEndian(rest, count - 1)
  {
  }

  lemma {:induction false} EmptyMessage(q: State, m: seq<byte>)
    requires m == []
    ensures Fold(q, Whole(m)) == q && Tail(m) == [] && CountOf(|m|, 0, 0)
  {
  }

  /** What is left of a word in an unsigned char. */
  function Low(w: word): byte {
    (w & 0xff) as byte
  }

  class Md5Ctx {
    var lo: nat
    var hi: nat
    var a: word
    var b: word
    var c: word
    var d: word
    const buffer: array<byte>

    function Registers(): State
      reads this`a, this`b, this`c, this`d
    {
      State(a, b, c, d)
    }

    /** The registers have seen all complete blocks of m; the rest of m is in the buffer. */
    ghost predicate Holds(m: seq<byte>)
      reads this`a, this`b, this`c, this`d, buffer
    {
      buffer.Length == 64 && Registers() == Fold(INITIAL, Whole(m)) && buffer[..|m| % 64] == Tail(m)
    }

    /** The bytes hashed so far are m. */
    ghost predicate Represents(m: seq<byte>)
      reads this, buffer
    {
      Holds(m) && CountOf(|m|, lo, hi)
    }

    /** md5_begin */
    constructor ()
      ensures Represents([]) && fresh(buffer)
    {
      a, b, c, d := 0x67452301, 0xefcdab89, 0x98badcfe, 0x10325476;
      lo, hi := 0, 0;
      buffer := new byte[64];
      ghost var m: seq<byte> := [];
      EmptyMessage(INITIAL, m);
      new;
      assert Represents(m);
    }

    /** body(): all blocks in the first `size` bytes; the result is what follows them. */
    method Body(data: seq<byte>, size: nat) returns (rest: seq<byte>)
      requires 0 < size <= |data| && size % 64 == 0
      modifies this`a, this`b, this`c, this`d
      ensures Registers() == Fold(old(Registers()), data[..size]) && rest == data[size..]
    {
      var q := Registers();
      var left: nat := size;
      rest := data;
      while left != 0
        invariant left <= size && left % 64 == 0 && rest == data[size - left..]
        invariant q == Fold(old(Registers()), data[..size - left])
        decreases left
      {
        assert left >= 64;
        FoldBlock(old(Registers()), data[..size - left], rest[..64]);
        assert data[..size - left] + rest[..64] == data[..size - (left - 64)];
        q := Transform(q, rest[..64]);
        rest, left := rest[64..], left - 64;
      }
      a, b, c, d := q.a, q.b, q.c, q.d;
    }

    /** memcpy(&ctx->buffer[at], data, size) */
    method Copy(at: nat, data: seq<byte>)
      requires at + |data| <= buffer.Length
      modifies buffer
      ensures buffer[..] == old(buffer[..at]) + data + old(buffer[at + |data|..])
    {
      forall i | 0 <= i < |data| { buffer[at + i] := data[i]; }
    }

    /** md5_hash: another piece of the message. */
    method Hash(data: seq<byte>, ghost m: seq<byte>)
      requires Represents(m) && |data| < 0x1_0000_0000_0000_0000
      modifies this, buffer
      ensures Represents(m + data)
    {
      var savedLo := lo;
      Count(|data|, |m|);
      LowSix(|m|, savedLo);
      Take(data, savedLo % 64, m);
    }

    /** The part of md5_hash that works on the counters. */
    method Count(size: nat, ghost n: nat)
      requires CountOf(n, lo, hi) && size < 0x1_0000_0000_0000_0000
      modifies this`lo, this`hi
      ensures CountOf(n + size, lo, hi)
    {
      var savedLo := lo;
      lo := (savedLo + size) % 0x1_0000_0000_0000_0000 % 0x2000_0000;
      CarryCaught(n, size, savedLo, hi, lo);
      if lo < savedLo {
        hi := (hi + 1) % 0x1_0000_0000;
      }
      hi := (hi + size / 0x2000_0000) % 0x1_0000_0000;
    }

    /** The part of md5_hash that works on the buffer. */
    method Take(data: seq<byte>, used: nat, ghost m: seq<byte>)
      requires Holds(m) && used == |m| % 64
      modifies this`a, this`b, this`c, this`d, buffer
      ensures Holds(m + data)
    {
      var rest := data;
      ghost var seen := m;
      if used != 0 {
        var available := 64 - used;
        if |data| < available {
          ExtendTail(m, data);
          Copy(used, data);
          return;
        }
        seen := m + data[..available];
        FillBlock(m, data[..available]);
        Copy(used, data[..available]);
        rest := data[available..];
        FoldSplit(INITIAL, Whole(m), Tail(m) + data[..available]);
        assert buffer[..] == Tail(m) + data[..available];
        var _ := Body(buffer[..], 64);
      }
      assert m + data == seen + rest;
      TakeBlocks(rest, seen);
    }

    /** The end of md5_hash, when the buffer is empty. */
    method TakeBlocks(data: seq<byte>, ghost m: seq<byte>)
      requires Holds(m) && |m| % 64 == 0
      modifies this`a, this`b, this`c, this`d, buffer
      ensures Holds(m + data)
    {
      AddBlocks(m, data);
      FoldSplit(INITIAL, Whole(m), Whole(data));
      var rest := data;
      if |data| >= 64 {
        rest := Body(data, |data| - |data| % 64);
      }
      Copy(0, rest);
    }

    /** memset(&ctx->buffer[from], 0, to - from) */
    method Clear(from: nat, to: nat)
      requires from <= to <= buffer.Length
      modifies buffer
      ensures buffer[..] == old(buffer[..from]) + Zeros(to - from) + old(buffer[to..])
    {
      forall i | from <= i < to { buffer[i] := 0; }
    }

    /** The part of md5_end that pads, up to the place where the length goes. */
    method Finish(ghost m: seq<byte>, ghost length: seq<byte>)
      requires Represents(m) && |length| == 8
      modifies this`a, this`b, this`c, this`d, buffer
      ensures buffer.Length == 64
      ensures Fold(Registers(), buffer[..56] + length) == Fold(INITIAL, m + [0x80] + Zeros(ZeroCount(|m|)) + length)
    {
      LowSix(|m|, lo);
      var used := lo % 64;
      Copy(used, [0x80]);
      used := used + 1;
      var available := 64 - used;
      if available < 8 {
        LastTwo(m, length);
        FillUp(m, used, available);
        used, available := 0, 64;
        Clear(used, used + available - 8);
        assert buffer[..56] == Zeros(56);
      } else {
        LastOne(m, length);
        Clear(used, used + available - 8);
        assert buffer[..56] == Tail(m) + [0x80] + Zeros(available - 8);
      }
    }

    /** The first of two last blocks. */
    method FillUp(ghost m: seq<byte>, used: nat, available: nat)
      requires buffer.Length == 64 && used + available == 64 && Registers() == Fold(INITIAL, Whole(m))
      requires buffer[..used] == Tail(m) + [0x80]
      modifies this`a, this`b, this`c, this`d, buffer
      ensures Registers() == Fold(INITIAL, Whole(m) + (Tail(m) + [0x80] + Zeros(available)))
    {
      Clear(used, 64);
      FoldSplit(INITIAL, Whole(m), Tail(m) + [0x80] + Zeros(available));
      assert buffer[..] == Tail(m) + [0x80] + Zeros(available);
      var _ := Body(buffer[..], 64);
    }

    /** Four assignments of md5_end: a counter goes into the buffer, low-order byte first. */
    method WriteCounter(at: nat, n: nat)
      requires at + 4 <= buffer.Length
      modifies buffer
      ensures buffer[..] == old(buffer[..at]) + LittleEndian(n, 4) + old(buffer[at + 4..])
    {
      FourBytes(n);
      buffer[at] := n % 256;
      buffer[at + 1] := n / 0x100 % 256;
      buffer[at + 2] := n / 0x1_0000 % 256;
      buffer[at + 3] := n / 0x100_0000 % 256;
    }

    /** The part of md5_end that writes the length. */
    method WriteLength()
      requires buffer.Length == 64 && lo < 0x2000_0000
      modifies this`lo, buffer
      ensures buffer[..] == old(buffer[..56]) + (LittleEndian(8 * old(lo), 4) + LittleEndian(hi, 4))
    {
      ghost var front, n := buffer[..56], 8 * lo;
      lo := lo * 8 % 0x1_0000_0000;
      assert lo == n;
      WriteCounter(56, lo);
      assert buffer[..60] == front + LittleEndian(n, 4);
      WriteCounter(60, hi);
    }

    /** md5_end up to its last call of body(). */
    method Close(ghost m: seq<byte>)
      requires Represents(m)
      modifies this, buffer
      ensures Registers() == Fold(INITIAL, Pad(m))
    {
      ghost var length := LittleEndian(8 * lo, 4) + LittleEndian(hi, 4);
      LengthBytes(|m|, lo, hi);
      Finish(m, length);
      ghost var block := buffer[..56] + length;
      WriteLength();
      assert buffer[..64] == block;
      var _ := Body(buffer[..], 64);
    }

    /** md5_end: the digest of everything hashed goes to `result`; the context is wiped. */
    method End(ghost m: seq<byte>, result: array<byte>)
      requires Represents(m) && result.Length == 16 && result != buffer
      modifies this, buffer, result
      ensures result[..] == Digest(m)
      ensures a == b == c == d == 0 && lo == hi == 0
    {
      Close(m);
      WriteResult(result);
      a, b, c, d, lo, hi := 0, 0, 0, 0, 0, 0;
    }

    /** The last sixteen assignments of md5_end. */
    method WriteResult(result: array<byte>)
      requires result.Length == 16
      modifies result
      ensures result[..] == StateBytes(Registers())
    {
      PutWord(result, 0, a);
      PutWord(result, 4, b);
      assert result[..8] == WordBytes(a) + WordBytes(b);
      PutWord(result, 8, c);
      PutWord(result, 12, d);
    }
  }

  method PutWord(result: array<byte>, at: nat, w: word)
    requires at + 4 <= result.Length
    modifies result
    ensures result[..] == old(result[..at]) + WordBytes(w) + old(result[at + 4..])
  {
    LowBytes(w);
    var b0, b1, b2, b3 := Low(w), Low(w >> 8), Low(w >> 16), Low(w >> 24);
    result[at], result[at + 1], result[at + 2], result[at + 3] := b0, b1, b2, b3;
    assert result[..] == old(result[..at]) + [b0, b1, b2, b3] + old(result[at + 4..]);
  }

  lemma {:induction false} LowBytes(w: word)
    ensures WordBytes(w) == [Low(w), Low(w >> 8), Low(w >> 16), Low(w >> 24)]
  {
  }

  lemma {:induction false} FoldBlock(q: State, m: seq<byte>, block: seq<byte>)
    requires |m| % 64 == 0 && |block| == 64
    ensures Fold(q, m + block) == Compress(Fold(q, m), block)
  {
    FoldSplit(q, m, block);
    OneBlock(Fold(q, m), block);
  }

  lemma {:induction false} OneBlock(q: State, block: seq<byte>)
    requires |block| == 64
    ensures Fold(q, block) == Compress(q, block)
  {
    assert block[..64] == block && block[64..] == [];
  }

  lemma {:induction false} FourBytes(n: nat)
    ensures LittleEndian(n, 4) == [n % 256, n / 0x100 % 256, n / 0x1_0000 % 256, n / 0x100_0000 % 256]
  {
    var n1, n2, n3 := n / 0x100, n / 0x1_0000, n / 0x100_0000;
    Quotients(n);
    FirstByte(n, n1, n % 256, 4);
    FirstByte(n1, n2, n1 % 256, 3);
    FirstByte(n2, n3, n2 % 256, 2);
    FirstByte(n3, n3 / 256, n3 % 256, 1);
  }

  lemma {:induction false} Quotients(n: nat)
    ensures n / 0x100 / 256 == n / 0x1_0000 && n / 0x1_0000 / 256 == n / 0x100_0000
  {
  }

  lemma {:induction false} Regroup<T>(w: seq<T>, t: seq<T>, x: seq<T>, y: seq<T>, z: seq<T>)
    ensures w + t + x + y + z == w + (t + x + y + z)
  {
  }

  lemma {:induction false} RegroupTwo<T>(w: seq<T>, t: seq<T>, x: seq<T>, y0: seq<T>, y1: seq<T>, z: seq<T>)
    ensures w + t + x + (y0 + y1) + z == w + (t + x + y0) + (y1 + z)
  {
  }

  lemma {:induction false} ZerosShort(n: nat)
    requires n % 64 < 56
    ensures ZeroCount(n) == 55 - n % 64
  {
  }

  lemma {:induction false} ZerosLong(n: nat)
    requires n % 64 >= 56
    ensures ZeroCount(n) == 63 - n % 64 + 56
  {
  }

  lemma {:induction false} ZerosAdd(i: nat, j: nat)
    ensures Zeros(i + j) == Zeros(i) + Zeros(j)
  {
  }

  /** The padding fits into the last block of the message. */
  lemma {:induction false} LastOne(m: seq<byte>, length: seq<byte>)
    requires |m| % 64 < 56 && |length| == 8
    ensures Fold(INITIAL, m + [0x80] + Zeros(ZeroCount(|m|)) + length)
      == Fold(Fold(INITIAL, Whole(m)), Tail(m) + [0x80] + Zeros(55 - |m| % 64) + length)
  {
    var zeros := Zeros(55 - |m| % 64);
    ZerosShort(|m|);
    Regroup(Whole(m), Tail(m), [0x80], zeros, length);
    FoldSplit(INITIAL, Whole(m), Tail(m) + [0x80] + zeros + length);
  }

  /** The padding needs one more block. */
  lemma {:induction false} LastTwo(m: seq<byte>, length: seq<byte>)
    requires |m| % 64 >= 56 && |length| == 8
    ensures Fold(INITIAL, m + [0x80] + Zeros(ZeroCount(|m|)) + length)
      == Fold(Fold(INITIAL, Whole(m) + (Tail(m) + [0x80] + Zeros(63 - |m| % 64))), Zeros(56) + length)
  {
    var zeros := Zeros(63 - |m| % 64);
    ZerosAdd(63 - |m| % 64, 56);
    ZerosLong(|m|);
    RegroupTwo(Whole(m), Tail(m), [0x80], zeros, Zeros(56), length);
    FoldSplit(INITIAL, Whole(m) + (Tail(m) + [0x80] + zeros), Zeros(56) + length);
  }

  function Concat(pieces: seq<seq<byte>>): seq<byte> {
    if pieces == [] then [] else Concat(pieces[..|pieces| - 1]) + pieces[|pieces| - 1]
  }

  /** md5sum, for a file that is read in these pieces: however a message is cut, the digest is the
      one that RFC 1321 gives for the whole of it. With one piece this is md5digest. */
  method Md5Sum(pieces: seq<seq<byte>>) returns (digest: seq<byte>)
    requires forall p <- pieces :: |p| < 0x1_0000_0000_0000_0000
    ensures digest == Digest(Concat(pieces))
  {
    var ctx := new Md5Ctx();
    for i := 0 to |pieces|
      invariant ctx.Represents(Concat(pieces[..i])) && fresh(ctx) && fresh(ctx.buffer)
    {
      ctx.Hash(pieces[i], Concat(pieces[..i]));
      assert pieces[..i + 1][..i] == pieces[..i];
    }
    assert pieces[..|pieces|] == pieces;
    var result := new byte[16];
    ctx.End(Concat(pieces), result);
    digest := result[..];
  }
}
