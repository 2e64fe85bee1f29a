/** Bytes, and numbers stored as bytes. */
module Bytes {
  type byte = x: int | 0 <= x < 256

  /** n in `count` bytes, low-order byte first. */
  function LittleEndian(n: nat, count: nat): (s: seq<byte>)
    ensures |s| == count
    decreases count, n
  {
    if count == 0 then [] else [n % 256] + LittleEndian(n / 256, count - 1)
  }

  /** The number that bytes stand for, low-order byte first. */
  function Number(s: seq<byte>): nat {
    if s == [] then 0 else s[0] + 256 * Number(s[1..])
  }

  function Power256(k: nat): nat { if k == 0 then 1 else 256 * Power256(k - 1) }

  lemma {:induction false} NumberOf(n: nat, count: nat)
    requires n < Power256(count)
    ensures Number(LittleEndian(n, count)) == n
    decreases count
  {
    if count > 0 {
      assert LittleEndian(n, count)[1..] == LittleEndian(n / 256, count - 1);
      NumberOf(n / 256, count - 1);
    }
  }

  lemma {:induction false} NumberBound(s: seq<byte>)
    ensures Number(s) < Power256(|s|)
  {
    if s != [] {
      NumberBound(s[1..]);
    }
  }
}
