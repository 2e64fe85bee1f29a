/** Decimal numerals, as printf() writes them and strtol() reads them. */
module Decimals {
  function Digit(d: nat): (c: char)
    requires d < 10
  {
    '0' + d as char
  }

  predicate IsDigit(c: char) { '0' <= c <= '9' }

  /** The conversion %zu. */
  function Decimal(n: nat): (s: string)
    ensures s != []
    decreases n
  {
    if n < 10 then [Digit(n)] else Decimal(n / 10) + [Digit(n % 10)]
  }

  /** The digits at the start of s, read after a prefix worth `sum`. */
  function Digits(sum: nat, s: string): nat
    decreases |s|
  {
    if s == [] || !IsDigit(s[0]) then sum else Digits(10 * sum + (s[0] - '0') as nat, s[1..])
  }

  predicate AllDigits(s: string) {
    forall i :: 0 <= i < |s| ==> IsDigit(s[i])
  }

  lemma {:induction false} DigitsAppend(sum: nat, s: string, d: nat)
    requires d < 10 && AllDigits(s)
    ensures Digits(sum, s + [Digit(d)]) == 10 * Digits(sum, s) + d
    decreases |s|
  {
    if s == [] {
      assert (s + [Digit(d)])[1..] == [];
    } else {
      assert (s + [Digit(d)])[1..] == s[1..] + [Digit(d)];
      DigitsAppend(10 * sum + (s[0] - '0') as nat, s[1..], d);
    }
  }

  lemma {:induction false} DigitsDecimal(n: nat)
    ensures AllDigits(Decimal(n)) && Digits(0, Decimal(n)) == n
    decreases n
  {
    if n < 10 {
      assert Decimal(n)[1..] == [];
    } else {
      DigitsDecimal(n / 10);
      DigitsAppend(0, Decimal(n / 10), n % 10);
    }
  }

  function Power10(k: nat): nat { if k == 0 then 1 else 10 * Power10(k - 1) }

  lemma {:induction false} DecimalLength(n: nat, k: nat)
    requires k > 0 && n < Power10(k)
    ensures |Decimal(n)| <= k
    decreases k
  {
    if n >= 10 {
      DecimalLength(n / 10, k - 1);
    }
  }

  lemma {:induction false} PowerOf19()
    ensures Power10(19) == 10_000_000_000_000_000_000
  {
    assert Power10(5) == 10_0000;
    assert Power10(10) == 100_0000_0000;
    assert Power10(15) == 1000_0000_0000_0000;
  }
}
