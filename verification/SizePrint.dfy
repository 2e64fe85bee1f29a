/** size_trunc_len of util.c: a file size in a field of fixed width. */
module SizePrint {
  import opened Wrappers
  import opened Decimals

  const WRAP: nat := 0x1_0000_0000_0000_0000

  type uintmax = n: int | 0 <= n < 0x1_0000_0000_0000_0000

  /** One turn of the loop for SI units, in the arithmetic of uintmax_t. */
  function Rescale(size: uintmax): uintmax {
    var remain := size % 125 * 1024 % WRAP / 1000;
    ((size / 125) * 128 % WRAP + remain) % WRAP
  }

  /** It turns units of 1024 into units of 1000, rounding down, whenever the result fits. */
  lemma {:induction false} RescaleExact(size: uintmax)
    ensures Rescale(size) == size * 1024 / 1000 % WRAP
  {
    var q, r := size / 125, size % 125;
    Split(q, r, size);
    NoWrap(r * 1024);
    SumOfWraps(q * 128, r * 1024 / 1000);
  }

  lemma {:induction false} Split(q: nat, r: nat, size: nat)
    requires size == 125 * q + r
    ensures size * 1024 / 1000 == q * 128 + r * 1024 / 1000
  {
    assert size * 1024 == 1000 * (q * 128) + r * 1024;
  }

  lemma {:induction false} NoWrap(n: nat)
    requires n < WRAP
    ensures n % WRAP == n
  {
  }

  lemma {:induction false} SumOfWraps(a: nat, b: nat)
    ensures (a % WRAP + b) % WRAP == (a + b) % WRAP
  {
  }

  function Rescaled(size: uintmax, times: nat): uintmax {
    if times == 0 then size else Rescale(Rescaled(size, times - 1))
  }

  function Base(useSi: bool): nat { if useSi then 1000 else 1024 }

  /** The division that leads to the next unit; adding the half may wrap around. */
  function Reduce(size: uintmax, useSi: bool): uintmax {
    (size + Base(useSi) / 2) % WRAP / Base(useSi)
  }

  function Reduced(size: uintmax, times: nat, useSi: bool): uintmax {
    if times == 0 then size else Reduce(Reduced(size, times - 1, useSi), useSi)
  }

  function Power(base: nat, k: nat): (p: nat)
    requires base > 0
    ensures p > 0
  {
    if k == 0 then 1 else base * Power(base, k - 1)
  }

  /** How far k roundings to the nearest can lead away, in the unit of the start. */
  function Drift(base: nat, k: nat): nat
    requires base > 0
  {
    if k == 0 then 0 else Drift(base, k - 1) + base / 2 * Power(base, k - 1)
  }

  /** The geometric sum, in closed form. */
  lemma {:induction false} DriftSum(base: nat, k: nat)
    requires base > 1
    ensures (base - 1) * Drift(base, k) == base / 2 * (Power(base, k) - 1)
  {
    if k > 0 {
      DriftSum(base, k - 1);
      NextSum(base, base / 2, Drift(base, k - 1), Power(base, k - 1));
    }
  }

  lemma {:induction false} NextSum(b: nat, h: nat, d: nat, p: nat)
    requires b > 1 && (b - 1) * d == h * (p - 1)
    ensures (b - 1) * (d + h * p) == h * (b * p - 1)
  {
    var x := h * p;
    assert (b - 1) * (d + x) == (b - 1) * d + b * x - x;
    assert b * x == h * (b * p);
  }

  /** Nothing wraps around below this. */
  predicate Small(size: uintmax, useSi: bool) {
    size + Base(useSi) / 2 < WRAP
  }

  function Abs(x: int): nat { if x < 0 then -x else x }

  lemma {:induction false} OneReduction(size: uintmax, useSi: bool)
    requires Small(size, useSi)
    ensures Abs(Reduce(size, useSi) * Base(useSi) - size) <= Base(useSi) / 2
    ensures Small(Reduce(size, useSi), useSi) && Reduce(size, useSi) == (size + Base(useSi) / 2) / Base(useSi)
  {
  }

  /** Repeated rounding stays near the size. */
  lemma {:induction false} Near(size: uintmax, k: nat, useSi: bool)
    requires Small(size, useSi)
    ensures var b := Base(useSi);
      Small(Reduced(size, k, useSi), useSi) && Abs(Reduced(size, k, useSi) * Power(b, k) - size) <= Drift(b, k)
  {
    if k > 0 {
      Near(size, k - 1, useSi);
      var b, n, p := Base(useSi), Reduced(size, k - 1, useSi), Power(Base(useSi), k - 1);
      OneReduction(n, useSi);
      Accumulate(Reduce(n, useSi), n, b, p, b / 2, size, Drift(b, k - 1));
    }
  }

  lemma {:induction false} Accumulate(next: int, n: int, b: int, p: nat, half: nat, size: int, drift: nat)
    requires Abs(next * b - n) <= half && Abs(n * p - size) <= drift
    ensures Abs(next * (b * p) - size) <= drift + half * p
  {
    var x := next * b - n;
    Stretch(x, half, p);
    assert next * (b * p) == next * b * p;
    assert x * p == next * b * p - n * p;
  }

  lemma {:induction false} Stretch(x: int, bound: nat, p: nat)
    requires Abs(x) <= bound
    ensures Abs(x * p) <= bound * p
  {
    if x >= 0 {
      assert x * p <= bound * p;
    } else {
      assert -x * p <= bound * p;
    }
  }

  lemma {:induction false} Error(size: uintmax, k: nat, useSi: bool)
    requires Small(size, useSi)
    ensures var b := Base(useSi);
      (b - 1) * Abs(Reduced(size, k, useSi) * Power(b, k) - size) <= b / 2 * (Power(b, k) - 1)
  {
    Near(size, k, useSi);
    DriftSum(Base(useSi), k);
    Times(Base(useSi) - 1, Abs(Reduced(size, k, useSi) * Power(Base(useSi), k) - size), Drift(Base(useSi), k));
  }

  lemma {:induction false} Times(c: nat, x: nat, y: nat)
    requires x <= y
    ensures c * x <= c * y
  {
  }

  /** In binary units: |n * 1024^k - size| <= 512 * (1024^k - 1) / 1023. */
  lemma {:induction false} BinaryError(size: uintmax, k: nat)
    requires size < WRAP - 512
    ensures 1023 * Abs(Reduced(size, k, false) * Power(1024, k) - size) <= 512 * (Power(1024, k) - 1)
  {
    Error(size, k, false);
  }

  /** In SI units: |n * 1000^k - size| <= 500 * (1000^k - 1) / 999. */
  lemma {:induction false} DecimalError(size: uintmax, k: nat)
    requires size < WRAP - 500
    ensures 999 * Abs(Reduced(size, k, true) * Power(1000, k) - size) <= 500 * (Power(1000, k) - 1)
  {
    Error(size, k, true);
  }

  /** One reduction rounds to the nearest exactly if adding the half does not wrap around; if it
      does, nothing is left of the size. */
  lemma {:induction false} NearestUnlessWrapped(size: uintmax, useSi: bool)
    ensures Abs(Reduce(size, useSi) * Base(useSi) - size) <= Base(useSi) / 2 <==> Small(size, useSi)
    ensures !Small(size, useSi) ==> Reduce(size, useSi) == 0
  {
    if Small(size, useSi) {
      OneReduction(size, useSi);
    } else {
      assert (size + Base(useSi) / 2) % WRAP < Base(useSi) / 2;
    }
  }

  /** The entry j of the table of suffixes. */
  function Suffix(j: nat, useSi: bool): string
    requires j <= 8
  {
    if j == 0 then "" else [(if useSi then "kmgtpezy" else "KMGTPEZY")[j - 1]]
  }

  /** The width after 0 is replaced by the default and the rest is cut off. */
  function Clamp(len: nat): (width: nat)
    ensures 1 <= width <= 19
  {
    if len == 0 then 9 else if len > 19 then 19 else len
  }

  /** Digits that are left beside the suffix. */
  function Room(j: nat, width: nat): nat
    requires width > 0
  {
    if j > 0 then width - 1 else width
  }

  predicate Fits(n: nat, j: nat, width: nat)
    requires width > 0
  {
    n == 0 || n < Power10(Room(j, width))
  }

  /** What is printed in unit j. `first` says whether this is the unit that was asked for. */
  function Label(n: nat, j: nat, first: bool, width: nat, useSi: bool): string
    requires j <= 8
  {
    if n == 0 then
      if first then "0" else (if width > 1 then "~" else "") + (if j > 1 then Suffix(j - 1, useSi) else "B")
    else Decimal(n) + Suffix(j, useSi)
  }

  /** A label never needs to be cut. */
  lemma {:induction false} LabelWidth(n: nat, j: nat, first: bool, width: nat, useSi: bool)
    requires j <= 8 && width > 0 && Fits(n, j, width)
    ensures |Label(n, j, first, width, useSi)| <= width
  {
    if n > 0 {
      assert Room(j, width) > 0;
      DecimalLength(n, Room(j, width));
    }
  }

  /** Reading a label gives back its number. */
  lemma {:induction false} LabelNumber(n: nat, j: nat, first: bool, width: nat, useSi: bool)
    requires j <= 8 && n > 0
    ensures Digits(0, Label(n, j, first, width, useSi)) == n
  {
    DigitsDecimal(n);
    DigitsStop(0, Decimal(n), Suffix(j, useSi));
  }

  lemma {:induction false} DigitsStop(sum: nat, s: string, rest: string)
    requires AllDigits(s) && (rest == [] || !IsDigit(rest[0]))
    ensures Digits(sum, s + rest) == Digits(sum, s)
    decreases |s|
  {
    if s == [] {
      assert s + rest == rest;
    } else {
      assert (s + rest)[0] == s[0] && (s + rest)[1..] == s[1..] + rest;
      DigitsStop(10 * sum + (s[0] - '0') as nat, s[1..], rest);
    }
  }

  /** The number that is to be shown in unit j. */
  function NumberAt(size: uintmax, units: nat, j: nat, useSi: bool): uintmax
    requires units <= j
  {
    Reduced(if useSi then Rescaled(size, units) else size, j - units, useSi)
  }

  predicate FitsAt(size: uintmax, units: nat, j: nat, width: nat, useSi: bool)
    requires units <= j && width > 0
  {
    Fits(NumberAt(size, units, j, useSi), j, width)
  }

  /** snprintf(buffer, width + 1, "%s", text) */
  function Snprintf(width: nat, text: string): string {
    if |text| <= width then text else text[..width]
  }

  lemma {:induction false} PowerGrows(k: nat)
    requires k > 0
    ensures Power10(k) == 10 * Power10(k - 1)
    ensures k >= 3 ==> Power10(k) >= 1000
    ensures k < 3 ==> Power10(k) <= 100
  {
    if k >= 4 {
      PowerGrows(k - 1);
    } else {
      assert Power10(3) == 1000 && Power10(2) == 100 && Power10(1) == 10;
    }
  }

  /** What fits in one unit fits in the next. */
  lemma {:induction false} FitsNext(n: uintmax, j: nat, width: nat, useSi: bool)
    requires width > 0 && Fits(n, j, width)
    ensures Fits(Reduce(n, useSi), j + 1, width)
  {
    PowerGrows(width);
    if n > 0 && Reduce(n, useSi) > 0 {
      assert Reduce(n, useSi) <= (n + Base(useSi) / 2) / Base(useSi);
      assert n >= 500;
      if j == 0 {
        assert width >= 3;
      }
    }
  }

  lemma {:induction false} FitsLater(size: uintmax, units: nat, j: nat, k: nat, width: nat, useSi: bool)
    requires units <= j <= k && width > 0 && FitsAt(size, units, j, width, useSi)
    ensures FitsAt(size, units, k, width, useSi)
    decreases k
  {
    if j < k {
      FitsLater(size, units, j, k - 1, width, useSi);
      FitsNext(NumberAt(size, units, k - 1, useSi), k - 1, width, useSi);
    }
  }

  /** The unit that the loop stops at: the smallest that fits. */
  predicate Chosen(size: uintmax, units: nat, j: nat, width: nat, useSi: bool)
    requires width > 0
  {
    && units <= j <= 8 && FitsAt(size, units, j, width, useSi)
    && forall i :: units <= i < j ==> !FitsAt(size, units, i, width, useSi)
  }

  predicate Shows(size: uintmax, units: nat, j: nat, width: nat, useSi: bool, text: string)
    requires width > 0
  {
    Chosen(size, units, j, width, useSi) && text == Label(NumberAt(size, units, j, useSi), j, j == units, width, useSi)
  }

  /** Which power of the base a letter stands for. */
  function Rank(c: char): nat {
    match c
    case 'K' => 1 case 'M' => 2 case 'G' => 3 case 'T' => 4 case 'P' => 5 case 'E' => 6 case 'Z' => 7 case 'Y' => 8
    case 'k' => 1 case 'm' => 2 case 'g' => 3 case 't' => 4 case 'p' => 5 case 'e' => 6 case 'z' => 7 case 'y' => 8
    case _ => 0
  }

  /** The unit of a text is told by its last letter. */
  function RankOf(text: string): nat {
    if text == [] then 0 else Rank(text[|text| - 1])
  }

  /** The letters of SI units are small. */
  predicate InStyle(text: string, useSi: bool) {
    RankOf(text) > 0 ==> ('a' <= text[|text| - 1] <= 'z' <==> useSi)
  }

  lemma {:induction false} SuffixRank(j: nat, useSi: bool)
    requires 0 < j <= 8
    ensures |Suffix(j, useSi)| == 1 && Rank(Suffix(j, useSi)[0]) == j && ('a' <= Suffix(j, useSi)[0] <= 'z' <==> useSi)
  {
  }

  lemma {:induction false} DigitRank(n: nat)
    ensures RankOf(Decimal(n)) == 0 && IsDigit(Decimal(n)[0])
  {
    DigitsDecimal(n);
    var c := Decimal(n)[|Decimal(n)| - 1];
    assert IsDigit(c);
  }

  /** What a text says about a size in a unit that was asked for. With a number: the size, up to the error
      of rounding to the unit of the letter. With none: less than about half of the unit above the letter,
      bytes being below kilobytes. */
  ghost predicate Means(n: uintmax, units: nat, text: string, useSi: bool) {
    var b, rank := Base(useSi), RankOf(text);
    && text != [] && InStyle(text, useSi)
    && if text == "0" then n == 0
      else if IsDigit(text[0]) then
        && units <= rank
        && (Small(n, useSi) ==>
          (b - 1) * Abs(Digits(0, text) * Power(b, rank - units) - n) <= b / 2 * (Power(b, rank - units) - 1))
      else
        && units <= rank && (rank == 0 ==> text[|text| - 1] == 'B')
        && (Small(n, useSi) ==> (b - 1) * n <= b / 2 * (Power(b, rank + 1 - units) - 1))
  }

  lemma {:induction false} NumberMeans(n: uintmax, units: nat, j: nat, shown: nat, useSi: bool)
    requires units <= j <= 8 && shown > 0 && shown == Reduced(n, j - units, useSi)
    ensures Means(n, units, Decimal(shown) + Suffix(j, useSi), useSi)
    ensures IsDigit((Decimal(shown) + Suffix(j, useSi))[0])
  {
    var text := Decimal(shown) + Suffix(j, useSi);
    DigitRank(shown);
    NotZero(shown, Suffix(j, useSi));
    LabelNumber(shown, j, true, 1, useSi);
    assert text[0] == Decimal(shown)[0];
    assert RankOf(text) == j && InStyle(text, useSi) by {
      if j > 0 {
        SuffixRank(j, useSi);
        assert text[|text| - 1] == Suffix(j, useSi)[0];
      } else {
        assert text == Decimal(shown);
      }
    }
    if Small(n, useSi) {
      Error(n, j - units, useSi);
    }
  }

  lemma {:induction false} NotZero(n: nat, more: string)
    requires n > 0
    ensures Decimal(n) + more != "0"
  {
    DigitsDecimal(n);
    var s := Decimal(n);
    assert (s + more)[0] == s[0] && |s + more| >= |s|;
    if |s| == 1 {
      assert s[1..] == [];
      assert Digits(0, s) == Digits((s[0] - '0') as nat, s[1..]) == (s[0] - '0') as nat;
    }
  }

  /** A text without a number ends with the letter below the unit. */
  lemma {:induction false} LessText(j: nat, width: nat, useSi: bool, text: string)
    requires 0 < j <= 8 && text == (if width > 1 then "~" else "") + (if j > 1 then Suffix(j - 1, useSi) else "B")
    ensures text != [] && text != "0" && RankOf(text) == j - 1 && InStyle(text, useSi) && !IsDigit(text[0])
    ensures (j == 1 ==> text[|text| - 1] == 'B') && (text[0] == '~' <==> width > 1)
  {
    var letter := if j > 1 then Suffix(j - 1, useSi) else "B";
    if j > 1 {
      SuffixRank(j - 1, useSi);
    }
    assert text[|text| - 1] == letter[0];
    assert text[0] == if width > 1 then '~' else letter[0];
  }

  lemma {:induction false} LessMeans(n: uintmax, units: nat, j: nat, width: nat, text: string, useSi: bool)
    requires units < j <= 8 && Reduced(n, j - units, useSi) == 0
    requires text == (if width > 1 then "~" else "") + (if j > 1 then Suffix(j - 1, useSi) else "B")
    ensures Means(n, units, text, useSi)
  {
    LessText(j, width, useSi, text);
    if Small(n, useSi) {
      Error(n, j - units, useSi);
    }
  }

  /** What is shown means the size. */
  lemma {:induction false} ShowsMeans(size: uintmax, units: nat, j: nat, width: nat, useSi: bool, text: string)
    requires width > 0 && Shows(size, units, j, width, useSi, text)
    ensures Means(if useSi then Rescaled(size, units) else size, units, text, useSi)
    ensures !IsDigit(text[0]) ==> (text[0] == '~' <==> width > 1)
  {
    var n := if useSi then Rescaled(size, units) else size;
    var shown := NumberAt(size, units, j, useSi);
    if shown > 0 {
      NumberMeans(n, units, j, shown, useSi);
    } else if j > units {
      LessText(j, width, useSi, text);
      LessMeans(n, units, j, width, text, useSi);
    }
  }

  /** size_trunc_len. None means that nothing is written to the buffer, which happens if the size
      does not fit even in the last unit of the table. What is written is the size in the smallest
      unit that fits, whole. */
  method SizeTruncLen(len: nat, size: uintmax, units: nat, useSi: bool) returns (buffer: Option<string>)
    requires units <= 9
    ensures buffer.Some? <==> units <= 8 && FitsAt(size, units, 8, Clamp(len), useSi)
    ensures buffer.Some? ==> |buffer.value| <= Clamp(len)
    ensures buffer.Some? ==> exists j :: Shows(size, units, j, Clamp(len), useSi, buffer.value)
    ensures buffer.Some? ==> Means(if useSi then Rescaled(size, units) else size, units, buffer.value, useSi)
    ensures buffer.Some? && !IsDigit(buffer.value[0]) ==> (buffer.value[0] == '~' <==> Clamp(len) > 1)
    ensures units <= 8 && (if useSi then Rescaled(size, units) else size) == 0 ==> buffer == Some("0")
  {
    var width, n := Clamp(len), size;
    if useSi {
      for j := 0 to units
        invariant n == Rescaled(size, j)
      {
        n := Rescale(n);
      }
    }
    var j := units;
    while j < 9
      invariant units <= j <= 9 && n == NumberAt(size, units, j, useSi)
      invariant j > units ==> NumberAt(size, units, units, useSi) != 0
      invariant forall i :: units <= i < j ==> !FitsAt(size, units, i, width, useSi)
    {
      if n == 0 || n < Power10(Room(j, width)) {
        LabelWidth(n, j, j == units, width, useSi);
        assert Shows(size, units, j, width, useSi, Label(n, j, j == units, width, useSi));
        FitsLater(size, units, j, 8, width, useSi);
        ShowsMeans(size, units, j, width, useSi, Label(n, j, j == units, width, useSi));
        return Some(Snprintf(width, Label(n, j, j == units, width, useSi)));
      }
      n := Reduce(n, useSi);
      j := j + 1;
    }
    buffer := None;
  }

  lemma {:induction false} StaysSmall(n: uintmax, k: nat, useSi: bool)
    requires Small(n, useSi)
    ensures Small(Reduced(n, k, useSi), useSi)
  {
    if k > 0 {
      StaysSmall(n, k - 1, useSi);
      OneReduction(Reduced(n, k - 1, useSi), useSi);
    }
  }

  lemma {:induction false} NothingLeft(n: uintmax, k: nat, useSi: bool)
    requires !Small(n, useSi) && k > 0
    ensures Reduced(n, k, useSi) == 0
  {
    if k == 1 {
      NearestUnlessWrapped(n, useSi);
    } else {
      NothingLeft(n, k - 1, useSi);
    }
  }

  /** The numbers that k reductions bring below the bound. */
  lemma {:induction false} BelowIff(n: uintmax, k: nat, useSi: bool, bound: nat)
    requires Small(n, useSi) && bound > 0
    ensures Reduced(n, k, useSi) < bound <==> n + Drift(Base(useSi), k) < bound * Power(Base(useSi), k)
  {
    if k > 0 {
      var b, m := Base(useSi), Reduced(n, k - 1, useSi);
      var less := LeavesRoom(bound, b);
      BelowIff(n, k - 1, useSi, less);
      BelowStep(m, b, bound, less, n + Drift(b, k - 1), Power(b, k - 1));
      NextReduction(n, k, useSi);
    }
  }

  lemma {:induction false} NextReduction(n: uintmax, k: nat, useSi: bool)
    requires Small(n, useSi) && k > 0
    ensures Reduced(n, k, useSi) == (Reduced(n, k - 1, useSi) + Base(useSi) / 2) / Base(useSi)
  {
    StaysSmall(n, k - 1, useSi);
    OneReduction(Reduced(n, k - 1, useSi), useSi);
  }

  lemma {:induction false} LeavesRoom(bound: nat, b: nat) returns (less: nat)
    requires bound > 0 && b > 1
    ensures less == bound * b - b / 2 > 0
  {
    assert bound * b >= b;
    less := bound * b - b / 2;
  }

  lemma {:induction false} BelowStep(m: nat, b: nat, bound: nat, less: nat, n: nat, p: nat)
    requires b > 0 && less == bound * b - b / 2 && (m < less <==> n < less * p)
    ensures (m + b / 2) / b < bound <==> n + b / 2 * p < bound * (b * p)
  {
    Shift(bound, b, b / 2, p);
    QuotientBelow(m + b / 2, b, bound);
  }

  lemma {:induction false} QuotientBelow(x: nat, b: nat, bound: nat)
    requires b > 0
    ensures x / b < bound <==> x < bound * b
  {
    var q := x / b;
    assert q * b <= x < q * b + b;
    if q < bound {
      assert (q + 1) * b <= bound * b;
    } else {
      assert q * b >= bound * b;
    }
  }

  lemma {:induction false} Shift(bound: nat, b: nat, h: nat, p: nat)
    ensures (bound * b - h) * p + h * p == bound * (b * p)
  {
    assert (bound * b - h) * p + h * p == bound * b * p;
  }

  /** A size fits in unit j exactly if it is below this bound, unless the first reduction wraps
      around and leaves nothing of it. */
  lemma {:induction false} FitsIff(size: uintmax, units: nat, j: nat, width: nat, useSi: bool)
    requires units <= j && width > 0
    ensures var n, b, k := NumberAt(size, units, units, useSi), Base(useSi), j - units;
      FitsAt(size, units, j, width, useSi) <==>
        n + Drift(b, k) < Power10(Room(j, width)) * Power(b, k) || (k > 0 && !Small(n, useSi))
  {
    var n := NumberAt(size, units, units, useSi);
    PowerMonotone(0, Room(j, width));
    if Small(n, useSi) {
      BelowIff(n, j - units, useSi, Power10(Room(j, width)));
    } else if j > units {
      NothingLeft(n, j - units, useSi);
    }
  }

  lemma {:induction false} PowerMonotone(i: nat, k: nat)
    requires i <= k
    ensures Power10(i) <= Power10(k)
    decreases k
  {
    if i < k {
      PowerMonotone(i, k - 1);
    }
  }

  lemma {:induction false} TenSum(i: nat, k: nat)
    ensures Power10(i + k) == Power10(i) * Power10(k)
  {
    if i > 0 {
      TenSum(i - 1, k);
      Associate(10, Power10(i - 1), Power10(k));
    }
  }

  lemma {:induction false} Associate(a: nat, b: nat, c: nat)
    ensures a * (b * c) == a * b * c
  {
  }

  lemma {:induction false} Thousands(k: nat)
    ensures Power(1000, k) == Power10(3 * k)
  {
    if k > 0 {
      Thousands(k - 1);
      var tens := 3 * (k - 1);
      assert Power10(tens + 3) == 10 * Power10(tens + 2) && Power10(tens + 2) == 10 * Power10(tens + 1);
    }
  }

  /** The powers of 1024 are not far from those of 1000. */
  lemma {:induction false} NearThousands(k: nat, useSi: bool)
    requires k <= 8
    ensures var p, q := Power(Base(useSi), k), Power(1000, k); q <= p && 100 * p <= (100 + 3 * k) * q
  {
    if k > 0 {
      NearThousands(k - 1, useSi);
      NextThousand(Power(Base(useSi), k - 1), Power(1000, k - 1), k, Base(useSi));
    }
  }

  lemma {:induction false} NextThousand(p: nat, q: nat, k: nat, b: nat)
    requires 0 < k <= 8 && q <= p && 100 * p <= (97 + 3 * k) * q && 1000 <= b <= 1024
    ensures 1000 * q <= b * p && 100 * (b * p) <= (100 + 3 * k) * (1000 * q)
  {
    Products(k, q, 8, q);
    Products(b, p, 1024, p);
    Products(1000, p, b, p);
    Distribute(k, q);
    NextBound(p, q, k * q, b * p);
  }

  lemma {:induction false} Distribute(k: nat, q: nat)
    ensures (97 + 3 * k) * q == 97 * q + 3 * (k * q)
    ensures (100 + 3 * k) * (1000 * q) == 100_000 * q + 3_000 * (k * q)
  {
    Associate(3, k, q);
    Associate(3 * k, 1000, q);
    Associate(3_000, k, q);
  }

  lemma {:induction false} NextBound(p: nat, q: nat, kq: nat, bp: nat)
    requires kq <= 8 * q && 100 * p <= 97 * q + 3 * kq && bp <= 1024 * p
    ensures 100 * bp <= 100_000 * q + 3_000 * kq
  {
  }

  /** Repeated rounding leads away by little more than half a unit. */
  lemma {:induction false} HalfAtMost(k: nat, useSi: bool)
    ensures 3 * Drift(Base(useSi), k) <= 2 * Power(Base(useSi), k)
  {
    DriftSum(Base(useSi), k);
    TwoThirds(Base(useSi), Drift(Base(useSi), k), Power(Base(useSi), k));
  }

  lemma {:induction false} TwoThirds(b: nat, d: nat, p: nat)
    requires (b == 1000 || b == 1024) && (b - 1) * d == b / 2 * (p - 1)
    ensures 3 * d <= 2 * p
  {
  }

  /** Where the last unit stands: as many places as there are in 1000^(8-units), and 3*units-4
      more. */
  lemma {:induction false} Places(units: nat, least: nat)
    requires 2 <= units <= 8 && (least == 3 * units - 4 || least == 3 * units - 5)
    ensures Power10(least) * Power(1000, 8 - units) == Power10(if least == 3 * units - 4 then 20 else 19)
  {
    Thousands(8 - units);
    TenSum(least, 3 * (8 - units));
  }

  /** Wide enough for the last unit. */
  lemma {:induction false} Wide(units: nat, width: nat, p: nat)
    requires 2 <= units <= 8 && width >= 3 * (units - 1) && p >= Power(1000, 8 - units)
    ensures Power10(width - 1) * p >= Power10(20) && Power10(width - 1) * p >= 100 * p
  {
    var least := 3 * units - 4;
    Places(units, least);
    PowerMonotone(least, width - 1);
    PowerMonotone(2, width - 1);
    Products(Power10(least), Power(1000, 8 - units), Power10(width - 1), p);
    Products(100, p, Power10(width - 1), p);
  }

  lemma {:induction false} Narrow(units: nat, width: nat, p: nat)
    requires 2 <= units <= 8 && 0 < width < 3 * (units - 1) && 100 * p <= 118 * Power(1000, 8 - units)
    ensures 100 * (Power10(width - 1) * p) <= 118 * Power10(19)
  {
    var most := 3 * units - 5;
    Places(units, most);
    PowerMonotone(width - 1, most);
    Scaled(Power10(width - 1), p, Power10(most), Power(1000, 8 - units), 100, 118);
  }

  lemma {:induction false} Products(a: nat, b: nat, c: nat, d: nat)
    requires a <= c && b <= d
    ensures a * b <= c * d
  {
    assert a * b <= c * b;
    assert c * b <= c * d;
  }

  lemma {:induction false} Scaled(a: nat, p: nat, c: nat, q: nat, x: nat, y: nat)
    requires a <= c && x * p <= y * q
    ensures x * (a * p) <= y * (c * q)
  {
    Products(a, x * p, c, y * q);
    assert a * (x * p) == x * (a * p) && c * (y * q) == y * (c * q);
  }

  /** A size that does not fit unless every one does. */
  const FAR: uintmax := 14_800_000_000_000_000_000

  lemma {:induction false} FarStep(n: uintmax, units: nat)
    requires units < 8 && FAR <= n <= FAR + units * 450_000_000_000_000_000
    ensures FAR <= Rescale(n) <= FAR + (units + 1) * 450_000_000_000_000_000
  {
    RescaleExact(n);
    Grows(n);
  }

  lemma {:induction false} Grows(n: nat)
    requires FAR <= n <= 17_990_000_000_000_000_000
    ensures n <= n * 1024 / 1000 % WRAP <= n + 450_000_000_000_000_000
  {
  }

  /** In SI units it becomes more, but does not wrap around. */
  lemma {:induction false} FarRescaled(size: uintmax, units: nat)
    requires size == FAR && units <= 8
    ensures FAR <= Rescaled(size, units) <= FAR + units * 450_000_000_000_000_000
  {
    if units > 0 {
      FarRescaled(size, units - 1);
      FarStep(Rescaled(size, units - 1), units - 1);
    }
  }

  /** Whatever fits: the condition of FitsIff holds of every number. */
  lemma {:induction false} AllFit(n: uintmax, units: nat, width: nat, useSi: bool)
    requires units <= 8 && width > 0 && width >= 3 * (units as int - 1)
    ensures n + Drift(Base(useSi), 8 - units) < Power10(width - 1) * Power(Base(useSi), 8 - units)
  {
    var p := Power(Base(useSi), 8 - units);
    NearThousands(8 - units, useSi);
    HalfAtMost(8 - units, useSi);
    PowersOf19And20();
    if units >= 2 {
      Wide(units, width, p);
    } else {
      Thousands(8 - units);
      PowerMonotone(21, 3 * (8 - units));
      PowerMonotone(0, width - 1);
      Products(1, p, Power10(width - 1), p);
    }
  }

  lemma {:induction false} PowersOf19And20()
    ensures Power10(19) == 10_000_000_000_000_000_000
    ensures Power10(20) == 10 * Power10(19) && Power10(21) == 10 * Power10(20)
  {
    PowerOf19();
    var k: nat := 19;
    assert Power10(k + 2) == 10 * Power10(k + 1);
  }

  /** Not even the last unit makes it fit. */
  lemma {:induction false} TooFar(n: nat, units: nat, width: nat, useSi: bool)
    requires FAR <= n && 2 <= units <= 8 && 0 < width < 3 * (units - 1)
    ensures n >= Power10(width - 1) * Power(Base(useSi), 8 - units)
  {
    NearThousands(8 - units, useSi);
    PowersOf19And20();
    Narrow(units, width, Power(Base(useSi), 8 - units));
  }

  lemma {:induction false} FarFits(size: uintmax, units: nat, width: nat, useSi: bool)
    requires size == FAR && 2 <= units <= 8 && 0 < width < 3 * (units - 1)
    ensures !FitsAt(size, units, 8, width, useSi)
  {
    FitsIff(size, units, 8, width, useSi);
    FarRescaled(size, units);
    TooFar(NumberAt(size, units, units, useSi), units, width, useSi);
  }

  /** Every size is written exactly if there are three digits for each unit beyond the second. From
      bytes and kilobytes it always is. */
  lemma {:induction false} AlwaysWritten(units: nat, width: nat, useSi: bool)
    requires units <= 8 && width > 0
    ensures (forall size: uintmax :: FitsAt(size, units, 8, width, useSi)) <==> width >= 3 * (units as int - 1)
  {
    if width >= 3 * (units as int - 1) {
      forall size: uintmax ensures FitsAt(size, units, 8, width, useSi) {
        var n := NumberAt(size, units, units, useSi);
        FitsIff(size, units, 8, width, useSi);
        AllFit(n, units, width, useSi);
      }
    } else {
      FarFits(FAR, units, width, useSi);
    }
  }

  /** Of 2^64 - 4096 megabytes nothing is written to a field of one character. */
  lemma {:induction false} NothingIsWritten(size: uintmax)
    requires size == 0xffff_ffff_ffff_f000
    ensures !FitsAt(size, 2, 8, Clamp(1), false)
  {
    FitsIff(size, 2, 8, 1, false);
    TooFar(size, 2, 1, false);
  }

  /** A size within 512 of the largest is shown as less than a kilobyte. */
  lemma {:induction false} HugeVanishes(size: uintmax, width: nat)
    requires size >= WRAP - 512 && 1 <= width <= 19
    ensures Chosen(size, 0, 1, width, false) && NumberAt(size, 0, 1, false) == 0
  {
    NearestUnlessWrapped(size, false);
    var zero: nat := 0;
    assert NumberAt(size, 0, zero, false) == size;
    assert Reduced(size, zero + 1, false) == Reduce(size, false);
    PowerMonotone(width, 19);
    PowerOf19();
    assert !FitsAt(size, 0, zero, width, false);
  }

  /** Free space as the information panel asks for it: 20 gigabytes, given in kilobytes. */
  method TwentyGigabytes() returns (buffer: Option<string>)
    ensures buffer == Some("20G")
  {
    var size: uintmax := 20971520;
    buffer := SizeTruncLen(5, size, 1, false);
    TwentyFits(size);
    FitsLater(size, 1, 3, 8, 5, false);
    ghost var j :| Shows(size, 1, j, 5, false, buffer.value);
    TwentyLabel(size);
  }

  lemma {:induction false} TwentyFits(size: uintmax)
    requires size == 20971520
    ensures FitsAt(size, 1, 3, 5, false) && !FitsAt(size, 1, 1, 5, false) && !FitsAt(size, 1, 2, 5, false)
  {
    Reductions(size);
    assert Power10(4) == 10000;
  }

  lemma {:induction false} TwentyLabel(size: uintmax)
    requires size == 20971520
    ensures Label(NumberAt(size, 1, 3, false), 3, false, 5, false) == "20G"
  {
    Reductions(size);
    assert Decimal(20) == Decimal(2) + [Digit(0)];
  }

  lemma {:induction false} Reductions(size: uintmax)
    requires size == 20971520
    ensures NumberAt(size, 1, 1, false) == size && NumberAt(size, 1, 2, false) == 20480 && NumberAt(size, 1, 3, false) == 20
  {
    var zero: nat := 0;
    assert Reduced(size, zero, false) == size;
    assert Reduced(size, zero + 1, false) == 20480;
    assert Reduced(size, zero + 2, false) == 20;
  }

  /** Without a width there are nine digits, and never more than nineteen. */
  method LongestNumbers() returns (nine: Option<string>, more: Option<string>, nineteen: Option<string>)
    ensures nine == Some(Decimal(999_999_999)) && nineteen == Some(Decimal(9_999_999_999_999_999_999))
    ensures more.Some? && RankOf(more.value) == 1
  {
    nine := SizeTruncLen(0, 999_999_999, 0, false);
    more := SizeTruncLen(0, 1_000_000_000, 0, false);
    nineteen := SizeTruncLen(25, 9_999_999_999_999_999_999, 0, false);
    FirstUnit(999_999_999, 9, nine);
    FirstUnit(9_999_999_999_999_999_999, 19, nineteen);
    SecondUnit(1_000_000_000, more);
  }

  lemma {:induction false} FirstUnit(size: uintmax, width: nat, buffer: Option<string>)
    requires 0 < size < Power10(width) && width > 0
    requires buffer.Some? <==> FitsAt(size, 0, 8, width, false)
    requires buffer.Some? ==> exists j :: Shows(size, 0, j, width, false, buffer.value)
    ensures buffer == Some(Decimal(size))
  {
    assert FitsAt(size, 0, 0, width, false);
    FitsLater(size, 0, 0, 8, width, false);
    var j :| Shows(size, 0, j, width, false, buffer.value);
    assert Decimal(size) + [] == Decimal(size);
  }

  lemma {:induction false} SecondUnit(size: uintmax, buffer: Option<string>)
    requires size == 1_000_000_000 && (buffer.Some? <==> FitsAt(size, 0, 8, 9, false))
    requires buffer.Some? ==> exists j :: Shows(size, 0, j, 9, false, buffer.value)
    ensures buffer.Some? && RankOf(buffer.value) == 1
  {
    BillionFits(size);
    FitsLater(size, 0, 1, 8, 9, false);
    var j :| Shows(size, 0, j, 9, false, buffer.value);
    assert j == 1;
    assert buffer.value == Decimal(976563) + Suffix(1, false);
    SuffixRank(1, false);
    assert buffer.value[|buffer.value| - 1] == Suffix(1, false)[0];
  }

  lemma {:induction false} BillionFits(size: uintmax)
    requires size == 1_000_000_000
    ensures !FitsAt(size, 0, 0, 9, false) && FitsAt(size, 0, 1, 9, false) && NumberAt(size, 0, 1, false) == 976563
  {
    var zero: nat := 0;
    assert Power10(4) == 10000 && Power10(8) == 1_0000_0000 && Power10(9) == 10_0000_0000;
    assert Reduced(size, zero, false) == size && Reduced(size, zero + 1, false) == 976563;
  }
}
