/** serialize.c: strings and configurations written as frames, a tag, a length and a text each.
    A string is the characters before the terminating NUL. */
module Serialize {
  import opened Wrappers
  import opened Decimals

  datatype Problem =
    | NoData
    | WrongPrefix(prefix: char)
    | NoDelimiter
    | LengthTooLong
    | TextTooShort(claimed: nat, actual: nat)

  const SRLZ_DELIM := ':'
  const BUF_TINY := 64

  predicate IsSpace(c: char) { c == ' ' || '\t' <= c <= '\r' }

  const LONG_MAX: int := 0x7fff_ffff_ffff_ffff

  /** atol: white space, a sign, digits, and whatever follows is ignored; out of range saturates. */
  function AToL(s: string): (n: int)
    ensures -LONG_MAX - 1 <= n <= LONG_MAX
  {
    if s == [] then 0
    else if IsSpace(s[0]) then AToL(s[1..])
    else if s[0] == '-' then (var n: int := Digits(0, s[1..]); if n <= LONG_MAX + 1 then -n else -LONG_MAX - 1)
    else var n := Digits(0, if s[0] == '+' then s[1..] else s);
      if n <= LONG_MAX then n else LONG_MAX
  }

  /** The conversion of a long to size_t. */
  function SizeT(n: int): nat
    requires -LONG_MAX - 1 <= n <= LONG_MAX
  {
    if n < 0 then n + 0x1_0000_0000_0000_0000 else n
  }

  /** A length that fits a long survives printing and reading. */
  lemma {:induction false} AToLDecimal(n: nat)
    requires n <= LONG_MAX
    ensures AToL(Decimal(n)) == n && |Decimal(n)| < BUF_TINY && SRLZ_DELIM !in Decimal(n)
  {
    DigitsDecimal(n);
    PowerOf19();
    DecimalLength(n, 19);
    var s := Decimal(n);
    assert IsDigit(s[0]);
  }

  /** strchr, as an index. */
  function IndexOf(s: string, c: char): (r: Option<nat>)
    ensures r.Some? ==> r.value < |s| && s[r.value] == c && forall i :: 0 <= i < r.value ==> s[i] != c
    ensures r.None? <==> c !in s
  {
    if s == [] then None
    else if s[0] == c then Some(0)
    else match IndexOf(s[1..], c)
      case None => None
      case Some(k) => Some(k + 1)
  }

  /** mc_serialize_str; None is the NULL pointer. */
  function SerializeStr(prefix: char, data: Option<string>): Result<string, Problem> {
    match data
    case None => Error(NoData)
    case Some(text) => Ok([prefix] + Decimal(|text|) + [SRLZ_DELIM] + text)
  }

  /** mc_deserialize_str */
  function DeserializeStr(prefix: char, data: string): Result<string, Problem> {
    if data == [] then Error(NoData)
    else if data[0] != prefix then Error(WrongPrefix(prefix))
    else match IndexOf(data[1..], SRLZ_DELIM)
      case None => Error(NoDelimiter)
      case Some(k) =>
        if k >= BUF_TINY then Error(LengthTooLong)
        else
          var length := SizeT(AToL(data[1..k + 1]));
          var text := data[k + 2..];
          if length > |text| then Error(TextTooShort(length, |text|)) else Ok(text[..length])
  }

  /** go_to_end_of_serialized_string: how far to the next frame, if there is one. */
  function GoToEnd(data: string, part: string): (offset: Option<nat>)
    requires data != [] && SRLZ_DELIM in data[1..]
    ensures offset.Some? ==> 2 <= offset.value < |data|
  {
    var offset := IndexOf(data[1..], SRLZ_DELIM).value + 2 + |part|;
    if offset >= |data| then None else Some(offset)
  }

  /** What a reader takes for one serialized string. */
  datatype Frame = Frame(tag: char, field: string, text: string) {
    predicate WellFormed() {
      SRLZ_DELIM !in field && |field| < BUF_TINY && SizeT(AToL(field)) == |text|
    }

    function Written(): string {
      [tag] + field + [SRLZ_DELIM] + text
    }
  }

  lemma {:induction false} FirstDelimiter(f: Frame, rest: string)
    requires f.WellFormed()
    ensures var s := (f.Written() + rest)[1..]; SRLZ_DELIM in s && IndexOf(s, SRLZ_DELIM) == Some(|f.field|)
  {
    assert (f.Written() + rest)[1..] == f.field + ([SRLZ_DELIM] + f.text + rest);
    IndexBehind(f.field, SRLZ_DELIM, f.text + rest);
    assert [SRLZ_DELIM] + f.text + rest == [SRLZ_DELIM] + (f.text + rest);
  }

  lemma {:induction false} IndexBehind(field: string, c: char, rest: string)
    requires c !in field
    ensures var s := field + ([c] + rest); c in s && IndexOf(s, c) == Some(|field|)
    decreases |field|
  {
    var s := field + ([c] + rest);
    if field != [] {
      assert s[0] == field[0] && s[1..] == field[1..] + ([c] + rest);
      IndexBehind(field[1..], c, rest);
    }
  }

  /** The data begin with this frame, and the rest is behind it. */
  ghost predicate Begins(f: Frame, data: string, rest: string) {
    && |data| == |f.field| + 2 + |f.text| + |rest| && data[0] == f.tag
    && SRLZ_DELIM in data[1..] && IndexOf(data[1..], SRLZ_DELIM) == Some(|f.field|)
    && data[1..|f.field| + 1] == f.field && data[|f.field| + 2..] == f.text + rest
    && (f.text + rest)[..|f.text|] == f.text
  }

  lemma {:induction false} ItBegins(f: Frame, data: string, rest: string)
    requires f.WellFormed() && data == f.Written() + rest
    ensures Begins(f, data, rest)
  {
    FirstDelimiter(f, rest);
    Pieces(f.tag, f.field, f.text, rest);
  }

  lemma {:induction false} ReadIt(f: Frame, data: string, rest: string)
    requires f.WellFormed() && Begins(f, data, rest)
    ensures DeserializeStr(f.tag, data) == Ok(f.text)
    ensures GoToEnd(data, f.text) == (if rest == [] then None else Some(|f.Written()|))
  {
  }

  /** Reading a well-formed frame gives its text and stops right behind it. */
  lemma {:induction false} ReadFrame(f: Frame, rest: string)
    requires f.WellFormed()
    ensures var data := f.Written() + rest;
      && DeserializeStr(f.tag, data) == Ok(f.text)
      && SRLZ_DELIM in data[1..]
      && GoToEnd(data, f.text) == (if rest == [] then None else Some(|f.Written()|))
  {
    ItBegins(f, f.Written() + rest, rest);
    ReadIt(f, f.Written() + rest, rest);
  }

  lemma {:induction false} Pieces(tag: char, field: string, text: string, rest: string)
    ensures var data := [tag] + field + [SRLZ_DELIM] + text + rest;
      data[1..|field| + 1] == field && data[|field| + 2..] == text + rest && (text + rest)[..|text|] == text
  {
  }

  /** Whatever is read was a well-formed frame. */
  lemma {:induction false} FrameOf(prefix: char, data: string) returns (f: Frame, rest: string)
    requires DeserializeStr(prefix, data).Ok?
    ensures f.WellFormed() && f.tag == prefix && f.text == DeserializeStr(prefix, data).value
    ensures data == f.Written() + rest
  {
    var k := IndexOf(data[1..], SRLZ_DELIM).value;
    var field, text := data[1..k + 1], data[k + 2..];
    var n := SizeT(AToL(field));
    f, rest := Frame(prefix, field, text[..n]), text[n..];
    NoneBefore(data, k);
    Glue(data, k, n);
  }

  lemma {:induction false} NoneBefore(data: string, k: nat)
    requires data != [] && IndexOf(data[1..], SRLZ_DELIM) == Some(k)
    ensures SRLZ_DELIM !in data[1..k + 1] && data[k + 1] == SRLZ_DELIM
  {
    assert forall i :: 0 <= i < k ==> data[1..k + 1][i] == data[1..][i];
  }

  lemma {:induction false} Glue<T>(data: seq<T>, k: nat, n: nat)
    requires k + 2 + n <= |data|
    ensures data == [data[0]] + data[1..k + 1] + [data[k + 1]] + data[k + 2..][..n] + data[k + 2..][n..]
  {
  }

  lemma {:induction false} ReadHasDelimiter(prefix: char, data: string)
    requires DeserializeStr(prefix, data).Ok?
    ensures data != [] && SRLZ_DELIM in data[1..]
  {
  }

  function FrameFor(tag: char, text: string): Frame {
    Frame(tag, Decimal(|text|), text)
  }

  /** What mc_serialize_str writes is a well-formed frame. */
  lemma {:induction false} SerializedIsFrame(tag: char, text: string)
    requires |text| <= LONG_MAX
    ensures FrameFor(tag, text).WellFormed() && SerializeStr(tag, Some(text)) == Ok(FrameFor(tag, text).Written())
  {
    AToLDecimal(|text|);
  }

  /** Any string comes back, whatever characters it holds and whatever follows it. */
  lemma {:induction false} StringRoundTrip(tag: char, text: string, rest: string)
    requires |text| <= LONG_MAX
    ensures DeserializeStr(tag, SerializeStr(tag, Some(text)).value + rest) == Ok(text)
  {
    SerializedIsFrame(tag, text);
    ReadFrame(FrameFor(tag, text), rest);
  }
}
