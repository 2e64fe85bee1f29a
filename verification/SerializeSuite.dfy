/** Strings and configurations by example, after source/tests/lib/serialize.c. */
module SerializeSuite {
  import opened Wrappers
  import opened Decimals
  import opened Serialize
  import opened SerializeConfig
  import opened DeserializeConfig
  import opened SerializeLaws
  import opened SerializeErrors
  import opened ConfigValues

  /** A string is refused by what stands before and behind its first delimiter. */
  lemma {:induction false} Delimited(tag: char, field: string, rest: string, data: string)
    requires SRLZ_DELIM !in field && data == [tag] + (field + ([SRLZ_DELIM] + rest))
    ensures DeserializeStr(tag, data) ==
      if |field| >= 64 then Error(LengthTooLong)
      else if SizeT(AToL(field)) > |rest| then Error(TextTooShort(SizeT(AToL(field)), |rest|))
      else Ok(rest[..SizeT(AToL(field))])
  {
    Split(tag, field, rest, data);
    var length := SizeT(AToL(field));
    assert data[1..|field| + 1] == field && data[|field| + 2..] == rest;
  }

  lemma {:induction false} Split(tag: char, field: string, rest: string, data: string)
    requires SRLZ_DELIM !in field && data == [tag] + (field + ([SRLZ_DELIM] + rest))
    ensures |data| == |field| + |rest| + 2 && data[0] == tag && IndexOf(data[1..], SRLZ_DELIM) == Some(|field|)
    ensures data[1..|field| + 1] == field && data[|field| + 2..] == rest
  {
    IndexBehind(field, SRLZ_DELIM, rest);
    assert data[1..] == field + ([SRLZ_DELIM] + rest);
  }

  lemma {:induction false} Numbers()
    ensures AToL("10") == 10 && AToL("500") == 500 && AToL("6000") == 6000 && AToL("-1") == -1 && AToL(" +6x") == 6
    ensures Decimal(16) == "16" && Decimal(6) == "6" && Decimal(305) == "305"
  {
    assert "10"[1..] == "0" && "500"[1..] == "00" && "6000"[1..] == "000" && "000"[1..] == "00" && "00"[1..] == "0";
    assert "-1"[1..] == "1" && " +6x"[1..] == "+6x" && "+6x"[1..] == "6x" && "6x"[1..] == "x" && "0"[1..] == "" && "1"[1..] == "";
    assert Decimal(30) == "30";
  }

  /** atol: white space and one sign may stand before the digits. */
  lemma {:induction false} LeadingCharacter(c: char)
    ensures AToL([c] + "6") == 6 <==> c in " \t\n\U{0b}\U{0c}\r+0"
    ensures AToL([c] + "6") == -6 <==> c == '-'
  {
    var s := [c] + "6";
    assert s[0] == c && s[1..] == "6" && "6"[0] == '6' && "6"[1..] == "";
    assert Digits(0, "6") == 6;
    if IsDigit(c) {
      assert Digits(0, s) == Digits((c - '0') as nat, "6") == 10 * (c - '0') as nat + 6;
    }
  }

  function Least(a: int, b: int): int { if a < b then a else b }

  /** What does not fit a long becomes its largest or smallest value. */
  lemma {:induction false} Saturates(n: nat, digits: string)
    requires digits == Decimal(n)
    ensures AToL(digits) == Least(n, 0x7fff_ffff_ffff_ffff) && AToL(['-'] + digits) == -Least(n, 0x8000_0000_0000_0000)
  {
    DigitsDecimal(n);
    assert IsDigit(digits[0]) && (['-'] + digits)[1..] == digits;
  }

  /** mc_serialize_str */
  lemma {:induction false} Writes(text: string)
    requires |text| == 16
    ensures SerializeStr('s', Some(text)) == Ok("s16:" + text) && SerializeStr('s', None) == Error(NoData)
  {
    Numbers();
    assert ['s'] + "16" + [SRLZ_DELIM] + text == "s16:" + text;
  }

  /** mc_deserialize_str: the string may be longer than it says. */
  lemma {:induction false} ReadsTen(text: string)
    requires |text| == 47
    ensures DeserializeStr('s', "s10:" + text) == Ok(text[..10])
  {
    Numbers();
    assert "s10:" + text == ['s'] + ("10" + ([SRLZ_DELIM] + text));
    Delimited('s', "10", text, "s10:" + text);
  }

  /** But not shorter. */
  lemma {:induction false} TooShort(text: string)
    requires |text| == 47
    ensures DeserializeStr('s', "s500:" + text) == Error(TextTooShort(500, 47))
  {
    Numbers();
    assert "s500:" + text == ['s'] + ("500" + ([SRLZ_DELIM] + text));
    Delimited('s', "500", text, "s500:" + text);
  }

  /** A negative length is a huge one. */
  lemma {:induction false} Negative(text: string)
    requires |text| == 47
    ensures DeserializeStr('s', "s-1:" + text) == Error(TextTooShort(0xffff_ffff_ffff_ffff, 47))
  {
    Numbers();
    assert "s-1:" + text == ['s'] + ("-1" + ([SRLZ_DELIM] + text));
    Delimited('s', "-1", text, "s-1:" + text);
  }

  /** Nothing, another prefix, and no delimiter. */
  lemma {:induction false} NotEven(data: string)
    requires data != [] && SRLZ_DELIM !in data
    ensures DeserializeStr(data[0], data) == Error(NoDelimiter)
    ensures forall tag :: tag != data[0] ==> DeserializeStr(tag, data) == Error(WrongPrefix(tag))
    ensures DeserializeStr('s', "") == Error(NoData)
  {
    assert forall c :: c in data[1..] ==> c in data;
  }

  /** The length has at most 63 characters. */
  lemma {:induction false} LongField(field: string, rest: string)
    requires SRLZ_DELIM !in field && |field| >= 64
    ensures DeserializeStr('s', ['s'] + (field + ([SRLZ_DELIM] + rest))) == Error(LengthTooLong)
  {
    Delimited('s', field, rest, ['s'] + (field + ([SRLZ_DELIM] + rest)));
  }

  lemma {:induction false} OneFrame(tag: char, text: string, data: string)
    requires |text| == 6 && data == [tag] + "6:" + text
    ensures var f := Frame(tag, "6", text); f.WellFormed() && f.Written() == data && |data| == 9
  {
    assert "6"[1..] == "";
  }

  /** A configuration that is refused at once: position 1. */
  lemma {:induction false} RefusedAtOnce(data: string, e: Problem)
    requires DeserializeStr('g', data) == Error(e)
    ensures Parse(data, WaitGroup, START, 0) == Error(Failure(1, e))
  {
    RefusesAtOnce(data, e);
    RefusedAt(data, 1, e);
  }

  lemma {:induction false} RefusesAtOnce(data: string, e: Problem)
    requires DeserializeStr('g', data) == Error(e)
    ensures Refuses(data, [], data, 1, e)
  {
    assert AllWritten([]) + data == data && Tags([]) == "";
    AcceptedLanguage("");
  }

  /** Refused behind the group: position 10, if the name has six characters. */
  lemma {:induction false} RefusedBehindGroup(group: string, rest: string, e: Problem)
    requires |group| == 6 && rest != [] && DeserializeStr('p', rest) == Error(e)
    ensures Parse("g6:" + group + rest, WaitGroup, START, 0) == Error(Failure(10, e))
  {
    var f := Frame('g', "6", group);
    OneFrame('g', group, ['g'] + "6:" + group);
    assert "g6:" + group + rest == f.Written() + rest;
    RefusesBehind(f, rest, e);
    RefusedAt("g6:" + group + rest, 10, e);
  }

  lemma {:induction false} RefusesBehind(f: Frame, rest: string, e: Problem)
    requires f.tag == 'g' && f.WellFormed() && rest != [] && DeserializeStr('p', rest) == Error(e)
    ensures Refuses(f.Written() + rest, [f], rest, |f.Written()| + 1, e)
  {
    assert [f][1..] == [] && AllWritten([f]) == f.Written() + [];
    assert Tags([f]) == "g";
    assert Accepted("g", WaitGroup, false);
    AcceptedLanguage(Tags([f]));
  }

  /** The configurations that the tests expect to be refused. */
  lemma {:induction false} RefusedFirst(data: string)
    requires data != [] && data[0] == 'g' && SRLZ_DELIM !in data
    ensures Parse(data, WaitGroup, START, 0) == Error(Failure(1, NoDelimiter))
  {
    NotEven(data);
    RefusedAtOnce(data, NoDelimiter);
  }

  lemma {:induction false} RefusedSecond()
    ensures Parse("p6:param1v10:some value", WaitGroup, START, 0) == Error(Failure(1, WrongPrefix('g')))
  {
    RefusedAtOnce("p6:param1v10:some value", WrongPrefix('g'));
  }

  lemma {:induction false} RefusedThird(group: string, rest: string)
    requires |group| == 6 && rest != [] && rest[0] == 'v'
    ensures Parse("g6:" + group + rest, WaitGroup, START, 0) == Error(Failure(10, WrongPrefix('p')))
  {
    RefusedBehindGroup(group, rest, WrongPrefix('p'));
  }

  lemma {:induction false} RefusedFourth(group: string, text: string)
    requires |group| == 6 && |text| == 21
    ensures Parse("g6:" + group + ("p6000:" + text), WaitGroup, START, 0) == Error(Failure(10, TextTooShort(6000, 21)))
  {
    Numbers();
    assert "p6000:" + text == ['p'] + ("6000" + ([SRLZ_DELIM] + text));
    Delimited('p', "6000", text, "p6000:" + text);
    RefusedBehindGroup(group, "p6000:" + text, TextTooShort(6000, 21));
  }

  /** A key that is given twice has its second value. */
  lemma {:induction false} SecondValue(group: string, key: string, first: string, second: string)
    requires |group| == |key| == |first| == |second| == 6
    ensures var data := ("g6:" + group) + (("p6:" + key) + (("v6:" + first) + (("p6:" + key) + ("v6:" + second))));
      Parse(data, WaitGroup, START, 0) == Ok([Group(group, [Pair(key, second)])])
  {
    var g, p, v, w := Frame('g', "6", group), Frame('p', "6", key), Frame('v', "6", first), Frame('v', "6", second);
    var frames := [g, p, v, p, w];
    OneFrame('g', group, ['g'] + "6:" + group);
    OneFrame('p', key, ['p'] + "6:" + key);
    OneFrame('v', first, ['v'] + "6:" + first);
    OneFrame('v', second, ['v'] + "6:" + second);
    FiveFrames(g, p, v, p, w);
    assert Accepted("gpvpv", WaitGroup, false) by { GPVPV(); }
    assert Tags(frames) == "gpvpv";
    ParseAccepted(frames, WaitGroup, START, 0);
    FinalFive(group, key, first, second);
    assert Parse(AllWritten(frames), WaitGroup, START, 0) == Ok(Final(frames, START).config);
    assert g.Written() == "g6:" + group && p.Written() == "p6:" + key;
    assert v.Written() == "v6:" + first && w.Written() == "v6:" + second;
  }

  lemma {:induction false} GPVPV()
    ensures Accepted("gpvpv", WaitGroup, false)
  {
    assert "gpvpv"[1..] == "pvpv" && "pvpv"[1..] == "vpv" && "vpv"[1..] == "pv" && "pv"[1..] == "v" && "v"[1..] == "";
    assert Accepted("v", WaitValue, true);
    assert Accepted("pv", WaitGroup, true);
    assert Accepted("vpv", WaitValue, true);
    assert Accepted("pvpv", WaitParam, true);
  }

  lemma {:induction false} OneMore(f: Frame, more: seq<Frame>)
    ensures AllWritten([f] + more) == f.Written() + AllWritten(more)
  {
    assert ([f] + more)[1..] == more;
  }

  lemma {:induction false} FiveFrames(a: Frame, b: Frame, c: Frame, d: Frame, e: Frame)
    ensures AllWritten([a, b, c, d, e])
      == a.Written() + (b.Written() + (c.Written() + (d.Written() + e.Written())))
  {
    OneMore(a, [b, c, d, e]);
    OneMore(b, [c, d, e]);
    OneMore(c, [d, e]);
    assert [a] + [b, c, d, e] == [a, b, c, d, e] && [b] + [c, d, e] == [b, c, d, e] && [c] + [d, e] == [c, d, e];
    AllWrittenTwo(d, e);
  }

  lemma {:induction false} Stores(f: Frame, more: seq<Frame>, m: Memory)
    ensures Final([f] + more, m) == Final(more, m.Store(StatusFor(f.tag), f.text))
  {
    assert ([f] + more)[0] == f && ([f] + more)[1..] == more;
  }

  lemma {:induction false} SetTwice(group: string, key: string, first: string, second: string)
    ensures SetString([], group, key, first) == [Group(group, [Pair(key, first)])]
    ensures SetString([Group(group, [Pair(key, first)])], group, key, second) == [Group(group, [Pair(key, second)])]
  {
    var pairs := [Pair(key, first)];
    assert PairIndex(pairs, key) == 0 && SetPair(pairs, key, second) == [Pair(key, second)];
    var config := [Group(group, pairs)];
    assert GroupIndex(config, group) == 0;
  }

  lemma {:induction false} FinalFive(group: string, key: string, first: string, second: string)
    ensures var g, p, v, w := Frame('g', "6", group), Frame('p', "6", key), Frame('v', "6", first), Frame('v', "6", second);
      Final([g, p, v, p, w], START).config == [Group(group, [Pair(key, second)])]
  {
    var g, p, v, w := Frame('g', "6", group), Frame('p', "6", key), Frame('v', "6", first), Frame('v', "6", second);
    Behind(g, p, v, w);
    var m1 := START.(group := Some(group));
    var m2 := m1.(param := key);
    SetTwice(group, key, first, second);
    Stores(g, [p, v, p, w], START);
    Stores(p, [v, p, w], m1);
    Stores(v, [p, w], m2);
    var m3 := m2.(config := [Group(group, [Pair(key, first)])]);
    Stores(p, [w], m3);
    Stores(w, [], m3);
  }

  lemma {:induction false} Behind(g: Frame, p: Frame, v: Frame, w: Frame)
    ensures [g] + [p, v, p, w] == [g, p, v, p, w] && [p] + [v, p, w] == [p, v, p, w]
    ensures [v] + [p, w] == [v, p, w] && [p] + [w] == [p, w] && [w] + [] == [w]
  {
  }
}
