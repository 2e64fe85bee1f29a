/** What serialize.c promises: the language that is accepted, and which configurations survive
    being written and read. */
module SerializeLaws {
  import opened Wrappers
  import opened Serialize
  import opened SerializeConfig
  import opened DeserializeConfig

  const START := Memory(None, "", [])

  function Pairs(n: nat): string {
    if n == 0 then "" else "pv" + Pairs(n - 1)
  }

  /** A word of (g(pv)*)*, given by the number of pairs behind each g. */
  function Word(counts: seq<nat>): string {
    if counts == [] then "" else "g" + Pairs(counts[0]) + Word(counts[1..])
  }

  /** A prefix of a word of (g(pv)+)*. */
  ghost predicate Sentence(tags: string) {
    exists counts: seq<nat> :: (forall i :: 0 <= i < |counts| ==> counts[i] > 0) && tags <= Word(counts)
  }

  lemma {:induction false} AcceptedPrefix(tags: string, more: string, status: Status, hasGroup: bool)
    requires Accepted(tags + more, status, hasGroup)
    ensures Accepted(tags, status, hasGroup)
    decreases |tags|
  {
    if tags != [] {
      assert (tags + more)[1..] == tags[1..] + more;
      AcceptedPrefix(tags[1..], more, Next(status, hasGroup, tags[0]).value, hasGroup || tags[0] == 'g');
    }
  }

  lemma {:induction false} AcceptedPairs(n: nat, rest: string)
    ensures Accepted(Pairs(n) + rest, WaitGroup, true) == Accepted(rest, WaitGroup, true)
  {
    if n == 0 {
      assert Pairs(n) + rest == rest;
    } else {
      var tags := Pairs(n - 1) + rest;
      assert Pairs(n) + rest == "pv" + tags;
      OnePair(tags, WaitGroup);
      AcceptedPairs(n - 1, rest);
    }
  }

  lemma {:induction false} OnePair(tags: string, status: Status)
    requires status != WaitValue
    ensures Accepted("pv" + tags, status, true) == Accepted(tags, WaitGroup, true)
  {
    assert ("pv" + tags)[1..] == "v" + tags && ("v" + tags)[1..] == tags;
    assert Accepted("v" + tags, WaitValue, true) == Accepted(tags, WaitGroup, true);
  }

  ghost predicate AllButLast(counts: seq<nat>) {
    forall i :: 0 <= i < |counts| - 1 ==> counts[i] > 0
  }

  lemma {:induction false} AllButLastStep(counts: seq<nat>)
    requires counts != []
    ensures AllButLast(counts) <==> |counts| == 1 || (counts[0] > 0 && AllButLast(counts[1..]))
  {
    if |counts| > 1 && counts[0] > 0 && AllButLast(counts[1..]) {
      forall i | 0 <= i < |counts| - 1 ensures counts[i] > 0 {
        if i > 0 { assert counts[i] == counts[1..][i - 1]; }
      }
    }
  }

  lemma {:induction false} GroupAccepted(n: nat, rest: string, hasGroup: bool)
    requires n > 0
    ensures Accepted("g" + Pairs(n) + rest, WaitGroup, hasGroup) == Accepted(rest, WaitGroup, true)
  {
    var tags := Pairs(n - 1) + rest;
    assert ("g" + Pairs(n) + rest)[1..] == "pv" + tags;
    OnePair(tags, WaitParam);
    AcceptedPairs(n - 1, rest);
  }

  lemma {:induction false} NoPairs(rest: string, hasGroup: bool)
    requires rest == [] || rest[0] == 'g'
    ensures Accepted("g" + Pairs(0) + rest, WaitGroup, hasGroup) <==> rest == []
  {
    assert ("g" + Pairs(0) + rest)[1..] == rest;
  }

  /** A word is accepted exactly if each of its groups but the last has a pair. */
  lemma {:induction false} AcceptedWord(counts: seq<nat>, hasGroup: bool)
    ensures Accepted(Word(counts), WaitGroup, hasGroup) <==> AllButLast(counts)
    decreases |counts|
  {
    if counts != [] {
      AllButLastStep(counts);
      if counts[0] == 0 {
        NoPairs(Word(counts[1..]), hasGroup);
      } else {
        GroupAccepted(counts[0], Word(counts[1..]), hasGroup);
        AcceptedWord(counts[1..], true);
      }
    }
  }

  /** What can follow in a word when the automaton is in some status. */
  function Future(status: Status, n: nat, counts: seq<nat>): string {
    match status
    case WaitGroup => Pairs(n) + Word(counts)
    case WaitParam => Pairs(n + 1) + Word(counts)
    case WaitValue => "v" + (Pairs(n) + Word(counts))
  }

  lemma {:induction false} Completion(tags: string, status: Status, hasGroup: bool) returns (n: nat, counts: seq<nat>)
    requires Accepted(tags, status, hasGroup) && (!hasGroup ==> status == WaitGroup)
    ensures (forall i :: 0 <= i < |counts| ==> counts[i] > 0) && tags <= Future(status, n, counts)
    ensures !hasGroup ==> n == 0
    decreases |tags|
  {
    if tags == [] {
      n, counts := 0, [];
    } else {
      var next := Next(status, hasGroup, tags[0]).value;
      n, counts := Completion(tags[1..], next, hasGroup || tags[0] == 'g');
      assert tags == [tags[0]] + tags[1..];
      if status == WaitGroup && tags[0] == 'g' {
        NewGroup(n, counts);
        n, counts := 0, [n + 1] + counts;
      } else if status == WaitGroup {
        NewPair(n, Word(counts));
        n := n + 1;
      } else if status == WaitParam {
        NewPair(n, Word(counts));
      }
    }
  }

  lemma {:induction false} NewGroup(n: nat, counts: seq<nat>)
    ensures Word([n + 1] + counts) == "g" + (Pairs(n + 1) + Word(counts))
    ensures Pairs(0) + Word([n + 1] + counts) == Word([n + 1] + counts)
  {
    assert ([n + 1] + counts)[1..] == counts;
  }

  lemma {:induction false} NewPair(n: nat, word: string)
    ensures Pairs(n + 1) + word == "p" + ("v" + (Pairs(n) + word))
  {
  }

  /** The automaton accepts exactly the prefixes of words of (g(pv)+)*. */
  lemma {:induction false} AcceptedLanguage(tags: string)
    ensures Accepted(tags, WaitGroup, false) <==> Sentence(tags)
  {
    if Accepted(tags, WaitGroup, false) {
      var n, counts := Completion(tags, WaitGroup, false);
      assert Future(WaitGroup, 0, counts) == Word(counts);
    }
    if Sentence(tags) {
      var counts: seq<nat> :| (forall i :: 0 <= i < |counts| ==> counts[i] > 0) && tags <= Word(counts);
      AcceptedWord(counts, false);
      assert Word(counts) == tags + Word(counts)[|tags|..];
      AcceptedPrefix(tags, Word(counts)[|tags|..], WaitGroup, false);
    }
  }

  /** mc_deserialize_config succeeds exactly on non-empty sequences of well-formed frames whose tags
      are a prefix of a word of (g(pv)+)*. */
  lemma {:induction false} Language(data: string)
    ensures Parse(data, WaitGroup, START, 0).Ok? <==>
      exists frames :: frames != [] && AllWellFormed(frames) && Sentence(Tags(frames)) && data == AllWritten(frames)
  {
    if Parse(data, WaitGroup, START, 0).Ok? {
      var frames := ParsedFrames(data, WaitGroup, START, 0, Parse(data, WaitGroup, START, 0).value);
      AcceptedLanguage(Tags(frames));
    }
    if frames :| frames != [] && AllWellFormed(frames) && Sentence(Tags(frames)) && data == AllWritten(frames) {
      AcceptedLanguage(Tags(frames));
      ParseAccepted(frames, WaitGroup, START, 0);
      assert Parse(data, WaitGroup, START, 0) == Ok(Final(frames, START).config);
    }
  }

  /** No input can be cut into frames in two ways. */
  lemma {:induction false} Unambiguous(a: seq<Frame>, b: seq<Frame>)
    requires AllWellFormed(a) && AllWellFormed(b) && AllWritten(a) == AllWritten(b)
    ensures a == b
    decreases |a|
  {
    if a == [] || b == [] {
      if a != [] { Enough(a, START); }
      if b != [] { Enough(b, START); }
    } else {
      SameFirst(a[0], AllWritten(a[1..]), b[0], AllWritten(b[1..]));
      Unambiguous(a[1..], b[1..]);
      assert a == [a[0]] + a[1..] && b == [b[0]] + b[1..];
    }
  }

  lemma {:induction false} SameFirst(f: Frame, r: string, g: Frame, s: string)
    requires f.WellFormed() && g.WellFormed() && f.Written() + r == g.Written() + s
    ensures f == g && r == s
  {
    FirstDelimiter(f, r);
    FirstDelimiter(g, s);
    Pieces(f.tag, f.field, f.text, r);
    Pieces(g.tag, g.field, g.text, s);
    assert (f.Written() + r)[0] == f.tag && (g.Written() + s)[0] == g.tag;
    assert (f.text + r)[|f.text|..] == r && (g.text + s)[|g.text|..] == s;
  }
}
