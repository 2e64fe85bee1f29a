/** What a configuration is after it was written and read back. */
module ConfigRoundTrip {
  import opened Wrappers
  import opened Serialize
  import opened SerializeConfig
  import opened DeserializeConfig
  import opened SerializeLaws

  function Counts(config: Config): seq<nat> {
    seq(|config|, i requires 0 <= i < |config| => |config[i].pairs|)
  }

  lemma {:induction false} TagsAppend(a: seq<Frame>, b: seq<Frame>)
    ensures Tags(a + b) == Tags(a) + Tags(b)
  {
  }

  lemma {:induction false} PairsAppend(n: nat)
    ensures Pairs(n + 1) == Pairs(n) + "pv"
  {
    if n > 0 {
      PairsAppend(n - 1);
    }
  }

  lemma {:induction false} WordAppend(counts: seq<nat>, n: nat)
    ensures Word(counts + [n]) == Word(counts) + ("g" + Pairs(n))
    decreases |counts|
  {
    if counts == [] {
      assert [n][1..] == [] && counts + [n] == [n];
    } else {
      assert (counts + [n])[1..] == counts[1..] + [n];
      WordAppend(counts[1..], n);
    }
  }

  lemma {:induction false} PairTags(pairs: seq<Pair>)
    ensures Tags(PairFrames(pairs)) == Pairs(|pairs|)
  {
    if pairs != [] {
      var n := |pairs| - 1;
      PairTags(pairs[..n]);
      PairsAppend(n);
      TagsAppend(PairFrames(pairs[..n]), [FrameFor('p', pairs[n].key), FrameFor('v', pairs[n].value)]);
    }
  }

  lemma {:induction false} GroupTags(group: Group)
    ensures Tags(GroupFrames(group)) == "g" + Pairs(|group.pairs|)
  {
    PairTags(group.pairs);
    TagsAppend([FrameFor('g', group.name)], PairFrames(group.pairs));
  }

  lemma {:induction false} ConfigTags(config: Config)
    ensures Tags(ConfigFrames(config)) == Word(Counts(config))
  {
    if config != [] {
      var n := |config| - 1;
      ConfigTags(config[..n]);
      GroupTags(config[n]);
      TagsAppend(ConfigFrames(config[..n]), GroupFrames(config[n]));
      WordAppend(Counts(config[..n]), |config[n].pairs|);
      assert Counts(config) == Counts(config[..n]) + [|config[n].pairs|];
    }
  }

  lemma {:induction false} WellFormedAppend(a: seq<Frame>, b: seq<Frame>)
    requires AllWellFormed(a) && AllWellFormed(b)
    ensures AllWellFormed(a + b)
  {
  }

  lemma {:induction false} PairsWellFormed(pairs: seq<Pair>)
    requires ValidPairs(pairs)
    ensures AllWellFormed(PairFrames(pairs))
  {
    if pairs != [] {
      var n := |pairs| - 1;
      PairsWellFormed(pairs[..n]);
      SerializedIsFrame('p', pairs[n].key);
      SerializedIsFrame('v', pairs[n].value);
    }
  }

  lemma {:induction false} ConfigWellFormed(config: Config)
    requires ValidConfig(config)
    ensures AllWellFormed(ConfigFrames(config))
  {
    if config != [] {
      var n := |config| - 1;
      ConfigWellFormed(config[..n]);
      PairsWellFormed(config[n].pairs);
      SerializedIsFrame('g', config[n].name);
      WellFormedAppend([FrameFor('g', config[n].name)], PairFrames(config[n].pairs));
      WellFormedAppend(ConfigFrames(config[..n]), GroupFrames(config[n]));
    }
  }

  /* What the reader makes of the frames of a configuration. */

  lemma {:induction false} FinalAppend(a: seq<Frame>, b: seq<Frame>, m: Memory)
    ensures Final(a + b, m) == Final(b, Final(a, m))
    decreases |a|
  {
    if a == [] {
      assert a + b == b;
    } else {
      assert (a + b)[0] == a[0] && (a + b)[1..] == a[1..] + b;
      var s := StatusFor(a[0].tag);
      FinalAppend(a[1..], b, m.Store(s, a[0].text));
    }
  }

  lemma {:induction false} FinalPair(key: string, value: string, m: Memory)
    requires m.group.Some?
    ensures var r := Final([FrameFor('p', key), FrameFor('v', value)], m);
      r.group == m.group && r.config == SetString(m.config, m.group.value, key, value)
  {
    var p, v := FrameFor('p', key), FrameFor('v', value);
    assert [p, v][1..] == [v] && [v][1..] == [];
    var n := m.Store(WaitParam, key);
    assert Final([v], n) == n.Store(WaitValue, value);
    assert Final([p, v], m) == Final([v], n);
  }

  lemma {:induction false} KeyIsNew(pairs: seq<Pair>, key: string)
    requires forall i :: 0 <= i < |pairs| ==> pairs[i].key != key
    ensures PairIndex(pairs, key) == |pairs|
  {
    if pairs != [] {
      KeyIsNew(pairs[1..], key);
    }
  }

  ghost predicate Unused(config: Config, name: string) {
    forall i :: 0 <= i < |config| ==> config[i].name != name
  }

  lemma {:induction false} FirstNamed(config: Config, more: Config, name: string)
    requires Unused(config, name) && (more != [] ==> more[0].name == name)
    ensures GroupIndex(config + more, name) == |config|
  {
    if config == [] {
      assert config + more == more;
    } else {
      assert (config + more)[0] == config[0] && (config + more)[1..] == config[1..] + more;
      FirstNamed(config[1..], more, name);
    }
  }

  /** The last group after some pairs were read. */
  function Grown(name: string, pairs: seq<Pair>): Config {
    if pairs == [] then [] else [Group(name, pairs)]
  }

  lemma {:induction false} SetNew(config: Config, name: string, pairs: seq<Pair>, key: string, value: string)
    requires Unused(config, name)
    requires forall i :: 0 <= i < |pairs| ==> pairs[i].key != key
    ensures SetString(config + Grown(name, pairs), name, key, value) == config + Grown(name, pairs + [Pair(key, value)])
  {
    FirstNamed(config, Grown(name, pairs), name);
    KeyIsNew(pairs, key);
    if pairs == [] {
      assert config + Grown(name, pairs) == config;
      assert pairs + [Pair(key, value)] == [Pair(key, value)];
    } else {
      var was, now := Group(name, pairs), Group(name, pairs + [Pair(key, value)]);
      assert (config + [was])[|config| := now] == config + [now];
    }
  }

  lemma {:induction false} FinalPairs(name: string, pairs: seq<Pair>, m: Memory)
    requires ValidPairs(pairs) && m.group == Some(name)
    requires Unused(m.config, name)
    ensures var r := Final(PairFrames(pairs), m);
      r.group == Some(name) && r.config == m.config + Grown(name, pairs)
  {
    if pairs == [] {
      assert m.config + [] == m.config;
    } else {
      var n := |pairs| - 1;
      var front := pairs[..n];
      var Pair(key, value) := pairs[n];
      FinalPairs(name, front, m);
      FinalAppend(PairFrames(front), [FrameFor('p', key), FrameFor('v', value)], m);
      FinalPair(key, value, Final(PairFrames(front), m));
      SetNew(m.config, name, front, key, value);
      assert front + [Pair(key, value)] == pairs;
    }
  }

  /** A group without keys leaves no trace. */
  function Kept(config: Config): Config {
    if config == [] then []
    else
      var last := config[|config| - 1];
      Kept(config[..|config| - 1]) + Grown(last.name, last.pairs)
  }

  lemma {:induction false} KeptNames(config: Config, name: string)
    requires Unused(config, name)
    ensures Unused(Kept(config), name)
  {
    if config != [] {
      var n := |config| - 1;
      KeptNames(config[..n], name);
      assert config[n].name != name;
    }
  }

  lemma {:induction false} FinalConfig(config: Config, m: Memory)
    requires ValidConfig(config) && m.config == []
    ensures Final(ConfigFrames(config), m).config == Kept(config)
  {
    if config != [] {
      var n := |config| - 1;
      var front := config[..n];
      var Group(name, pairs) := config[n];
      FinalConfig(front, m);
      KeptNames(front, name);
      var before := Final(ConfigFrames(front), m);
      var head := FrameFor('g', name);
      FinalAppend(ConfigFrames(front), GroupFrames(config[n]), m);
      FinalAppend([head], PairFrames(pairs), before);
      assert [head][1..] == [];
      assert Final([head], before) == before.Store(WaitGroup, name);
      FinalPairs(name, pairs, before.Store(WaitGroup, name));
    }
  }

  ghost predicate NoneEmpty(config: Config) {
    forall i :: 0 <= i < |config| ==> config[i].pairs != []
  }

  lemma {:induction false} KeptAll(config: Config)
    requires NoneEmpty(config)
    ensures Kept(config) == config
  {
    if config != [] {
      KeptAll(config[..|config| - 1]);
    }
  }

  lemma {:induction false} ButLast(config: Config)
    requires config != []
    ensures AllButLast(Counts(config)) <==> NoneEmpty(config[..|config| - 1])
  {
    var counts, front := Counts(config), config[..|config| - 1];
    forall i | 0 <= i < |front| ensures front[i].pairs != [] <==> counts[i] > 0 {}
    if AllButLast(counts) {
      forall i | 0 <= i < |front| ensures front[i].pairs != [] { assert counts[i] > 0; }
    }
  }

  lemma {:induction false} FrontKept(config: Config)
    requires config != [] && NoneEmpty(config[..|config| - 1])
    ensures Kept(config) == if config[|config| - 1].pairs == [] then config[..|config| - 1] else config
  {
    var n := |config| - 1;
    KeptAll(config[..n]);
    LastGroup(config[..n], config[n]);
    assert config == config[..n] + [config[n]];
  }

  lemma {:induction false} LastGroup(front: Config, last: Group)
    ensures front + Grown(last.name, last.pairs) == if last.pairs == [] then front else front + [last]
  {
    assert front + [] == front;
  }

  lemma {:induction false} Acceptable(config: Config)
    requires config != []
    ensures Accepted(Tags(ConfigFrames(config)), WaitGroup, false) <==> NoneEmpty(config[..|config| - 1])
    ensures ConfigFrames(config) != []
  {
    ConfigTags(config);
    AcceptedWord(Counts(config), false);
    ButLast(config);
    assert GroupFrames(config[|config| - 1]) != [];
  }

  /** The configuration that was written comes back, without its last group if that has no key. */
  lemma {:induction false} Returned(config: Config)
    requires ValidConfig(config) && config != [] && NoneEmpty(config[..|config| - 1])
    ensures Parse(AllWritten(ConfigFrames(config)), WaitGroup, START, 0) ==
      Ok(if config[|config| - 1].pairs == [] then config[..|config| - 1] else config)
  {
    Acceptable(config);
    ConfigWellFormed(config);
    ParseAccepted(ConfigFrames(config), WaitGroup, START, 0);
    FinalConfig(config, START);
    FrontKept(config);
  }

  /** Nothing comes back if there is no group, or if some group but the last has no key. */
  lemma {:induction false} Refused(config: Config)
    requires ValidConfig(config) && (config == [] || !NoneEmpty(config[..|config| - 1]))
    ensures Parse(AllWritten(ConfigFrames(config)), WaitGroup, START, 0).Error?
  {
    var text := AllWritten(ConfigFrames(config));
    if config == [] {
      CuttingIs('g', text);
      assert CutOff('g', text).Failed?;
    } else if Parse(text, WaitGroup, START, 0).Ok? {
      Acceptable(config);
      ConfigWellFormed(config);
      var others := ParsedFrames(text, WaitGroup, START, 0, Parse(text, WaitGroup, START, 0).value);
      Unambiguous(ConfigFrames(config), others);
    }
  }

  /** A configuration comes back unchanged exactly if it has a group and each of its groups a key. */
  lemma {:induction false} RoundTrip(config: Config)
    requires ValidConfig(config)
    ensures Parse(AllWritten(ConfigFrames(config)), WaitGroup, START, 0) == Ok(config) <==> config != [] && NoneEmpty(config)
  {
    if config != [] {
      Fronts(config);
    }
    if config == [] || !NoneEmpty(config[..|config| - 1]) {
      Refused(config);
    } else {
      Returned(config);
    }
  }

  lemma {:induction false} Fronts(config: Config)
    requires config != []
    ensures NoneEmpty(config) <==> NoneEmpty(config[..|config| - 1]) && config[|config| - 1].pairs != []
  {
    var n := |config| - 1;
    if NoneEmpty(config[..n]) && config[n].pairs != [] {
      forall i | 0 <= i < |config| ensures config[i].pairs != [] {
        if i < n { assert config[..n][i] == config[i]; }
      }
    }
  }
}
