/** What a configuration that was read holds: for each key the last value that was given for it. */
module ConfigValues {
  import opened Wrappers
  import opened Serialize
  import opened SerializeConfig
  import opened DeserializeConfig
  import opened SerializeLaws

  function ValueIn(pairs: seq<Pair>, key: string): Option<string> {
    if pairs == [] then None else if pairs[0].key == key then Some(pairs[0].value) else ValueIn(pairs[1..], key)
  }

  /** mc_config_get_string */
  function Lookup(config: Config, name: string, key: string): Option<string> {
    if config == [] then None
    else if config[0].name == name then ValueIn(config[0].pairs, key)
    else Lookup(config[1..], name, key)
  }

  lemma {:induction false} PairSet(pairs: seq<Pair>, key: string, value: string, other: string)
    ensures ValueIn(SetPair(pairs, key, value), other) == if other == key then Some(value) else ValueIn(pairs, other)
    decreases |pairs|
  {
    var r := SetPair(pairs, key, value);
    if pairs == [] {
      assert r[1..] == [];
    } else if pairs[0].key == key {
      assert r[1..] == pairs[1..];
    } else {
      PairSet(pairs[1..], key, value, other);
      assert r[0] == pairs[0] && r[1..] == SetPair(pairs[1..], key, value);
    }
  }

  lemma {:induction false} OnePair(key: string, value: string, other: string)
    ensures ValueIn([Pair(key, value)], other) == if other == key then Some(value) else None
  {
    assert [Pair(key, value)][1..] == [];
  }

  /** Setting a value gives it to this key of this group, and changes no other. */
  lemma {:induction false} SetMeans(config: Config, name: string, key: string, value: string, group: string,
      other: string)
    ensures Lookup(SetString(config, name, key, value), group, other)
      == if group == name && other == key then Some(value) else Lookup(config, group, other)
    decreases |config|
  {
    var r := SetString(config, name, key, value);
    if config == [] {
      assert r[1..] == [];
      OnePair(key, value, other);
    } else if config[0].name == name {
      assert r[1..] == config[1..];
      PairSet(config[0].pairs, key, value, other);
    } else {
      SetMeans(config[1..], name, key, value, group, other);
      assert r[0] == config[0] && r[1..] == SetString(config[1..], name, key, value);
    }
  }

  /** The text of the last frame with this tag. */
  function Latest(frames: seq<Frame>, tag: char): Option<string> {
    if frames == [] then None
    else if frames[|frames| - 1].tag == tag then Some(frames[|frames| - 1].text)
    else Latest(frames[..|frames| - 1], tag)
  }

  /** The last value that frames give for a key of a group. */
  function LastValue(frames: seq<Frame>, group: string, key: string): Option<string> {
    if frames == [] then None
    else
      var n := |frames| - 1;
      if frames[n].tag == 'v' && Latest(frames[..n], 'g') == Some(group) && Latest(frames[..n], 'p') == Some(key)
      then Some(frames[n].text)
      else LastValue(frames[..n], group, key)
  }

  lemma {:induction false} FinalAppend(frames: seq<Frame>, f: Frame, m: Memory)
    ensures Final(frames + [f], m)
      == Final(frames, m).Store(StatusFor(f.tag), f.text)
    decreases |frames|
  {
    var now := StatusFor(f.tag);
    if frames == [] {
      assert (frames + [f])[1..] == [];
      assert Final(frames + [f], m) == Final([], m.Store(now, f.text));
    } else {
      assert (frames + [f])[0] == frames[0] && (frames + [f])[1..] == frames[1..] + [f];
      var g := frames[0];
      FinalAppend(frames[1..], f, m.Store(StatusFor(g.tag), g.text));
    }
  }

  /** Tags of frames that can be read: only these three, values behind a group and a key. */
  ghost predicate Placed(frames: seq<Frame>) {
    forall n {:trigger frames[n]} :: 0 <= n < |frames| ==>
      frames[n].tag in "gpv" && (frames[n].tag == 'v' ==> Latest(frames[..n], 'g').Some? && Latest(frames[..n], 'p').Some?)
  }

  lemma {:induction false} PlacedFront(frames: seq<Frame>)
    requires Placed(frames) && frames != []
    ensures Placed(frames[..|frames| - 1])
  {
    var front := frames[..|frames| - 1];
    forall n | 0 <= n < |front| ensures front[n] == frames[n] && front[..n] == frames[..n] {}
  }

  /** What is remembered and stored after some frames. */
  lemma {:induction false} Stored(frames: seq<Frame>, group: string, key: string)
    requires Placed(frames)
    ensures var m := Final(frames, START);
      && Remembers(m, frames) && Lookup(m.config, group, key) == LastValue(frames, group, key)
    decreases |frames|
  {
    if frames != [] {
      var front := frames[..|frames| - 1];
      PlacedFront(frames);
      Stored(front, group, key);
      FinalLast(frames);
      StoredLast(frames, Final(front, START), group, key);
    }
  }

  lemma {:induction false} FinalLast(frames: seq<Frame>)
    requires frames != []
    ensures var front, f := frames[..|frames| - 1], frames[|frames| - 1];
      Final(frames, START) == Final(front, START).Store(StatusFor(f.tag), f.text)
  {
    var front, f := frames[..|frames| - 1], frames[|frames| - 1];
    assert frames == front + [f];
    FinalAppend(front, f, START);
  }

  lemma {:induction false} StoredLast(frames: seq<Frame>, m: Memory, group: string, key: string)
    requires Placed(frames) && frames != []
    requires var front := frames[..|frames| - 1];
      Remembers(m, front) && Lookup(m.config, group, key) == LastValue(front, group, key)
    ensures var f := frames[|frames| - 1];
      var r := m.Store(StatusFor(f.tag), f.text);
      Remembers(r, frames) && Lookup(r.config, group, key) == LastValue(frames, group, key)
  {
    var f := frames[|frames| - 1];
    if f.tag == 'v' {
      SetMeans(m.config, m.group.value, m.param, f.text, group, key);
    }
  }

  predicate Remembers(m: Memory, frames: seq<Frame>) {
    m.group == Latest(frames, 'g') && (Latest(frames, 'p').Some? ==> m.param == Latest(frames, 'p').value)
  }

  /** What the automaton has seen when it is in a status. */
  ghost predicate Seen(frames: seq<Frame>, n: nat, status: Status, hasGroup: bool)
    requires n <= |frames|
  {
    && (hasGroup ==> Latest(frames[..n], 'g').Some?) && (!hasGroup ==> status == WaitGroup)
    && (status == WaitValue ==> Latest(frames[..n], 'p').Some?)
  }

  lemma {:induction false} Places(frames: seq<Frame>, n: nat, status: Status, hasGroup: bool)
    requires n <= |frames| && Seen(frames, n, status, hasGroup) && Accepted(Tags(frames)[n..], status, hasGroup)
    ensures forall i {:trigger frames[i]} :: n <= i < |frames| ==>
      frames[i].tag in "gpv" && (frames[i].tag == 'v' ==> Latest(frames[..i], 'g').Some? && Latest(frames[..i], 'p').Some?)
    decreases |frames| - n
  {
    if n < |frames| {
      var tags := Tags(frames)[n..];
      assert tags[0] == frames[n].tag && tags[1..] == Tags(frames)[n + 1..];
      assert frames[..n + 1][..n] == frames[..n];
      var next := Next(status, hasGroup, frames[n].tag).value;
      Places(frames, n + 1, next, hasGroup || frames[n].tag == 'g');
    }
  }

  /** Whatever can be read: the configuration holds for each key of each group the last value that was
      given for it, and nothing else. */
  lemma {:induction false} LastValueCounts(data: string, frames: seq<Frame>, group: string, key: string)
    requires frames != [] && AllWellFormed(frames) && Sentence(Tags(frames)) && data == AllWritten(frames)
    ensures var result := Parse(data, WaitGroup, START, 0);
      result.Ok? && Lookup(result.value, group, key) == LastValue(frames, group, key)
  {
    AcceptedLanguage(Tags(frames));
    ParseAccepted(frames, WaitGroup, START, 0);
    assert Parse(data, WaitGroup, START, 0) == Ok(Final(frames, START).config);
    assert Tags(frames)[0..] == Tags(frames);
    Places(frames, 0, WaitGroup, false);
    Stored(frames, group, key);
  }
}
