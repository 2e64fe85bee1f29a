/** The writer of serialize.c: a configuration as a sequence of frames. */
module SerializeConfig {
  import opened Wrappers
  import opened Serialize

  datatype Pair = Pair(key: string, value: string)

  datatype Group = Group(name: string, pairs: seq<Pair>)

  /** mc_config_t: groups in the order in which they were made, and so for the keys of a group. */
  type Config = seq<Group>

  function PairIndex(pairs: seq<Pair>, key: string): (i: nat)
    ensures i <= |pairs|
  {
    if pairs == [] || pairs[0].key == key then 0 else 1 + PairIndex(pairs[1..], key)
  }

  function GroupIndex(config: Config, name: string): (i: nat)
    ensures i <= |config|
  {
    if config == [] || config[0].name == name then 0 else 1 + GroupIndex(config[1..], name)
  }

  function SetPair(pairs: seq<Pair>, key: string, value: string): seq<Pair> {
    var i := PairIndex(pairs, key);
    if i < |pairs| then pairs[i := Pair(key, value)] else pairs + [Pair(key, value)]
  }

  /** mc_config_set_string */
  function SetString(config: Config, name: string, key: string, value: string): Config {
    var i := GroupIndex(config, name);
    if i < |config| then config[i := Group(name, SetPair(config[i].pairs, key, value))]
    else config + [Group(name, [Pair(key, value)])]
  }

  ghost predicate ValidPairs(pairs: seq<Pair>) {
    && (forall i, j :: 0 <= i < j < |pairs| ==> pairs[i].key != pairs[j].key)
    && (forall i :: 0 <= i < |pairs| ==> |pairs[i].key| <= LONG_MAX && |pairs[i].value| <= LONG_MAX)
  }

  /** Names are used once, and every string fits into memory. */
  ghost predicate ValidConfig(config: Config) {
    && (forall i, j :: 0 <= i < j < |config| ==> config[i].name != config[j].name)
    && (forall i :: 0 <= i < |config| ==> |config[i].name| <= LONG_MAX && ValidPairs(config[i].pairs))
  }

  function PairFrames(pairs: seq<Pair>): seq<Frame> {
    if pairs == [] then []
    else
      var last := pairs[|pairs| - 1];
      PairFrames(pairs[..|pairs| - 1]) + [FrameFor('p', last.key), FrameFor('v', last.value)]
  }

  function GroupFrames(group: Group): seq<Frame> {
    [FrameFor('g', group.name)] + PairFrames(group.pairs)
  }

  function ConfigFrames(config: Config): seq<Frame> {
    if config == [] then [] else ConfigFrames(config[..|config| - 1]) + GroupFrames(config[|config| - 1])
  }

  function AllWritten(frames: seq<Frame>): string {
    if frames == [] then [] else frames[0].Written() + AllWritten(frames[1..])
  }

  lemma {:induction false} AllWrittenAppend(a: seq<Frame>, b: seq<Frame>)
    ensures AllWritten(a + b) == AllWritten(a) + AllWritten(b)
  {
    if a == [] {
      assert a + b == b;
    } else {
      assert (a + b)[0] == a[0] && (a + b)[1..] == a[1..] + b;
      AllWrittenAppend(a[1..], b);
    }
  }

  lemma {:induction false} AllWrittenTwo(f: Frame, g: Frame)
    ensures AllWritten([f, g]) == f.Written() + g.Written() && AllWritten([f]) == f.Written()
  {
    assert [f, g][1..] == [g] && [f][1..] == [] && [g][1..] == [];
    assert AllWritten([g]) == g.Written();
  }

  /** mc_serialize_config */
  method SerializeConfig(config: Config) returns (result: Result<string, Problem>)
    requires ValidConfig(config)
    ensures result == Ok(AllWritten(ConfigFrames(config)))
  {
    var buffer := "";
    for i := 0 to |config|
      invariant buffer == AllWritten(ConfigFrames(config[..i]))
    {
      result := SerializeGroup(config[i], buffer);
      if result.Error? {
        return;
      }
      buffer := result.value;
      NextGroup(config, i);
    }
    assert config[..|config|] == config;
    result := Ok(buffer);
  }

  /** The body of the loop over the groups. */
  method SerializeGroup(group: Group, before: string) returns (result: Result<string, Problem>)
    requires |group.name| <= LONG_MAX && ValidPairs(group.pairs)
    ensures result == Ok(before + AllWritten(GroupFrames(group)))
  {
    var head := FrameFor('g', group.name);
    SerializedIsFrame('g', group.name);
    result := SerializeStr('g', Some(group.name));
    if result.Error? {
      return;
    }
    var buffer := before + result.value;
    GroupStart(head);
    for j := 0 to |group.pairs|
      invariant buffer == before + AllWritten([head] + PairFrames(group.pairs[..j]))
    {
      result := SerializePair(group.pairs[j], buffer);
      if result.Error? {
        return;
      }
      NextPair([head], group.pairs, j);
      Grouped(before, AllWritten([head] + PairFrames(group.pairs[..j])), result.value[|buffer|..]);
      buffer := result.value;
    }
    assert group.pairs[..|group.pairs|] == group.pairs;
    result := Ok(buffer);
  }

  /** The body of the loop over the keys of a group. */
  method SerializePair(pair: Pair, before: string) returns (result: Result<string, Problem>)
    requires |pair.key| <= LONG_MAX && |pair.value| <= LONG_MAX
    ensures result == Ok(before + (FrameFor('p', pair.key).Written() + FrameFor('v', pair.value).Written()))
  {
    SerializedIsFrame('p', pair.key);
    SerializedIsFrame('v', pair.value);
    result := SerializeStr('p', Some(pair.key));
    if result.Error? {
      return;
    }
    var buffer := before + result.value;
    result := SerializeStr('v', Some(pair.value));
    if result.Error? {
      return;
    }
    Grouped(before, FrameFor('p', pair.key).Written(), result.value);
    result := Ok(buffer + result.value);
  }

  lemma {:induction false} Grouped(a: string, b: string, c: string)
    ensures a + b + c == a + (b + c)
  {
  }

  lemma {:induction false} GroupStart(head: Frame)
    ensures AllWritten([head] + PairFrames([])) == head.Written()
  {
    AllWrittenTwo(head, head);
    assert [head] + PairFrames([]) == [head];
  }

  lemma {:induction false} NextPair(head: seq<Frame>, pairs: seq<Pair>, j: nat)
    requires j < |pairs|
    ensures AllWritten(head + PairFrames(pairs[..j + 1])) == AllWritten(head + PairFrames(pairs[..j]))
      + (FrameFor('p', pairs[j].key).Written() + FrameFor('v', pairs[j].value).Written())
  {
    var p, v := FrameFor('p', pairs[j].key), FrameFor('v', pairs[j].value);
    assert pairs[..j + 1][..j] == pairs[..j];
    assert head + PairFrames(pairs[..j + 1]) == head + PairFrames(pairs[..j]) + [p, v];
    AllWrittenAppend(head + PairFrames(pairs[..j]), [p, v]);
    AllWrittenTwo(p, v);
  }

  lemma {:induction false} NextGroup(config: Config, i: nat)
    requires i < |config|
    ensures AllWritten(ConfigFrames(config[..i + 1])) == AllWritten(ConfigFrames(config[..i]))
      + AllWritten(GroupFrames(config[i]))
  {
    assert config[..i + 1][..i] == config[..i];
    AllWrittenAppend(ConfigFrames(config[..i]), GroupFrames(config[i]));
  }
}
