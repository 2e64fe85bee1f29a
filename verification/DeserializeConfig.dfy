/** The reader of serialize.c: an automaton over frames. */
module DeserializeConfig {
  import opened Wrappers
  import opened Serialize
  import opened SerializeConfig

  datatype Status = WaitGroup | WaitParam | WaitValue

  /** An error message carries the position that it is prefixed with. */
  datatype Failure = Failure(position: nat, problem: Problem)

  /** The status in which a frame is read: behind a pair there may be another one. */
  function Entered(status: Status, hasGroup: bool, tag: char): Status {
    if status == WaitGroup && tag == 'p' && hasGroup then WaitParam else status
  }

  function Expecting(data: string, status: Status, hasGroup: bool): Status {
    if data == [] then status else Entered(status, hasGroup, data[0])
  }

  function TagFor(status: Status): char {
    match status case WaitGroup => 'g' case WaitParam => 'p' case WaitValue => 'v'
  }

  function StatusFor(tag: char): Status {
    if tag == 'g' then WaitGroup else if tag == 'p' then WaitParam else WaitValue
  }

  function After(status: Status): Status {
    match status case WaitGroup => WaitParam case WaitParam => WaitValue case WaitValue => WaitGroup
  }

  /** What the loop of mc_deserialize_config carries along. */
  datatype Memory = Memory(group: Option<string>, param: string, config: Config) {
    /** The memory after a text was read. */
    function Store(status: Status, text: string): Memory {
      match status
      case WaitGroup => this.(group := Some(text))
      case WaitParam => this.(param := text)
      case WaitValue => if group.None? then this else this.(config := SetString(config, group.value, param, text))
    }
  }

  /** What one turn of the loop gets from its two calls: an error, or a text and the way to the
      next frame. */
  datatype Cutting = Failed(problem: Problem) | Cut(text: string, next: Option<nat>)

  function CutOff(tag: char, data: string): (c: Cutting)
    ensures c.Cut? && c.next.Some? ==> 0 < c.next.value < |data|
  {
    match DeserializeStr(tag, data)
    case Error(e) => Failed(e)
    case Ok(text) =>
      ReadHasDelimiter(tag, data);
      Cut(text, GoToEnd(data, text))
  }

  /** The quantifier keeps the work on characters out of proofs that do not mention it. */
  ghost predicate Cuts(tag: char, data: string, c: Cutting) {
    forall d {:trigger CutOff(tag, d)} :: d == data ==> c == CutOff(tag, d)
  }

  ghost function CuttingOf(tag: char, data: string): (c: Cutting)
    ensures c.Cut? && c.next.Some? ==> 0 < c.next.value < |data|
  {
    assert Cuts(tag, data, CutOff(tag, data));
    var c :| Cuts(tag, data, c) && (c.Cut? && c.next.Some? ==> 0 < c.next.value < |data|);
    c
  }

  lemma {:induction false} CuttingIs(tag: char, data: string)
    ensures CuttingOf(tag, data) == CutOff(tag, data)
  {
    assert Cuts(tag, data, CuttingOf(tag, data));
  }

  /** The loop of mc_deserialize_config, from any point on. */
  ghost function Parse(data: string, status: Status, m: Memory, position: nat): Result<Config, Failure>
    requires m.group.None? ==> status == WaitGroup
    decreases |data|
  {
    var now := Expecting(data, status, m.group.Some?);
    match CuttingOf(TagFor(now), data)
    case Failed(e) => Error(Failure(position + 1, e))
    case Cut(text, None) => Ok(m.Store(now, text).config)
    case Cut(text, Some(k)) => Parse(data[k..], After(now), m.Store(now, text), position + k)
  }

  /** What is left to do when the loop is at `data`. */
  ghost function Continue(data: Option<string>, status: Status, m: Memory, position: nat): Result<Config, Failure>
    requires m.group.None? ==> status == WaitGroup
  {
    match data case None => Ok(m.config) case Some(rest) => Parse(rest, status, m, position)
  }

  /** mc_deserialize_config; `data` being None is the pointer being NULL. */
  method DeserializeConfig(input: string) returns (result: Result<Config, Failure>)
    ensures result == Parse(input, WaitGroup, Memory(None, "", []), 0)
  {
    var group, param, config: Config := None, "", [];
    var status, position, data := WaitGroup, 0, Some(input);
    while data.Some?
      invariant group.None? ==> status == WaitGroup
      invariant Parse(input, WaitGroup, Memory(None, "", []), 0) == Continue(data, status, Memory(group, param, config), position)
      decreases data.Some?, if data.Some? then |data.value| else 0
    {
      if status == WaitGroup && data.value != [] && data.value[0] == 'p' && group.Some? {
        status := WaitParam;
      }
      CuttingIs(TagFor(status), data.value);
      var text;
      match status {
        case WaitGroup =>
          text := DeserializeStr('g', data.value);
          if text.Error? {
            return Error(Failure(position + 1, text.error));
          }
          group, status := Some(text.value), WaitParam;
        case WaitParam =>
          text := DeserializeStr('p', data.value);
          if text.Error? {
            return Error(Failure(position + 1, text.error));
          }
          param, status := text.value, WaitValue;
        case WaitValue =>
          text := DeserializeStr('v', data.value);
          if text.Error? {
            return Error(Failure(position + 1, text.error));
          }
          config := SetString(config, group.value, param, text.value);
          status := WaitGroup;
      }
      var offset := GoToEnd(data.value, text.value);
      match offset {
        case None => data := None;
        case Some(k) => data, position := Some(data.value[k..]), position + k;
      }
    }
    result := Ok(config);
  }

  /** The automaton on frames that are already cut out: what a frame does to the status. */
  function Next(status: Status, hasGroup: bool, tag: char): Option<Status> {
    var now := Entered(status, hasGroup, tag);
    if tag == TagFor(now) then Some(After(now)) else None
  }

  predicate Accepted(tags: string, status: Status, hasGroup: bool) {
    tags == [] ||
    match Next(status, hasGroup, tags[0])
    case None => false
    case Some(next) => Accepted(tags[1..], next, hasGroup || tags[0] == 'g')
  }

  function Tags(frames: seq<Frame>): string {
    seq(|frames|, i requires 0 <= i < |frames| => frames[i].tag)
  }

  /** What the memory is after some frames, whatever their order. */
  function Final(frames: seq<Frame>, m: Memory): Memory {
    if frames == [] then m
    else
      var Frame(tag, _, text) := frames[0];
      Final(frames[1..], m.Store(StatusFor(tag), text))
  }

  ghost predicate AllWellFormed(frames: seq<Frame>) {
    forall i :: 0 <= i < |frames| ==> frames[i].WellFormed()
  }

  /** Reading `data` gives `config`. The quantifier hides how, from proofs that do not ask. */
  ghost predicate Reads(data: string, status: Status, m: Memory, position: nat, config: Config)
    requires m.group.None? ==> status == WaitGroup
  {
    forall p: nat {:trigger Parse(data, status, m, p)} :: p == position ==> Parse(data, status, m, p) == Ok(config)
  }

  lemma {:induction false} SameReads(data: string, status: Status, m: Memory, p: nat, data2: string, status2: Status,
      m2: Memory, p2: nat, config: Config)
    requires m.group.None? ==> status == WaitGroup
    requires m2.group.None? ==> status2 == WaitGroup
    requires Parse(data, status, m, p) == Parse(data2, status2, m2, p2)
    ensures Reads(data, status, m, p, config) <==> Reads(data2, status2, m2, p2, config)
  {
    var r := Parse(data, status, m, p);
    assert Reads(data, status, m, p, config) <==> r == Ok(config);
    assert Reads(data2, status2, m2, p2, config) <==> r == Ok(config);
  }

  lemma {:induction false} SameAsOk(data: string, status: Status, m: Memory, p: nat, result: Config, config: Config)
    requires m.group.None? ==> status == WaitGroup
    requires Parse(data, status, m, p) == Ok(result)
    ensures Reads(data, status, m, p, config) <==> result == config
  {
    assert Reads(data, status, m, p, config) <==> Parse(data, status, m, p) == Ok(config);
  }

  /** One turn of the loop, for any result of its two calls. */
  lemma {:induction false} LastTurn(data: string, status: Status, now: Status, m: Memory, position: nat, text: string)
    requires (m.group.None? ==> status == WaitGroup) && now == Expecting(data, status, m.group.Some?)
    requires CuttingOf(TagFor(now), data) == Cut(text, None)
    ensures Parse(data, status, m, position) == Ok(m.Store(now, text).config)
  {
  }

  lemma {:induction false} Turn(data: string, status: Status, now: Status, m: Memory, next: Memory, position: nat,
      text: string, k: nat)
    requires (m.group.None? ==> status == WaitGroup) && now == Expecting(data, status, m.group.Some?)
    requires CuttingOf(TagFor(now), data) == Cut(text, Some(k)) && next == m.Store(now, text)
    ensures next.group.None? ==> After(now) == WaitGroup
    ensures k < |data| && Parse(data, status, m, position) == Parse(data[k..], After(now), next, position + k)
  {
  }

  lemma {:induction false} CutFrame(f: Frame, rest: string)
    requires f.WellFormed()
    ensures CuttingOf(f.tag, f.Written() + rest) == Cut(f.text, if rest == [] then None else Some(|f.Written()|))
    ensures (f.Written() + rest)[0] == f.tag && (f.Written() + rest)[|f.Written()|..] == rest
  {
    ReadFrame(f, rest);
    CuttingIs(f.tag, f.Written() + rest);
  }

  /** The status behind a frame, and the memory. */
  lemma {:induction false} Onward(f: Frame, status: Status, m: Memory)
    requires Next(status, m.group.Some?, f.tag).Some? && (m.group.None? ==> status == WaitGroup)
    ensures var now := Entered(status, m.group.Some?, f.tag);
      && Next(status, m.group.Some?, f.tag) == Some(After(now)) && TagFor(now) == f.tag
      && m.Store(now, f.text).group.Some? == (m.group.Some? || f.tag == 'g')
      && (m.Store(now, f.text).group.None? ==> After(now) == WaitGroup)
  {
  }

  /** One turn of the loop at a well-formed frame with the tag that is asked for. */
  lemma {:induction false} ReadsOne(f: Frame, rest: string, status: Status, m: Memory, position: nat, config: Config)
    requires f.WellFormed() && (m.group.None? ==> status == WaitGroup)
    requires Next(status, m.group.Some?, f.tag).Some?
    ensures var now := Entered(status, m.group.Some?, f.tag);
      && (rest == [] ==> (Reads(f.Written() + rest, status, m, position, config) <==> config == m.Store(now, f.text).config))
      && (m.Store(now, f.text).group.None? ==> After(now) == WaitGroup)
      && (rest != [] ==> (Reads(f.Written() + rest, status, m, position, config) <==>
        Reads(rest, After(now), m.Store(now, f.text), position + |f.Written()|, config)))
  {
    var data := f.Written() + rest;
    var now := Entered(status, m.group.Some?, f.tag);
    var next, k := m.Store(now, f.text), |f.Written()|;
    Onward(f, status, m);
    CutFrame(f, rest);
    if rest == [] {
      LastTurn(data, status, now, m, position, f.text);
      SameAsOk(data, status, m, position, next.config, config);
    } else {
      Turn(data, status, now, m, next, position, f.text, k);
      SameReads(data, status, m, position, rest, After(now), next, position + k, config);
    }
  }

  lemma {:induction false} Enough(frames: seq<Frame>, m: Memory)
    requires frames != []
    ensures Tags(frames)[0] == frames[0].tag && Tags(frames)[1..] == Tags(frames[1..])
    ensures AllWritten(frames) == frames[0].Written() + AllWritten(frames[1..]) && AllWritten(frames) != []
    ensures forall s :: TagFor(s) == frames[0].tag ==> Final(frames, m) == Final(frames[1..], m.Store(s, frames[0].text))
  {
    assert frames[0].Written() != [];
  }

  /** Frames in an order that the automaton accepts are read as what they stand for. */
  lemma {:induction false} ParseAccepted(frames: seq<Frame>, status: Status, m: Memory, position: nat)
    requires frames != [] && AllWellFormed(frames) && Accepted(Tags(frames), status, m.group.Some?)
    requires m.group.None? ==> status == WaitGroup
    ensures Reads(AllWritten(frames), status, m, position, Final(frames, m).config)
    decreases |frames|
  {
    var f, rest := frames[0], AllWritten(frames[1..]);
    var now := Entered(status, m.group.Some?, f.tag);
    Enough(frames, m);
    Onward(f, status, m);
    if frames[1..] != [] {
      Enough(frames[1..], m);
      ParseAccepted(frames[1..], After(now), m.Store(now, f.text), position + |f.Written()|);
    }
    ReadsOne(f, rest, status, m, position, Final(frames, m).config);
  }

  /** The frame in front of what is read. */
  lemma {:induction false} FirstFrame(data: string, status: Status, m: Memory, position: nat, config: Config)
    returns (f: Frame, rest: string)
    requires (m.group.None? ==> status == WaitGroup) && Reads(data, status, m, position, config)
    ensures f.WellFormed() && data == f.Written() + rest && |rest| < |data|
    ensures Next(status, m.group.Some?, f.tag).Some?
  {
    var now := Expecting(data, status, m.group.Some?);
    assert Parse(data, status, m, position) == Ok(config);
    CuttingIs(TagFor(now), data);
    f, rest := FrameOf(TagFor(now), data);
    assert data[0] == f.tag;
  }

  lemma {:induction false} Prepend(f: Frame, more: seq<Frame>, status: Status, hasGroup: bool)
    requires f.WellFormed() && AllWellFormed(more) && Next(status, hasGroup, f.tag).Some?
    requires Accepted(Tags(more), Next(status, hasGroup, f.tag).value, hasGroup || f.tag == 'g')
    ensures AllWellFormed([f] + more) && AllWritten([f] + more) == f.Written() + AllWritten(more)
    ensures Accepted(Tags([f] + more), status, hasGroup)
  {
    assert ([f] + more)[1..] == more;
    assert Tags([f] + more)[1..] == Tags(more);
  }

  /** Whatever the reader accepts was written as frames in such an order. */
  lemma {:induction false} ParsedFrames(data: string, status: Status, m: Memory, position: nat, config: Config)
    returns (frames: seq<Frame>)
    requires (m.group.None? ==> status == WaitGroup) && Reads(data, status, m, position, config)
    ensures frames != [] && AllWellFormed(frames) && Accepted(Tags(frames), status, m.group.Some?)
    ensures data == AllWritten(frames) && config == Final(frames, m).config
    decreases |data|
  {
    var f, rest := FirstFrame(data, status, m, position, config);
    var now := Entered(status, m.group.Some?, f.tag);
    Onward(f, status, m);
    ReadsOne(f, rest, status, m, position, config);
    if rest == [] {
      frames := [f];
      Prepend(f, [], status, m.group.Some?);
      assert [f] + [] == [f];
    } else {
      var more := ParsedFrames(rest, After(now), m.Store(now, f.text), position + |f.Written()|, config);
      frames := [f] + more;
      Prepend(f, more, status, m.group.Some?);
    }
    Enough(frames, m);
  }
}
