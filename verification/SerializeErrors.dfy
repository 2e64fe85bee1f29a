/** Which error mc_deserialize_config reports, and at which position. */
module SerializeErrors {
  import opened Wrappers
  import opened Serialize
  import opened SerializeConfig
  import opened DeserializeConfig
  import opened SerializeLaws

  /** The tag that has to follow: a key behind a group, a value behind a key, and behind a value another key
      or another group. */
  function Expected(tags: string, rest: string): char {
    if tags == [] then 'g'
    else if tags[|tags| - 1] == 'g' then 'p'
    else if tags[|tags| - 1] == 'p' then 'v'
    else if rest != [] && rest[0] == 'p' then 'p' else 'g'
  }

  function StatusAfter(tags: string, status: Status, hasGroup: bool): Status
    requires Accepted(tags, status, hasGroup)
  {
    if tags == [] then status
    else StatusAfter(tags[1..], Next(status, hasGroup, tags[0]).value, hasGroup || tags[0] == 'g')
  }

  /** The status only depends on the last tag. */
  lemma {:induction false} StatusByLast(tags: string, status: Status, hasGroup: bool)
    requires Accepted(tags, status, hasGroup) && tags != [] && (!hasGroup ==> status == WaitGroup)
    ensures var tag := tags[|tags| - 1];
      StatusAfter(tags, status, hasGroup) == if tag == 'g' then WaitParam else if tag == 'p' then WaitValue else WaitGroup
    ensures hasGroup || tags[0] == 'g'
    decreases |tags|
  {
    if |tags| > 1 {
      StatusByLast(tags[1..], Next(status, hasGroup, tags[0]).value, hasGroup || tags[0] == 'g');
    } else {
      assert StatusAfter(tags[1..], Next(status, hasGroup, tags[0]).value, true) == Next(status, hasGroup, tags[0]).value;
    }
  }

  lemma {:induction false} ExpectedIs(tags: string, rest: string)
    requires Accepted(tags, WaitGroup, false)
    ensures TagFor(Expecting(rest, StatusAfter(tags, WaitGroup, false), tags != [])) == Expected(tags, rest)
  {
    if tags != [] {
      StatusByLast(tags, WaitGroup, false);
      LastTag(tags, WaitGroup, false);
    }
  }

  lemma {:induction false} LastTag(tags: string, status: Status, hasGroup: bool)
    requires Accepted(tags, status, hasGroup) && tags != []
    ensures tags[|tags| - 1] in "gpv"
    decreases |tags|
  {
    if |tags| > 1 {
      LastTag(tags[1..], Next(status, hasGroup, tags[0]).value, hasGroup || tags[0] == 'g');
    }
  }

  /** Reading stops with this error, at this position. The quantifier keeps the reading out of proofs that
      do not mention it. */
  ghost predicate Fails(data: string, status: Status, m: Memory, position: nat, failure: Failure)
    requires m.group.None? ==> status == WaitGroup
  {
    forall p: nat {:trigger Parse(data, status, m, p)} :: p == position ==> Parse(data, status, m, p) == Error(failure)
  }

  lemma {:induction false} SameFails(data: string, status: Status, m: Memory, p: nat, data2: string, status2: Status,
      m2: Memory, p2: nat, failure: Failure)
    requires m.group.None? ==> status == WaitGroup
    requires m2.group.None? ==> status2 == WaitGroup
    requires Parse(data, status, m, p) == Parse(data2, status2, m2, p2)
    ensures Fails(data, status, m, p, failure) <==> Fails(data2, status2, m2, p2, failure)
  {
    var r := Parse(data, status, m, p);
    assert Fails(data, status, m, p, failure) <==> r == Error(failure);
    assert Fails(data2, status2, m2, p2, failure) <==> r == Error(failure);
  }

  /** One turn of the loop at a frame that is accepted. */
  lemma {:induction false} FailsOn(f: Frame, rest: string, status: Status, m: Memory, position: nat, failure: Failure)
    requires f.WellFormed() && rest != [] && (m.group.None? ==> status == WaitGroup)
    requires Next(status, m.group.Some?, f.tag).Some?
    ensures var now := Entered(status, m.group.Some?, f.tag);
      && (m.Store(now, f.text).group.None? ==> After(now) == WaitGroup)
      && (Fails(f.Written() + rest, status, m, position, failure) <==>
        Fails(rest, After(now), m.Store(now, f.text), position + |f.Written()|, failure))
  {
    var data := f.Written() + rest;
    var now := Entered(status, m.group.Some?, f.tag);
    var next, k := m.Store(now, f.text), |f.Written()|;
    Onward(f, status, m);
    CutFrame(f, rest);
    Turn(data, status, now, m, next, position, f.text, k);
    SameFails(data, status, m, position, rest, After(now), next, position + k, failure);
  }

  /** The turn of the loop that fails. */
  lemma {:induction false} FailsHere(data: string, status: Status, m: Memory, position: nat, e: Problem)
    requires m.group.None? ==> status == WaitGroup
    requires DeserializeStr(TagFor(Expecting(data, status, m.group.Some?)), data) == Error(e)
    ensures Fails(data, status, m, position, Failure(position + 1, e))
  {
    CuttingIs(TagFor(Expecting(data, status, m.group.Some?)), data);
  }

  /** Where and why: behind well-formed frames in an order that is accepted, with the error of the next
      string. */
  ghost predicate Breaks(data: string, frames: seq<Frame>, rest: string, status: Status, hasGroup: bool, e: Problem) {
    && AllWellFormed(frames) && Accepted(Tags(frames), status, hasGroup) && data == AllWritten(frames) + rest
    && (frames != [] ==> rest != [])
    && var now := Expecting(rest, StatusAfter(Tags(frames), status, hasGroup), hasGroup || frames != []);
      DeserializeStr(TagFor(now), rest) == Error(e)
  }

  lemma {:induction false} BreaksAt(data: string, frames: seq<Frame>, rest: string, status: Status, m: Memory,
      position: nat,
      e: Problem)
    requires (m.group.None? ==> status == WaitGroup) && Breaks(data, frames, rest, status, m.group.Some?, e)
    ensures Fails(data, status, m, position, Failure(position + |AllWritten(frames)| + 1, e))
    decreases |frames|
  {
    if frames == [] {
      BreaksNow(data, rest, status, m, position, e);
    } else {
      var failure := Failure(position + |AllWritten(frames)| + 1, e);
      var more, status2, m2, position2 := BreaksOn(data, frames, rest, status, m, position, failure);
      BreaksAt(more, frames[1..], rest, status2, m2, position2, e);
    }
  }

  lemma {:induction false} BreaksNow(data: string, rest: string, status: Status, m: Memory, position: nat, e: Problem)
    requires (m.group.None? ==> status == WaitGroup) && Breaks(data, [], rest, status, m.group.Some?, e)
    ensures AllWritten([]) == [] && Fails(data, status, m, position, Failure(position + 1, e))
  {
    assert data == rest && Tags([]) == [];
    FailsHere(data, status, m, position, e);
  }

  /** The turn of the loop at the first of these frames. */
  lemma {:induction false} BreaksOn(data: string, frames: seq<Frame>, rest: string, status: Status, m: Memory,
      position: nat,
      failure: Failure)
    returns (more: string, status2: Status, m2: Memory, position2: nat)
    requires (m.group.None? ==> status == WaitGroup) && frames != []
    requires Breaks(data, frames, rest, status, m.group.Some?, failure.problem)
    ensures m2.group.Some? && Breaks(more, frames[1..], rest, status2, true, failure.problem)
    ensures position2 + |AllWritten(frames[1..])| == position + |AllWritten(frames)|
    ensures Fails(more, status2, m2, position2, failure) ==> Fails(data, status, m, position, failure)
  {
    var f := frames[0];
    more := AllWritten(frames[1..]) + rest;
    BreaksTail(data, frames, rest, status, m.group.Some?, failure.problem);
    Onward(f, status, m);
    FailsOn(f, more, status, m, position, failure);
    var now := Entered(status, m.group.Some?, f.tag);
    status2, m2, position2 := After(now), m.Store(now, f.text), position + |f.Written()|;
  }

  lemma {:induction false} BreaksTail(data: string, frames: seq<Frame>, rest: string, status: Status, hasGroup: bool,
      e: Problem)
    requires Breaks(data, frames, rest, status, hasGroup, e) && frames != [] && (!hasGroup ==> status == WaitGroup)
    ensures var f, more := frames[0], AllWritten(frames[1..]) + rest;
      && f.WellFormed() && Next(status, hasGroup, f.tag).Some? && (hasGroup || f.tag == 'g')
      && data == f.Written() + more && more != [] && |AllWritten(frames)| == |f.Written()| + |AllWritten(frames[1..])|
      && Breaks(more, frames[1..], rest, Next(status, hasGroup, f.tag).value, true, e)
  {
    Enough(frames, START);
    GroupFirst(frames[0].tag, status, hasGroup);
    assert frames[0].Written() + AllWritten(frames[1..]) + rest == frames[0].Written() + (AllWritten(frames[1..]) + rest);
  }

  /** Behind any frame that is accepted there is a group. */
  lemma {:induction false} GroupFirst(tag: char, status: Status, hasGroup: bool)
    requires Next(status, hasGroup, tag).Some? && (!hasGroup ==> status == WaitGroup)
    ensures hasGroup || tag == 'g'
  {
  }

  /** The frames in front of the failure. */
  lemma {:induction false} BrokenFrames(data: string, status: Status, m: Memory, position: nat, failure: Failure)
    returns (frames: seq<Frame>, rest: string)
    requires (m.group.None? ==> status == WaitGroup) && Fails(data, status, m, position, failure)
    ensures Breaks(data, frames, rest, status, m.group.Some?, failure.problem)
    ensures failure.position == position + |AllWritten(frames)| + 1
    decreases |data|
  {
    var now := Expecting(data, status, m.group.Some?);
    if DeserializeStr(TagFor(now), data).Error? {
      frames, rest := [], data;
      BreaksHere(data, status, m, position, failure);
    } else {
      var f, more := FirstGood(data, status, m, position, failure);
      Onward(f, status, m);
      FailsOn(f, more, status, m, position, failure);
      var others;
      others, rest := BrokenFrames(more, After(now), m.Store(now, f.text), position + |f.Written()|, failure);
      frames := [f] + others;
      BreaksCons(f, more, others, rest, status, m.group.Some?, failure.problem);
    }
  }

  lemma {:induction false} BreaksHere(data: string, status: Status, m: Memory, position: nat, failure: Failure)
    requires (m.group.None? ==> status == WaitGroup) && Fails(data, status, m, position, failure)
    requires DeserializeStr(TagFor(Expecting(data, status, m.group.Some?)), data).Error?
    ensures Breaks(data, [], data, status, m.group.Some?, failure.problem) && failure.position == position + 1
  {
    var e := DeserializeStr(TagFor(Expecting(data, status, m.group.Some?)), data).error;
    FailsHere(data, status, m, position, e);
    assert Parse(data, status, m, position) == Error(failure);
    assert AllWritten([]) + data == data && Tags([]) == [];
  }

  /** The frame in front of what fails later. */
  lemma {:induction false} FirstGood(data: string, status: Status, m: Memory, position: nat, failure: Failure)
    returns (f: Frame, rest: string)
    requires (m.group.None? ==> status == WaitGroup) && Fails(data, status, m, position, failure)
    requires DeserializeStr(TagFor(Expecting(data, status, m.group.Some?)), data).Ok?
    ensures f.WellFormed() && data == f.Written() + rest && rest != [] && |rest| < |data|
    ensures Next(status, m.group.Some?, f.tag).Some?
    ensures Entered(status, m.group.Some?, f.tag) == Expecting(data, status, m.group.Some?)
  {
    var now := Expecting(data, status, m.group.Some?);
    assert Parse(data, status, m, position) == Error(failure);
    f, rest := FrameOf(TagFor(now), data);
    assert data[0] == f.tag;
    CutFrame(f, rest);
  }

  lemma {:induction false} BreaksCons(f: Frame, more: string, others: seq<Frame>, rest: string, status: Status,
      hasGroup: bool,
      e: Problem)
    requires f.WellFormed() && more != [] && Next(status, hasGroup, f.tag).Some? && (!hasGroup ==> status == WaitGroup)
    requires Breaks(more, others, rest, Next(status, hasGroup, f.tag).value, true, e)
    ensures Breaks(f.Written() + more, [f] + others, rest, status, hasGroup, e)
    ensures |AllWritten([f] + others)| == |f.Written()| + |AllWritten(others)|
  {
    GroupFirst(f.tag, status, hasGroup);
    Prepend(f, others, status, hasGroup);
    assert Tags([f] + others)[0] == f.tag && Tags([f] + others)[1..] == Tags(others);
    assert f.Written() + AllWritten(others) + rest == f.Written() + (AllWritten(others) + rest);
    if others == [] {
      assert AllWritten(others) + rest == rest;
    }
  }

  /** mc_deserialize_config reports an error exactly at the first place where no string with the expected tag
      can be read, with the error of that string and the place counted from 1. */
  lemma {:induction false} RefusedAt(data: string, position: nat, e: Problem)
    ensures Parse(data, WaitGroup, START, 0) == Error(Failure(position, e)) <==>
      exists frames, rest :: Refuses(data, frames, rest, position, e)
  {
    if Parse(data, WaitGroup, START, 0) == Error(Failure(position, e)) {
      var frames, rest := BrokenFrames(data, WaitGroup, START, 0, Failure(position, e));
      ExpectedIs(Tags(frames), rest);
      AcceptedLanguage(Tags(frames));
      assert Refuses(data, frames, rest, position, e);
    }
    if frames, rest :| Refuses(data, frames, rest, position, e) {
      AcceptedLanguage(Tags(frames));
      ExpectedIs(Tags(frames), rest);
      BreaksAt(data, frames, rest, WaitGroup, START, 0, e);
      assert Parse(data, WaitGroup, START, 0) == Error(Failure(position, e));
    }
  }

  ghost predicate Refuses(data: string, frames: seq<Frame>, rest: string, position: nat, e: Problem) {
    && AllWellFormed(frames) && Sentence(Tags(frames)) && data == AllWritten(frames) + rest && (frames != [] ==> rest != [])
    && position == |AllWritten(frames)| + 1 && DeserializeStr(Expected(Tags(frames), rest), rest) == Error(e)
  }
}
