/** Runs of the automatic test in which something gets lost, with one window. */
module AutotestExamples {
  import opened Bytes
  import opened Utf8
  import opened AutotestModel
  import opened AutotestSafety
  import opened AutotestRuns
  import opened AutotestUpload
  import opened AutotestProgress
  import opened AutotestEnding

  /** The settings of a test with one window. */
  function OneWindow(document: seq<byte>, lenContent: nat): Settings {
    Settings(document, lenContent, 1024, 1, 0, false, [128])
  }

  const TICK := Clock(true)
  const SUCCESS := Answer(0, Answered(true))
  const FAILURE := Answer(0, Answered(false))

  lemma {:induction false} Then(s: Settings, t: Test, e: Event, next: Test, events: seq<Event>, u: Test)
    requires Sized(s, t) && Enabled(s, t, e) && Step(s, t, e) == next && Run(s, next, events, u)
    ensures Run(s, t, [e] + events, u)
  {
    assert ([e] + events)[1..] == events;
  }

  /** The test has one window, which waits for nothing. */
  predicate Idle(s: Settings, t: Test, phase: Phase, lenWrotten: nat, changes: nat) {
    && s.nrWindows == 1 && |t.windows| == 1 && !t.stopped && t.destroyed == 0
    && var w := t.windows[0];
    && w.phase == phase && !w.wait && w.pending == 0 && w.maxChanges == 128
    && w.lenWrotten == lenWrotten <= |s.document| && w.changes == changes
  }

  /** A tick that sends a request, and the answer to it. */
  lemma {:induction false} Exchange(s: Settings, t: Test, phase: Phase, lenWrotten: nat, changes: nat) returns (u: Test)
    requires Idle(s, t, phase, lenWrotten, changes) && !s.noAutoChange
    requires s.lenContent <= s.inMemory && s.lenContent <= |s.document|
    requires phase in {Initial, WindowCreated, DocumentLoaded, DocumentTesting}
    requires phase == DocumentTesting ==> changes < 128
    ensures Run(s, t, [TICK, SUCCESS], u)
    ensures match phase
      case Initial => Idle(s, u, WindowCreated, lenWrotten, changes)
      case WindowCreated => Idle(s, u, DocumentLoaded, s.lenContent, changes)
      case DocumentLoaded => Idle(s, u, DocumentTesting, lenWrotten, changes + 1)
      case DocumentTesting => Idle(s, u, if changes == 127 then DocumentReset else DocumentTesting, lenWrotten, changes + 1)
      case _ => true
  {
    TickIs(s, t.windows[0], (t.times + 1) % 0x1_0000_0000, t.destroyed, true);
    var m := Step(s, t, TICK);
    u := Step(s, m, SUCCESS);
    Then(s, m, SUCCESS, u, [], u);
    Then(s, t, TICK, m, [SUCCESS], u);
    assert [TICK] + [SUCCESS] == [TICK, SUCCESS] && [SUCCESS] + [] == [SUCCESS];
  }

  lemma {:induction false} AllChanges(s: Settings, t: Test, lenWrotten: nat, changes: nat)
    returns (events: seq<Event>, u: Test)
    requires Idle(s, t, DocumentTesting, lenWrotten, changes) && !s.noAutoChange && changes < 128
    requires s.lenContent <= s.inMemory && s.lenContent <= |s.document|
    ensures Run(s, t, events, u) && Idle(s, u, DocumentReset, lenWrotten, 128)
    decreases 128 - changes
  {
    var m := Exchange(s, t, DocumentTesting, lenWrotten, changes);
    events, u := [TICK, SUCCESS], m;
    if changes < 127 {
      var more;
      more, u := AllChanges(s, m, lenWrotten, changes + 1);
      events := [TICK, SUCCESS] + more;
      RunJoin(s, t, [TICK, SUCCESS], m, more, u);
    }
  }

  /** A window whose request to be destroyed fails is counted as destroyed, but is fatal. */
  lemma {:induction false} CountedButFatal() returns (s: Settings, events: seq<Event>, u: Test)
    ensures s.Valid() && Run(s, Begin(s), events, u)
    ensures |u.windows| == 1 && u.windows[0].phase == Fatal
    ensures u.destroyed == 1 && CountDestroyed(u.windows) == 0
  {
    s := OneWindow([0x61], 1);
    OneLetter(s.document);
    var t0 := Begin(s);
    var t1 := Exchange(s, t0, Initial, 0, 0);
    var t2 := Exchange(s, t1, WindowCreated, 0, 0);
    var t3 := Exchange(s, t2, DocumentLoaded, 1, 0);
    var more, t4 := AllChanges(s, t3, 1, 1);
    events, u := FailToDestroy(s, t4);
    RunJoin(s, t3, more, t4, events, u);
    events := more + events;
    RunJoin(s, t2, [TICK, SUCCESS], t3, events, u);
    events := [TICK, SUCCESS] + events;
    RunJoin(s, t1, [TICK, SUCCESS], t2, events, u);
    events := [TICK, SUCCESS] + events;
    RunJoin(s, t0, [TICK, SUCCESS], t1, events, u);
    events := [TICK, SUCCESS] + events;
  }

  lemma {:induction false} OneLetter(d: seq<byte>)
    requires d == [0x61]
    ensures Prefix(d, 1) == 1
  {
    CharAtIs(d);
    CharAtIs(d[1..]);
  }

  lemma {:induction false} FailToDestroy(s: Settings, t: Test) returns (events: seq<Event>, u: Test)
    requires Idle(s, t, DocumentReset, 1, 128)
    ensures Run(s, t, events, u) && |u.windows| == 1 && u.windows[0].phase == Fatal
    ensures u.destroyed == 1 && CountDestroyed(u.windows) == 0
  {
    TickIs(s, t.windows[0], (t.times + 1) % 0x1_0000_0000, t.destroyed, true);
    var m := Step(s, t, TICK);
    u := Step(s, m, FAILURE);
    Then(s, m, FAILURE, u, [], u);
    Then(s, t, TICK, m, [FAILURE] + [], u);
    events := [TICK] + ([FAILURE] + []);
    assert u.windows[1..] == [];
  }

  /** The invariant, said so that a proof looks into it only where it asks for it. */
  ghost predicate Fine(s: Settings, t: Test) {
    forall v {:trigger TestOk(s, v)} :: v == t ==> TestOk(s, v)
  }

  /** A window that is alone and has loaded nothing so far. */
  ghost predicate Alone(s: Settings, t: Test, phase: Phase, wait: bool) {
    && Fine(s, t) && s.nrWindows == 1 && !t.stopped && |t.windows| == 1
    && var w := t.windows[0]; w.phase == phase && w.wait == wait && w.pending == (if wait then 1 else 0) && !ByLoad(w.sent)
  }

  /** A tick of the only window. */
  lemma {:induction false} TickOne(s: Settings, t: Test, phase: Phase, wait: bool)
    returns (u: Test, times: nat, turn: Turn)
    requires Alone(s, t, phase, wait)
    ensures Run(s, t, [TICK], u) && s.Valid() && Fine(s, u) && times == (t.times + 1) % 0x1_0000_0000
    ensures WindowOk(s, t.windows[0]) && t.windows[0].lenWrotten <= |s.document|
    ensures turn == RunAutotest(s, t.windows[0], times, t.destroyed, true)
    ensures u == Test([turn.window], times, t.destroyed, !turn.goesOn)
  {
    assert TestOk(s, t);
    var win, w;
    win, w, times, turn := Turns(s, t, true);
    TickIs(s, w, times, t.destroyed, true);
    u := Step(s, t, TICK);
    StepKeeps(s, t, TICK);
    assert [TICK][1..] == [];
  }

  /** The answer to the only window. */
  lemma {:induction false} AnswerOne(s: Settings, t: Test, phase: Phase) returns (u: Test)
    requires Alone(s, t, phase, true) && phase != Fatal
    ensures Run(s, t, [SUCCESS], u) && Alone(s, u, NextPhase(s, t.windows[0]), false)
    ensures u.times == t.times && u.windows[0].lenWrotten == t.windows[0].lenWrotten
  {
    assert TestOk(s, t);
    u := Step(s, t, SUCCESS);
    StepKeeps(s, t, SUCCESS);
    assert [SUCCESS][1..] == [];
  }

  lemma {:induction false} AskOne(s: Settings, t: Test, phase: Phase, u: Test, w: Window, m: Message)
    requires Alone(s, t, phase, false) && Fine(s, u) && |u.windows| == 1 && !u.stopped
    requires w == t.windows[0].(lenWrotten := w.lenWrotten) && u.windows[0] == w.Sent(m) && !m.Load?
    ensures Alone(s, u, phase, true)
  {
    SentNext(w, m);
  }

  lemma {:induction false} Opens(s: Settings, t: Test) returns (a: Test)
    requires Alone(s, t, Initial, false) && t.times == 0
    ensures Run(s, t, [TICK], a) && Alone(s, a, Initial, true) && a.times == 1
  {
    var times, turn;
    a, times, turn := TickOne(s, t, Initial, false);
    AskOne(s, t, Initial, a, t.windows[0], CreatePlainWindow);
  }

  lemma {:induction false} Waits(s: Settings, t: Test) returns (b: Test)
    requires Alone(s, t, Initial, true) && t.times == 1
    ensures Run(s, t, [TICK], b) && Alone(s, b, Initial, true) && b.times == 2
  {
    var times, turn;
    b, times, turn := TickOne(s, t, Initial, true);
    assert b.windows[0] == t.windows[0];
  }

  /** A tick while the window still waits makes run_times even when the window is there. */
  lemma {:induction false} Created(s: Settings, t: Test) returns (u: Test)
    requires Alone(s, t, Initial, false) && t.times == 0
    ensures Run(s, t, [TICK, TICK, SUCCESS], u) && Alone(s, u, WindowCreated, false) && u.times == 2
  {
    var a := Opens(s, t);
    var b := Waits(s, a);
    u := AnswerOne(s, b, Initial);
    RunJoin(s, a, [TICK], b, [SUCCESS], u);
    RunJoin(s, t, [TICK], a, [TICK] + [SUCCESS], u);
    assert [TICK] + ([TICK] + [SUCCESS]) == [TICK, TICK, SUCCESS];
  }

  /** The document is begun with a piece. */
  lemma {:induction false} Begins(s: Settings, t: Test) returns (a: Test)
    requires Alone(s, t, WindowCreated, false) && t.times == 2 && s.lenContent > s.inMemory
    ensures Run(s, t, [TICK], a) && Alone(s, a, WindowCreated, true) && a.windows[0].lenWrotten < s.lenContent
  {
    var times, turn;
    a, times, turn := TickOne(s, t, WindowCreated, false);
    var w := t.windows[0];
    var n := PieceTurn(s, w, times, t.destroyed);
    AskOne(s, t, WindowCreated, a, w.(lenWrotten := n), WriteBegin(s.document[..n]));
  }

  lemma {:induction false} PieceTurn(s: Settings, w: Window, times: nat, destroyed: nat) returns (n: nat)
    requires s.Valid() && WindowOk(s, w) && !w.wait && w.phase == WindowCreated && w.lenWrotten <= |s.document|
    requires s.lenContent > s.inMemory && times == 3
    ensures n < s.lenContent && n <= |s.document|
    ensures RunAutotest(s, w, times, destroyed, true) == Turn(w.(lenWrotten := n).Sent(WriteBegin(s.document[..n])), true)
  {
    TextsGoOn(s, w, 0);
    assert Uploaded(s, w);
    n := Prefix(s.document, DEF_LEN_ONE_WRITE);
  }

  lemma {:induction false} Begun(s: Settings, t: Test) returns (u: Test)
    requires Alone(s, t, WindowCreated, false) && t.times == 2 && s.lenContent > s.inMemory
    ensures Run(s, t, [TICK, SUCCESS], u) && Alone(s, u, DocumentWrotten, false)
  {
    var a := Begins(s, t);
    u := AnswerOne(s, a, WindowCreated);
    RunJoin(s, t, [TICK], a, [SUCCESS], u);
    assert [TICK] + [SUCCESS] == [TICK, SUCCESS];
  }

  /** Another piece follows. */
  lemma {:induction false} WrittenOn(s: Settings, t: Test) returns (u: Test)
    requires Alone(s, t, DocumentWrotten, false)
    ensures Run(s, t, [TICK, SUCCESS], u) && |u.windows| == 1
    ensures t.windows[0].lenWrotten < u.windows[0].lenWrotten <= s.lenContent
    ensures Alone(s, u, DocumentWrotten, false) || Alone(s, u, DocumentLoaded, false)
  {
    var a, times, turn := TickOne(s, t, DocumentWrotten, false);
    var w := t.windows[0];
    WriteGrows(s, w, times);
    var v := turn.window;
    AskOne(s, t, DocumentWrotten, a, w.(lenWrotten := v.lenWrotten), v.sent[|w.sent|]);
    u := AnswerOne(s, a, DocumentWrotten);
    RunJoin(s, t, [TICK], a, [SUCCESS], u);
    assert [TICK] + [SUCCESS] == [TICK, SUCCESS];
  }

  /** And so on, to the end of the document. */
  lemma {:induction false} Written(s: Settings, t: Test) returns (events: seq<Event>, u: Test)
    requires Alone(s, t, DocumentWrotten, false)
    ensures Run(s, t, events, u) && Alone(s, u, DocumentLoaded, false)
    decreases s.lenContent - t.windows[0].lenWrotten
  {
    var m := WrittenOn(s, t);
    events, u := [TICK, SUCCESS], m;
    if !Alone(s, m, DocumentLoaded, false) {
      var more;
      more, u := Written(s, m);
      events := [TICK, SUCCESS] + more;
      RunJoin(s, t, [TICK, SUCCESS], m, more, u);
    }
  }

  /** A run in which the document is uploaded in pieces. */
  lemma {:induction false} InPieces(s: Settings) returns (events: seq<Event>, u: Test)
    requires s.Valid() && s.nrWindows == 1 && s.lenContent > s.inMemory
    ensures Run(s, Begin(s), events, u) && Alone(s, u, DocumentLoaded, false)
  {
    BeginOk(s);
    var a := Created(s, Begin(s));
    var b := Begun(s, a);
    events, u := Written(s, b);
    RunJoin(s, a, [TICK, SUCCESS], b, events, u);
    events := [TICK, SUCCESS] + events;
    RunJoin(s, Begin(s), [TICK, TICK, SUCCESS], a, events, u);
    events := [TICK, TICK, SUCCESS] + events;
  }

  /** At the end of this run the first window has its document, but not all of it. */
  ghost predicate LosesEnd(s: Settings, events: seq<Event>, u: Test)
    requires s.Valid()
  {
    && Run(s, Begin(s), events, u) && |u.windows| > 0
    && Rank(DocumentLoaded) <= Rank(u.windows[0].phase) < Rank(Fatal) && Texts(u.windows[0].sent) != s.document
  }

  ghost predicate CanLoseEnd(s: Settings)
    requires s.Valid()
  {
    exists events, u :: LosesEnd(s, events, u)
  }

  /** A single window can lose the end of the document exactly if there is one that is not UTF-8, the
      rest does not fit into memory, and it can be cut evenly. */
  lemma {:induction false} LosesIff(s: Settings)
    requires s.Valid() && s.nrWindows == 1
    ensures CanLoseEnd(s) <==>
      s.lenContent < |s.document| && s.lenContent > s.inMemory && Lands(s.document, s.lenContent, 0)
  {
    ContentBoundary(s);
    if CanLoseEnd(s) {
      var events, u :| LosesEnd(s, events, u);
      UploadComplete(s, events, u, 0);
      if s.lenContent <= s.inMemory {
        SmallUpload(s, events, u, 0);
      }
    } else if s.lenContent > s.inMemory {
      var events, u := InPieces(s);
      UploadComplete(s, events, u, 0);
      assert !LosesEnd(s, events, u);
    }
  }

  /** Whatever the limit for payloads in memory is, a single window can lose the byte behind that many
      letters. */
  lemma {:induction false} EndLeftBehind(s: Settings, count: nat)
    requires LettersTest(s, count) && s.nrWindows == 1
    ensures CanLoseEnd(s)
  {
    LettersMiss(s, count);
    LosesIff(s);
  }
}
