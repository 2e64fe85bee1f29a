/** The automatic test of purcsmg.c as a state machine: what a tick of the clock and an answer of
    the renderer do to a window. */
module AutotestModel {
  import opened Bytes
  import opened Utf8

  datatype Phase =
    | Initial
    | WindowCreated
    | DocumentWrotten
    | DocumentLoaded
    | DocumentTesting
    | DocumentReset
    | WindowDestroyed
    | Fatal

  const DEF_LEN_ONE_WRITE := 1024
  const MAX_NR_WINDOWS := 8
  const NR_CHANGE_METHODS := 14

  /** The requests that a window sends; their texts, but not their handles. */
  datatype Message =
    | CreatePlainWindow
    | Load(text: seq<byte>)
    | WriteBegin(text: seq<byte>)
    | WriteMore(text: seq<byte>)
    | WriteEnd(text: seq<byte>)
    | Change(how: nat)
    | Reset
    | DestroyPlainWindow

  datatype Response = Cancelled | Answered(ok: bool)

  /** What is fixed when the test begins. `inMemory` is PCRDR_MAX_INMEM_PAYLOAD_SIZE, `lenContent`
      says how much of the document is well-formed. */
  datatype Settings = Settings(
    document: seq<byte>,
    lenContent: nat,
    inMemory: nat,
    nrWindows: nat,
    testMethod: int,
    noAutoChange: bool,
    maxChanges: seq<nat>)
  {
    /** What init_autotest sees to. */
    ghost predicate Valid() {
      && 0 < lenContent == Prefix(document, |document|)
      && inMemory >= DEF_LEN_ONE_WRITE
      && (nrWindows == 1 || nrWindows == MAX_NR_WINDOWS)
      && |maxChanges| == nrWindows
      && (forall i :: 0 <= i < nrWindows ==> 8 <= maxChanges[i] <= 128)
      && (nrWindows == 1 ==> maxChanges[0] == 128)
    }
  }

  /** One window. `pending` and `sent` record its requests: how many the renderer has yet to
      answer, and all there were. */
  datatype Window = Window(
    phase: Phase,
    wait: bool,
    lenWrotten: nat,
    changes: nat,
    maxChanges: nat,
    pending: nat,
    sent: seq<Message>)
  {
    function Sent(m: Message): Window {
      this.(wait := true, pending := pending + 1, sent := sent + [m])
    }
  }

  /** What a handler leaves behind, and whether the test goes on: the source returns 0 or -1. */
  datatype Turn = Turn(window: Window, goesOn: bool)

  /** Sending, if it works. */
  function Send(w: Window, m: Message, works: bool): Turn {
    if works then Turn(w.Sent(m), true) else Turn(w, false)
  }

  /** load_or_write_doucment */
  ghost function LoadOrWrite(s: Settings, w: Window, times: nat, works: bool): Turn {
    if s.lenContent > s.inMemory && times % 2 == 1 then
      var n := Prefix(s.document, DEF_LEN_ONE_WRITE);
      if n > 0 then Send(w.(lenWrotten := n), WriteBegin(s.document[..n]), works) else Turn(w, false)
    else Send(w.(lenWrotten := s.lenContent), Load(s.document), works)
  }

  /** write_more_doucment */
  ghost function WriteOn(s: Settings, w: Window, works: bool): Turn
    requires w.lenWrotten <= |s.document|
  {
    var rest := s.document[w.lenWrotten..];
    if w.lenWrotten + DEF_LEN_ONE_WRITE > s.lenContent then
      Send(w.(lenWrotten := s.lenContent), WriteEnd(rest), works)
    else
      var n := Prefix(rest, DEF_LEN_ONE_WRITE);
      if n > 0 then Send(w.(lenWrotten := w.lenWrotten + n), WriteMore(rest[..n]), works) else Turn(w, false)
  }

  function ChangeMethod(s: Settings, times: nat): (how: nat)
    ensures how < NR_CHANGE_METHODS
  {
    if s.nrWindows == 1 then (if 0 < s.testMethod < NR_CHANGE_METHODS then s.testMethod else 0) else times % NR_CHANGE_METHODS
  }

  /** change_document */
  function ChangeDocument(s: Settings, w: Window, times: nat, works: bool): Turn {
    if works then Turn(w.Sent(Change(ChangeMethod(s, times))).(changes := w.changes + 1), true) else Turn(w, false)
  }

  /** run_autotest, for the window whose turn it is. `destroyed` is nr_destroyed_wins. */
  ghost function RunAutotest(s: Settings, w: Window, times: nat, destroyed: nat, works: bool): Turn
    requires w.lenWrotten <= |s.document|
  {
    if w.phase == Fatal then Turn(w, false)
    else if w.wait then Turn(w, true)
    else match w.phase
      case Initial => Send(w, CreatePlainWindow, works)
      case WindowCreated => LoadOrWrite(s, w, times, works)
      case DocumentWrotten => WriteOn(s, w, works)
      case DocumentLoaded => ChangeDocument(s, w, times, works)
      case DocumentTesting =>
        if s.noAutoChange then Turn(w, true)
        else if w.changes == w.maxChanges then Send(w, Reset, works)
        else ChangeDocument(s, w, times, works)
      case DocumentReset => Send(w, DestroyPlainWindow, works)
      case WindowDestroyed => Turn(w, destroyed != s.nrWindows)
  }

  /** The same, said so that a proof looks into it only where it asks for it. */
  ghost predicate IsTick(s: Settings, w: Window, times: nat, destroyed: nat, works: bool, turn: Turn)
    requires w.lenWrotten <= |s.document|
  {
    forall n: nat {:trigger RunAutotest(s, w, n, destroyed, works)} :: n == times ==>
      turn == RunAutotest(s, w, n, destroyed, works)
  }

  ghost function Tick(s: Settings, w: Window, times: nat, destroyed: nat, works: bool): Turn
    requires w.lenWrotten <= |s.document|
  {
    assert IsTick(s, w, times, destroyed, works, RunAutotest(s, w, times, destroyed, works));
    var turn :| IsTick(s, w, times, destroyed, works, turn);
    turn
  }

  lemma {:induction false} TickIs(s: Settings, w: Window, times: nat, destroyed: nat, works: bool)
    requires w.lenWrotten <= |s.document|
    ensures Tick(s, w, times, destroyed, works) == RunAutotest(s, w, times, destroyed, works)
  {
    assert IsTick(s, w, times, destroyed, works, Tick(s, w, times, destroyed, works));
  }

  /** The phase after an answer, before its success is looked at. */
  function NextPhase(s: Settings, w: Window): Phase {
    match w.phase
    case Initial => WindowCreated
    case WindowCreated => if w.lenWrotten < s.lenContent then DocumentWrotten else DocumentLoaded
    case DocumentWrotten => if w.lenWrotten == s.lenContent then DocumentLoaded else DocumentWrotten
    case DocumentLoaded => DocumentTesting
    case DocumentTesting => if w.changes == w.maxChanges then DocumentReset else DocumentTesting
    case DocumentReset => WindowDestroyed
    case WindowDestroyed => WindowDestroyed
    case Fatal => Fatal
  }

  /** my_response_handler. Failure is allowed while changes are being tested. */
  function Respond(s: Settings, w: Window, r: Response): Window
    requires w.pending > 0
  {
    var w := w.(pending := w.pending - 1);
    match r
    case Cancelled => w
    case Answered(ok) =>
      var next := NextPhase(s, w);
      var lenient := w.phase == DocumentTesting || next == DocumentTesting;
      w.(wait := false, phase := if ok || lenient then next else Fatal)
  }

  /** nr_destroyed_wins goes up with this answer. */
  predicate Destroys(w: Window, r: Response) {
    w.phase == DocumentReset && r.Answered?
  }

  /** The whole test. */
  datatype Test = Test(windows: seq<Window>, times: nat, destroyed: nat, stopped: bool)

  datatype Event = Clock(works: bool) | Answer(win: nat, response: Response)

  /** An event that can happen: the renderer only answers what it was asked. */
  predicate Enabled(s: Settings, t: Test, e: Event) {
    !t.stopped && (e.Answer? ==> e.win < |t.windows| && t.windows[e.win].pending > 0)
  }

  /** The window whose turn it is; the quantifier keeps the division out of proofs that do not
      mention it. */
  ghost predicate IsCurrent(s: Settings, t: Test, win: nat)
    requires s.nrWindows > 0
  {
    win < s.nrWindows && forall n: nat {:trigger RoundRobin(s, n)} :: n == t.times ==> win == RoundRobin(s, n)
  }

  function RoundRobin(s: Settings, times: nat): nat
    requires s.nrWindows > 0
  {
    times % s.nrWindows
  }

  ghost function Current(s: Settings, t: Test): (win: nat)
    requires s.nrWindows > 0
    ensures win < s.nrWindows
  {
    assert IsCurrent(s, t, RoundRobin(s, t.times));
    var win: nat :| IsCurrent(s, t, win);
    win
  }

  lemma {:induction false} CurrentIs(s: Settings, t: Test)
    requires s.nrWindows > 0
    ensures Current(s, t) == t.times % s.nrWindows
  {
    assert IsCurrent(s, t, Current(s, t));
    assert RoundRobin(s, t.times) == Current(s, t);
  }

  predicate Sized(s: Settings, t: Test) {
    s.nrWindows > 0 && |t.windows| == s.nrWindows && forall i :: 0 <= i < |t.windows| ==> t.windows[i].lenWrotten <= |s.document|
  }

  ghost function Step(s: Settings, t: Test, e: Event): Test
    requires Sized(s, t) && Enabled(s, t, e)
  {
    match e
    case Clock(works) =>
      var win, times := Current(s, t), (t.times + 1) % 0x1_0000_0000;
      var turn := Tick(s, t.windows[win], times, t.destroyed, works);
      Test(t.windows[win := turn.window], times, t.destroyed, !turn.goesOn)
    case Answer(win, r) =>
      var w := t.windows[win];
      Test(t.windows[win := Respond(s, w, r)], t.times, if Destroys(w, r) then t.destroyed + 1 else t.destroyed, false)
  }

  /** The event leads from t to u; said so that a proof looks into a step only where it mentions
      one. */
  ghost predicate Leads(s: Settings, t: Test, e: Event, u: Test) {
    Sized(s, t) && Enabled(s, t, e) && forall v {:trigger Step(s, v, e)} :: v == t ==> Step(s, v, e) == u
  }

  /** The state in which init_autotest leaves everything. */
  ghost function Begin(s: Settings): Test
    requires s.Valid()
  {
    Test(seq(s.nrWindows, i requires 0 <= i < s.nrWindows => Window(Initial, false, 0, 0, s.maxChanges[i], 0, [])), 0, 0, false)
  }
}
