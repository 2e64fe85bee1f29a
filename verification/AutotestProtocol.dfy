/** The order in which the requests of a window of the automatic test go out, and what answers do. */
module AutotestProtocol {
  import opened Bytes
  import opened Utf8
  import opened AutotestModel
  import opened AutotestSafety
  import opened AutotestRuns
  import AutotestProgress

  /** How far a sequence of requests has come: a window is created, gets its document by one request or in
      pieces, is changed, and is destroyed. */
  datatype Stage = Nothing | Opened | Begun | Whole | Changed | Gone | Wrong

  function Next(stage: Stage, m: Message): Stage {
    match (stage, m)
    case (Nothing, CreatePlainWindow) => Opened
    case (Opened, Load(_)) => Whole
    case (Opened, WriteBegin(_)) => Begun
    case (Begun, WriteMore(_)) => Begun
    case (Begun, WriteEnd(_)) => Whole
    case (Begun, Change(_)) => Changed
    case (Whole, Change(_)) => Changed
    case (Changed, Change(_)) => Changed
    case (Changed, DestroyPlainWindow) => Gone
    case _ => Wrong
  }

  function StageOf(sent: seq<Message>): Stage {
    if sent == [] then Nothing else Next(StageOf(sent[..|sent| - 1]), sent[|sent| - 1])
  }

  /** The stages that a window may have reached in a phase. */
  predicate StageFits(w: Window) {
    var stage := StageOf(w.sent);
    match w.phase
    case Initial => stage == if w.wait then Opened else Nothing
    case WindowCreated => if w.wait then stage == Begun || stage == Whole else stage == Opened
    case DocumentWrotten => stage == Begun || (w.wait && stage == Whole)
    case DocumentLoaded => if w.wait then stage == Changed else stage == Begun || stage == Whole
    case DocumentTesting => stage == Changed
    case DocumentReset => stage == if w.wait then Gone else Changed
    case WindowDestroyed => stage == Gone
    case Fatal => stage != Wrong
  }

  lemma {:induction false} StageSent(w: Window, m: Message)
    ensures StageOf(w.Sent(m).sent) == Next(StageOf(w.sent), m)
  {
    assert w.Sent(m).sent[..|w.sent|] == w.sent;
  }

  /** What a tick may send in a phase. */
  predicate Fitting(phase: Phase, m: Message) {
    match phase
    case Initial => m == CreatePlainWindow
    case WindowCreated => m.Load? || m.WriteBegin?
    case DocumentWrotten => m.WriteMore? || m.WriteEnd?
    case DocumentLoaded => m.Change?
    case DocumentTesting => m.Change?
    case DocumentReset => m == DestroyPlainWindow
    case _ => false
  }

  /** A tick sends nothing, or one request that fits, and then the window waits. */
  lemma {:induction false} TickAsks(s: Settings, w: Window, times: nat, destroyed: nat, works: bool)
    requires s.Valid() && WindowOk(s, w)
    ensures var v := Tick(s, w, times, destroyed, works).window;
      || (v.sent == w.sent && v.wait == w.wait && v.phase == w.phase)
      || (!w.wait && v.wait && v.phase == w.phase && |v.sent| == |w.sent| + 1 && v.sent == w.sent + [v.sent[|w.sent|]]
        && Fitting(w.phase, v.sent[|w.sent|]))
  {
    TickIs(s, w, times, destroyed, works);
  }

  /** When a tick sends a request: exactly if the window waits for nothing and there is something to do, and
      the request works. If it does not, or the window is fatal, the test stops; so it does when a
      destroyed window gets its turn and all windows count as destroyed. */
  lemma {:induction false} TickServes(s: Settings, w: Window, times: nat, destroyed: nat, works: bool)
    requires s.Valid() && WindowOk(s, w)
    ensures var t, idle := Tick(s, w, times, destroyed, works), w.phase == DocumentTesting && s.noAutoChange;
      if w.phase == Fatal then t == Turn(w, false)
      else if w.wait || idle then t == Turn(w, true)
      else if w.phase == WindowDestroyed then t == Turn(w, destroyed != s.nrWindows)
      else t.goesOn == works && |t.window.sent| == |w.sent| + (if works then 1 else 0)
  {
    TickIs(s, w, times, destroyed, works);
    if !w.wait && w.phase in {WindowCreated, DocumentWrotten} {
      AutotestProgress.TextsGoOn(s, w, times);
    }
  }

  lemma {:induction false} TickStage(s: Settings, w: Window, times: nat, destroyed: nat, works: bool)
    requires s.Valid() && WindowOk(s, w) && StageFits(w)
    ensures StageFits(Tick(s, w, times, destroyed, works).window)
  {
    TickAsks(s, w, times, destroyed, works);
    var v := Tick(s, w, times, destroyed, works).window;
    if v.sent != w.sent {
      StageSent(w, v.sent[|w.sent|]);
    }
  }

  /** What an answer does: nothing if it is a cancellation. A success takes the window to the next phase,
      and so does a failure while changes are tested; any other failure is fatal. */
  lemma {:induction false} AnswerMoves(s: Settings, w: Window, r: Response)
    requires WindowOk(s, w) && w.pending > 0
    ensures var v := Respond(s, w, r);
      && v.sent == w.sent && v.lenWrotten == w.lenWrotten && v.changes == w.changes && v.pending == 0
      && match r
        case Cancelled => v.wait == w.wait && v.phase == w.phase
        case Answered(ok) =>
          && !v.wait
          && (!ok && w.phase !in {DocumentLoaded, DocumentTesting} ==> v.phase == Fatal)
          && (ok || w.phase in {DocumentLoaded, DocumentTesting} ==>
            match w.phase
            case Initial => v.phase == WindowCreated
            case WindowCreated => v.phase == if w.lenWrotten < s.lenContent then DocumentWrotten else DocumentLoaded
            case DocumentWrotten => v.phase == if w.lenWrotten < s.lenContent then DocumentWrotten else DocumentLoaded
            case DocumentLoaded => v.phase == DocumentTesting
            case DocumentTesting => v.phase == if w.changes < w.maxChanges then DocumentTesting else DocumentReset
            case DocumentReset => v.phase == WindowDestroyed
            case _ => true)
  {
  }

  lemma {:induction false} RespondStage(s: Settings, w: Window, r: Response)
    requires s.Valid() && WindowOk(s, w) && StageFits(w) && w.pending > 0
    requires w.phase == DocumentWrotten || w.phase == WindowCreated ==> StageOf(w.sent) == Whole ==> w.lenWrotten == s.lenContent
    ensures StageFits(Respond(s, w, r))
  {
    AnswerMoves(s, w, r);
  }

  /** A document that was sent to its end is closed. */
  lemma {:induction false} WholeIsClosed(sent: seq<Message>)
    ensures StageOf(sent) == Whole ==> Closed(sent)
  {
    if sent != [] {
      WholeIsClosed(sent[..|sent| - 1]);
    }
  }

  ghost predicate StagesFit(t: Test) {
    forall i :: 0 <= i < |t.windows| ==> StageFits(t.windows[i])
  }

  /** The same, said so that a proof looks at all windows only where it mentions them. */
  ghost predicate AllFit(t: Test) {
    forall v {:trigger StagesFit(v)} :: v == t ==> StagesFit(v)
  }

  lemma {:induction false} OneFits(t: Test, i: nat, w: Window, u: Test)
    requires AllFit(t) && i < |t.windows| && u.windows == t.windows[i := w] && StageFits(w)
    ensures AllFit(u)
  {
    assert StagesFit(t);
    assert StagesFit(u);
  }

  lemma {:induction false} FitsAt(t: Test, i: nat)
    requires AllFit(t) && i < |t.windows|
    ensures StageFits(t.windows[i])
  {
    assert StagesFit(t);
  }

  lemma {:induction false} StepFits(s: Settings, t: Test, e: Event)
    requires TestOk(s, t) && Enabled(s, t, e) && AllFit(t)
    ensures AllFit(Step(s, t, e))
  {
    match e
    case Clock(works) =>
      var win, w, times, turn := Turns(s, t, works);
      FitsAt(t, win);
      TickStage(s, w, times, t.destroyed, works);
      OneFits(t, win, turn.window, Step(s, t, e));
    case Answer(win, r) =>
      var w := t.windows[win];
      FitsAt(t, win);
      assert WindowOk(s, w) && Uploaded(s, w);
      WholeIsClosed(w.sent);
      RespondStage(s, w, r);
      OneFits(t, win, Respond(s, w, r), Step(s, t, e));
  }

  lemma {:induction false} RunFits(s: Settings, t: Test, events: seq<Event>, u: Test)
    requires TestOk(s, t) && AllFit(t) && Run(s, t, events, u)
    ensures AllFit(u)
    decreases |events|
  {
    if events != [] {
      StepKeeps(s, t, events[0]);
      StepFits(s, t, events[0]);
      RunFits(s, Step(s, t, events[0]), events[1..], u);
    }
  }

  /** In every run, the requests of each window go out in this order, and its phase tells how far they are.
      A destroyed window has been changed as often as it was to be. */
  lemma {:induction false} OrderOfRequests(s: Settings, events: seq<Event>, u: Test, i: nat)
    requires s.Valid() && Run(s, Begin(s), events, u) && i < |u.windows|
    ensures StageOf(u.windows[i].sent) != Wrong && StageFits(u.windows[i])
    ensures u.windows[i].phase == WindowDestroyed ==> i < |s.maxChanges| && CountChanges(u.windows[i].sent) == s.maxChanges[i]
  {
    BeginOk(s);
    assert StagesFit(Begin(s));
    RunFits(s, Begin(s), events, u);
    FitsAt(u, i);
    Safety(s, Begin(s), events, u);
    assert WindowKept(s, u.windows[i]);
  }

  /** A change that a tick sends is the one asked for, or one of fourteen by the count of ticks. */
  lemma {:induction false} ChangeByTurn(s: Settings, t: Test, works: bool)
    requires TestOk(s, t) && !t.stopped
    ensures var i, u := t.times % s.nrWindows, Step(s, t, Clock(works));
      && i < |t.windows| && |u.windows| == |t.windows|
      && forall how :: u.windows[i].sent == t.windows[i].sent + [Change(how)] ==>
        how == if s.nrWindows > 1 then (t.times + 1) % 0x1_0000_0000 % 14 else if 0 < s.testMethod < 14 then s.testMethod else 0
  {
    CurrentIs(s, t);
    var win, w, times, turn := Turns(s, t, works);
    ChangeOfTick(s, w, times, t.destroyed, works);
  }

  lemma {:induction false} ChangeOfTick(s: Settings, w: Window, times: nat, destroyed: nat, works: bool)
    requires s.Valid() && w.lenWrotten <= |s.document|
    ensures forall how :: Tick(s, w, times, destroyed, works).window.sent == w.sent + [Change(how)] ==>
      how == if s.nrWindows > 1 then times % 14 else if 0 < s.testMethod < 14 then s.testMethod else 0
  {
    TickIs(s, w, times, destroyed, works);
    var v := Tick(s, w, times, destroyed, works).window;
    forall how | v.sent == w.sent + [Change(how)]
      ensures how == if s.nrWindows > 1 then times % 14 else if 0 < s.testMethod < 14 then s.testMethod else 0
    {
      assert v.sent[|w.sent|] == Change(how);
    }
  }
}
