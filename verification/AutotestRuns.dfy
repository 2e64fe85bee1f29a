/** Runs of the automatic test: what holds in every one of them, whatever the order of events. */
module AutotestRuns {
  import opened Bytes
  import opened Utf8
  import opened AutotestModel
  import opened AutotestSafety

  /** The renderer has answered the request to destroy this window. */
  predicate Ended(w: Window) {
    w.phase == WindowDestroyed || (w.phase == Fatal && Farewell(w))
  }

  function CountEnded(windows: seq<Window>): nat {
    if windows == [] then 0 else CountEnded(windows[1..]) + (if Ended(windows[0]) then 1 else 0)
  }

  lemma {:induction false} CountUpdate(windows: seq<Window>, i: nat, w: Window)
    requires i < |windows|
    ensures CountEnded(windows[i := w]) + (if Ended(windows[i]) then 1 else 0) == CountEnded(windows) + (if Ended(w) then 1 else 0)
    decreases |windows|
  {
    if i == 0 {
      assert windows[i := w][1..] == windows[1..];
    } else {
      assert windows[i := w][1..] == windows[1..][i - 1 := w];
      CountUpdate(windows[1..], i - 1, w);
    }
  }

  ghost predicate AllWindowsOk(s: Settings, t: Test) {
    forall i :: 0 <= i < |t.windows| ==> WindowOk(s, t.windows[i])
  }

  ghost predicate AllWindowsKept(s: Settings, t: Test) {
    forall i :: 0 <= i < |t.windows| ==> WindowKept(s, t.windows[i])
  }

  ghost predicate TestOk(s: Settings, t: Test) {
    && s.Valid() && Sized(s, t)
    && (forall i :: 0 <= i < |t.windows| ==> t.windows[i].maxChanges == s.maxChanges[i])
    && (!t.stopped ==> AllWindowsOk(s, t))
    && AllWindowsKept(s, t)
    && t.destroyed == CountEnded(t.windows)
  }

  lemma {:induction false} NoneEnded(windows: seq<Window>)
    requires forall i :: 0 <= i < |windows| ==> windows[i].phase == Initial
    ensures CountEnded(windows) == 0
    decreases |windows|
  {
    if windows != [] {
      NoneEnded(windows[1..]);
    }
  }

  lemma {:induction false} BeginOk(s: Settings)
    requires s.Valid()
    ensures TestOk(s, Begin(s))
  {
    var t := Begin(s);
    NoneEnded(t.windows);
    assert s.document[..0] == [];
    forall i | 0 <= i < |t.windows| ensures WindowOk(s, t.windows[i]) && WindowKept(s, t.windows[i]) {
      OkIsKept(s, t.windows[i]);
    }
  }

  /** No event moves any window back. */
  ghost predicate Forward(t: Test, u: Test) {
    |t.windows| == |u.windows| && forall i :: 0 <= i < |t.windows| ==> Rank(t.windows[i].phase) <= Rank(u.windows[i].phase)
  }

  /** One window changes. */
  lemma {:induction false} OneChanges(s: Settings, t: Test, i: nat, w: Window, u: Test)
    requires TestOk(s, t) && !t.stopped && i < |t.windows| && u.windows == t.windows[i := w]
    requires w.lenWrotten <= |s.document| && w.maxChanges == t.windows[i].maxChanges
    requires Rank(t.windows[i].phase) <= Rank(w.phase)
    requires WindowKept(s, w) && (!u.stopped ==> WindowOk(s, w))
    requires u.destroyed + (if Ended(t.windows[i]) then 1 else 0) == t.destroyed + (if Ended(w) then 1 else 0)
    ensures TestOk(s, u) && Forward(t, u)
  {
    CountUpdate(t.windows, i, w);
  }

  /** A tick is one of the window whose turn it is. */
  lemma {:induction false} Turns(s: Settings, t: Test, works: bool)
    returns (win: nat, w: Window, times: nat, turn: Turn)
    requires TestOk(s, t) && !t.stopped
    ensures win < |t.windows| && w == t.windows[win] && WindowOk(s, w) && WindowKept(s, w)
    ensures win == Current(s, t) && times == (t.times + 1) % 0x1_0000_0000
    ensures turn == Tick(s, w, times, t.destroyed, works)
    ensures Step(s, t, Clock(works)) == Test(t.windows[win := turn.window], times, t.destroyed, !turn.goesOn)
  {
    win := Current(s, t);
    w, times := t.windows[win], (t.times + 1) % 0x1_0000_0000;
    turn := Tick(s, w, times, t.destroyed, works);
  }

  lemma {:induction false} ClockKeeps(s: Settings, t: Test, works: bool)
    requires TestOk(s, t) && !t.stopped
    ensures TestOk(s, Step(s, t, Clock(works))) && Forward(t, Step(s, t, Clock(works)))
  {
    var win, w, times, turn := Turns(s, t, works);
    TickAllows(s, w, times, t.destroyed, works);
    OneChanges(s, t, win, turn.window, Step(s, t, Clock(works)));
  }

  /** What a tick of the clock will leave. */
  lemma {:induction false} Foreseen(s: Settings, t: Test, works: bool) returns (turn: Turn, next: Test)
    requires TestOk(s, t) && !t.stopped
    ensures var win, times := t.times % s.nrWindows, (t.times + 1) % 0x1_0000_0000;
      && t.windows[win].lenWrotten <= |s.document|
      && turn == Tick(s, t.windows[win], times, t.destroyed, works)
      && next == Test(t.windows[win := turn.window], times, t.destroyed, !turn.goesOn)
      && TestOk(s, next) && Leads(s, t, Clock(works), next)
  {
    CurrentIs(s, t);
    turn := Tick(s, t.windows[Current(s, t)], (t.times + 1) % 0x1_0000_0000, t.destroyed, works);
    next := Step(s, t, Clock(works));
    ClockKeeps(s, t, works);
  }

  lemma {:induction false} TickAllows(s: Settings, w: Window, times: nat, destroyed: nat, works: bool)
    requires s.Valid() && WindowOk(s, w)
    ensures var turn := Tick(s, w, times, destroyed, works);
      && turn.window.lenWrotten <= |s.document| && turn.window.maxChanges == w.maxChanges
      && Rank(w.phase) <= Rank(turn.window.phase) && Ended(turn.window) == Ended(w)
      && WindowKept(s, turn.window) && (turn.goesOn ==> WindowOk(s, turn.window))
  {
    TickKeeps(s, w, times, destroyed, works);
    TickStays(s, w, times, destroyed, works);
    TickLeaves(s, w, times, destroyed, works);
  }

  /** A tick never leads beyond the document, and only sends a farewell when it is time. */
  lemma {:induction false} TickStays(s: Settings, w: Window, times: nat, destroyed: nat, works: bool)
    requires WindowOk(s, w)
    ensures var u := Tick(s, w, times, destroyed, works).window;
      u.lenWrotten <= |s.document| && Ended(u) == Ended(w)
  {
    TickIs(s, w, times, destroyed, works);
  }

  lemma {:induction false} AnswerKeeps(s: Settings, t: Test, win: nat, r: Response)
    requires TestOk(s, t) && Enabled(s, t, Answer(win, r))
    ensures TestOk(s, Step(s, t, Answer(win, r))) && Forward(t, Step(s, t, Answer(win, r)))
  {
    var w := t.windows[win];
    assert WindowOk(s, w);
    RespondKeeps(s, w, r);
    RespondCounts(s, w, r);
    OkIsKept(s, Respond(s, w, r));
    OneChanges(s, t, win, Respond(s, w, r), Step(s, t, Answer(win, r)));
  }

  lemma {:induction false} RespondCounts(s: Settings, w: Window, r: Response)
    requires WindowOk(s, w) && w.pending > 0
    ensures !Ended(w) && (Ended(Respond(s, w, r)) <==> Destroys(w, r))
    ensures Respond(s, w, r).lenWrotten == w.lenWrotten
  {
  }

  lemma {:induction false} StepKeeps(s: Settings, t: Test, e: Event)
    requires TestOk(s, t) && Enabled(s, t, e)
    ensures TestOk(s, Step(s, t, e)) && Forward(t, Step(s, t, e))
  {
    match e
    case Clock(works) => ClockKeeps(s, t, works);
    case Answer(win, r) => AnswerKeeps(s, t, win, r);
  }

  /** `events` lead from t to u. */
  ghost predicate Run(s: Settings, t: Test, events: seq<Event>, u: Test)
    decreases |events|
  {
    if events == [] then t == u
    else Sized(s, t) && Enabled(s, t, events[0]) && Run(s, Step(s, t, events[0]), events[1..], u)
  }

  /** The invariant holds in every state that any sequence of events leads to, and every window has
      only moved forward. */
  lemma {:induction false} Safety(s: Settings, t: Test, events: seq<Event>, u: Test)
    requires TestOk(s, t) && Run(s, t, events, u)
    ensures TestOk(s, u) && Forward(t, u)
    decreases |events|
  {
    if events != [] {
      var next := Step(s, t, events[0]);
      StepKeeps(s, t, events[0]);
      Safety(s, next, events[1..], u);
    }
  }

  function CountDestroyed(windows: seq<Window>): nat {
    if windows == [] then 0 else CountDestroyed(windows[1..]) + (if windows[0].phase == WindowDestroyed then 1 else 0)
  }

  /** What this event adds to the number of failed requests to destroy a window. */
  function FailsToDestroy(t: Test, e: Event): nat {
    match e
    case Clock(_) => 0
    case Answer(win, r) =>
      if win < |t.windows| && t.windows[win].phase == DocumentReset && r == Answered(false) then 1 else 0
  }

  /** How many requests to destroy a window were answered with a failure. */
  ghost function FailedDestructions(s: Settings, t: Test, events: seq<Event>, u: Test): nat
    requires Run(s, t, events, u)
    decreases |events|
  {
    if events == [] then 0
    else FailsToDestroy(t, events[0]) + FailedDestructions(s, Step(s, t, events[0]), events[1..], u)
  }

  lemma {:induction false} DestroyedUpdate(windows: seq<Window>, i: nat, w: Window)
    requires i < |windows|
    ensures CountDestroyed(windows[i := w]) + (if windows[i].phase == WindowDestroyed then 1 else 0)
      == CountDestroyed(windows) + (if w.phase == WindowDestroyed then 1 else 0)
    decreases |windows|
  {
    if i == 0 {
      assert windows[i := w][1..] == windows[1..];
    } else {
      assert windows[i := w][1..] == windows[1..][i - 1 := w];
      DestroyedUpdate(windows[1..], i - 1, w);
    }
  }

  lemma {:induction false} ClockDestroys(s: Settings, t: Test, works: bool)
    requires TestOk(s, t) && !t.stopped
    ensures var u := Step(s, t, Clock(works));
      u.destroyed == t.destroyed && CountDestroyed(u.windows) == CountDestroyed(t.windows)
  {
    var win := Current(s, t);
    var w, times := t.windows[win], (t.times + 1) % 0x1_0000_0000;
    TickKeeps(s, w, times, t.destroyed, works);
    DestroyedUpdate(t.windows, win, Tick(s, w, times, t.destroyed, works).window);
  }

  lemma {:induction false} StepDestroys(s: Settings, t: Test, e: Event)
    requires TestOk(s, t) && Enabled(s, t, e)
    ensures var u := Step(s, t, e);
      u.destroyed + CountDestroyed(t.windows) == t.destroyed + CountDestroyed(u.windows) + FailsToDestroy(t, e)
  {
    match e
    case Clock(works) => ClockDestroys(s, t, works);
    case Answer(win, r) =>
      var w := t.windows[win];
      assert WindowOk(s, w);
      AnswerDestroys(s, w, r);
      DestroyedUpdate(t.windows, win, Respond(s, w, r));
  }

  lemma {:induction false} AnswerDestroys(s: Settings, w: Window, r: Response)
    requires WindowOk(s, w) && w.pending > 0
    ensures w.phase != WindowDestroyed
    ensures Respond(s, w, r).phase == WindowDestroyed <==> w.phase == DocumentReset && r == Answered(true)
  {
  }

  /** nr_destroyed_wins counts the destroyed windows, and one more for each failed request to destroy
      a window. */
  lemma {:induction false} DestroyedBalance(s: Settings, t: Test, events: seq<Event>, u: Test)
    requires TestOk(s, t) && Run(s, t, events, u)
    ensures u.destroyed + CountDestroyed(t.windows)
      == t.destroyed + CountDestroyed(u.windows) + FailedDestructions(s, t, events, u)
    decreases |events|
  {
    if events != [] {
      StepKeeps(s, t, events[0]);
      StepDestroys(s, t, events[0]);
      DestroyedBalance(s, Step(s, t, events[0]), events[1..], u);
    }
  }

  lemma {:induction false} NoneDestroyed(windows: seq<Window>)
    requires forall i :: 0 <= i < |windows| ==> windows[i].phase == Initial
    ensures CountDestroyed(windows) == 0
    decreases |windows|
  {
    if windows != [] {
      NoneDestroyed(windows[1..]);
    }
  }

  /** nr_destroyed_wins is the number of destroyed windows exactly if no request to destroy a window
      was answered with a failure. */
  lemma {:induction false} DestroyedCount(s: Settings, events: seq<Event>, u: Test)
    requires s.Valid() && Run(s, Begin(s), events, u)
    ensures u.destroyed == CountDestroyed(u.windows) + FailedDestructions(s, Begin(s), events, u)
    ensures u.destroyed == CountDestroyed(u.windows) <==> FailedDestructions(s, Begin(s), events, u) == 0
  {
    BeginOk(s);
    NoneDestroyed(Begin(s).windows);
    DestroyedBalance(s, Begin(s), events, u);
  }

  /** In every run, for every window: at most one request is outstanding, there are never more
      changes than allowed, and the window is never reset. */
  lemma {:induction false} WindowSafety(s: Settings, events: seq<Event>, u: Test, i: nat)
    requires s.Valid() && Run(s, Begin(s), events, u) && i < s.nrWindows
    ensures i < |u.windows| && i < |s.maxChanges|
    ensures var w := u.windows[i];
      && w.pending <= 1 && (w.pending == 1 ==> w.wait)
      && CountChanges(w.sent) == w.changes <= s.maxChanges[i]
      && Reset !in w.sent
  {
    BeginOk(s);
    Safety(s, Begin(s), events, u);
    var w := u.windows[i];
    assert WindowKept(s, w);
    forall k | 0 <= k < |w.sent| ensures w.sent[k] != Reset { assert MessageOk(w.sent[k]); }
  }

  /** Every piece but the last has at most 1024 bytes and ends with a whole character. */
  lemma {:induction false} UploadPieces(s: Settings, events: seq<Event>, u: Test, i: nat, k: nat)
    requires s.Valid() && Run(s, Begin(s), events, u) && i < |u.windows| && k < |u.windows[i].sent|
    requires u.windows[i].sent[k].WriteBegin? || u.windows[i].sent[k].WriteMore?
    ensures var text := u.windows[i].sent[k].text; 0 < |text| <= 1024 && Complete(text, |text|)
  {
    BeginOk(s);
    Safety(s, Begin(s), events, u);
    assert WindowKept(s, u.windows[i]);
    assert MessageOk(u.windows[i].sent[k]);
  }
}
