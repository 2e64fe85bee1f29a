/** The automatic test without automatic changes, as the option -n asks for it: the documents are shown
    and changed once, and then nothing more is done to the windows. */
module AutotestManual {
  import opened AutotestModel
  import opened AutotestSafety
  import opened AutotestRuns

  /** A window without automatic changes. */
  ghost predicate Manual(w: Window) {
    && (w.phase == Fatal || Rank(w.phase) <= Rank(DocumentTesting))
    && w.changes <= 1 && (w.phase == DocumentTesting ==> !w.wait)
    && CountChanges(w.sent) <= 1 && DestroyPlainWindow !in w.sent
  }

  ghost predicate WindowsManual(t: Test) {
    t.destroyed == 0 && forall i :: 0 <= i < |t.windows| ==> Manual(t.windows[i])
  }

  /** The same, said so that a proof looks at all windows only where it mentions them. */
  ghost predicate AllManual(t: Test) {
    forall v {:trigger WindowsManual(v)} :: v == t ==> WindowsManual(v)
  }

  lemma {:induction false} ManualAt(t: Test, i: nat)
    requires AllManual(t) && i < |t.windows|
    ensures Manual(t.windows[i]) && t.destroyed == 0
  {
    assert WindowsManual(t);
  }

  lemma {:induction false} OneManual(t: Test, i: nat, w: Window, u: Test)
    requires AllManual(t) && i < |t.windows| && u.windows == t.windows[i := w] && u.destroyed == t.destroyed
    requires Manual(w)
    ensures AllManual(u)
  {
    assert WindowsManual(t);
    assert WindowsManual(u);
  }

  lemma {:induction false} SendManual(w: Window, m: Message)
    requires m != DestroyPlainWindow && DestroyPlainWindow !in w.sent
    ensures DestroyPlainWindow !in w.Sent(m).sent
    ensures CountChanges(w.Sent(m).sent) == CountChanges(w.sent) + (if m.Change? then 1 else 0)
  {
    SentOne(w, m);
  }

  /** A tick of such a window. In DocumentTesting it does nothing. */
  lemma {:induction false} TickManual(s: Settings, w: Window, times: nat, destroyed: nat, works: bool)
    requires s.Valid() && s.noAutoChange && WindowOk(s, w) && Manual(w)
    ensures var t := Tick(s, w, times, destroyed, works);
      Manual(t.window) && (w.phase == DocumentTesting ==> t == Turn(w, true))
  {
    TickIs(s, w, times, destroyed, works);
    TickKeeps(s, w, times, destroyed, works);
    var u := Tick(s, w, times, destroyed, works).window;
    if u.sent != w.sent {
      var v := u.(sent := w.sent);
      SendManual(v, u.sent[|w.sent|]);
      assert u.sent == w.sent + [u.sent[|w.sent|]] == v.Sent(u.sent[|w.sent|]).sent;
    }
  }

  lemma {:induction false} RespondManual(s: Settings, w: Window, r: Response)
    requires s.Valid() && WindowOk(s, w) && Manual(w) && w.pending > 0
    ensures Manual(Respond(s, w, r)) && !Destroys(w, r)
  {
  }

  lemma {:induction false} StepManual(s: Settings, t: Test, e: Event)
    requires s.noAutoChange && TestOk(s, t) && Enabled(s, t, e) && AllManual(t)
    ensures AllManual(Step(s, t, e))
  {
    match e
    case Clock(works) =>
      var win, w, times, turn := Turns(s, t, works);
      ManualAt(t, win);
      TickManual(s, w, times, t.destroyed, works);
      OneManual(t, win, turn.window, Step(s, t, e));
    case Answer(win, r) =>
      var w := t.windows[win];
      ManualAt(t, win);
      assert WindowOk(s, w);
      RespondManual(s, w, r);
      OneManual(t, win, Respond(s, w, r), Step(s, t, e));
  }

  lemma {:induction false} RunManual(s: Settings, t: Test, events: seq<Event>, u: Test)
    requires s.noAutoChange && TestOk(s, t) && AllManual(t) && Run(s, t, events, u)
    ensures AllManual(u)
    decreases |events|
  {
    if events != [] {
      StepKeeps(s, t, events[0]);
      StepManual(s, t, events[0]);
      RunManual(s, Step(s, t, events[0]), events[1..], u);
    }
  }

  /** Without automatic changes, in every run: no window is changed more than once or asked to be
      destroyed, none gets beyond the testing phase, and none counts as destroyed. */
  lemma {:induction false} NothingIsDestroyed(s: Settings, events: seq<Event>, u: Test, i: nat)
    requires s.Valid() && s.noAutoChange && Run(s, Begin(s), events, u) && i < |u.windows|
    ensures var w := u.windows[i];
      && (w.phase == Fatal || Rank(w.phase) <= Rank(DocumentTesting))
      && CountChanges(w.sent) <= 1 && DestroyPlainWindow !in w.sent
    ensures u.destroyed == 0
  {
    BeginOk(s);
    assert WindowsManual(Begin(s));
    RunManual(s, Begin(s), events, u);
    ManualAt(u, i);
  }

  /** And a tick for a window that is being tested changes nothing but run_times. */
  lemma {:induction false} TestingRests(s: Settings, events: seq<Event>, u: Test, works: bool)
    requires s.Valid() && s.noAutoChange && Run(s, Begin(s), events, u) && !u.stopped
    requires u.times % s.nrWindows < |u.windows| && u.windows[u.times % s.nrWindows].phase == DocumentTesting
    ensures Sized(s, u) && Step(s, u, Clock(works)) == u.(times := (u.times + 1) % 0x1_0000_0000)
  {
    BeginOk(s);
    assert WindowsManual(Begin(s));
    RunManual(s, Begin(s), events, u);
    Safety(s, Begin(s), events, u);
    CurrentIs(s, u);
    Rests(s, u, works);
  }

  lemma {:induction false} Rests(s: Settings, u: Test, works: bool)
    requires s.noAutoChange && TestOk(s, u) && AllManual(u) && !u.stopped
    requires u.windows[Current(s, u)].phase == DocumentTesting
    ensures Step(s, u, Clock(works)) == u.(times := (u.times + 1) % 0x1_0000_0000)
  {
    var win, w, times, turn := Turns(s, u, works);
    ManualAt(u, win);
    TickManual(s, w, times, u.destroyed, works);
    NothingChanged(u, win, w, times);
  }

  lemma {:induction false} NothingChanged(u: Test, win: nat, w: Window, times: nat)
    requires win < |u.windows| && w == u.windows[win] && !u.stopped
    ensures Test(u.windows[win := w], times, u.destroyed, false) == u.(times := times)
  {
    assert u.windows[win := w] == u.windows;
  }
}
