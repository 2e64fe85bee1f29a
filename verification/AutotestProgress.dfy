/** Why the automatic test comes to an end, if every request works and changes are automatic. */
module AutotestProgress {
  import opened Bytes
  import opened Utf8
  import opened AutotestModel
  import opened AutotestSafety
  import opened AutotestRuns

  /** At most so many requests are yet to be sent for a window. */
  function Work(s: Settings, w: Window): nat {
    var texts := if w.lenWrotten <= s.lenContent then s.lenContent - w.lenWrotten else 0;
    var changes := if w.changes <= w.maxChanges then w.maxChanges - w.changes else 0;
    match w.phase
    case Initial => (if w.wait then 0 else 1) + s.lenContent + w.maxChanges + 1
    case WindowCreated => texts + changes + 1
    case DocumentWrotten => texts + changes + 1
    case DocumentLoaded => changes + 1
    case DocumentTesting => changes + 1
    case DocumentReset => if w.wait then 0 else 1
    case WindowDestroyed => 0
    case Fatal => 0
  }

  /** A request and its answer count one each. */
  function Measure(s: Settings, w: Window): nat {
    2 * Work(s, w) + if w.wait then 1 else 0
  }

  /** Nothing has failed, and whoever waits will get an answer. */
  predicate Healthy(w: Window) {
    w.phase != Fatal && (w.wait <==> w.pending == 1)
  }

  /** There is something to send. */
  predicate Ready(w: Window) {
    !w.wait && w.phase != WindowDestroyed
  }

  lemma {:induction false} TextsGoOn(s: Settings, w: Window, times: nat)
    requires s.Valid() && WindowOk(s, w) && !w.wait && w.phase in {WindowCreated, DocumentWrotten}
    ensures var n := Prefix(s.document[w.lenWrotten..], DEF_LEN_ONE_WRITE); n > 0
    ensures s.document[0..] == s.document
  {
    ContentBoundary(s);
    CompleteIff(s.document, w.lenWrotten);
    CompleteIff(s.document, s.lenContent);
    PrefixGetsOn(s.document, w.lenWrotten, s.lenContent, DEF_LEN_ONE_WRITE);
  }

  /** lenWrotten grows with every piece. */
  lemma {:induction false} WriteGrows(s: Settings, w: Window, times: nat)
    requires s.Valid() && WindowOk(s, w) && !w.wait && w.phase in {WindowCreated, DocumentWrotten}
    ensures var t := if w.phase == WindowCreated then LoadOrWrite(s, w, times, true) else WriteOn(s, w, true);
      && t.goesOn && w.lenWrotten < t.window.lenWrotten <= s.lenContent
      && t.window == w.(lenWrotten := t.window.lenWrotten).Sent(t.window.sent[|w.sent|])
  {
    TickIs(s, w, times, 0, true);
    TextsGoOn(s, w, times);
    TickKeeps(s, w, times, 0, true);
  }

  /** A tick gets a window on that has something to send, and leaves any other alone. */
  lemma {:induction false} TickProgress(s: Settings, w: Window, times: nat, destroyed: nat)
    requires s.Valid() && !s.noAutoChange && WindowOk(s, w) && Healthy(w)
    ensures var t := Tick(s, w, times, destroyed, true);
      && Healthy(t.window)
      && (if Ready(w) then t.goesOn && Measure(s, t.window) < Measure(s, w) else t.window == w)
      && (t.goesOn <==> !(w.phase == WindowDestroyed && destroyed == s.nrWindows))
  {
    TickIs(s, w, times, destroyed, true);
    if Ready(w) && w.phase in {WindowCreated, DocumentWrotten} {
      WriteGrows(s, w, times);
    }
  }

  /** So does every answer. */
  lemma {:induction false} RespondProgress(s: Settings, w: Window)
    requires s.Valid() && WindowOk(s, w) && Healthy(w) && w.pending > 0
    ensures var u := Respond(s, w, Answered(true)); Healthy(u) && Measure(s, u) < Measure(s, w)
  {
  }

  function Total(s: Settings, windows: seq<Window>): nat {
    if windows == [] then 0 else Total(s, windows[1..]) + Measure(s, windows[0])
  }

  lemma {:induction false} TotalUpdate(s: Settings, windows: seq<Window>, i: nat, w: Window)
    requires i < |windows|
    ensures Total(s, windows[i := w]) + Measure(s, windows[i]) == Total(s, windows) + Measure(s, w)
    decreases |windows|
  {
    if i == 0 {
      assert windows[i := w][1..] == windows[1..];
    } else {
      assert windows[i := w][1..] == windows[1..][i - 1 := w];
      TotalUpdate(s, windows[1..], i - 1, w);
    }
  }

  ghost predicate AllHealthy(t: Test) {
    forall i :: 0 <= i < |t.windows| ==> Healthy(t.windows[i])
  }

  /** The request works, the answer says so. */
  predicate Kind(e: Event) {
    match e
    case Clock(works) => works
    case Answer(_, r) => r == Answered(true)
  }

  /** An event that gets something done. */
  ghost predicate Productive(s: Settings, t: Test, e: Event)
    requires Sized(s, t)
  {
    e.Answer? || Ready(t.windows[Current(s, t)])
  }

  lemma {:induction false} OneHealthy(s: Settings, t: Test, i: nat, w: Window, u: Test)
    requires AllHealthy(t) && i < |t.windows| && u.windows == t.windows[i := w] && Healthy(w)
    ensures AllHealthy(u)
    ensures Measure(s, w) < Measure(s, t.windows[i]) ==> Total(s, u.windows) < Total(s, t.windows)
  {
    TotalUpdate(s, t.windows, i, w);
  }

  lemma {:induction false} ClockProgress(s: Settings, t: Test)
    requires TestOk(s, t) && !s.noAutoChange && AllHealthy(t) && !t.stopped
    ensures var u := Step(s, t, Clock(true));
      AllHealthy(u) && if Ready(t.windows[Current(s, t)]) then Total(s, u.windows) < Total(s, t.windows) else u.windows == t.windows
  {
    var win := Current(s, t);
    var w, times := t.windows[win], (t.times + 1) % 0x1_0000_0000;
    assert WindowOk(s, w) && Healthy(w);
    TickProgress(s, w, times, t.destroyed);
    OneHealthy(s, t, win, Tick(s, w, times, t.destroyed, true).window, Step(s, t, Clock(true)));
  }

  lemma {:induction false} AnswerProgress(s: Settings, t: Test, win: nat)
    requires TestOk(s, t) && AllHealthy(t) && Enabled(s, t, Answer(win, Answered(true)))
    ensures var u := Step(s, t, Answer(win, Answered(true))); AllHealthy(u) && Total(s, u.windows) < Total(s, t.windows)
  {
    var w := t.windows[win];
    assert WindowOk(s, w) && Healthy(w);
    RespondProgress(s, w);
    OneHealthy(s, t, win, Respond(s, w, Answered(true)), Step(s, t, Answer(win, Answered(true))));
  }

  lemma {:induction false} StepProgress(s: Settings, t: Test, e: Event)
    requires TestOk(s, t) && !s.noAutoChange && AllHealthy(t) && Enabled(s, t, e) && Kind(e)
    ensures AllHealthy(Step(s, t, e))
    ensures if Productive(s, t, e) then Total(s, Step(s, t, e).windows) < Total(s, t.windows) else Step(s, t, e).windows == t.windows
  {
    match e
    case Clock(works) => ClockProgress(s, t);
    case Answer(win, r) => AnswerProgress(s, t, win);
  }

  ghost predicate AllKind(events: seq<Event>) {
    forall i :: 0 <= i < |events| ==> Kind(events[i])
  }

  /** How many of the events of a run get something done. */
  ghost function CountProductive(s: Settings, t: Test, events: seq<Event>, u: Test): nat
    requires Run(s, t, events, u)
    decreases |events|
  {
    if events == [] then 0
    else (if Productive(s, t, events[0]) then 1 else 0) + CountProductive(s, Step(s, t, events[0]), events[1..], u)
  }

  /** Every event that gets something done uses up some of the total. */
  lemma {:induction false} Bounded(s: Settings, t: Test, events: seq<Event>, u: Test)
    requires TestOk(s, t) && !s.noAutoChange && AllHealthy(t) && Run(s, t, events, u) && AllKind(events)
    ensures TestOk(s, u) && AllHealthy(u)
    ensures CountProductive(s, t, events, u) + Total(s, u.windows) <= Total(s, t.windows)
    decreases |events|
  {
    if events != [] {
      StepKeeps(s, t, events[0]);
      StepProgress(s, t, events[0]);
      Bounded(s, Step(s, t, events[0]), events[1..], u);
    }
  }

  lemma {:induction false} BeginTotal(s: Settings, windows: seq<Window>)
    requires forall i :: 0 <= i < |windows| ==> windows[i].phase == Initial && !windows[i].wait && windows[i].maxChanges <= 128
    ensures Total(s, windows) <= |windows| * (2 * (s.lenContent + 130))
    decreases |windows|
  {
    if windows != [] {
      BeginTotal(s, windows[1..]);
      assert Measure(s, windows[0]) <= 2 * (s.lenContent + 130);
      assert |windows| * (2 * (s.lenContent + 130)) == |windows[1..]| * (2 * (s.lenContent + 130)) + 2 * (s.lenContent + 130);
    }
  }

  /** A bound on the work, from the settings. */
  function WorkBound(s: Settings): nat {
    s.nrWindows * (2 * (s.lenContent + 130))
  }

  /** In a run without failures no more than this many events get something done. */
  lemma {:induction false} WorkIsBounded(s: Settings, events: seq<Event>, u: Test)
    requires s.Valid() && !s.noAutoChange && Run(s, Begin(s), events, u) && AllKind(events)
    ensures CountProductive(s, Begin(s), events, u) <= WorkBound(s)
  {
    BeginOk(s);
    Bounded(s, Begin(s), events, u);
    BeginTotal(s, Begin(s).windows);
  }

  /** A run without failures in which nothing gets done. The quantifier keeps the steps out of proofs
      that do not mention a run. */
  ghost predicate QuietRun(s: Settings, t: Test, events: seq<Event>, u: Test) {
    forall e {:trigger Run(s, t, e, u)} :: e == events ==>
      && TestOk(s, t) && !s.noAutoChange && AllHealthy(t) && AllKind(e) && Run(s, t, e, u)
      && CountProductive(s, t, e, u) == 0
  }

  /** After k more ticks it is the turn of window j. */
  ghost predicate TurnIn(s: Settings, t: Test, k: nat, j: nat)
    requires s.nrWindows > 0
  {
    forall n: nat {:trigger RoundRobin(s, n)} :: n == t.times + k ==> RoundRobin(s, n) == j
  }

  /** Window j is there and has nothing to send. */
  ghost predicate HasNothing(t: Test, j: nat) {
    j < |t.windows| && !Ready(t.windows[j])
  }

  lemma {:induction false} FirstIsIdle(s: Settings, t: Test, events: seq<Event>, u: Test, j: nat)
    requires QuietRun(s, t, events, u) && events != [] && s.nrWindows > 0 && TurnIn(s, t, 0, j)
    ensures HasNothing(t, j)
  {
    assert Run(s, t, events, u);
    CurrentIs(s, t);
    assert RoundRobin(s, t.times + 0) == j;
    assert !Productive(s, t, events[0]);
  }

  lemma {:induction false} IdleStep(s: Settings, t: Test, events: seq<Event>, u: Test) returns (next: Test)
    requires QuietRun(s, t, events, u) && events != []
    ensures QuietRun(s, next, events[1..], u)
    ensures next.windows == t.windows && next.times == (t.times + 1) % 0x1_0000_0000
  {
    IdleFirst(s, t, events, u);
    var e := events[0];
    next := Step(s, t, e);
    StepKeeps(s, t, e);
    StepProgress(s, t, e);
    ClockCounts(s, t, e);
    assert !Productive(s, t, e);
  }

  lemma {:induction false} ClockCounts(s: Settings, t: Test, e: Event)
    requires Sized(s, t) && Enabled(s, t, e) && !Productive(s, t, e)
    ensures Step(s, t, e).times == (t.times + 1) % 0x1_0000_0000
  {
  }

  lemma {:induction false} IdleFirst(s: Settings, t: Test, events: seq<Event>, u: Test)
    requires QuietRun(s, t, events, u) && events != []
    ensures TestOk(s, t) && !s.noAutoChange && AllHealthy(t) && Enabled(s, t, events[0]) && Kind(events[0])
    ensures AllKind(events[1..]) && Run(s, Step(s, t, events[0]), events[1..], u)
    ensures !Productive(s, t, events[0]) && CountProductive(s, Step(s, t, events[0]), events[1..], u) == 0
  {
    assert Run(s, t, events, u);
  }

  lemma {:induction false} Visited(s: Settings, t: Test, events: seq<Event>, u: Test, j: nat, k: nat)
    requires s.Valid() && QuietRun(s, t, events, u) && k < |events| && TurnIn(s, t, k, j)
    ensures HasNothing(t, j)
    decreases k
  {
    if k == 0 {
      FirstIsIdle(s, t, events, u, j);
    } else {
      var next := IdleStep(s, t, events, u);
      NextTurn(s, t, next, k, j);
      Visited(s, next, events[1..], u, j, k - 1);
    }
  }

  lemma {:induction false} NextTurn(s: Settings, t: Test, u: Test, k: nat, j: nat)
    requires s.Valid() && k > 0 && TurnIn(s, t, k, j) && u.times == (t.times + 1) % 0x1_0000_0000
    ensures TurnIn(s, u, k - 1, j)
  {
    SameTurn(s, t.times + 1, k - 1);
    assert RoundRobin(s, t.times + k) == j;
  }

  /** The counter may wrap around without a window losing its turn. */
  lemma {:induction false} SameTurn(s: Settings, n: nat, k: nat)
    requires s.Valid()
    ensures (n % 0x1_0000_0000 + k) % s.nrWindows == (n + k) % s.nrWindows
  {
    if s.nrWindows == MAX_NR_WINDOWS {
      WrapsEvenly(n, k);
    }
  }

  lemma {:induction false} WrapsEvenly(n: nat, k: nat)
    ensures (n % 0x1_0000_0000 + k) % 8 == (n + k) % 8
  {
    assert n + k == 8 * (n / 0x1_0000_0000 * 0x2000_0000) + (n % 0x1_0000_0000 + k);
  }

  /** Nobody has anything to do until an answer comes. */
  ghost predicate Settled(t: Test) {
    forall j :: 0 <= j < |t.windows| ==> t.windows[j].phase == WindowDestroyed || t.windows[j].pending == 1
  }

  /** If nothing happens for as many events as there are windows, then every window is destroyed or
      waits for the renderer. */
  lemma {:induction false} Stalled(s: Settings, t: Test, events: seq<Event>, u: Test)
    requires QuietRun(s, t, events, u) && |events| >= s.nrWindows
    ensures Settled(t)
  {
    assert Run(s, t, events, u);
    forall j | 0 <= j < |t.windows| ensures t.windows[j].phase == WindowDestroyed || t.windows[j].pending == 1 {
      var k := TurnOf(s, t, j);
      Visited(s, t, events, u, j, k);
      assert Healthy(t.windows[j]);
    }
  }

  lemma {:induction false} TurnOf(s: Settings, t: Test, j: nat) returns (k: nat)
    requires s.Valid() && j < s.nrWindows
    ensures k < s.nrWindows && TurnIn(s, t, k, j)
  {
    var now := t.times % s.nrWindows;
    k := if j >= now then j - now else j + s.nrWindows - now;
    assert (t.times + k) % s.nrWindows == j;
  }

  lemma {:induction false} AllEnded(windows: seq<Window>)
    ensures CountEnded(windows) <= |windows|
    ensures CountEnded(windows) == |windows| <==> forall i :: 0 <= i < |windows| ==> Ended(windows[i])
    decreases |windows|
  {
    if windows != [] {
      AllEnded(windows[1..]);
      assert forall i :: 1 <= i < |windows| ==> windows[i] == windows[1..][i - 1];
    }
  }

  lemma {:induction false} EndedIsDestroyed(t: Test)
    requires AllHealthy(t)
    ensures forall i :: 0 <= i < |t.windows| ==> (Ended(t.windows[i]) <==> t.windows[i].phase == WindowDestroyed)
    ensures CountEnded(t.windows) == |t.windows| <==>
      forall i :: 0 <= i < |t.windows| ==> t.windows[i].phase == WindowDestroyed
  {
    AllEnded(t.windows);
    forall i | 0 <= i < |t.windows| ensures Ended(t.windows[i]) <==> t.windows[i].phase == WindowDestroyed {
      assert Healthy(t.windows[i]);
    }
  }

  lemma {:induction false} StopsIff(s: Settings, t: Test)
    requires TestOk(s, t) && !s.noAutoChange && AllHealthy(t) && !t.stopped
    ensures Step(s, t, Clock(true)).stopped <==>
      t.windows[Current(s, t)].phase == WindowDestroyed && t.destroyed == s.nrWindows
  {
    var w := t.windows[Current(s, t)];
    assert WindowOk(s, w) && Healthy(w);
    TickProgress(s, w, (t.times + 1) % 0x1_0000_0000, t.destroyed);
  }

  /** The test stops by itself exactly when all windows are destroyed. */
  lemma {:induction false} StopsWhenDone(s: Settings, t: Test)
    requires TestOk(s, t) && !s.noAutoChange && AllHealthy(t) && !t.stopped
    ensures Step(s, t, Clock(true)).stopped <==>
      forall i :: 0 <= i < |t.windows| ==> t.windows[i].phase == WindowDestroyed
  {
    StopsIff(s, t);
    EndedIsDestroyed(t);
  }
}
