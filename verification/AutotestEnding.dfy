/** How a run of the automatic test ends, if every request works and changes are automatic. */
module AutotestEnding {
  import opened AutotestModel
  import opened AutotestSafety
  import opened AutotestRuns
  import opened AutotestProgress

  /** A run without failures, of a test with automatic changes. Here and below the quantifier keeps
      the steps out of proofs that do not mention a run. */
  ghost predicate GoodRun(s: Settings, t: Test, events: seq<Event>, u: Test) {
    forall e {:trigger Run(s, t, e, u)} :: e == events ==>
      TestOk(s, t) && !s.noAutoChange && AllHealthy(t) && AllKind(e) && Run(s, t, e, u)
  }

  /** Less than n is left to be done. */
  ghost predicate LessLeft(s: Settings, t: Test, n: nat) {
    forall w {:trigger Total(s, w)} :: w == t.windows ==> Total(s, w) < n
  }

  lemma {:induction false} RunSplit(s: Settings, t: Test, a: seq<Event>, b: seq<Event>, u: Test) returns (m: Test)
    requires Run(s, t, a + b, u)
    ensures Run(s, t, a, m) && Run(s, m, b, u)
    decreases |a|
  {
    if a == [] {
      m := t;
      assert a + b == b;
    } else {
      assert (a + b)[0] == a[0] && (a + b)[1..] == a[1..] + b;
      m := RunSplit(s, Step(s, t, a[0]), a[1..], b, u);
    }
  }

  lemma {:induction false} RunJoin(s: Settings, t: Test, a: seq<Event>, m: Test, b: seq<Event>, u: Test)
    requires Run(s, t, a, m) && Run(s, m, b, u)
    ensures Run(s, t, a + b, u)
    decreases |a|
  {
    if a == [] {
      assert a + b == b;
    } else {
      assert (a + b)[0] == a[0] && (a + b)[1..] == a[1..] + b;
      RunJoin(s, Step(s, t, a[0]), a[1..], m, b, u);
    }
  }

  /** The first b events, and the others. */
  lemma {:induction false} Halves(s: Settings, t: Test, events: seq<Event>, u: Test, b: nat, n: nat)
    returns (first: seq<Event>, m: Test, rest: seq<Event>)
    requires GoodRun(s, t, events, u) && b <= |events| && LessLeft(s, t, n)
    ensures events == first + rest && |first| == b && GoodRun(s, t, first, m) && GoodRun(s, m, rest, u)
    ensures QuietRun(s, t, first, m) || (n > 0 && LessLeft(s, m, n - 1))
  {
    first, rest := events[..b], events[b..];
    assert events == first + rest;
    assert Run(s, t, first + rest, u);
    m := RunSplit(s, t, first, rest, u);
    Bounded(s, t, first, m);
    assert Total(s, t.windows) < n;
  }

  lemma {:induction false} GoodJoin(s: Settings, t: Test, a: seq<Event>, m: Test, b: seq<Event>, u: Test, c: seq<Event>)
    returns (ab: seq<Event>)
    requires GoodRun(s, t, a, m) && GoodRun(s, m, b, u)
    ensures ab + c == a + (b + c) && GoodRun(s, t, ab, u)
  {
    ab := a + b;
    Joined(s, t, a, m, b, u);
  }

  lemma {:induction false} Joined(s: Settings, t: Test, a: seq<Event>, m: Test, b: seq<Event>, u: Test)
    requires GoodRun(s, t, a, m) && GoodRun(s, m, b, u)
    ensures GoodRun(s, t, a + b, u)
  {
    assert Run(s, t, a, m);
    assert Run(s, m, b, u);
    RunJoin(s, t, a, m, b, u);
    assert AllKind(a + b);
  }

  /** n times b, one by one. */
  function Blocks(n: nat, b: nat): nat {
    if n == 0 then 0 else b + Blocks(n - 1, b)
  }

  lemma {:induction false} BlocksProduct(n: nat, b: nat)
    ensures Blocks(n, b) == n * b
  {
    if n > 0 {
      BlocksProduct(n - 1, b);
      assert n * b == (n - 1) * b + b;
    }
  }

  lemma {:induction false} SomeLeft(s: Settings, t: Test, n: nat)
    requires LessLeft(s, t, n)
    ensures n > 0
  {
    assert Total(s, t.windows) < n;
  }

  /** Sooner or later every run without failures comes to a state where each window is destroyed or
      waits for an answer: somewhere among the first n blocks of as many events as there are windows,
      if n is more than the total of the work. */
  lemma {:induction false} Settles(s: Settings, t: Test, events: seq<Event>, u: Test, b: nat, n: nat)
    returns (before: seq<Event>, m: Test, after: seq<Event>)
    requires GoodRun(s, t, events, u) && LessLeft(s, t, n) && s.nrWindows <= b && Blocks(n, b) <= |events|
    ensures events == before + after && GoodRun(s, t, before, m) && GoodRun(s, m, after, u) && Settled(m)
    decreases n
  {
    SomeLeft(s, t, n);
    var first, mid, rest := Halves(s, t, events, u, b, n);
    if QuietRun(s, t, first, mid) {
      Stalled(s, t, first, mid);
      before, m, after := NothingYet(s, t, events, u);
    } else {
      var more;
      more, m, after := Settles(s, mid, rest, u, b, n - 1);
      before := GoodJoin(s, t, first, mid, more, m, after);
    }
  }

  lemma {:induction false} NothingYet(s: Settings, t: Test, events: seq<Event>, u: Test)
    returns (before: seq<Event>, m: Test, after: seq<Event>)
    requires GoodRun(s, t, events, u)
    ensures before == [] && m == t && after == events == before + after && GoodRun(s, t, before, m)
  {
    before, m, after := [], t, events;
    assert Run(s, t, events, u);
    assert Run(s, t, before, m);
  }

  lemma {:induction false} GoodBegin(s: Settings, events: seq<Event>, u: Test)
    requires s.Valid() && !s.noAutoChange && Run(s, Begin(s), events, u) && AllKind(events)
    ensures GoodRun(s, Begin(s), events, u) && LessLeft(s, Begin(s), WorkBound(s) + 1)
  {
    BeginOk(s);
    BeginTotal(s, Begin(s).windows);
  }

  /** Every run without failures of this length has a state where each window is destroyed or waits
      for an answer. */
  lemma {:induction false} Completion(s: Settings, events: seq<Event>, u: Test)
    returns (before: seq<Event>, m: Test, after: seq<Event>)
    requires s.Valid() && !s.noAutoChange && Run(s, Begin(s), events, u) && AllKind(events)
    requires |events| >= (WorkBound(s) + 1) * s.nrWindows
    ensures events == before + after && Run(s, Begin(s), before, m) && Run(s, m, after, u) && Settled(m)
  {
    GoodBegin(s, events, u);
    BlocksProduct(WorkBound(s) + 1, s.nrWindows);
    before, m, after := Settles(s, Begin(s), events, u, s.nrWindows, WorkBound(s) + 1);
    assert Run(s, Begin(s), before, m) && Run(s, m, after, u);
  }

  ghost predicate SomeWaits(t: Test) {
    exists j :: 0 <= j < |t.windows| && t.windows[j].pending == 1
  }

  ghost predicate AllDestroyed(t: Test) {
    forall j :: 0 <= j < |t.windows| ==> t.windows[j].phase == WindowDestroyed
  }

  lemma {:induction false} AllDone(t: Test)
    requires Settled(t) && !SomeWaits(t)
    ensures AllDestroyed(t)
  {
  }

  /** If in such a state none waits, all are destroyed and the next tick ends the test. */
  lemma {:induction false} NoneWaiting(s: Settings, events: seq<Event>, m: Test)
    requires s.Valid() && !s.noAutoChange && Run(s, Begin(s), events, m) && AllKind(events)
    requires Settled(m) && !SomeWaits(m) && !m.stopped
    ensures TestOk(s, m) && AllDestroyed(m) && Step(s, m, Clock(true)).stopped
  {
    BeginOk(s);
    Bounded(s, Begin(s), events, m);
    AllDone(m);
    StopsWhenDone(s, m);
  }

  /** Some answer comes. */
  ghost predicate Answering(events: seq<Event>) {
    exists i :: 0 <= i < |events| && events[i].Answer?
  }

  /** The renderer is prompt: whenever a window waits, some answer comes among the next `patience`
      events, if the run goes on that long. */
  ghost predicate Prompt(s: Settings, t: Test, events: seq<Event>, u: Test, patience: nat)
    requires Run(s, t, events, u)
    decreases |events|
  {
    && (SomeWaits(t) && patience <= |events| ==> Answering(events[..patience]))
    && (events != [] ==> Prompt(s, Step(s, t, events[0]), events[1..], u, patience))
  }

  ghost predicate PromptRun(s: Settings, t: Test, events: seq<Event>, u: Test, patience: nat) {
    forall e {:trigger Run(s, t, e, u)} :: e == events && Run(s, t, e, u) ==> Prompt(s, t, e, u, patience)
  }

  lemma {:induction false} PromptTail(s: Settings, t: Test, a: seq<Event>, m: Test, b: seq<Event>, u: Test,
      patience: nat)
    requires Run(s, t, a, m) && Run(s, m, b, u) && Run(s, t, a + b, u) && Prompt(s, t, a + b, u, patience)
    ensures Prompt(s, m, b, u, patience)
    decreases |a|
  {
    if a == [] {
      assert a + b == b;
    } else {
      assert (a + b)[0] == a[0] && (a + b)[1..] == a[1..] + b;
      PromptTail(s, Step(s, t, a[0]), a[1..], m, b, u, patience);
    }
  }

  lemma {:induction false} PromptLater(s: Settings, t: Test, a: seq<Event>, m: Test, b: seq<Event>, u: Test,
      patience: nat)
    requires GoodRun(s, t, a, m) && GoodRun(s, m, b, u) && PromptRun(s, t, a + b, u, patience)
    ensures PromptRun(s, m, b, u, patience)
  {
    assert Run(s, t, a, m) && Run(s, m, b, u);
    RunJoin(s, t, a, m, b, u);
    PromptTail(s, t, a, m, b, u, patience);
  }

  lemma {:induction false} NoAnswer(s: Settings, t: Test, events: seq<Event>, u: Test)
    requires TestOk(s, t) && Run(s, t, events, u) && CountProductive(s, t, events, u) == 0
    ensures !Answering(events)
    decreases |events|
  {
    if events != [] {
      StepKeeps(s, t, events[0]);
      NoAnswer(s, Step(s, t, events[0]), events[1..], u);
      FirstAnswer(events);
    }
  }

  lemma {:induction false} FirstAnswer(events: seq<Event>)
    requires events != [] && !events[0].Answer? && !Answering(events[1..])
    ensures !Answering(events)
  {
    forall i | 0 <= i < |events| ensures !events[i].Answer? {
      assert i > 0 ==> events[i] == events[1..][i - 1];
    }
  }

  /** A block of events in which nothing gets done, though a prompt renderer would have answered,
      begins in a state where all is done. */
  lemma {:induction false} QuietMeansDone(s: Settings, t: Test, a: seq<Event>, m: Test, b: seq<Event>, u: Test,
      patience: nat)
    requires GoodRun(s, m, b, u) && PromptRun(s, t, a + b, u, patience)
    requires QuietRun(s, t, a, m) && s.nrWindows <= patience == |a|
    ensures AllDestroyed(t) && !Answering(a)
  {
    Stalled(s, t, a, m);
    assert Run(s, t, a, m) && Run(s, m, b, u);
    NoAnswer(s, t, a, m);
    RunJoin(s, t, a, m, b, u);
    NobodyWaits(s, t, a, b, u, patience);
    AllDone(t);
  }

  lemma {:induction false} NobodyWaits(s: Settings, t: Test, a: seq<Event>, b: seq<Event>, u: Test, patience: nat)
    requires Run(s, t, a + b, u) && PromptRun(s, t, a + b, u, patience) && patience == |a| && !Answering(a)
    ensures !SomeWaits(t)
  {
    assert (a + b)[..patience] == a;
  }

  /** A tick ends the test when everything is done, and then nothing follows. */
  lemma {:induction false} EndsAtOnce(s: Settings, t: Test, events: seq<Event>, u: Test, a: seq<Event>, b: seq<Event>)
    requires GoodRun(s, t, events, u) && AllDestroyed(t) && events == a + b && a != [] && !Answering(a)
    ensures u.stopped
  {
    assert Run(s, t, events, u);
    assert events[0] == a[0];
    StopsWhenDone(s, t);
    var next := Step(s, t, events[0]);
    assert Run(s, next, events[1..], u);
  }

  /** With a prompt renderer and no failures, a run that goes on long enough has ended the test. */
  lemma {:induction false} Finishes(s: Settings, t: Test, events: seq<Event>, u: Test, patience: nat, n: nat)
    requires GoodRun(s, t, events, u) && LessLeft(s, t, n)
    requires 0 < s.nrWindows <= patience && PromptRun(s, t, events, u, patience)
    ensures u.stopped || |events| < Blocks(n, patience)
    decreases n
  {
    SomeLeft(s, t, n);
    if Blocks(n, patience) <= |events| {
      var first, mid, rest := Halves(s, t, events, u, patience, n);
      if QuietRun(s, t, first, mid) {
        QuietMeansDone(s, t, first, mid, rest, u, patience);
        EndsAtOnce(s, t, events, u, first, rest);
      } else {
        PromptLater(s, t, first, mid, rest, u, patience);
        Finishes(s, mid, rest, u, patience, n - 1);
      }
    }
  }

  /** A run without failures only ends when all windows are destroyed. */
  lemma {:induction false} EndIsGood(s: Settings, t: Test, events: seq<Event>, u: Test)
    requires TestOk(s, t) && !s.noAutoChange && AllHealthy(t) && Run(s, t, events, u) && AllKind(events)
    requires !t.stopped && u.stopped
    ensures AllDestroyed(u)
    decreases |events|
  {
    var next := Step(s, t, events[0]);
    StepKeeps(s, t, events[0]);
    StepProgress(s, t, events[0]);
    if next.stopped {
      StopsWhenDone(s, t);
      assert Run(s, next, events[1..], u);
      DestroyedIsIdle(s, t);
    } else {
      EndIsGood(s, next, events[1..], u);
    }
  }

  lemma {:induction false} DestroyedIsIdle(s: Settings, t: Test)
    requires Sized(s, t) && AllDestroyed(t)
    ensures !Ready(t.windows[Current(s, t)])
  {
  }

  /** Every request succeeds, changes are automatic and the renderer answers in time: then the test
      ends by itself within this number of events, and ends with every window destroyed. As long as
      it has not ended it can go on. */
  lemma {:induction false} AllSucceed(s: Settings, events: seq<Event>, u: Test, patience: nat)
    requires s.Valid() && !s.noAutoChange && Run(s, Begin(s), events, u) && AllKind(events)
    requires patience >= s.nrWindows && Prompt(s, Begin(s), events, u, patience)
    ensures u.stopped || |events| < (WorkBound(s) + 1) * patience
    ensures if u.stopped then AllDestroyed(u) else Enabled(s, u, Clock(true))
    ensures |u.windows| == s.nrWindows
  {
    BeginOk(s);
    GoodBegin(s, events, u);
    Safety(s, Begin(s), events, u);
    FinishesInTime(s, events, u, patience);
    if u.stopped {
      EndIsGood(s, Begin(s), events, u);
    }
  }

  lemma {:induction false} FinishesInTime(s: Settings, events: seq<Event>, u: Test, patience: nat)
    requires s.Valid() && GoodRun(s, Begin(s), events, u) && LessLeft(s, Begin(s), WorkBound(s) + 1)
    requires patience >= s.nrWindows && PromptRun(s, Begin(s), events, u, patience)
    ensures u.stopped || |events| < (WorkBound(s) + 1) * patience
  {
    BlocksProduct(WorkBound(s) + 1, patience);
    Finishes(s, Begin(s), events, u, patience, WorkBound(s) + 1);
  }

  /** A request may fail while changes are tested, and nothing else may. */
  predicate Tolerable(t: Test, e: Event) {
    match e
    case Clock(works) => works
    case Answer(win, Cancelled) => false
    case Answer(win, Answered(ok)) => ok || (win < |t.windows| && t.windows[win].phase in {DocumentLoaded, DocumentTesting})
  }

  ghost predicate AllTolerable(s: Settings, t: Test, events: seq<Event>, u: Test)
    requires Run(s, t, events, u)
    decreases |events|
  {
    events != [] ==> Tolerable(t, events[0]) && AllTolerable(s, Step(s, t, events[0]), events[1..], u)
  }

  /** The same event with a success in place of a failure. */
  function Forgiven(e: Event): Event {
    if e.Answer? then Answer(e.win, Answered(true)) else e
  }

  function AllForgiven(events: seq<Event>): (r: seq<Event>)
    ensures |r| == |events|
  {
    seq(|events|, i requires 0 <= i < |events| => Forgiven(events[i]))
  }

  /** A failure that is tolerated makes no difference. */
  lemma {:induction false} Forgives(s: Settings, t: Test, e: Event)
    requires Sized(s, t) && Enabled(s, t, e) && Tolerable(t, e)
    ensures Enabled(s, t, Forgiven(e)) && Kind(Forgiven(e)) && Step(s, t, Forgiven(e)) == Step(s, t, e)
  {
  }

  lemma {:induction false} ForgivenTail(events: seq<Event>)
    requires events != []
    ensures AllForgiven(events)[0] == Forgiven(events[0]) && AllForgiven(events)[1..] == AllForgiven(events[1..])
    ensures AllForgiven(events) == [Forgiven(events[0])] + AllForgiven(events[1..])
  {
  }

  lemma {:induction false} KindCons(e: Event, events: seq<Event>)
    requires Kind(e) && AllKind(events)
    ensures AllKind([e] + events)
  {
  }

  lemma {:induction false} RunForgives(s: Settings, t: Test, events: seq<Event>, u: Test)
    requires TestOk(s, t) && Run(s, t, events, u) && AllTolerable(s, t, events, u)
    ensures Run(s, t, AllForgiven(events), u) && AllKind(AllForgiven(events))
    decreases |events|
  {
    if events != [] {
      Forgives(s, t, events[0]);
      StepKeeps(s, t, events[0]);
      RunForgives(s, Step(s, t, events[0]), events[1..], u);
      ForgivenTail(events);
      KindCons(Forgiven(events[0]), AllForgiven(events[1..]));
    }
  }

  lemma {:induction false} AnswersForgiven(events: seq<Event>, n: nat)
    requires n <= |events| && Answering(events[..n])
    ensures Answering(AllForgiven(events)[..n])
  {
    var i :| 0 <= i < |events[..n]| && events[..n][i].Answer?;
    assert AllForgiven(events)[..n][i].Answer?;
  }

  lemma {:induction false} PromptForgives(s: Settings, t: Test, events: seq<Event>, u: Test, patience: nat)
    requires TestOk(s, t) && Run(s, t, events, u) && AllTolerable(s, t, events, u)
    requires Run(s, t, AllForgiven(events), u) && Prompt(s, t, events, u, patience)
    ensures Prompt(s, t, AllForgiven(events), u, patience)
    decreases |events|
  {
    if SomeWaits(t) && patience <= |events| {
      AnswersForgiven(events, patience);
    }
    if events != [] {
      Forgives(s, t, events[0]);
      StepKeeps(s, t, events[0]);
      RunForgives(s, Step(s, t, events[0]), events[1..], u);
      PromptForgives(s, Step(s, t, events[0]), events[1..], u, patience);
      ForgivenTail(events);
    }
  }

  /** No request fails except while changes are tested, changes are automatic and the renderer answers
      in time: then the test ends by itself within this number of events, and ends with every window
      destroyed. As long as it has not ended it can go on. */
  lemma {:induction false} EveryWindowIsDestroyed(s: Settings, events: seq<Event>, u: Test, patience: nat)
    requires s.Valid() && !s.noAutoChange && Run(s, Begin(s), events, u) && AllTolerable(s, Begin(s), events, u)
    requires patience >= s.nrWindows && Prompt(s, Begin(s), events, u, patience)
    ensures u.stopped || |events| < (WorkBound(s) + 1) * patience
    ensures if u.stopped then AllDestroyed(u) else Enabled(s, u, Clock(true))
    ensures |u.windows| == s.nrWindows
  {
    BeginOk(s);
    RunForgives(s, Begin(s), events, u);
    PromptForgives(s, Begin(s), events, u, patience);
    AllSucceed(s, AllForgiven(events), u, patience);
  }
}
