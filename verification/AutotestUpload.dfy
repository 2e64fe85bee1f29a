/** Which documents the automatic test uploads as a whole, and which of them lose their end. */
module AutotestUpload {
  import opened Bytes
  import opened Utf8
  import opened AutotestModel
  import opened AutotestSafety
  import opened AutotestRuns

  /** Cutting pieces of at most 1024 bytes and whole characters from position p on leads exactly to
      l, without a remainder of less than 1024 bytes. */
  ghost predicate Lands(d: seq<byte>, l: nat, p: nat)
    requires p <= |d|
    decreases |d| - p
  {
    var n := Prefix(d[p..], 1024);
    p == l || (p + 1024 <= l && n > 0 && Lands(d, l, p + n))
  }

  /** Cutting from p on ends like cutting from the start. The quantifier keeps the cuts out of proofs
      that do not mention them. */
  ghost predicate SameEnd(d: seq<byte>, l: nat, p: nat) {
    forall q: nat {:trigger Lands(d, l, q)} :: q == p ==> q <= |d| && Lands(d, l, q) == Lands(d, l, 0)
  }

  ghost predicate Misses(d: seq<byte>, l: nat) {
    forall q: nat {:trigger Lands(d, l, q)} :: q == 0 ==> !Lands(d, l, q)
  }

  /** The document was sent by one request. */
  predicate ByLoad(sent: seq<Message>) {
    sent != [] && (ByLoad(sent[..|sent| - 1]) || sent[|sent| - 1].Load?)
  }

  /** With as many windows as there may be, the even ones get their turn when run_times is odd. */
  predicate LoadsAtOnce(s: Settings, i: nat) {
    s.lenContent <= s.inMemory || i % 2 == 1
  }

  /** How the document of window i was cut. */
  ghost predicate Cut(s: Settings, i: nat, sent: seq<Message>) {
    && (ByLoad(sent) ==> Closed(sent))
    && (!Closed(sent) ==> SameEnd(s.document, s.lenContent, |Texts(sent)|))
    && (Closed(sent) && !ByLoad(sent) ==> Misses(s.document, s.lenContent))
    && (Texts(sent) != [] && !ByLoad(sent) ==> s.lenContent > s.inMemory)
    && (Texts(sent) != [] && s.nrWindows == MAX_NR_WINDOWS ==> (ByLoad(sent) <==> LoadsAtOnce(s, i)))
  }

  /** Which of the ways to change a document a window is given. */
  predicate ChangesFit(s: Settings, i: nat, m: Message) {
    m.Change? ==>
      && (s.nrWindows == 1 ==> m.how == if 0 < s.testMethod < NR_CHANGE_METHODS then s.testMethod else 0)
      && (s.nrWindows == MAX_NR_WINDOWS ==> m.how % 2 == (i + 1) % 2)
  }

  ghost predicate AllFit(s: Settings, i: nat, sent: seq<Message>) {
    forall k :: 0 <= k < |sent| ==> ChangesFit(s, i, sent[k])
  }

  /** The turn of window i, in a counter that wraps around. */
  predicate IsTurn(s: Settings, i: nat, times: nat) {
    s.nrWindows == MAX_NR_WINDOWS ==> times % 2 == (i + 1) % 2
  }

  lemma {:induction false} SentNext(w: Window, m: Message)
    ensures ByLoad(w.Sent(m).sent) == (ByLoad(w.sent) || m.Load?)
  {
    assert w.Sent(m).sent[..|w.sent|] == w.sent;
  }

  lemma {:induction false} LandsNext(d: seq<byte>, l: nat, p: nat, n: nat)
    requires p <= |d| && p != l && p + DEF_LEN_ONE_WRITE <= l && n == Prefix(d[p..], DEF_LEN_ONE_WRITE) > 0
    ensures p + n <= |d| && Lands(d, l, p) == Lands(d, l, p + n)
  {
  }

  lemma {:induction false} NextCut(d: seq<byte>, l: nat, p: nat, n: nat)
    requires SameEnd(d, l, p) && p <= |d| && p != l && p + DEF_LEN_ONE_WRITE <= l
    requires n == Prefix(d[p..], DEF_LEN_ONE_WRITE) > 0
    ensures SameEnd(d, l, p + n)
  {
    LandsNext(d, l, p, n);
  }

  lemma {:induction false} LastCut(d: seq<byte>, l: nat, p: nat)
    requires SameEnd(d, l, p) && p <= |d| && p != l && p + DEF_LEN_ONE_WRITE > l
    ensures Misses(d, l)
  {
    assert !Lands(d, l, p);
  }

  /** A request without a text, or none. */
  lemma {:induction false} PlainCut(s: Settings, i: nat, w: Window, m: Message)
    requires Cut(s, i, w.sent) && IsPlain(m)
    ensures Cut(s, i, w.Sent(m).sent)
  {
    SentOne(w, m);
    SentNext(w, m);
    assert Texts(w.sent) + [] == Texts(w.sent);
  }

  lemma {:induction false} NothingYet(s: Settings, w: Window)
    requires s.Valid() && WindowOk(s, w) && !w.wait && (w.phase == WindowCreated || w.phase == DocumentWrotten)
    ensures !Closed(w.sent) && |Texts(w.sent)| == w.lenWrotten && w.lenWrotten != s.lenContent
    ensures w.phase == WindowCreated ==> Texts(w.sent) == []
  {
    assert Uploaded(s, w);
  }

  /** A piece that is not the last. */
  lemma {:induction false} PieceCut(s: Settings, i: nat, w: Window, m: Message, p: nat, n: nat)
    requires !Closed(w.sent) && |Texts(w.sent)| == p && Cut(s, i, w.sent) && !m.Load? && !m.WriteEnd?
    requires p + DEF_LEN_ONE_WRITE <= s.lenContent && p != s.lenContent && s.lenContent <= |s.document|
    requires n == Prefix(s.document[p..], DEF_LEN_ONE_WRITE) > 0 && |TextOf(m)| == n
    requires s.lenContent > s.inMemory && (s.nrWindows == MAX_NR_WINDOWS ==> !LoadsAtOnce(s, i))
    ensures Cut(s, i, w.Sent(m).sent)
  {
    SentOne(w, m);
    SentNext(w, m);
    NextCut(s.document, s.lenContent, p, n);
  }

  lemma {:induction false} BeginCut(s: Settings, i: nat, w: Window, times: nat, p: nat, n: nat)
    requires !Closed(w.sent) && Texts(w.sent) == [] && Cut(s, i, w.sent) && IsTurn(s, i, times)
    requires DEF_LEN_ONE_WRITE <= s.inMemory < s.lenContent <= |s.document| && times % 2 == 1
    requires p == 0 && n == Prefix(s.document[p..], DEF_LEN_ONE_WRITE) > 0
    ensures Cut(s, i, w.(lenWrotten := n).Sent(WriteBegin(s.document[..n])).sent)
  {
    PieceCut(s, i, w.(lenWrotten := n), WriteBegin(s.document[..n]), p, n);
  }

  lemma {:induction false} WholeCut(s: Settings, i: nat, w: Window, times: nat)
    requires Cut(s, i, w.sent) && IsTurn(s, i, times) && (s.lenContent <= s.inMemory || times % 2 == 0)
    ensures Cut(s, i, w.(lenWrotten := s.lenContent).Sent(Load(s.document)).sent)
  {
    var v, m := w.(lenWrotten := s.lenContent), Load(s.document);
    SentOne(v, m);
    SentNext(v, m);
  }

  lemma {:induction false} LoadCut(s: Settings, i: nat, w: Window, times: nat)
    requires s.Valid() && WindowOk(s, w) && !w.wait && w.phase == WindowCreated
    requires Cut(s, i, w.sent) && IsTurn(s, i, times)
    ensures Cut(s, i, LoadOrWrite(s, w, times, true).window.sent)
  {
    if s.lenContent > s.inMemory && times % 2 == 1 {
      NothingYet(s, w);
      ContentBoundary(s);
      if Prefix(s.document, DEF_LEN_ONE_WRITE) > 0 {
        assert s.document[0..] == s.document;
        BeginCut(s, i, w, times, 0, Prefix(s.document, DEF_LEN_ONE_WRITE));
      }
    } else {
      WholeCut(s, i, w, times);
    }
  }

  lemma {:induction false} WriteCut(s: Settings, i: nat, w: Window)
    requires s.Valid() && WindowOk(s, w) && !w.wait && w.phase == DocumentWrotten && Cut(s, i, w.sent)
    ensures Cut(s, i, WriteOn(s, w, true).window.sent)
  {
    NothingYet(s, w);
    var d, p := s.document, w.lenWrotten;
    var rest := d[p..];
    assert Texts(w.sent) != [];
    if p + DEF_LEN_ONE_WRITE > s.lenContent {
      var v, m := w.(lenWrotten := s.lenContent), WriteEnd(rest);
      SentOne(v, m);
      SentNext(v, m);
      LastCut(d, s.lenContent, p);
    } else {
      var n := Prefix(rest, DEF_LEN_ONE_WRITE);
      if n > 0 {
        PieceCut(s, i, w.(lenWrotten := p + n), WriteMore(rest[..n]), p, n);
      }
    }
  }

  /** Nothing that carries a text. */
  predicate IsPlain(m: Message) {
    TextOf(m) == [] && !m.Load? && !m.WriteEnd?
  }

  /** Which ticks send a text. */
  lemma {:induction false} TickTexts(s: Settings, w: Window, times: nat, destroyed: nat, works: bool)
    requires w.lenWrotten <= |s.document|
    ensures var v := Tick(s, w, times, destroyed, works).window;
      if !w.wait && works && w.phase == WindowCreated then v == LoadOrWrite(s, w, times, true).window
      else if !w.wait && works && w.phase == DocumentWrotten then v == WriteOn(s, w, true).window
      else v.sent == w.sent || (|v.sent| == |w.sent| + 1 && v.sent == w.sent + [v.sent[|w.sent|]] && IsPlain(v.sent[|w.sent|]))
  {
    TickIs(s, w, times, destroyed, works);
  }

  /** A tick of the window whose turn it is. */
  lemma {:induction false} TickCut(s: Settings, i: nat, w: Window, times: nat, destroyed: nat, works: bool)
    requires s.Valid() && WindowOk(s, w) && Cut(s, i, w.sent) && IsTurn(s, i, times)
    ensures Cut(s, i, Tick(s, w, times, destroyed, works).window.sent)
  {
    var v := Tick(s, w, times, destroyed, works).window;
    TickTexts(s, w, times, destroyed, works);
    if !w.wait && works && w.phase == WindowCreated {
      LoadCut(s, i, w, times);
    } else if !w.wait && works && w.phase == DocumentWrotten {
      WriteCut(s, i, w);
    } else if v.sent != w.sent {
      PlainCut(s, i, w, v.sent[|w.sent|]);
    }
  }

  lemma {:induction false} TickFits(s: Settings, i: nat, w: Window, times: nat, destroyed: nat, works: bool)
    requires WindowOk(s, w) && AllFit(s, i, w.sent) && IsTurn(s, i, times)
    ensures AllFit(s, i, Tick(s, w, times, destroyed, works).window.sent)
  {
    var v := Tick(s, w, times, destroyed, works).window;
    TickSends(s, w, times, destroyed, works);
    if v.sent != w.sent {
      var m := v.sent[|w.sent|];
      MethodFits(s, i, times);
      assert ChangesFit(s, i, m);
      OneMoreFits(s, i, w.sent, m);
    }
  }

  lemma {:induction false} MethodFits(s: Settings, i: nat, times: nat)
    requires IsTurn(s, i, times)
    ensures ChangesFit(s, i, Change(ChangeMethod(s, times)))
  {
    SameParity(times);
  }

  lemma {:induction false} SameParity(n: nat)
    ensures n % 14 % 2 == n % 2
  {
    assert n == 2 * (n / 14 * 7) + n % 14;
  }

  lemma {:induction false} OneMoreFits(s: Settings, i: nat, sent: seq<Message>, m: Message)
    requires AllFit(s, i, sent) && ChangesFit(s, i, m)
    ensures AllFit(s, i, sent + [m])
  {
  }

  /** A tick sends at most one request. */
  lemma {:induction false} TickSends(s: Settings, w: Window, times: nat, destroyed: nat, works: bool)
    requires w.lenWrotten <= |s.document|
    ensures var v := Tick(s, w, times, destroyed, works).window;
      v.sent == w.sent || (|v.sent| == |w.sent| + 1 && v.sent == w.sent + [v.sent[|w.sent|]]
        && (v.sent[|w.sent|].Change? ==> v.sent[|w.sent|].how == ChangeMethod(s, times)))
  {
    TickIs(s, w, times, destroyed, works);
  }

  ghost predicate WindowsCut(s: Settings, t: Test) {
    forall i :: 0 <= i < |t.windows| ==> Cut(s, i, t.windows[i].sent) && AllFit(s, i, t.windows[i].sent)
  }

  /** The same, said so that a proof looks at all windows only where it mentions them. */
  ghost predicate AllCut(s: Settings, t: Test) {
    forall v {:trigger WindowsCut(s, v)} :: v == t ==> WindowsCut(s, v)
  }

  lemma {:induction false} CutAt(s: Settings, t: Test, i: nat)
    requires AllCut(s, t) && i < |t.windows|
    ensures Cut(s, i, t.windows[i].sent) && AllFit(s, i, t.windows[i].sent)
  {
    assert WindowsCut(s, t);
  }

  lemma {:induction false} OneCut(s: Settings, t: Test, i: nat, w: Window, u: Test)
    requires AllCut(s, t) && i < |t.windows| && u.windows == t.windows[i := w]
    requires Cut(s, i, w.sent) && AllFit(s, i, w.sent)
    ensures AllCut(s, u)
  {
    assert WindowsCut(s, t);
    assert WindowsCut(s, u);
  }

  /** A tick of the window whose turn it is. */
  lemma {:induction false} TurnCut(s: Settings, t: Test, i: nat, w: Window, times: nat, works: bool)
    requires s.Valid() && WindowOk(s, w) && Cut(s, i, w.sent) && AllFit(s, i, w.sent)
    requires i == Current(s, t) && times == (t.times + 1) % 0x1_0000_0000
    ensures var v := Tick(s, w, times, t.destroyed, works).window; Cut(s, i, v.sent) && AllFit(s, i, v.sent)
  {
    CurrentIs(s, t);
    TurnIs(s, t.times, i);
    TickCut(s, i, w, times, t.destroyed, works);
    TickFits(s, i, w, times, t.destroyed, works);
  }

  lemma {:induction false} ClockCut(s: Settings, t: Test, works: bool)
    requires TestOk(s, t) && !t.stopped && AllCut(s, t)
    ensures AllCut(s, Step(s, t, Clock(works)))
  {
    var i, w, times, turn := Turns(s, t, works);
    CutAt(s, t, i);
    TurnCut(s, t, i, w, times, works);
    OneCut(s, t, i, turn.window, Step(s, t, Clock(works)));
  }

  lemma {:induction false} StepCut(s: Settings, t: Test, e: Event)
    requires TestOk(s, t) && Enabled(s, t, e) && AllCut(s, t)
    ensures AllCut(s, Step(s, t, e))
  {
    match e
    case Clock(works) => ClockCut(s, t, works);
    case Answer(win, r) =>
      CutAt(s, t, win);
      AnswerSends(s, t.windows[win], r);
      OneCut(s, t, win, Respond(s, t.windows[win], r), Step(s, t, e));
  }

  lemma {:induction false} AnswerSends(s: Settings, w: Window, r: Response)
    requires w.pending > 0
    ensures Respond(s, w, r).sent == w.sent
  {
  }

  lemma {:induction false} TurnIs(s: Settings, times: nat, i: nat)
    requires s.nrWindows > 0 && i == times % s.nrWindows
    ensures IsTurn(s, i, (times + 1) % 0x1_0000_0000)
  {
  }

  lemma {:induction false} RunCut(s: Settings, t: Test, events: seq<Event>, u: Test)
    requires TestOk(s, t) && AllCut(s, t) && Run(s, t, events, u)
    ensures AllCut(s, u)
    decreases |events|
  {
    if events != [] {
      StepKeeps(s, t, events[0]);
      StepCut(s, t, events[0]);
      RunCut(s, Step(s, t, events[0]), events[1..], u);
    }
  }

  lemma {:induction false} NoneCut(s: Settings, t: Test)
    requires forall i :: 0 <= i < |t.windows| ==> t.windows[i].sent == []
    ensures AllCut(s, t)
  {
    assert WindowsCut(s, t);
  }

  lemma {:induction false} Reached(s: Settings, events: seq<Event>, u: Test, i: nat)
    requires s.Valid() && Run(s, Begin(s), events, u) && i < |u.windows|
    ensures WindowKept(s, u.windows[i]) && Cut(s, i, u.windows[i].sent) && AllFit(s, i, u.windows[i].sent)
  {
    BeginOk(s);
    NoneCut(s, Begin(s));
    Safety(s, Begin(s), events, u);
    RunCut(s, Begin(s), events, u);
    CutAt(s, u, i);
  }

  lemma {:induction false} WholeIff(s: Settings, i: nat, w: Window)
    requires WindowOk(s, w) && Rank(DocumentLoaded) <= Rank(w.phase) < Rank(Fatal) && Cut(s, i, w.sent)
    ensures Texts(w.sent) == s.document <==>
      s.lenContent == |s.document| || ByLoad(w.sent) || !Lands(s.document, s.lenContent, 0)
    ensures Texts(w.sent) != s.document ==> Texts(w.sent) == s.document[..s.lenContent]
  {
    var d, l := s.document, s.lenContent;
    assert Uploaded(s, w) && w.lenWrotten == l;
    if Closed(w.sent) {
      assert !ByLoad(w.sent) ==> !Lands(d, l, 0);
    } else if l == |d| {
      assert d[..l] == d;
    } else {
      assert |Texts(w.sent)| == l < |d|;
      assert Lands(d, l, l);
    }
  }

  lemma {:induction false} HasText(s: Settings, w: Window)
    requires WindowOk(s, w) && Rank(DocumentLoaded) <= Rank(w.phase) < Rank(Fatal) && s.lenContent > 0
    ensures Texts(w.sent) != []
  {
    assert Uploaded(s, w) && w.lenWrotten == s.lenContent;
  }

  /** Once a window has its document, the texts that were sent for it are the document exactly if the
      document is well-formed, or was sent by one request, or cannot be cut without a remainder. What
      can get lost is the end that is not UTF-8. */
  lemma {:induction false} UploadComplete(s: Settings, events: seq<Event>, u: Test, i: nat)
    requires s.Valid() && Run(s, Begin(s), events, u) && i < |u.windows|
    requires Rank(DocumentLoaded) <= Rank(u.windows[i].phase) < Rank(Fatal)
    ensures var w := u.windows[i];
      && (Texts(w.sent) == s.document <==>
        s.lenContent == |s.document| || ByLoad(w.sent) || !Lands(s.document, s.lenContent, 0))
      && (Texts(w.sent) != s.document ==> Texts(w.sent) == s.document[..s.lenContent])
  {
    Reached(s, events, u, i);
    WholeIff(s, i, u.windows[i]);
  }

  /** With eight windows it is known beforehand which of them send the document as a whole. */
  lemma {:induction false} UploadForeseen(s: Settings, events: seq<Event>, u: Test, i: nat)
    requires s.Valid() && s.nrWindows == 8 && Run(s, Begin(s), events, u) && i < |u.windows|
    requires Rank(DocumentLoaded) <= Rank(u.windows[i].phase) < Rank(Fatal)
    ensures Texts(u.windows[i].sent) == s.document <==>
      s.lenContent == |s.document| || LoadsAtOnce(s, i) || !Lands(s.document, s.lenContent, 0)
  {
    Reached(s, events, u, i);
    HasText(s, u.windows[i]);
    UploadComplete(s, events, u, i);
  }

  /** A document that fits into memory always arrives as a whole. */
  lemma {:induction false} SmallUpload(s: Settings, events: seq<Event>, u: Test, i: nat)
    requires s.Valid() && s.lenContent <= s.inMemory && Run(s, Begin(s), events, u) && i < |u.windows|
    requires Rank(DocumentLoaded) <= Rank(u.windows[i].phase) < Rank(Fatal)
    ensures Texts(u.windows[i].sent) == s.document
  {
    Reached(s, events, u, i);
    HasText(s, u.windows[i]);
    UploadComplete(s, events, u, i);
  }

  /** A single window is changed only in the way that was asked for; of eight windows each is only
      changed in every other way. */
  lemma {:induction false} WaysOfChange(s: Settings, events: seq<Event>, u: Test, i: nat, k: nat)
    requires s.Valid() && Run(s, Begin(s), events, u) && i < |u.windows| && k < |u.windows[i].sent|
    requires u.windows[i].sent[k].Change?
    ensures var how := u.windows[i].sent[k].how;
      && (s.nrWindows == 1 ==> how == if 0 < s.testMethod < NR_CHANGE_METHODS then s.testMethod else 0)
      && (s.nrWindows == 8 ==> how % 2 == (i + 1) % 2)
  {
    Reached(s, events, u, i);
    assert ChangesFit(s, i, u.windows[i].sent[k]);
  }

  /* Documents that lose their end: some thousands of letters and a byte that is not UTF-8. */

  function Letters(count: nat): (d: seq<byte>)
    ensures |d| == count
  {
    seq(count, _ => 0x61)
  }

  function BadEnd(count: nat): (d: seq<byte>)
    ensures |d| == count + 1
  {
    Letters(count) + [0xff]
  }

  lemma {:induction false} LettersPrefix(d: seq<byte>, count: nat, max: nat)
    requires d == BadEnd(count)
    ensures Prefix(d, max) == if count <= max then count else max
    decreases count
  {
    CharAtIs(d);
    if count > 0 {
      assert d[1..] == BadEnd(count - 1);
      if max > 0 {
        LettersPrefix(d[1..], count - 1, max - 1);
      }
    }
  }

  lemma {:induction false} LettersLand(d: seq<byte>, l: nat, p: nat, blocks: nat)
    requires d == BadEnd(l) && l == p + DEF_LEN_ONE_WRITE * blocks
    ensures Lands(d, l, p)
    decreases blocks
  {
    if blocks > 0 {
      assert d[p..] == BadEnd(l - p);
      LettersPrefix(d[p..], l - p, DEF_LEN_ONE_WRITE);
      LettersLand(d, l, p + DEF_LEN_ONE_WRITE, blocks - 1);
    }
  }

  /** The test has such a document, which can be cut evenly and is not loaded at once. */
  ghost predicate LettersTest(s: Settings, count: nat) {
    s.Valid() && s.document == BadEnd(count) && count % 1024 == 0 && s.inMemory < count
  }

  lemma {:induction false} LettersMiss(s: Settings, count: nat)
    requires LettersTest(s, count)
    ensures s.lenContent == count && s.document[..count] == Letters(count) && Lands(s.document, count, 0)
  {
    LettersPrefix(s.document, count, |s.document|);
    assert count == DEF_LEN_ONE_WRITE * (count / DEF_LEN_ONE_WRITE);
    LettersLand(s.document, count, 0, count / DEF_LEN_ONE_WRITE);
  }

  /** Whatever the limit for payloads in memory is: with eight windows, every other one loses the end of
      such a document in every run. */
  lemma {:induction false} EndLost(s: Settings, count: nat, events: seq<Event>, u: Test, i: nat)
    requires LettersTest(s, count) && s.nrWindows == 8
    requires Run(s, Begin(s), events, u) && i < |u.windows| && i % 2 == 0
    requires Rank(DocumentLoaded) <= Rank(u.windows[i].phase) < Rank(Fatal)
    ensures Texts(u.windows[i].sent) == Letters(count) != s.document
  {
    LettersMiss(s, count);
    UploadForeseen(s, events, u, i);
    UploadComplete(s, events, u, i);
  }

  /** For every limit there are such tests. */
  lemma {:induction false} LettersForLimit(inMemory: nat, nrWindows: nat) returns (s: Settings, count: nat)
    requires inMemory >= 1024 && nrWindows in {1, 8}
    ensures LettersTest(s, count) && s.inMemory == inMemory && s.nrWindows == nrWindows
  {
    count := (inMemory / DEF_LEN_ONE_WRITE + 1) * DEF_LEN_ONE_WRITE;
    s := Settings(BadEnd(count), count, inMemory, nrWindows, 0, false, seq(nrWindows, _ => 128));
    LettersPrefix(s.document, count, |s.document|);
  }
}
