/** What every run of the automatic test keeps. */
module AutotestSafety {
  import opened Bytes
  import opened Utf8
  import opened AutotestModel

  function Rank(phase: Phase): nat {
    match phase
    case Initial => 0
    case WindowCreated => 1
    case DocumentWrotten => 2
    case DocumentLoaded => 3
    case DocumentTesting => 4
    case DocumentReset => 5
    case WindowDestroyed => 6
    case Fatal => 7
  }

  /** The texts that were sent for a window, in one piece. */
  function Texts(sent: seq<Message>): seq<byte> {
    if sent == [] then [] else Texts(sent[..|sent| - 1]) + TextOf(sent[|sent| - 1])
  }

  function TextOf(m: Message): seq<byte> {
    match m
    case Load(text) => text
    case WriteBegin(text) => text
    case WriteMore(text) => text
    case WriteEnd(text) => text
    case _ => []
  }

  function CountChanges(sent: seq<Message>): nat {
    if sent == [] then 0 else CountChanges(sent[..|sent| - 1]) + (if sent[|sent| - 1].Change? then 1 else 0)
  }

  /** A piece of the document that is not the last consists of whole characters, and not too many.
      A window is never reset. */
  ghost predicate MessageOk(m: Message) {
    match m
    case Reset => false
    case WriteBegin(text) => 0 < |text| <= DEF_LEN_ONE_WRITE && Complete(text, |text|)
    case WriteMore(text) => 0 < |text| <= DEF_LEN_ONE_WRITE && Complete(text, |text|)
    case _ => true
  }

  ghost predicate AllOk(sent: seq<Message>) {
    forall i :: 0 <= i < |sent| ==> MessageOk(sent[i])
  }

  /** A request with the whole document, or with the end of it, was sent. */
  predicate Closed(sent: seq<Message>) {
    sent != [] && (Closed(sent[..|sent| - 1]) || sent[|sent| - 1].Load? || sent[|sent| - 1].WriteEnd?)
  }

  /** So far the document was sent up to lenWrotten. What is not UTF-8 at its end goes with the last
      request, if that is a Load or a WriteEnd. */
  ghost predicate Uploaded(s: Settings, w: Window) {
    && Complete(s.document, w.lenWrotten) && w.lenWrotten <= s.lenContent <= |s.document|
    && AllOk(w.sent)
    && Texts(w.sent) == (if Closed(w.sent) then s.document else s.document[..w.lenWrotten])
    && (Closed(w.sent) ==> w.lenWrotten == s.lenContent)
  }

  /** Where a window is in its life. */
  predicate OnTrack(s: Settings, w: Window) {
    var whole := w.lenWrotten == s.lenContent;
    match w.phase
    case Initial => w.lenWrotten == 0 && w.changes == 0
    case WindowCreated => w.changes == 0 && (w.wait <==> w.lenWrotten > 0)
    case DocumentWrotten => w.changes == 0 && w.lenWrotten > 0 && (!w.wait ==> !whole)
    case DocumentLoaded => whole && w.changes == if w.wait then 1 else 0
    case DocumentTesting => whole && 1 <= w.changes <= w.maxChanges && (!w.wait ==> w.changes < w.maxChanges)
    case DocumentReset => whole && w.changes == w.maxChanges
    case WindowDestroyed => whole && w.changes == w.maxChanges && !w.wait
    case Fatal => w.changes <= w.maxChanges && !w.wait
  }

  /** The last request was to destroy the window. */
  predicate Farewell(w: Window) {
    w.sent != [] && w.sent[|w.sent| - 1].DestroyPlainWindow?
  }

  ghost predicate WindowOk(s: Settings, w: Window) {
    && OnTrack(s, w) && Uploaded(s, w)
    && (w.phase != Fatal ==> (Farewell(w) <==> w.phase == WindowDestroyed || (w.phase == DocumentReset && w.wait)))
    && w.pending <= 1 && (!w.wait ==> w.pending == 0)
    && CountChanges(w.sent) == w.changes && w.maxChanges >= 8
  }

  /** What holds even in the state that a failed request leaves behind, where the length of what was
      written may run ahead of what was sent. */
  ghost predicate WindowKept(s: Settings, w: Window) {
    && w.pending <= 1 && (!w.wait ==> w.pending == 0)
    && CountChanges(w.sent) == w.changes <= w.maxChanges && AllOk(w.sent)
    && (w.phase == WindowCreated || w.phase == DocumentWrotten || WindowOk(s, w))
  }

  lemma {:induction false} OkIsKept(s: Settings, w: Window)
    requires WindowOk(s, w)
    ensures WindowKept(s, w)
  {
  }

  lemma {:induction false} SentOne(w: Window, m: Message)
    ensures Texts(w.Sent(m).sent) == Texts(w.sent) + TextOf(m)
    ensures Closed(w.Sent(m).sent) == (Closed(w.sent) || m.Load? || m.WriteEnd?)
    ensures CountChanges(w.Sent(m).sent) == CountChanges(w.sent) + (if m.Change? then 1 else 0)
    ensures AllOk(w.sent) && MessageOk(m) ==> AllOk(w.Sent(m).sent)
  {
    assert w.Sent(m).sent[..|w.sent|] == w.sent;
  }

  lemma {:induction false} ContentBoundary(s: Settings)
    requires s.Valid()
    ensures Complete(s.document, s.lenContent) && s.lenContent <= |s.document|
  {
    PrefixIsLongest(s.document, |s.document|);
  }

  lemma {:induction false} SendKeeps(s: Settings, w: Window, m: Message, works: bool)
    requires WindowOk(s, w) && !w.wait
    requires (w.phase == Initial && m == CreatePlainWindow) || (w.phase == DocumentReset && m == DestroyPlainWindow)
    ensures Send(w, m, works).goesOn ==> WindowOk(s, Send(w, m, works).window)
  {
    SentOne(w, m);
    assert Texts(w.sent) + [] == Texts(w.sent);
  }

  lemma {:induction false} ChangeKeeps(s: Settings, w: Window, times: nat, works: bool)
    requires WindowOk(s, w) && !w.wait && w.phase in {DocumentLoaded, DocumentTesting}
    ensures var t := ChangeDocument(s, w, times, works); t.goesOn ==> WindowOk(s, t.window)
  {
    SentOne(w, Change(ChangeMethod(s, times)));
    assert Texts(w.sent) + [] == Texts(w.sent);
  }

  /** What one check of at most 1024 bytes finds behind a boundary. */
  lemma {:induction false} PieceFound(d: seq<byte>, p: nat, n: nat)
    requires Complete(d, p) && p <= |d| && n == Prefix(d[p..], DEF_LEN_ONE_WRITE)
    ensures Complete(d, p + n) && p + n <= |d| && n <= DEF_LEN_ONE_WRITE && Complete(d[p..][..n], n)
  {
    CompleteIff(d, p);
    PrefixIsLongest(d[p..], DEF_LEN_ONE_WRITE);
    BoundaryAdds(d, p, n);
    BoundaryCut(d[p..], n);
  }

  lemma {:induction false} BeginKeeps(s: Settings, w: Window, n: nat)
    requires WindowOk(s, w) && !w.wait && w.phase == WindowCreated
    requires 0 < n <= DEF_LEN_ONE_WRITE < s.lenContent && Complete(s.document, n) && Complete(s.document[..n], n)
    ensures WindowOk(s, w.(lenWrotten := n).Sent(WriteBegin(s.document[..n])))
  {
    assert s.document[..0] + s.document[..n] == s.document[..n];
    SentOne(w.(lenWrotten := n), WriteBegin(s.document[..n]));
    var u := w.(lenWrotten := n).Sent(WriteBegin(s.document[..n]));
    assert !Closed(u.sent) && Texts(u.sent) == s.document[..n];
    assert Uploaded(s, u);
  }

  lemma {:induction false} WholeKeeps(s: Settings, w: Window, l: nat)
    requires Complete(s.document, s.lenContent) && 0 < s.lenContent <= |s.document| && WindowOk(s, w) && !w.wait
    requires w.phase == WindowCreated && l == s.lenContent
    ensures WindowOk(s, w.(lenWrotten := l).Sent(Load(s.document)))
  {
    assert Texts(w.sent) == [];
    assert [] + s.document == s.document;
    SentOne(w.(lenWrotten := l), Load(s.document));
    var u := w.(lenWrotten := l).Sent(Load(s.document));
    assert Closed(u.sent) && Texts(u.sent) == s.document;
    assert Uploaded(s, u);
  }

  lemma {:induction false} LoadKeeps(s: Settings, w: Window, times: nat, works: bool)
    requires s.Valid() && WindowOk(s, w) && !w.wait && w.phase == WindowCreated
    ensures var t := LoadOrWrite(s, w, times, works); t.goesOn ==> WindowOk(s, t.window)
  {
    if s.lenContent > s.inMemory && times % 2 == 1 {
      var n := Prefix(s.document, DEF_LEN_ONE_WRITE);
      assert s.document[0..] == s.document;
      PieceFound(s.document, 0, n);
      if n > 0 {
        BeginKeeps(s, w, n);
      }
    } else {
      ContentBoundary(s);
      WholeKeeps(s, w, s.lenContent);
    }
  }

  /** Whole characters are whole characters when what follows is cut off. */
  lemma {:induction false} BoundaryCut(t: seq<byte>, p: nat)
    requires Boundary(t, p) && p <= |t|
    ensures Boundary(t[..p], p)
    decreases p
  {
    if p > 0 {
      var n := CharAt(t);
      CharacterCut(t, p);
      assert t[..p][n..] == t[n..][..p - n];
      BoundaryCut(t[n..], p - n);
    }
  }

  lemma {:induction false} CharacterCut(t: seq<byte>, p: nat)
    requires 0 < CharAt(t) <= p <= |t|
    ensures CharAt(t[..p]) == CharAt(t)
  {
    CharAtIs(t);
    CharAtIs(t[..p]);
  }

  lemma {:induction false} EndKeeps(s: Settings, w: Window, rest: seq<byte>, l: nat)
    requires Complete(s.document, s.lenContent) && 0 < s.lenContent <= |s.document| && WindowOk(s, w) && !w.wait
    requires w.phase == DocumentWrotten
    requires l == s.lenContent && rest == s.document[w.lenWrotten..]
    ensures WindowOk(s, w.(lenWrotten := l).Sent(WriteEnd(rest)))
  {
    assert !Closed(w.sent) && Texts(w.sent) == s.document[..w.lenWrotten];
    assert s.document[..w.lenWrotten] + rest == s.document;
    SentOne(w.(lenWrotten := l), WriteEnd(rest));
    var u := w.(lenWrotten := l).Sent(WriteEnd(rest));
    assert Closed(u.sent) && Texts(u.sent) == s.document;
    assert Uploaded(s, u);
  }

  lemma {:induction false} MoreKeeps(s: Settings, w: Window, rest: seq<byte>, n: nat, next: nat)
    requires WindowOk(s, w) && !w.wait && w.phase == DocumentWrotten
    requires rest == s.document[w.lenWrotten..] && next == w.lenWrotten + n <= s.lenContent
    requires 0 < n <= DEF_LEN_ONE_WRITE && Complete(s.document, next) && Complete(rest[..n], n)
    ensures WindowOk(s, w.(lenWrotten := next).Sent(WriteMore(rest[..n])))
  {
    SentOne(w.(lenWrotten := next), WriteMore(rest[..n]));
    Joined(s.document, w.lenWrotten, n);
    var u := w.(lenWrotten := next).Sent(WriteMore(rest[..n]));
    assert !Closed(u.sent) && Texts(u.sent) == s.document[..next];
    assert Uploaded(s, u);
  }

  lemma {:induction false} Joined(d: seq<byte>, p: nat, n: nat)
    requires p + n <= |d|
    ensures d[..p] + d[p..][..n] == d[..p + n]
  {
  }

  lemma {:induction false} PieceKeeps(s: Settings, w: Window, rest: seq<byte>, n: nat)
    requires WindowOk(s, w) && !w.wait && w.phase == DocumentWrotten
    requires rest == s.document[w.lenWrotten..] && w.lenWrotten + DEF_LEN_ONE_WRITE <= s.lenContent
    requires n == Prefix(rest, DEF_LEN_ONE_WRITE) > 0
    ensures WindowOk(s, w.(lenWrotten := w.lenWrotten + n).Sent(WriteMore(rest[..n])))
  {
    PieceFound(s.document, w.lenWrotten, n);
    MoreKeeps(s, w, rest, n, w.lenWrotten + n);
  }

  lemma {:induction false} WriteKeeps(s: Settings, w: Window, works: bool)
    requires s.Valid() && WindowOk(s, w) && !w.wait && w.phase == DocumentWrotten
    ensures var t := WriteOn(s, w, works); t.goesOn ==> WindowOk(s, t.window)
  {
    var rest := s.document[w.lenWrotten..];
    var t := WriteOn(s, w, works);
    if t.goesOn {
      if w.lenWrotten + DEF_LEN_ONE_WRITE > s.lenContent {
        ContentBoundary(s);
        EndKeeps(s, w, rest, s.lenContent);
      } else {
        PieceKeeps(s, w, rest, Prefix(rest, DEF_LEN_ONE_WRITE));
      }
    }
  }

  /** A tick keeps the invariant of the window whose turn it is, and its phase. */
  lemma {:induction false} TickKeeps(s: Settings, w: Window, times: nat, destroyed: nat, works: bool)
    requires s.Valid() && WindowOk(s, w)
    ensures var t := Tick(s, w, times, destroyed, works);
      t.window.phase == w.phase && t.window.maxChanges == w.maxChanges && (t.goesOn ==> WindowOk(s, t.window))
  {
    TickIs(s, w, times, destroyed, works);
    if !w.wait {
      match w.phase
      case Initial => SendKeeps(s, w, CreatePlainWindow, works);
      case WindowCreated => LoadKeeps(s, w, times, works);
      case DocumentWrotten => WriteKeeps(s, w, works);
      case DocumentLoaded => ChangeKeeps(s, w, times, works);
      case DocumentTesting => ChangeKeeps(s, w, times, works);
      case DocumentReset => SendKeeps(s, w, DestroyPlainWindow, works);
      case _ =>
    }
  }

  /** An answer keeps the invariant, and the phase only moves forward. */
  lemma {:induction false} RespondKeeps(s: Settings, w: Window, r: Response)
    requires s.Valid() && WindowOk(s, w) && w.pending > 0
    ensures WindowOk(s, Respond(s, w, r)) && Rank(Respond(s, w, r).phase) >= Rank(w.phase)
    ensures Respond(s, w, r).maxChanges == w.maxChanges
  {
  }

  /** A tick that ends the test leaves all but the length of what was written as it was. */
  lemma {:induction false} TickLeaves(s: Settings, w: Window, times: nat, destroyed: nat, works: bool)
    requires s.Valid() && WindowOk(s, w)
    ensures WindowKept(s, Tick(s, w, times, destroyed, works).window)
  {
    TickIs(s, w, times, destroyed, works);
    TickKeeps(s, w, times, destroyed, works);
    OkIsKept(s, w);
    var t := Tick(s, w, times, destroyed, works);
    if t.goesOn {
      OkIsKept(s, t.window);
    } else {
      assert t.window == w.(lenWrotten := t.window.lenWrotten);
      assert w.phase == WindowCreated || w.phase == DocumentWrotten || t.window == w;
    }
  }
}
