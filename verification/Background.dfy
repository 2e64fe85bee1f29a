/** background.c: a child process that runs its user interface routines in the parent, over two
    pipes. */
module Background {
  import opened Wrappers
  import opened Bytes
  import opened Marshalling
  import TaskList

  type Text = s: seq<byte> | 0 !in s && |s| < 0x8000_0000

  /** The routines of the parent, by address. The one at endBgProcess is the farewell. */
  datatype Routines = Routines(
    plain: (pointer, seq<Block>) -> int32,
    others: (pointer, Context, seq<Block>) -> (int32, Context),
    text: (pointer, seq<Block>) -> Option<Text>,
    endBgProcess: pointer)
  {
    /** Calling a routine with a context. end_bg_process clears the process in it, and gives 1. */
    function WithContext(routine: pointer, ctx: Context, args: seq<Block>): (int32, Context) {
      if routine == endBgProcess && args == [] then (1, WithPid(ctx, 0)) else others(routine, ctx, args)
    }

    predicate SaysFarewell(r: Request) {
      r.kind == ReturnInteger && r.ctx.Some? && r.routine == endBgProcess && r.args == []
    }
  }

  /** What a routine gives back. For a routine without a context, ctx is None. */
  datatype Reply = IntegerReply(result: int32, ctx: Option<Context>) | StringReply(text: Option<Text>)

  /** Calling the routine directly. */
  function Invoke(routines: Routines, r: Request): Reply {
    if r.kind == ReturnString then StringReply(routines.text(r.routine, r.args))
    else if r.ctx.None? then IntegerReply(routines.plain(r.routine, r.args), None)
    else
      var (result, ctx) := routines.WithContext(r.routine, r.ctx.value, r.args);
      IntegerReply(result, Some(ctx))
  }

  function ReplyBytes(reply: Reply): seq<byte> {
    match reply
    case IntegerReply(result, ctx) => IntBytes(result) + Optional(ctx)
    case StringReply(None) => IntBytes(0)
    case StringReply(Some(text)) => IntBytes(|text|) + text
  }

  /** Replies as bytes: a result, a string, no string. */
  lemma {:induction false} ReplyExamples()
    ensures ReplyBytes(IntegerReply(-2, None)) == [0xfe, 0xff, 0xff, 0xff]
    ensures ReplyBytes(StringReply(Some([0x6f, 0x6b]))) == [2, 0, 0, 0, 0x6f, 0x6b]
    ensures ReplyBytes(StringReply(None)) == [0, 0, 0, 0]
  {
    LengthBytes(0xffff_fffe, 0xfe, 0xff, 0xff, 0xff);
    LengthBytes(2, 2, 0, 0, 0);
    LengthBytes(0, 0, 0, 0, 0);
    assert IntBytes(-2) + [] == IntBytes(-2);
  }

  /** What the child gets to see of a string: an empty one has become NULL. */
  function Seen(text: Option<Text>): Option<Text> {
    if text == Some([]) then None else text
  }

  class Pipe {
    var bytes: seq<byte>

    constructor ()
      ensures bytes == []
    {
      bytes := [];
    }

    /** write() */
    method Write(s: seq<byte>)
      modifies this
      ensures bytes == old(bytes) + s
    {
      bytes := bytes + s;
    }

    /** read() */
    method Read(n: nat) returns (got: Option<seq<byte>>)
      modifies this
      ensures Taken(got, bytes) == TakeBytes(old(bytes), n)
    {
      var t := TakeBytes(bytes, n);
      bytes := t.rest;
      got := t.value;
    }

    /** read() into an int */
    method ReadInt() returns (got: Option<int32>)
      modifies this
      ensures Taken(got, bytes) == TakeInt(old(bytes))
    {
      var four := Read(4);
      got := if four.None? then None else Some(IntOf(four.value));
    }
  }

  /** The reads of background_attention between the routine and the arguments. */
  method ReadHeader(from: Pipe, routine: pointer) returns (header: Option<Header>)
    modifies from
    ensures Taken(header, from.bytes) == TakeMore(routine, old(from.bytes))
  {
    var argc := from.ReadInt();
    if argc.None? {
      return None;
    }
    var kind := from.ReadInt();
    if kind.None? {
      return None;
    }
    var flag := from.ReadInt();
    if flag.None? {
      return None;
    }
    var ctx: Option<Context> := None;
    if flag.value != 0 {
      var block := from.Read(CTX_SIZE);
      if block.None? {
        return None;
      }
      ctx := Some(block.value);
    }
    header := Some(Header(routine, argc.value, kind.value, ctx));
  }

  /** The loop of background_attention that reads the arguments. */
  method ReadArguments(from: Pipe, argc: nat) returns (data: Option<seq<Block>>)
    modifies from
    ensures Taken(data, from.bytes) == TakeBlocks(old(from.bytes), argc)
  {
    var blocks: seq<Block> := [];
    BeforeNothing(TakeBlocks(from.bytes, argc));
    for i := 0 to argc
      invariant TakeBlocks(old(from.bytes), argc) == Before(blocks, TakeBlocks(from.bytes, argc - i))
    {
      ghost var start := from.bytes;
      var block := ReadArgument(from);
      if block.None? {
        return None;
      }
      NextBlock(blocks, start, argc - i);
      blocks := blocks + [block.value];
    }
    assert blocks + [] == blocks;
    data := Some(blocks);
  }

  method ReadArgument(from: Pipe) returns (block: Option<Block>)
    modifies from
    ensures Taken(block, from.bytes) == TakeBlock(old(from.bytes))
  {
    var size := from.ReadInt();
    if size.None? || size.value < 0 {
      return None;
    }
    var data := from.Read(size.value);
    block := if data.None? then None else Some(data.value);
  }

  lemma {:induction false} BeforeNothing(t: Taken<seq<Block>>)
    ensures Before([], t) == t
  {
    if t.value.Some? {
      assert [] + t.value.value == t.value.value;
    }
  }

  lemma {:induction false} NextBlock(blocks: seq<Block>, s: seq<byte>, count: nat)
    requires count > 0 && TakeBlock(s).value.Some?
    ensures Before(blocks, TakeBlocks(s, count))
      == Before(blocks + [TakeBlock(s).value.value], TakeBlocks(TakeBlock(s).rest, count - 1))
  {
    var b, t := TakeBlock(s).value.value, TakeBlocks(TakeBlock(s).rest, count - 1);
    if t.value.Some? {
      assert blocks + ([b] + t.value.value) == blocks + [b] + t.value.value;
    }
  }

  /** parent_call_header */
  method ParentCallHeader(to: Pipe, routine: pointer, argc: int32, kind: ReturnType, ctx: Option<Context>)
    modifies to
    ensures to.bytes == old(to.bytes) + HeaderBytes(routine, argc, kind, ctx)
  {
    to.Write(LittleEndian(routine, 8));
    to.Write(IntBytes(argc));
    to.Write(IntBytes(KindCode(kind)));
    to.Write(IntBytes(Flag(ctx)));
    InOnePiece(old(to.bytes), LittleEndian(routine, 8), IntBytes(argc), IntBytes(KindCode(kind)), IntBytes(Flag(ctx)), Optional(ctx));
    if ctx.Some? {
      to.Write(ctx.value);
    }
  }

  lemma {:induction false} InOnePiece<T>(s: seq<T>, a: seq<T>, b: seq<T>, c: seq<T>, d: seq<T>, e: seq<T>)
    ensures s + a + b + c + d + e == s + (a + (b + (c + (d + e))))
    ensures e == [] ==> s + a + b + c + d == s + (a + (b + (c + (d + e))))
  {
  }

  /** The first half of parent_va_call and parent_va_call_string: the child sends a request. */
  method Send(to: Pipe, r: Request)
    requires |r.args| <= MAX_CALL_ARGS
    modifies to
    ensures to.bytes == old(to.bytes) + RequestBytes(r)
  {
    ParentCallHeader(to, r.routine, |r.args|, r.kind, r.ctx);
    SendArguments(to, r.args);
    InTwo(old(to.bytes), HeaderBytes(r.routine, |r.args|, r.kind, r.ctx), ArgumentBytes(r.args));
  }

  lemma {:induction false} InTwo<T>(s: seq<T>, a: seq<T>, b: seq<T>)
    ensures s + a + b == s + (a + b)
  {
  }

  method SendArguments(to: Pipe, args: seq<Block>)
    modifies to
    ensures to.bytes == old(to.bytes) + ArgumentBytes(args)
  {
    ghost var start := to.bytes;
    assert args[0..] == args;
    for i := 0 to |args|
      invariant to.bytes + ArgumentBytes(args[i..]) == start + ArgumentBytes(args)
    {
      ghost var before, more := to.bytes, ArgumentBytes(args[i + 1..]);
      to.Write(IntBytes(|args[i]|));
      to.Write(args[i]);
      assert args[i..][1..] == args[i + 1..];
      InTwo(before, IntBytes(|args[i]|), args[i]);
      InTwo(before, BlockBytes(args[i]), more);
    }
    assert ArgumentBytes(args[|args|..]) == [];
    assert to.bytes + [] == to.bytes;
  }

  /** The second half of parent_va_call. */
  method ReceiveInteger(from: Pipe, ctx: Option<Context>, ghost reply: Reply, ghost rest: seq<byte>)
    returns (i: int32, newCtx: Option<Context>)
    requires reply.IntegerReply? && reply.ctx.Some? == ctx.Some?
    requires from.bytes == ReplyBytes(reply) + rest
    modifies from
    ensures IntegerReply(i, newCtx) == reply && from.bytes == rest
  {
    assert from.bytes == IntBytes(reply.result) + (Optional(reply.ctx) + rest);
    TakeIntOf(reply.result, Optional(reply.ctx) + rest);
    var result := from.ReadInt();
    i := result.value;
    newCtx := None;
    TakeContextOf(reply.ctx, rest);
    if ctx.Some? {
      var block := from.Read(CTX_SIZE);
      newCtx := Some(block.value);
    }
  }

  /** The second half of parent_va_call_string. */
  method ReceiveString(from: Pipe, ghost reply: Reply, ghost rest: seq<byte>) returns (text: Option<Text>)
    requires reply.StringReply? && from.bytes == ReplyBytes(reply) + rest
    modifies from
    ensures text == Seen(reply.text) && from.bytes == rest
  {
    ghost var sent: Text := if reply.text.Some? then reply.text.value else [];
    assert from.bytes == IntBytes(|sent|) + (sent + rest);
    TakeIntOf(|sent|, sent + rest);
    TakeBytesOf(sent, rest);
    var i := from.ReadInt();
    if i.None? || i.value == 0 {
      assert sent + rest == rest;
      return None;
    }
    var got := from.Read(i.value);
    text := Some(got.value);
  }

  /** `rest` is what comes behind the routine; said so that a proof looks into it only where it reads a
      header. */
  ghost predicate Behind(s: seq<byte>, routine: pointer, rest: seq<byte>) {
    forall q {:trigger TakeHeader(q)} :: q == s ==> TakeHeader(q) == TakeMore(routine, rest)
  }

  lemma {:induction false} RoutineFirst(s: seq<byte>)
    ensures var t := TakeBytes(s, 8);
      if |s| < 8 then t == Taken(None, []) else t.value.Some? && Behind(s, PointerOf(t.value.value), t.rest)
  {
  }

  lemma {:induction false} Arrives(r: Request, now: Context)
    requires |r.args| <= MAX_CALL_ARGS
    ensures |RequestBytes(r)| >= 8 && [] + RequestBytes(r) == RequestBytes(r)
    ensures TakeRequest(RequestBytes(r)) == Taken(Some(r), [])
    ensures Received(now, RequestBytes(r)) == if r.ctx.Some? then r.ctx.value else now
  {
    RequestRoundTrip(r, []);
    assert RequestBytes(r) + [] == RequestBytes(r);
    TakeHeaderOf(r.routine, |r.args|, r.kind, r.ctx, ArgumentBytes(r.args));
  }

  /** ChildGone: not even the address of a routine arrived. */
  datatype Outcome = Served | ReadingFailed | NoTask | ChildGone

  /** The context of the parent after the reading of a request: the child's, if it sent one. */
  function Received(now: Context, s: seq<byte>): Context {
    var h := TakeHeader(s).value;
    if h.None? || h.value.ctx.None? then now else h.value.ctx.value
  }

  function NewContext(routines: Routines, r: Request, ctx: Context): Context {
    routines.WithContext(r.routine, ctx, r.args).1
  }

  /** What a request may change, as it was. */
  datatype State = State(sent: seq<byte>, ctx: Context, tasks: seq<TaskList.Task>, channels: seq<int>)

  /** What connects a parent and one child. The context is the one that the parent was given when the
      child began. */
  class Link {
    const tasks: TaskList.TaskList
    const fd: int
    const toChildFd: int
    const toParent: Pipe
    const toChild: Pipe
    var ctx: Context

    /** The parent knows where the answers go. */
    ghost predicate Registered()
      reads tasks`head, tasks`tasks, tasks.tasks`next
    {
      tasks.Valid() && TaskList.AnswersTo(tasks.tasks, fd) == toChildFd && toChildFd >= 0
    }

    ghost function Now(): State
      reads this`ctx, toChild, tasks`tasks, tasks`channels
    {
      State(toChild.bytes, ctx, tasks.tasks, tasks.channels)
    }

    /** do_background in the parent. */
    constructor (tasks: TaskList.TaskList, ctx: Context, pid: int32, fd: int, toChildFd: int, info: string)
      requires tasks.Valid() && toChildFd >= 0
      modifies tasks
      ensures Registered() && fresh(toParent) && fresh(toChild) && toParent != toChild && Drained()
      ensures this.tasks == tasks && this.ctx == WithPid(ctx, pid) && this.fd == fd
      ensures |tasks.tasks| > 0 && tasks.tasks[1..] == old(tasks.tasks) && fresh(tasks.tasks[0])
      ensures tasks.tasks[0].pid == pid && tasks.tasks[0].fd == fd && tasks.channels == [fd] + old(tasks.channels)
    {
      this.tasks, this.ctx, this.fd, this.toChildFd := tasks, WithPid(ctx, pid), fd, toChildFd;
      toParent := new Pipe();
      toChild := new Pipe();
      new;
      tasks.Register(pid, fd, toChildFd, info);
    }

    /** background_attention: the parent reads one request and answers it. A reading that fails,
        or a child that is not on the list of tasks, gets no answer. If the child is gone, the job of
        the process that the context names leaves the list, and the channel is closed. */
    method Attention(routines: Routines) returns (outcome: Outcome)
      requires tasks.Valid() && toParent != toChild
      requires TaskList.AnswersTo(tasks.tasks, fd) in {-1, toChildFd}
      modifies this`ctx, toParent, toChild, tasks`head, tasks`tasks, tasks`channels, tasks.tasks`next
      ensures tasks.Valid()
      ensures outcome == ChildGone <==> |old(toParent.bytes)| < 8
      ensures outcome == ChildGone ==> toParent.bytes == [] && Now() == Departed(old(Now()))
      ensures outcome != ChildGone ==> Attended(routines, outcome, old(toParent.bytes), old(Now()))
    {
      ghost var s, before := toParent.bytes, Now();
      RoutineFirst(s);
      var routine := toParent.Read(8);
      assert tasks.Valid();
      if routine.None? {
        assert Now() == before;
        LoseChild();
        assert Now() == Departed(before);
        return ChildGone;
      }
      assert Now() == before;
      outcome := Attend(routines, PointerOf(routine.value), s);
      assert Attended(routines, outcome, s, before);
    }

    /** The job of the process that the context names is off the list, and the channel closed. */
    ghost function Departed(b: State): State {
      b.(tasks := TaskList.Without(b.tasks, PidOf(b.ctx)), channels := TaskList.Unwatched(b.channels, fd))
    }

    /** The part of background_attention for a child that is gone. */
    method LoseChild()
      requires tasks.Valid()
      modifies tasks`head, tasks`tasks, tasks`channels, tasks.tasks`next
      ensures tasks.Valid() && Now() == Departed(old(Now()))
    {
      tasks.UnregisterRunning(PidOf(ctx), fd);
    }

    /** What came of a request that began with the address of a routine. The quantifier keeps the
        reading of the request out of proofs that do not mention it. */
    ghost predicate Attended(routines: Routines, outcome: Outcome, request: seq<byte>, before: State)
      reads this`ctx, toParent, toChild, tasks`tasks, tasks`channels
    {
      forall q {:trigger TakeRequest(q)} :: q == request ==>
        var t, b := TakeRequest(q), before.(ctx := Received(before.ctx, q));
        && toParent.bytes == t.rest
        && if t.value.None? then outcome == ReadingFailed && Now() == b else Handled(routines, t.value.value, outcome, b)
    }

    /** The rest of background_attention. */
    method Attend(routines: Routines, routine: pointer, ghost s: seq<byte>) returns (outcome: Outcome)
      requires tasks.Valid() && toParent != toChild
      requires Behind(s, routine, toParent.bytes)
      modifies this`ctx, toParent, toChild, tasks`head, tasks`tasks, tasks`channels, tasks.tasks`next
      ensures tasks.Valid() && outcome != ChildGone && Attended(routines, outcome, s, old(Now()))
    {
      ghost var before := Now();
      var header := ReadHeader(toParent, routine);
      assert TakeRequest(s) == if header.None? then Taken(None, toParent.bytes) else TakeArguments(header.value, toParent.bytes);
      if header.None? {
        return ReadingFailed;
      }
      if header.value.ctx.Some? {
        ctx := header.value.ctx.value;
      }
      assert Now() == before.(ctx := Received(before.ctx, s));
      outcome := Serve(routines, header.value);
    }

    /** The part of background_attention behind the header. */
    method Serve(routines: Routines, h: Header) returns (outcome: Outcome)
      requires tasks.Valid() && toParent != toChild && (h.ctx.Some? ==> ctx == h.ctx.value)
      modifies this`ctx, toParent, toChild, tasks`head, tasks`tasks, tasks`channels, tasks.tasks`next
      ensures tasks.Valid() && outcome != ChildGone
      ensures var t := TakeArguments(h, old(toParent.bytes));
        toParent.bytes == t.rest
        && if t.value.None? then outcome == ReadingFailed && Now() == old(Now())
          else Handled(routines, t.value.value, outcome, old(Now()))
    {
      if !(0 <= h.argc <= MAX_CALL_ARGS && 0 <= h.kind <= 1) {
        return ReadingFailed;
      }
      ghost var before := Now();
      var data := ReadArguments(toParent, h.argc);
      if data.None? {
        return ReadingFailed;
      }
      assert Now() == before;
      outcome := Handle(routines, RequestFor(h, data.value));
    }

    /** What came of a whole request. A farewell takes the job off the list. */
    ghost predicate Handled(routines: Routines, r: Request, outcome: Outcome, b: State)
      reads this`ctx, toChild, tasks`tasks, tasks`channels
    {
      if TaskList.AnswersTo(b.tasks, fd) == -1 then outcome == NoTask && Now() == b
      else outcome == Served && Now() == Afterwards(routines, r, b)
    }

    ghost function Afterwards(routines: Routines, r: Request, b: State): State {
      var gone := routines.SaysFarewell(r);
      State(
        b.sent + ReplyBytes(Invoke(routines, r)),
        if r.kind == ReturnInteger && r.ctx.Some? then NewContext(routines, r, r.ctx.value) else b.ctx,
        if gone then TaskList.Without(b.tasks, PidOf(r.ctx.value)) else b.tasks,
        if gone then TaskList.Closed(b.channels, b.tasks, PidOf(r.ctx.value)) else b.channels)
    }

    /** The part of background_attention that knows the request. The job is looked for first, because it
        may leave the list during the call. */
    method Handle(routines: Routines, r: Request) returns (outcome: Outcome)
      requires tasks.Valid() && toParent != toChild && (r.ctx.Some? ==> ctx == r.ctx.value)
      modifies this`ctx, toChild, tasks`head, tasks`tasks, tasks`channels, tasks.tasks`next
      ensures tasks.Valid() && outcome != ChildGone && Handled(routines, r, outcome, old(Now()))
    {
      var to := tasks.Find(fd);
      if to == -1 {
        return NoTask;
      }
      Answer(routines, r);
      outcome := Served;
    }

    /** The part of background_attention that calls the routine. */
    method Answer(routines: Routines, r: Request)
      requires tasks.Valid() && (r.ctx.Some? ==> ctx == r.ctx.value)
      modifies this`ctx, toChild, tasks`head, tasks`tasks, tasks`channels, tasks.tasks`next
      ensures tasks.Valid() && Now() == Afterwards(routines, r, old(Now()))
    {
      if r.kind == ReturnString {
        AnswerString(routines.text(r.routine, r.args));
      } else if r.ctx.None? {
        var result := routines.plain(r.routine, r.args);
        toChild.Write(IntBytes(result));
        assert IntBytes(result) + [] == IntBytes(result);
      } else {
        CallWithContext(routines, r);
      }
    }

    method CallWithContext(routines: Routines, r: Request)
      requires tasks.Valid() && r.kind == ReturnInteger && r.ctx.Some? && ctx == r.ctx.value
      modifies this`ctx, toChild, tasks`head, tasks`tasks, tasks`channels, tasks.tasks`next
      ensures tasks.Valid() && Now() == Afterwards(routines, r, old(Now()))
    {
      var result;
      if routines.SaysFarewell(r) {
        result := EndBgProcess();
      } else {
        var (i, next) := routines.others(r.routine, ctx, r.args);
        result, ctx := i, next;
      }
      InTwo(toChild.bytes, IntBytes(result), ctx);
      toChild.Write(IntBytes(result));
      toChild.Write(ctx);
    }

    /** end_bg_process of file.c */
    method EndBgProcess() returns (result: int32)
      requires tasks.Valid()
      modifies this`ctx, tasks`head, tasks`tasks, tasks`channels, tasks.tasks`next
      ensures tasks.Valid() && result == 1
      ensures Now() == State(toChild.bytes, WithPid(old(ctx), 0), TaskList.Without(old(tasks.tasks), PidOf(old(ctx))),
        TaskList.Closed(old(tasks.channels), old(tasks.tasks), PidOf(old(ctx))))
    {
      var pid := PidOf(ctx);
      ctx := WithPid(ctx, 0);
      tasks.UnregisterWithPid(pid);
      result := 1;
    }

    method AnswerString(text: Option<Text>)
      modifies toChild
      ensures toChild.bytes == old(toChild.bytes) + ReplyBytes(StringReply(text))
    {
      if text.Some? {
        InTwo(toChild.bytes, IntBytes(|text.value|), text.value);
        toChild.Write(IntBytes(|text.value|));
        if |text.value| != 0 {
          toChild.Write(text.value);
        }
      } else {
        toChild.Write(IntBytes(0));
      }
    }

    /** Both pipes are empty: nobody owes anything. */
    predicate Drained()
      reads toParent, toChild
    {
      toParent.bytes == [] && toChild.bytes == []
    }

    /** parent_call: the child gets the result and the context that the routine gives for exactly
        the arguments that it passed. */
    method ParentCall(routines: Routines, routine: pointer, own: Option<Context>, args: seq<Block>)
      returns (i: int32, newCtx: Option<Context>)
      requires Registered() && toParent != toChild && Drained() && |args| <= MAX_CALL_ARGS
      modifies this`ctx, toParent, toChild, tasks`head, tasks`tasks, tasks`channels, tasks.tasks`next
      ensures tasks.Valid() && Drained()
      ensures own.None? ==> newCtx.None? && i == routines.plain(routine, args)
      ensures own.Some? ==> newCtx.Some?
      ensures own.Some? && !(routine == routines.endBgProcess && args == []) ==>
        (i, newCtx.value) == routines.others(routine, own.value, args)
      ensures own.Some? && routine == routines.endBgProcess && args == [] ==> i == 1 && newCtx == Some(WithPid(own.value, 0))
      ensures var r := Request(routine, ReturnInteger, own, args);
        IntegerReply(i, newCtx) == Invoke(routines, r) && Now() == Afterwards(routines, r, old(Now())).(sent := [])
    {
      var r := Request(routine, ReturnInteger, own, args);
      ghost var after := Afterwards(routines, r, Now());
      Exchange(routines, r);
      assert ReplyBytes(Invoke(routines, r)) == ReplyBytes(Invoke(routines, r)) + [];
      i, newCtx := ReceiveInteger(toChild, own, Invoke(routines, r), []);
      assert Now() == after.(sent := []);
    }

    /** parent_call_string */
    method ParentCallString(routines: Routines, routine: pointer, args: seq<Block>) returns (text: Option<Text>)
      requires Registered() && toParent != toChild && Drained() && |args| <= MAX_CALL_ARGS
      modifies this`ctx, toParent, toChild, tasks`head, tasks`tasks, tasks`channels, tasks.tasks`next
      ensures tasks.Valid() && Drained()
      ensures text == Seen(routines.text(routine, args)) && Now() == old(Now())
      ensures var given := routines.text(routine, args); text == if given == Some([]) then None else given
    {
      var r := Request(routine, ReturnString, None, args);
      ghost var before := Now();
      Exchange(routines, r);
      assert ReplyBytes(Invoke(routines, r)) == ReplyBytes(Invoke(routines, r)) + [];
      text := ReceiveString(toChild, Invoke(routines, r), []);
      assert Now() == before;
    }

    /** The child sends a request and waits; the parent wakes up and answers. */
    method Exchange(routines: Routines, r: Request)
      requires Registered() && toParent != toChild && Drained() && |r.args| <= MAX_CALL_ARGS
      requires r.ctx.Some? ==> r.kind == ReturnInteger
      modifies this`ctx, toParent, toChild, tasks`head, tasks`tasks, tasks`channels, tasks.tasks`next
      ensures tasks.Valid() && toParent.bytes == [] && toChild.bytes == ReplyBytes(Invoke(routines, r))
      ensures Now() == Afterwards(routines, r, old(Now()))
    {
      Arrives(r, ctx);
      ghost var before := Now();
      Send(toParent, r);
      assert toParent.bytes == RequestBytes(r) && Now() == before;
      ghost var s := toParent.bytes;
      var outcome := Attention(routines);
      assert Attended(routines, outcome, s, before);
      assert before.sent + ReplyBytes(Invoke(routines, r)) == ReplyBytes(Invoke(routines, r));
    }

    /** Any sequence of calls gives what the routines would have given without a process between. */
    method Session(routines: Routines, calls: seq<Call>, start: Context) returns (replies: seq<Reply>, own: Context)
      requires Registered() && toParent != toChild && Drained() && Working(routines, calls)
      modifies this`ctx, toParent, toChild, tasks`head, tasks`tasks, tasks`channels, tasks.tasks`next
      ensures Registered() && tasks.tasks == old(tasks.tasks) && tasks.channels == old(tasks.channels)
      ensures (replies, own) == Directly(routines, calls, start)
      ensures Drained() && ctx == if Passes(calls) then own else old(ctx)
      ensures exists ctxs :: Follows(routines, calls, start, ctxs, replies) && own == ctxs[|calls|]
    {
      replies, own := [], start;
      for n := 0 to |calls|
        invariant Drained() && Registered() && tasks.tasks == old(tasks.tasks) && tasks.channels == old(tasks.channels)
        invariant (replies, own) == Directly(routines, calls[..n], start)
        invariant ctx == if Passes(calls[..n]) then own else old(ctx)
      {
        var call := calls[n];
        assert calls[..n + 1][..n] == calls[..n];
        match call {
          case IntegerCall(routine, withCtx, args) =>
            var i, newCtx := ParentCall(routines, routine, if withCtx then Some(own) else None, args);
            replies := replies + [IntegerReply(i, newCtx)];
            own := if newCtx.Some? then newCtx.value else own;
          case StringCall(routine, args) =>
            var text := ParentCallString(routines, routine, args);
            replies := replies + [StringReply(text)];
        }
      }
      assert calls[..|calls|] == calls;
      ghost var ctxs := DirectlyFollows(routines, calls, start);
    }

    /** The child makes some calls and ends without a farewell: its channel is closed, but its task
        stays on the list exactly if a call has passed a context on, and the last one that came back
        does not name its process. */
    method Lost(routines: Routines, calls: seq<Call>, start: Context, ghost k: nat) returns (outcome: Outcome)
      requires Registered() && toParent != toChild && Drained() && Working(routines, calls)
      requires k < |tasks.tasks| && tasks.tasks[k].pid == PidOf(ctx) && k == TaskList.ByPid(tasks.tasks, PidOf(ctx))
      modifies this`ctx, toParent, toChild, tasks`head, tasks`tasks, tasks`channels, tasks.tasks`next
      ensures outcome == ChildGone && tasks.channels == TaskList.Unwatched(old(tasks.channels), fd)
      ensures tasks.Valid() && tasks.tasks == TaskList.Without(old(tasks.tasks), PidOf(ctx))
      ensures ctx == if Passes(calls) then Directly(routines, calls, start).1 else old(ctx)
      ensures old(tasks.tasks[k]) in tasks.tasks <==>
        Passes(calls) && PidOf(Directly(routines, calls, start).1) != old(tasks.tasks[k]).pid
    {
      ghost var replies, own := Session(routines, calls, start);
      TaskList.LeavesIff(tasks.tasks, k, PidOf(ctx));
      outcome := Attention(routines);
    }

    /** The child makes some calls and says farewell under its own number, as the end of
        panel_operate does: whatever contexts were passed, it gets its last answer, and by then exactly
        its job is off the list and the channel of that job closed. */
    method Farewell(routines: Routines, calls: seq<Call>, start: Context, pid: int32)
      returns (replies: seq<Reply>, result: int32)
      requires Registered() && toParent != toChild && Drained() && Working(routines, calls)
      modifies this`ctx, toParent, toChild, tasks`head, tasks`tasks, tasks`channels, tasks.tasks`next
      ensures replies == Directly(routines, calls, start).0 && result == 1 && Drained()
      ensures tasks.Valid() && tasks.tasks == TaskList.Without(old(tasks.tasks), pid)
      ensures tasks.channels == TaskList.Closed(old(tasks.channels), old(tasks.tasks), pid)
      ensures PidOf(ctx) == 0
    {
      var own;
      replies, own := Session(routines, calls, start);
      own := WithPid(own, pid);
      var newCtx;
      result, newCtx := ParentCall(routines, routines.endBgProcess, Some(own), []);
    }
  }

  /** A call that the child makes. Its context, if it passes one, is the one it has at the time. */
  datatype Call =
    | IntegerCall(routine: pointer, withCtx: bool, args: seq<Block>)
    | StringCall(routine: pointer, args: seq<Block>)

  /** Calls that can be made, none of them the farewell. */
  predicate Working(routines: Routines, calls: seq<Call>) {
    forall i :: 0 <= i < |calls| ==> |calls[i].args| <= MAX_CALL_ARGS && !IsFarewell(routines, calls[i])
  }

  predicate IsFarewell(routines: Routines, call: Call) {
    call.IntegerCall? && call.withCtx && call.routine == routines.endBgProcess && call.args == []
  }

  /** One of the calls passes the context on. */
  predicate Passes(calls: seq<Call>) {
    calls != [] && (Passes(calls[..|calls| - 1]) || (calls[|calls| - 1].IntegerCall? && calls[|calls| - 1].withCtx))
  }

  /** What calls give if the routines are called directly, empty strings counting as none. */
  function Directly(routines: Routines, calls: seq<Call>, ctx: Context): (seq<Reply>, Context) {
    if calls == [] then ([], ctx)
    else
      var (replies, now) := Directly(routines, calls[..|calls| - 1], ctx);
      match calls[|calls| - 1]
      case StringCall(routine, args) => (replies + [StringReply(Seen(routines.text(routine, args)))], now)
      case IntegerCall(routine, false, args) => (replies + [IntegerReply(routines.plain(routine, args), None)], now)
      case IntegerCall(routine, true, args) =>
        var (result, next) := routines.WithContext(routine, now, args);
        (replies + [IntegerReply(result, Some(next))], next)
  }

  /** Every reply is what the routine gives for the arguments of the call and the context that the child
      has at the time, and that is the one that the last routine left it. */
  ghost predicate Follows(routines: Routines, calls: seq<Call>, start: Context, ctxs: seq<Context>,
      replies: seq<Reply>) {
    && |ctxs| == |calls| + 1 && |replies| == |calls| && ctxs[0] == start
    && forall n {:trigger calls[n]} :: 0 <= n < |calls| ==>
      match calls[n]
      case StringCall(routine, args) =>
        ctxs[n + 1] == ctxs[n]
        && var given := routines.text(routine, args); replies[n] == StringReply(if given == Some([]) then None else given)
      case IntegerCall(routine, false, args) =>
        ctxs[n + 1] == ctxs[n] && replies[n] == IntegerReply(routines.plain(routine, args), None)
      case IntegerCall(routine, true, args) =>
        var (result, next) := routines.others(routine, ctxs[n], args);
        ctxs[n + 1] == next && replies[n] == IntegerReply(result, Some(next))
  }

  lemma {:induction false} DirectlyFollows(routines: Routines, calls: seq<Call>, start: Context)
    returns (ctxs: seq<Context>)
    requires forall i :: 0 <= i < |calls| ==> !IsFarewell(routines, calls[i])
    ensures var (replies, own) := Directly(routines, calls, start);
      Follows(routines, calls, start, ctxs, replies) && own == ctxs[|calls|]
  {
    if calls == [] {
      ctxs := [start];
    } else {
      var n := |calls| - 1;
      var before := DirectlyFollows(routines, calls[..n], start);
      assert !IsFarewell(routines, calls[n]);
      ctxs := before + [Directly(routines, calls, start).1];
      forall i | 0 <= i < n ensures calls[..n][i] == calls[i] && ctxs[i + 1] == before[i + 1] {}
    }
  }

  /** A session in which the answer to the second call depends on its argument and on the context that
      the first one brought back. */
  method TwoCalls(list: TaskList.TaskList, start: Context, block: Block) returns (replies: seq<Reply>)
    requires list.Valid() && PidOf(start) == 0 && |block| == 2
    modifies list, list.tasks`next
    ensures |replies| == 2 && replies[0].IntegerReply? && replies[0].result == 0
    ensures replies[1].IntegerReply? && replies[1].result == 502
  {
    var link := new Link(list, start, 7, 3, 4, "");
    var routines := Routines((_, _) => 0, Combine, (_, _) => None, 1);
    var calls := [IntegerCall(0, true, []), IntegerCall(0, true, [block])];
    var own;
    replies, own := link.Session(routines, calls, start);
    ghost var ctxs :| Follows(routines, calls, start, ctxs, replies) && own == ctxs[|calls|];
    BothReplies(routines, calls, start, ctxs, replies, block);
  }

  /** A routine that writes to the context if it has no arguments, and reads it if it has some. */
  function Combine(routine: pointer, ctx: Context, args: seq<Block>): (int32, Context) {
    if args == [] then (0, WithPid(ctx, 5))
    else if 0 <= PidOf(ctx) < 100 && |args[0]| < 100 then (100 * PidOf(ctx) + |args[0]|, ctx)
    else (-1, ctx)
  }

  lemma {:induction false} BothReplies(routines: Routines, calls: seq<Call>, start: Context, ctxs: seq<Context>,
      replies: seq<Reply>, block: Block)
    requires Follows(routines, calls, start, ctxs, replies) && routines.others == Combine && |block| == 2
    requires calls == [IntegerCall(0, true, []), IntegerCall(0, true, [block])]
    ensures |replies| == 2 && replies[0].IntegerReply? && replies[0].result == 0
    ensures replies[1].IntegerReply? && replies[1].result == 502
  {
    assert calls[0] == IntegerCall(0, true, []);
    assert ctxs[1] == WithPid(start, 5);
    assert calls[1] == IntegerCall(0, true, [block]);
  }

  /** A run that ends with a job on the list that nobody listens to. The child makes one call, with a
      context from before it had a number, to a routine that leaves the context alone, and is gone. */
  method Forgotten(start: Context) returns (list: TaskList.TaskList, ghost job: TaskList.Task)
    ensures list.Valid() && list.tasks == [job] && job.pid == 7 && list.channels == []
  {
    list := new TaskList.TaskList([]);
    var link := new Link(list, start, 7, 3, 4, "");
    job := list.tasks[0];
    assert list.tasks == [job];
    var routines := Routines((_, _) => 0, (_, c, _) => (0, c), (_, _) => None, 1);
    var own := WithPid(start, 0);
    OneCall(routines, 0, own);
    assert TaskList.ByPid([job], 0) == 1;
    var outcome := link.Lost(routines, [IntegerCall(0, true, [])], own, 0);
    assert list.tasks == [job] && list.channels == [];
  }

  lemma {:induction false} OneCall(routines: Routines, routine: pointer, start: Context)
    requires routine != routines.endBgProcess
    ensures var calls := [IntegerCall(routine, true, [])];
      && Working(routines, calls) && Passes(calls)
      && Directly(routines, calls, start).1 == routines.others(routine, start, []).1
  {
    var calls := [IntegerCall(routine, true, [])];
    assert calls[..0] == [];
    assert Directly(routines, calls[..0], start) == ([], start);
  }
}
