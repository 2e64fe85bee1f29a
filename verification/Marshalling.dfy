/** The wire format of background.c: what the child writes for a call, and what the parent reads. */
module Marshalling {
  import opened Wrappers
  import opened Bytes

  /** offsetof (file_op_context_t, pid), and what comes after it */
  const PID_AT: nat
  const AFTER_PID: nat

  /** sizeof (file_op_context_t) */
  const CTX_SIZE := PID_AT + 4 + AFTER_PID

  const MAX_CALL_ARGS := 4

  type Context = s: seq<byte> | |s| == CTX_SIZE witness seq(CTX_SIZE, _ => 0)

  type int32 = x: int | -0x8000_0000 <= x < 0x8000_0000

  type pointer = n: int | 0 <= n < 0x1_0000_0000_0000_0000

  type Block = s: seq<byte> | |s| < 0x8000_0000

  datatype ReturnType = ReturnString | ReturnInteger

  datatype Request = Request(routine: pointer, kind: ReturnType, ctx: Option<Context>, args: seq<Block>)

  /** An int as its four bytes. */
  function IntBytes(x: int32): (s: seq<byte>)
    ensures |s| == 4
  {
    LittleEndian(if x < 0 then x + 0x1_0000_0000 else x, 4)
  }

  function IntOf(s: seq<byte>): int32
    requires |s| == 4
  {
    NumberBound(s);
    PowerOf4();
    var n := Number(s);
    if n >= 0x8000_0000 then n - 0x1_0000_0000 else n
  }

  lemma {:induction false} PowerOf4()
    ensures Power256(4) == 0x1_0000_0000
  {
  }

  lemma {:induction false} IntRoundTrip(x: int32)
    ensures IntOf(IntBytes(x)) == x
  {
    PowerOf4();
    NumberOf(if x < 0 then x + 0x1_0000_0000 else x, 4);
  }

  /** The field pid of a context: the process that it names. */
  function PidOf(ctx: Context): int32 {
    IntOf(ctx[PID_AT..PID_AT + 4])
  }

  function WithPid(ctx: Context, pid: int32): (c: Context)
    ensures PidOf(c) == pid
    ensures c[..PID_AT] == ctx[..PID_AT] && c[PID_AT + 4..] == ctx[PID_AT + 4..]
  {
    var c := ctx[..PID_AT] + IntBytes(pid) + ctx[PID_AT + 4..];
    assert c[PID_AT..PID_AT + 4] == IntBytes(pid);
    IntRoundTrip(pid);
    c
  }

  function KindCode(kind: ReturnType): int32 { if kind == ReturnString then 0 else 1 }

  function Flag(ctx: Option<Context>): int32 { if ctx.Some? then 1 else 0 }

  function Optional(ctx: Option<Context>): seq<byte> { if ctx.Some? then ctx.value else [] }

  /** parent_call_header */
  function HeaderBytes(routine: pointer, argc: int32, kind: ReturnType, ctx: Option<Context>): seq<byte> {
    LittleEndian(routine, 8) + (IntBytes(argc) + (IntBytes(KindCode(kind)) + (IntBytes(Flag(ctx)) + Optional(ctx))))
  }

  function BlockBytes(block: Block): seq<byte> {
    IntBytes(|block|) + block
  }

  function ArgumentBytes(args: seq<Block>): seq<byte> {
    if args == [] then [] else BlockBytes(args[0]) + ArgumentBytes(args[1..])
  }

  function RequestBytes(r: Request): seq<byte>
    requires |r.args| <= MAX_CALL_ARGS
  {
    HeaderBytes(r.routine, |r.args|, r.kind, r.ctx) + ArgumentBytes(r.args)
  }

  /** A number by its four bytes. */
  lemma {:induction false} LengthBytes(n: nat, b0: byte, b1: byte, b2: byte, b3: byte)
    requires n == b0 + 0x100 * b1 + 0x1_0000 * b2 + 0x100_0000 * b3
    ensures LittleEndian(n, 4) == [b0, b1, b2, b3]
  {
    var n1, n2 := n / 256, n / 256 / 256;
    assert n % 256 == b0 && n1 == b1 + 0x100 * b2 + 0x1_0000 * b3;
    assert n1 % 256 == b1 && n2 == b2 + 0x100 * b3;
    assert LittleEndian(n2 / 256 / 256, 0) == [];
    assert LittleEndian(n2, 2) == [b2] + LittleEndian(n2 / 256, 1);
    assert LittleEndian(n1, 3) == [b1] + LittleEndian(n2, 2);
  }

  /** A request as bytes: routine, number of arguments, return type, whether there is a context, and the
      arguments with their sizes. */
  lemma {:induction false} RequestExample(routine: pointer)
    requires routine == 0x0807_0605_0403_0201
    ensures RequestBytes(Request(routine, ReturnInteger, None, [[0x41, 0x42]]))
      == [1, 2, 3, 4, 5, 6, 7, 8, 1, 0, 0, 0, 1, 0, 0, 0, 0, 0, 0, 0, 2, 0, 0, 0, 0x41, 0x42]
  {
    RoutineBytes(routine);
    CodesExample();
    ArgumentExample([[0x41, 0x42]]);
    var one, zero, arguments := IntBytes(1), IntBytes(0), ArgumentBytes([[0x41, 0x42]]);
    Joined(LittleEndian(routine, 8), one, zero, arguments);
    assert Optional(None) == [];
    assert RequestBytes(Request(routine, ReturnInteger, None, [[0x41, 0x42]]))
      == LittleEndian(routine, 8) + (one + (one + (zero + []))) + arguments;
  }

  lemma {:induction false} Joined(routine: seq<byte>, one: seq<byte>, zero: seq<byte>, arguments: seq<byte>)
    requires routine == [1, 2, 3, 4, 5, 6, 7, 8] && one == [1, 0, 0, 0] && zero == [0, 0, 0, 0]
    requires arguments == [2, 0, 0, 0, 0x41, 0x42]
    ensures routine + (one + (one + (zero + []))) + arguments
      == [1, 2, 3, 4, 5, 6, 7, 8, 1, 0, 0, 0, 1, 0, 0, 0, 0, 0, 0, 0, 2, 0, 0, 0, 0x41, 0x42]
  {
  }

  /** The codes of return types, and of a context being there or not. */
  lemma {:induction false} CodesExample()
    ensures IntBytes(KindCode(ReturnString)) == [0, 0, 0, 0] && IntBytes(KindCode(ReturnInteger)) == [1, 0, 0, 0]
    ensures forall ctx :: IntBytes(Flag(ctx)) == [if ctx.Some? then 1 else 0, 0, 0, 0]
    ensures IntBytes(1) == [1, 0, 0, 0] && IntBytes(0) == [0, 0, 0, 0]
  {
    LengthBytes(0, 0, 0, 0, 0);
    LengthBytes(1, 1, 0, 0, 0);
  }

  lemma {:induction false} ArgumentExample(args: seq<Block>)
    requires args == [[0x41, 0x42]]
    ensures ArgumentBytes(args) == [2, 0, 0, 0, 0x41, 0x42]
  {
    LengthBytes(2, 2, 0, 0, 0);
    assert args[1..] == [];
  }

  lemma {:induction false} RoutineBytes(routine: pointer)
    requires routine == 0x0807_0605_0403_0201
    ensures LittleEndian(routine, 8) == [1, 2, 3, 4, 5, 6, 7, 8]
  {
    assert LittleEndian(0, 0) == [];
    var high := 0x0807_0605;
    LengthBytes(high, 5, 6, 7, 8);
    assert LittleEndian(0x08_0706_0504, 5) == [4] + LittleEndian(high, 4);
    assert LittleEndian(0x0807_0605_0403, 6) == [3] + LittleEndian(0x08_0706_0504, 5);
    assert LittleEndian(0x08_0706_0504_0302, 7) == [2] + LittleEndian(0x0807_0605_0403, 6);
  }

  /** Four arguments are read, five are too many. */
  lemma {:induction false} AtMostFour(routine: pointer, s: seq<byte>)
    ensures TakeArguments(Header(routine, 5, 1, None), s).value.None?
    ensures TakeBlocks(s, 4).value.Some? ==> TakeArguments(Header(routine, 4, 1, None), s).value.Some?
  {
  }

  /** What reading gives, and what is then left in the pipe. */
  datatype Taken<+T> = Taken(value: Option<T>, rest: seq<byte>)

  /** read(fd, p, n): a pipe that holds fewer bytes is at its end. */
  function TakeBytes(s: seq<byte>, n: nat): (t: Taken<seq<byte>>)
    ensures t.value.Some? ==> |t.value.value| == n && s == t.value.value + t.rest
  {
    if |s| < n then Taken(None, []) else Taken(Some(s[..n]), s[n..])
  }

  function TakeInt(s: seq<byte>): Taken<int32> {
    var t := TakeBytes(s, 4);
    if t.value.None? then Taken(None, t.rest) else Taken(Some(IntOf(t.value.value)), t.rest)
  }

  function TakeBlock(s: seq<byte>): Taken<Block> {
    var size := TakeInt(s);
    if size.value.None? || size.value.value < 0 then Taken(None, size.rest)
    else
      var t := TakeBytes(size.rest, size.value.value);
      if t.value.None? then Taken(None, t.rest) else Taken(Some(t.value.value), t.rest)
  }

  function TakeBlocks(s: seq<byte>, count: nat): Taken<seq<Block>> {
    if count == 0 then Taken(Some([]), s)
    else
      var t := TakeBlock(s);
      if t.value.None? then Taken(None, t.rest) else Before([t.value.value], TakeBlocks(t.rest, count - 1))
  }

  /** Blocks read so far, and the rest of the reading. */
  function Before(data: seq<Block>, t: Taken<seq<Block>>): Taken<seq<Block>> {
    if t.value.None? then t else Taken(Some(data + t.value.value), t.rest)
  }

  datatype Header = Header(routine: pointer, argc: int32, kind: int32, ctx: Option<Context>)

  function PointerOf(s: seq<byte>): pointer
    requires |s| == 8
  {
    NumberBound(s);
    PowerOf8();
    Number(s)
  }

  lemma {:induction false} PowerOf8()
    ensures Power256(8) == 0x1_0000_0000_0000_0000
  {
    assert Power256(4) == 0x1_0000_0000;
  }

  /** The reads of background_attention up to the context. */
  function TakeHeader(s: seq<byte>): Taken<Header> {
    var routine := TakeBytes(s, 8);
    if routine.value.None? then Taken(None, routine.rest) else TakeMore(PointerOf(routine.value.value), routine.rest)
  }

  /** Those after the routine. */
  function TakeMore(routine: pointer, s: seq<byte>): Taken<Header> {
    var argc := TakeInt(s);
    if argc.value.None? then Taken(None, argc.rest)
    else
      var kind := TakeInt(argc.rest);
      if kind.value.None? then Taken(None, kind.rest)
      else
        var flag := TakeInt(kind.rest);
        if flag.value.None? then Taken(None, flag.rest)
        else
          var ctx := TakeContext(flag.rest, flag.value.value != 0);
          if ctx.value.None? then Taken(None, ctx.rest)
          else Taken(Some(Header(routine, argc.value.value, kind.value.value, ctx.value.value)), ctx.rest)
  }

  function TakeContext(s: seq<byte>, there: bool): Taken<Option<Context>> {
    if !there then Taken(Some(None), s)
    else
      var t := TakeBytes(s, CTX_SIZE);
      if t.value.None? then Taken(None, t.rest) else Taken(Some(Some(t.value.value)), t.rest)
  }

  /** A request with a number of arguments and a return type that the parent can handle. */
  function TakeRequest(s: seq<byte>): Taken<Request> {
    var t := TakeHeader(s);
    if t.value.None? then Taken(None, t.rest) else TakeArguments(t.value.value, t.rest)
  }

  function TakeArguments(h: Header, s: seq<byte>): Taken<Request> {
    if !(0 <= h.argc <= MAX_CALL_ARGS && 0 <= h.kind <= 1) then Taken(None, s)
    else
      var args := TakeBlocks(s, h.argc);
      if args.value.None? then Taken(None, args.rest) else Taken(Some(RequestFor(h, args.value.value)), args.rest)
  }

  function RequestFor(h: Header, args: seq<Block>): Request {
    Request(h.routine, if h.kind == 0 then ReturnString else ReturnInteger, h.ctx, args)
  }

  lemma {:induction false} TakeBytesOf(s: seq<byte>, rest: seq<byte>)
    ensures TakeBytes(s + rest, |s|) == Taken(Some(s), rest)
  {
    assert (s + rest)[..|s|] == s && (s + rest)[|s|..] == rest;
  }

  lemma {:induction false} TakeIntOf(x: int32, rest: seq<byte>)
    ensures TakeInt(IntBytes(x) + rest) == Taken(Some(x), rest)
  {
    TakeBytesOf(IntBytes(x), rest);
    IntRoundTrip(x);
  }

  lemma {:induction false} TakeBlockOf(block: Block, rest: seq<byte>)
    ensures TakeBlock(BlockBytes(block) + rest) == Taken(Some(block), rest)
  {
    assert BlockBytes(block) + rest == IntBytes(|block|) + (block + rest);
    TakeIntOf(|block|, block + rest);
    TakeBytesOf(block, rest);
  }

  /** Arguments arrive as they were sent, whatever bytes they hold. */
  lemma {:induction false} TakeBlocksOf(args: seq<Block>, rest: seq<byte>)
    ensures TakeBlocks(ArgumentBytes(args) + rest, |args|) == Taken(Some(args), rest)
    decreases |args|
  {
    if args == [] {
      assert ArgumentBytes(args) + rest == rest;
    } else {
      assert ArgumentBytes(args) + rest == BlockBytes(args[0]) + (ArgumentBytes(args[1..]) + rest);
      TakeBlockOf(args[0], ArgumentBytes(args[1..]) + rest);
      TakeBlocksOf(args[1..], rest);
      assert [args[0]] + args[1..] == args;
    }
  }

  lemma {:induction false} TakeContextOf(ctx: Option<Context>, rest: seq<byte>)
    ensures TakeContext(Optional(ctx) + rest, ctx.Some?) == Taken(Some(ctx), rest)
  {
    if ctx.Some? {
      TakeBytesOf(ctx.value, rest);
    } else {
      assert Optional(ctx) + rest == rest;
    }
  }

  lemma {:induction false} PointerRoundTrip(routine: pointer)
    ensures PointerOf(LittleEndian(routine, 8)) == routine
  {
    PowerOf8();
    NumberOf(routine, 8);
  }

  lemma {:induction false} TakeHeaderOf(routine: pointer, argc: int32, kind: ReturnType, ctx: Option<Context>,
      rest: seq<byte>)
    ensures TakeHeader(HeaderBytes(routine, argc, kind, ctx) + rest) == Taken(Some(Header(routine, argc, KindCode(kind), ctx)), rest)
  {
    var last := Optional(ctx) + rest;
    var flag := IntBytes(Flag(ctx)) + last;
    var code := IntBytes(KindCode(kind)) + flag;
    var count := IntBytes(argc) + code;
    Regrouped(LittleEndian(routine, 8), IntBytes(argc), IntBytes(KindCode(kind)), IntBytes(Flag(ctx)), Optional(ctx), rest);
    TakeBytesOf(LittleEndian(routine, 8), count);
    PointerRoundTrip(routine);
    TakeIntOf(argc, code);
    TakeIntOf(KindCode(kind), flag);
    TakeIntOf(Flag(ctx), last);
    TakeContextOf(ctx, rest);
  }

  lemma {:induction false} Regrouped<T>(a: seq<T>, b: seq<T>, c: seq<T>, d: seq<T>, e: seq<T>, rest: seq<T>)
    ensures a + (b + (c + (d + e))) + rest == a + (b + (c + (d + (e + rest))))
  {
  }

  /** The parent decodes exactly the request that was sent, and leaves what comes after it. */
  lemma {:induction false} RequestRoundTrip(r: Request, rest: seq<byte>)
    requires |r.args| <= MAX_CALL_ARGS
    ensures TakeRequest(RequestBytes(r) + rest) == Taken(Some(r), rest)
  {
    var more := ArgumentBytes(r.args) + rest;
    assert RequestBytes(r) + rest == HeaderBytes(r.routine, |r.args|, r.kind, r.ctx) + more;
    TakeHeaderOf(r.routine, |r.args|, r.kind, r.ctx, more);
    TakeBlocksOf(r.args, rest);
  }
}
