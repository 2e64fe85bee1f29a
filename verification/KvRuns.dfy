/** Sequences of calls on a key/value store of kvlist.c. */
module KvRuns {
  import opened Wrappers
  import opened Bytes
  import opened AvlOrder
  import opened KvList

  /** `memory` says whether there is memory for the copy. */
  datatype Call = Set(name: string, value: seq<byte>, memory: bool) | Delete(name: string)

  /** A call that does something. */
  predicate Works(call: Call) {
    call.Set? ==> call.memory
  }

  /** What a call makes of a map. */
  function After(m: map<string, seq<byte>>, call: Call): map<string, seq<byte>> {
    match call
    case Set(name, value, memory) => if memory then m[name := value] else m
    case Delete(name) => m - {name}
  }

  function Applied(m: map<string, seq<byte>>, calls: seq<Call>): map<string, seq<byte>> {
    if calls == [] then m else After(Applied(m, calls[..|calls| - 1]), calls[|calls| - 1])
  }

  /** The position of the last call about a name that does something, or -1. */
  function LastAbout(calls: seq<Call>, name: string): (i: int)
    ensures -1 <= i < |calls|
    ensures i >= 0 ==> calls[i].name == name && Works(calls[i])
    ensures forall j :: i < j < |calls| ==> !(calls[j].name == name && Works(calls[j]))
  {
    if calls == [] then -1
    else if calls[|calls| - 1].name == name && Works(calls[|calls| - 1]) then |calls| - 1
    else LastAbout(calls[..|calls| - 1], name)
  }

  /** A name has the value that the last call about it gave it, calls without memory aside, whatever came between. */
  lemma {:induction false} LastCallCounts(calls: seq<Call>, name: string)
    ensures var i, m := LastAbout(calls, name), Applied(map[], calls);
      && (name in m <==> i >= 0 && calls[i].Set?)
      && (name in m ==> m[name] == calls[i].value)
  {
    if calls != [] {
      LastCallCounts(calls[..|calls| - 1], name);
    }
  }

  ghost predicate Sized(kv: KvList, call: Call) {
    call.Set? ==> kv.CopyLength(call.value) == |call.value|
  }

  method PerformOne(kv: KvList, call: Call)
    requires kv.Valid() && Sized(kv, call)
    modifies kv.avl, kv.avl.items, RingOf(kv.avl)`next, RingOf(kv.avl)`prev
    ensures kv.Valid() && kv.Contents() == After(old(kv.Contents()), call)
    ensures forall i :: 0 <= i < |kv.avl.items| ==> kv.avl.items[i] in old(kv.avl.items) || fresh(kv.avl.items[i])
    ensures forall i :: 0 <= i < |RingOf(kv.avl)| ==> RingOf(kv.avl)[i] in old(RingOf(kv.avl)) || fresh(RingOf(kv.avl)[i])
  {
    match call {
      case Set(name, value, memory) =>
        assert value[..|value|] == value;
        var _ := kv.Set(name, value, memory);
      case Delete(name) =>
        var _ := kv.Delete(name);
        ShrunkParts(old(kv.avl.items), kv.avl);
    }
  }

  /** The store does what the map does, over any sequence of calls. */
  method Perform(kv: KvList, calls: seq<Call>)
    requires kv.Valid()
    requires forall i :: 0 <= i < |calls| ==> Sized(kv, calls[i])
    modifies kv.avl, kv.avl.items, RingOf(kv.avl)`next, RingOf(kv.avl)`prev
    ensures kv.Valid() && kv.Contents() == Applied(old(kv.Contents()), calls)
    ensures forall i :: 0 <= i < |kv.avl.items| ==> kv.avl.items[i] in old(kv.avl.items) || fresh(kv.avl.items[i])
    ensures forall i :: 0 <= i < |RingOf(kv.avl)| ==> RingOf(kv.avl)[i] in old(RingOf(kv.avl)) || fresh(RingOf(kv.avl)[i])
    decreases |calls|
  {
    if calls != [] {
      Perform(kv, calls[..|calls| - 1]);
      ghost var items, links := kv.avl.items, RingOf(kv.avl);
      PerformOne(kv, calls[|calls| - 1]);
      forall i | 0 <= i < |kv.avl.items| ensures kv.avl.items[i] in old(kv.avl.items) || fresh(kv.avl.items[i]) {
        var x := kv.avl.items[i];
        assert x in items || fresh(x);
      }
      forall i | 0 <= i < |RingOf(kv.avl)| ensures RingOf(kv.avl)[i] in old(RingOf(kv.avl)) || fresh(RingOf(kv.avl)[i]) {
        var x := RingOf(kv.avl)[i];
        assert x in links || fresh(x);
      }
    }
  }

  predicate AllSized(getLen: Option<seq<byte> -> nat>, calls: seq<Call>) {
    forall i :: 0 <= i < |calls| ==> calls[i].Set? ==> LengthToCopy(getLen, calls[i].value) == |calls[i].value|
  }

  /** kvlist_init and any calls. */
  method Use(getLen: Option<seq<byte> -> nat>, calls: seq<Call>) returns (kv: KvList)
    requires AllSized(getLen, calls)
    ensures kv.Valid() && kv.Contents() == Applied(map[], calls)
    ensures fresh(kv.avl) && fresh(kv.avl.items) && fresh(RingOf(kv.avl))
  {
    kv := new KvList(getLen);
    ghost var items, links := kv.avl.items, RingOf(kv.avl);
    assert items == [] && links == [kv.avl.listHead];
    Perform(kv, calls);
  }

  method Read(kv: KvList, ghost calls: seq<Call>, name: string) returns (value: Option<seq<byte>>)
    requires kv.Valid() && kv.Contents() == Applied(map[], calls)
    ensures kv.Valid()
    ensures var i := LastAbout(calls, name);
      value == if i >= 0 && calls[i].Set? then Some(calls[i].value) else None
  {
    LastCallCounts(calls, name);
    value := kv.Get(name);
  }

  /** From kvlist_init to kvlist_free: a store that is made here, used and read gives for a name what the
      last call about it left there. */
  method FromInitToFree(getLen: Option<seq<byte> -> nat>, calls: seq<Call>, name: string)
    returns (value: Option<seq<byte>>)
    requires AllSized(getLen, calls)
    ensures var i := LastAbout(calls, name);
      value == if i >= 0 && calls[i].Set? then Some(calls[i].value) else None
  {
    var kv := Use(getLen, calls);
    ghost var items, links := kv.avl.items, RingOf(kv.avl);
    value := Read(kv, calls, name);
    assert kv.avl.items == items && RingOf(kv.avl) == links;
    var _ := kv.Free();
  }

  /** What comes back of one value: the bytes of a pointer, or as many as get_len says. */
  method OneValue(getLen: Option<seq<byte> -> nat>, name: string, data: seq<byte>) returns (value: Option<seq<byte>>)
    requires |data| >= if getLen.None? then 8 else getLen.value(data)
    ensures getLen.None? ==> value == Some(data[..8])
    ensures getLen.Some? ==> value == Some(data[..getLen.value(data)])
  {
    var kv := new KvList(getLen);
    var _ := kv.Set(name, data, true);
    value := kv.Get(name);
  }
}
