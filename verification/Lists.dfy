/** The circular doubly linked list of list.h. A list is a ring of `ListHead`s:
    one head, followed by the members. */
module Lists {
  import opened Sequences
  import opened Wrappers

  class ListHead<T> {
    var next: ListHead?<T>
    var prev: ListHead?<T>
    /** the structure this link is embedded in (what list_entry recovers); None for a list's head */
    var entry: Option<T>

    /** INIT_LIST_HEAD */
    constructor ()
      ensures next == this && prev == this && entry == None
      ensures Ring([this])
    {
      next, prev, entry := this, this, None;
    }
  }

  ghost function Succ<T>(s: seq<T>, i: nat): nat
    requires i < |s|
    ensures Succ(s, i) < |s|
  {
    if i == |s| - 1 then 0 else i + 1
  }

  ghost function Pred<T>(s: seq<T>, i: nat): nat
    requires i < |s|
    ensures Pred(s, i) < |s|
  {
    if i == 0 then |s| - 1 else i - 1
  }

  /** `s` is the ring: each element links to its neighbours, and the last to the first. */
  ghost predicate Ring<T>(s: seq<ListHead<T>>)
    reads s`next, s`prev
  {
    && |s| > 0
    && Distinct(s)
    && (forall i {:trigger s[i].next} :: 0 <= i < |s| ==> s[i].next == s[Succ(s, i)])
    && (forall i {:trigger s[i].prev} :: 0 <= i < |s| ==> s[i].prev == s[Pred(s, i)])
  }

  /** Two-pointer surgery, inserting: the old neighbours now point at the new element. */
  lemma {:induction false} RingSpliced<T>(s: seq<ListHead<T>>, k: nat, entry: ListHead<T>)
    requires |s| > 0 && Distinct(s) && 0 < k <= |s| && entry !in s
    requires forall i {:trigger s[i].next} :: 0 <= i < |s| ==> s[i].next == if i == k - 1 then entry else s[Succ(s, i)]
    requires forall i {:trigger s[i].prev} :: 0 <= i < |s| ==> s[i].prev == if i == Succ(s, k - 1) then entry else s[Pred(s, i)]
    requires entry.next == s[Succ(s, k - 1)] && entry.prev == s[k - 1]
    ensures Ring(InsertAt(s, k, entry))
  {
    var r := InsertAt(s, k, entry);
    assert r[..k] == s[..k] && r[k] == entry && r[k + 1..] == s[k..];
    forall i | 0 <= i < |r| ensures r[i].next == r[Succ(r, i)] && r[i].prev == r[Pred(r, i)] {
      if i < k { assert r[i] == s[i]; } else if i > k { assert r[i] == s[i - 1]; }
    }
  }

  /** Two-pointer surgery, removing: the neighbours of s[k] now point at each other. */
  lemma {:induction false} RingCut<T>(s: seq<ListHead<T>>, k: nat)
    requires Distinct(s) && 0 < k < |s|
    requires forall i {:trigger s[i].next} :: 0 <= i < |s| && i != k ==> s[i].next == s[if i == k - 1 then Succ(s, k) else Succ(s, i)]
    requires forall i {:trigger s[i].prev} :: 0 <= i < |s| && i != k ==> s[i].prev == s[if i == Succ(s, k) then k - 1 else Pred(s, i)]
    ensures Ring(RemoveAt(s, k))
  {
    var r := RemoveAt(s, k);
    forall i | 0 <= i < |r| ensures r[i].next == r[Succ(r, i)] && r[i].prev == r[Pred(r, i)] {
      assert r[i] == s[if i < k then i else i + 1];
    }
  }

  method ListAddBetween<T>(entry: ListHead<T>, prev: ListHead<T>, next: ListHead<T>, ghost s: seq<ListHead<T>>,
      ghost k: nat)
    requires Ring(s) && 0 < k <= |s| && entry !in s
    requires prev == s[k - 1] && next == (if k < |s| then s[k] else s[0])
    modifies entry`next, entry`prev, prev`next, next`prev
    ensures Ring(InsertAt(s, k, entry))
  {
    next.prev := entry;
    entry.next := next;
    entry.prev := prev;
    prev.next := entry;
    RingSpliced(s, k, entry);
  }

  /** Insert `entry` right after `head`, which may be any element of the ring. */
  method ListAdd<T>(entry: ListHead<T>, head: ListHead<T>, ghost s: seq<ListHead<T>>, ghost k: nat)
    requires Ring(s) && k < |s| && head == s[k] && entry !in s
    modifies entry`next, entry`prev, s`next, s`prev
    ensures Ring(InsertAt(s, k + 1, entry))
  {
    ListAddBetween(entry, head, head.next, s, k + 1);
  }

  /** Insert `entry` right before `head`; before the list's own head means last. */
  method ListAddTail<T>(entry: ListHead<T>, head: ListHead<T>, ghost s: seq<ListHead<T>>, ghost k: nat)
    requires Ring(s) && k < |s| && head == s[k] && entry !in s
    modifies entry`next, entry`prev, s`next, s`prev
    ensures Ring(InsertAt(s, if k == 0 then |s| else k, entry))
  {
    ListAddBetween(entry, head.prev, head, s, if k == 0 then |s| else k);
  }

  method ListDel<T>(entry: ListHead<T>, ghost s: seq<ListHead<T>>, ghost k: nat)
    requires Ring(s) && 0 < k < |s| && entry == s[k]
    modifies s`next, s`prev
    ensures Ring(RemoveAt(s, k))
    ensures entry.next == null && entry.prev == null
  {
    entry.next.prev := entry.prev;
    entry.prev.next := entry.next;
    entry.next, entry.prev := null, null;
    RingCut(s, k);
  }

  predicate ListEmpty<T>(head: ListHead<T>)
    reads head
  {
    head.next == head
  }

  predicate ListIsFirst<T>(link: ListHead<T>, head: ListHead<T>)
    reads link
  {
    link.prev == head
  }

  predicate ListIsLast<T>(link: ListHead<T>, head: ListHead<T>)
    reads link
  {
    link.next == head
  }

  lemma {:induction false} Neighbours<T>(s: seq<ListHead<T>>, k: nat)
    requires Ring(s) && k < |s|
    ensures s[k].next == s[Succ(s, k)] && s[k].prev == s[Pred(s, k)]
  {
  }

  /** In a ring headed by s[0] these tests say what their names say. */
  lemma {:induction false} ListTests<T>(s: seq<ListHead<T>>, k: nat)
    requires Ring(s) && k < |s|
    ensures ListEmpty(s[0]) <==> |s| == 1
    ensures ListIsFirst(s[k], s[0]) <==> k == (if |s| == 1 then 0 else 1)
    ensures ListIsLast(s[k], s[0]) <==> k == |s| - 1
  {
  }
}
