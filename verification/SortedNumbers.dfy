/** Sorted arrays without a comparison function of their own, and what their flags mean. */
module SortedNumbers {
  import opened Sequences
  import opened Wrappers
  import opened SortedArray

  function Values<D>(s: seq<Member<D>>): (v: seq<uint64>)
    ensures |v| == |s|
  {
    seq(|s|, i requires 0 <= i < |s| => s[i].sortv)
  }

  /** The orders that the two flag bits ask for: SAFLAG_ORDER_ASC, SAFLAG_ORDER_DESC, and each of them with
      SAFLAG_DUPLCATE_SORTV. Other bits mean nothing. */
  ghost predicate InOrder(flags: nat, v: seq<uint64>) {
    forall i, j {:trigger v[i], v[j]} :: 0 <= i < j < |v| ==>
      match flags % 4
      case 0 => v[i] < v[j]
      case 1 => v[i] > v[j]
      case 2 => v[i] <= v[j]
      case _ => v[i] >= v[j]
  }

  lemma {:induction false} NumericEqual(cmp: Compare, a: uint64, b: uint64)
    requires Numeric(cmp)
    ensures (cmp(a, b) == 0 <==> a == b) && (cmp(a, b) < 0 <==> a < b) && (cmp(a, b) > 0 <==> a > b)
  {
  }

  /** What stands in the array is in the order of the flags. */
  lemma {:induction false} OrderOfFlags<D(0)>(sa: SortedArray<D>)
    requires sa.Valid() && Numeric(sa.cmp)
    ensures InOrder(sa.flags, Values(sa.Contents()))
  {
    var s, v := sa.Contents(), Values(sa.Contents());
    Bits(sa.flags);
    forall i, j | 0 <= i < j < |v|
      ensures match sa.flags % 4 case 0 => v[i] < v[j] case 1 => v[i] > v[j] case 2 => v[i] <= v[j] case _ => v[i] >= v[j]
    {
      NumericEqual(sa.cmp, s[i].sortv, s[j].sortv);
      assert Standing(sa.cmp, sa.Descending(), s[i].sortv, s[j].sortv) <= 0;
    }
  }

  lemma {:induction false} Bits(flags: nat)
    ensures (flags % 2 == 1 <==> flags % 4 == 1 || flags % 4 == 3) && (flags / 2 % 2 == 1 <==> flags % 4 >= 2)
  {
  }

  lemma {:induction false} PresentIff<D>(cmp: Compare, s: seq<Member<D>>, v: uint64)
    requires Numeric(cmp)
    ensures Present(cmp, s, v) <==> v in Values(s)
  {
    if v in Values(s) {
      var i :| 0 <= i < |s| && Values(s)[i] == v;
      NumericEqual(cmp, v, s[i].sortv);
    }
    if Present(cmp, s, v) {
      var i :| 0 <= i < |s| && cmp(v, s[i].sortv) == 0;
      NumericEqual(cmp, v, s[i].sortv);
      assert Values(s)[i] == v;
    }
  }

  /** sorted_array_add on numbers: refused exactly if duplicates are not allowed and the number is there. */
  method AddNumber<D(0)>(sa: SortedArray<D>, v: uint64, data: D, more: bool) returns (result: int)
    requires sa.Valid() && Numeric(sa.cmp)
    modifies sa, sa.members
    ensures sa.Valid() && (sa.members == old(sa.members) || fresh(sa.members))
    ensures result == -1 <==> sa.flags % 4 < 2 && v in Values(old(sa.Contents()))
    ensures result != 0 ==> sa.Contents() == old(sa.Contents())
    ensures result == 0 ==>
      && InOrder(sa.flags, Values(sa.Contents()))
      && multiset(sa.Contents()) == multiset(old(sa.Contents())) + multiset{Member(v, data)}
    ensures more && old(sa.count) + 1 <= SIZE_MAX / 2 && result != -1 ==> result == 0
  {
    ghost var s := sa.Contents();
    PresentIff(sa.cmp, s, v);
    Bits(sa.flags);
    result := sa.Add(v, data, more);
    if result == 0 {
      OrderOfFlags(sa);
      OneMore(sa.cmp, sa.Descending(), s, Member(v, data), sa.Contents());
    }
  }

  lemma {:induction false} OneMore<D>(cmp: Compare, descending: bool, s: seq<Member<D>>, m: Member<D>,
      r: seq<Member<D>>)
    requires Added(cmp, descending, s, m, r)
    ensures multiset(r) == multiset(s) + multiset{m}
  {
    var k :| Fits(cmp, descending, s, m.sortv, k) && r == InsertAt(s, k, m);
    assert s == s[..k] + s[k..];
  }

  /** sorted_array_remove on numbers: true exactly if it is there, and then one member with it goes. */
  method RemoveNumber<D(0)>(sa: SortedArray<D>, v: uint64) returns (removed: bool)
    requires sa.Valid() && Numeric(sa.cmp)
    modifies sa, sa.members
    ensures sa.Valid() && (removed <==> v in Values(old(sa.Contents())))
    ensures !removed ==> sa.Contents() == old(sa.Contents())
    ensures removed ==> exists m ::
      (m in old(sa.Contents()) && m.sortv == v && multiset(sa.Contents()) == multiset(old(sa.Contents())) - multiset{m})
  {
    ghost var s := sa.Contents();
    PresentIff(sa.cmp, s, v);
    var freed;
    removed, freed := sa.Remove(v);
    if removed {
      ghost var k: nat :| Removed(sa.cmp, s, v, k, sa.Contents());
      NumericEqual(sa.cmp, v, s[k].sortv);
      OneLess(s, k);
      assert s[k] in s;
    }
  }

  lemma {:induction false} OneLess<D>(s: seq<Member<D>>, k: nat)
    requires k < |s|
    ensures multiset(RemoveAt(s, k)) == multiset(s) - multiset{s[k]}
  {
    assert s == s[..k] + [s[k]] + s[k + 1..];
  }

  /** sorted_array_find on numbers: found exactly if it is there, with its data. */
  method FindNumber<D(0)>(sa: SortedArray<D>, v: uint64) returns (found: bool, data: Option<D>)
    requires sa.Valid() && Numeric(sa.cmp)
    ensures found <==> v in Values(sa.Contents())
    ensures if found then data.Some? && Member(v, data.value) in sa.Contents() else data.None?
  {
    PresentIff(sa.cmp, sa.Contents(), v);
    found, data := sa.Find(v);
    if found {
      ghost var k: nat :| Found(sa.cmp, sa.Contents(), v, k, data);
      NumericEqual(sa.cmp, v, sa.Contents()[k].sortv);
      assert sa.Contents()[k] == Member(v, data.value);
    }
  }

  /** A run with two numbers: both are taken, the first is not taken again, and the second is found. */
  method TwoNumbers() returns (results: (int, int, int), data: Option<char>)
    ensures results == (0, 0, -1) && data == Some('b')
  {
    var sa := new SortedArray<char>(0, 0, false, None);
    var first := AddNumber(sa, 1, 'a', true);
    ghost var s := sa.Contents();
    assert multiset(s) == multiset{Member(1, 'a')};
    OnlyOne(s, Member(1, 'a'));
    var second := AddNumber(sa, 2, 'b', true);
    ghost var t := sa.Contents();
    assert multiset(t) == multiset{Member(1, 'a'), Member(2, 'b')};
    TwoThere(t);
    var again := AddNumber(sa, 1, 'c', true);
    var found, d := FindNumber(sa, 2);
    results, data := (first, second, again), d;
  }

  lemma {:induction false} OnlyOne<D>(s: seq<Member<D>>, m: Member<D>)
    requires multiset(s) == multiset{m}
    ensures s == [m] && Values(s) == [m.sortv]
  {
    assert |multiset(s)| == 1;
    assert s[0] in multiset(s);
  }

  lemma {:induction false} TwoThere(s: seq<Member<char>>)
    requires multiset(s) == multiset{Member(1, 'a'), Member(2, 'b')}
    ensures 1 in Values(s) && 2 in Values(s) && forall x :: Member(2, x) in s ==> x == 'b'
  {
    assert Member(1, 'a') in s && Member(2, 'b') in s;
    var i :| 0 <= i < |s| && s[i] == Member(1, 'a');
    var j :| 0 <= j < |s| && s[j] == Member(2, 'b');
    assert Values(s)[i] == 1 && Values(s)[j] == 2;
    forall x | Member(2, x) in s ensures x == 'b' {
      assert Member(2, x) in multiset(s);
    }
  }
}
