/** sorted-array.c: an array that is searched by halving and shifted in place. */
module SortedArray {
  import opened Sequences
  import opened Wrappers
  import opened Lists
  import opened Orders

  type uint64 = x: int | 0 <= x < 0x1_0000_0000_0000_0000

  const SIZE_MAX: int := 0xffff_ffff_ffff_ffff
  const SASZ_DEFAULT: nat := 4

  datatype Member<D> = Member(sortv: uint64, data: D)

  type Compare = (uint64, uint64) -> int

  /** def_cmp */
  function DefCmp(sortv1: uint64, sortv2: uint64): int {
    if sortv1 > sortv2 then 1 else if sortv1 < sortv2 then -1 else 0
  }

  lemma {:induction false} DefCmpIsComparator()
    ensures Comparator(DefCmp)
  {
    forall a, b ensures DefCmp(a, b) < 0 <==> DefCmp(b, a) > 0 {}
    forall a, b, c | DefCmp(a, b) <= 0 && DefCmp(b, c) <= 0 ensures DefCmp(a, c) <= 0 {}
  }

  /** The comparison of numbers. */
  ghost predicate Numeric(cmp: Compare) {
    forall a, b {:trigger cmp(a, b)} :: (cmp(a, b) < 0 <==> a < b) && (cmp(a, b) == 0 <==> a == b)
  }

  lemma {:induction false} DefCmpIsNumeric()
    ensures Numeric(DefCmp)
  {
    forall a, b ensures (DefCmp(a, b) < 0 <==> a < b) && (DefCmp(a, b) == 0 <==> a == b) {}
  }

  /** A missing comparison function means the default. */
  function Chosen(cmp: Option<Compare>): Compare {
    if cmp.None? then DefCmp else cmp.value
  }

  /** How `a` stands to `b` in the order of the array: negative if it belongs before. */
  function Standing(cmp: Compare, descending: bool, a: uint64, b: uint64): int {
    if descending then -cmp(a, b) else cmp(a, b)
  }

  lemma {:induction false} StandingOpposite(cmp: Compare, descending: bool, a: uint64, b: uint64)
    requires Comparator(cmp)
    ensures Standing(cmp, descending, a, b) < 0 <==> Standing(cmp, descending, b, a) > 0
    ensures Standing(cmp, descending, a, b) == 0 <==> cmp(a, b) == 0
    ensures Standing(cmp, descending, a, b) == 0 <==> Standing(cmp, descending, b, a) == 0
  {
    Opposite(cmp, a, b);
  }

  lemma {:induction false} StandingTransitive(cmp: Compare, descending: bool, a: uint64, b: uint64, c: uint64)
    requires Comparator(cmp) && Standing(cmp, descending, a, b) <= 0 && Standing(cmp, descending, b, c) <= 0
    ensures Standing(cmp, descending, a, c) <= 0
    ensures Standing(cmp, descending, a, c) == 0 <==> Standing(cmp, descending, a, b) == 0 && Standing(cmp, descending, b, c) == 0
  {
    if descending {
      Opposite(cmp, a, b);
      Opposite(cmp, b, c);
      Opposite(cmp, a, c);
      Transitive(cmp, c, b, a);
    } else {
      Transitive(cmp, a, b, c);
    }
  }

  ghost predicate Sorted<D>(cmp: Compare, descending: bool, s: seq<Member<D>>) {
    forall i, j {:trigger s[i], s[j]} :: 0 <= i < j < |s| ==> Standing(cmp, descending, s[i].sortv, s[j].sortv) <= 0
  }

  ghost predicate Unique<D>(cmp: Compare, s: seq<Member<D>>) {
    forall i, j {:trigger s[i], s[j]} :: 0 <= i < j < |s| ==> cmp(s[i].sortv, s[j].sortv) != 0
  }

  ghost predicate Present<D>(cmp: Compare, s: seq<Member<D>>, sortv: uint64) {
    exists i :: 0 <= i < |s| && cmp(sortv, s[i].sortv) == 0
  }

  /** `sortv` may stand at position k. */
  ghost predicate Fits<D>(cmp: Compare, descending: bool, s: seq<Member<D>>, sortv: uint64, k: int) {
    && 0 <= k <= |s|
    && (forall i :: 0 <= i < k ==> Standing(cmp, descending, sortv, s[i].sortv) >= 0)
    && (forall i :: k <= i < |s| ==> Standing(cmp, descending, sortv, s[i].sortv) <= 0)
  }

  ghost predicate Added<D>(cmp: Compare, descending: bool, before: seq<Member<D>>, m: Member<D>,
      after: seq<Member<D>>) {
    exists k :: Fits(cmp, descending, before, m.sortv, k) && after == InsertAt(before, k, m)
      && (Present(cmp, before, m.sortv) ==> StopsAt(cmp, before, m.sortv, k))
  }

  ghost predicate Removed<D>(cmp: Compare, before: seq<Member<D>>, sortv: uint64, k: nat, after: seq<Member<D>>) {
    k < |before| && StopsAt(cmp, before, sortv, k) && cmp(sortv, before[k].sortv) == 0 && after == RemoveAt(before, k)
  }

  lemma {:induction false} SortedInsert<D>(cmp: Compare, descending: bool, s: seq<Member<D>>, m: Member<D>, k: nat)
    requires Comparator(cmp) && Sorted(cmp, descending, s) && Fits(cmp, descending, s, m.sortv, k)
    ensures Sorted(cmp, descending, InsertAt(s, k, m))
    ensures Unique(cmp, s) && !Present(cmp, s, m.sortv) ==> Unique(cmp, InsertAt(s, k, m))
    ensures multiset(InsertAt(s, k, m)) == multiset(s) + multiset{m}
  {
    var r := InsertAt(s, k, m);
    forall i, j | 0 <= i < j < |r|
      ensures Standing(cmp, descending, r[i].sortv, r[j].sortv) <= 0
      ensures Unique(cmp, s) && !Present(cmp, s, m.sortv) ==> cmp(r[i].sortv, r[j].sortv) != 0
    {
      if j == k {
        assert r[i] == s[i];
        StandingOpposite(cmp, descending, m.sortv, s[i].sortv);
      } else if i == k {
        assert r[j] == s[j - 1];
        StandingOpposite(cmp, descending, m.sortv, s[j - 1].sortv);
      } else {
        assert r[i] == s[if i < k then i else i - 1] && r[j] == s[if j < k then j else j - 1];
      }
    }
    assert s == s[..k] + s[k..];
  }

  lemma {:induction false} SortedRemove<D>(cmp: Compare, descending: bool, s: seq<Member<D>>, k: nat)
    requires Sorted(cmp, descending, s) && k < |s|
    ensures Sorted(cmp, descending, RemoveAt(s, k))
    ensures Unique(cmp, s) ==> Unique(cmp, RemoveAt(s, k))
    ensures multiset(RemoveAt(s, k)) == multiset(s) - multiset{s[k]}
  {
    var r := RemoveAt(s, k);
    forall i | 0 <= i < |r| ensures r[i] == s[if i < k then i else i + 1] {}
    assert s == s[..k] + [s[k]] + s[k + 1..];
  }

  /** The members from a up to b are exactly those that compare equal. */
  ghost predicate IsRun<D>(cmp: Compare, s: seq<Member<D>>, sortv: uint64, a: nat, b: nat) {
    a < b <= |s| && forall i {:trigger s[i]} :: 0 <= i < |s| ==> (cmp(sortv, s[i].sortv) == 0 <==> a <= i < b)
  }

  /** The first midpoint that falls among the positions from a up to b, when positions from low to
      high are halved. */
  function Probe(low: nat, high: int, a: nat, b: nat): (p: nat)
    requires low <= a < b <= high + 1
    ensures a <= p < b
    decreases high - low
  {
    var mid := (low + high) / 2;
    if mid < a then Probe(mid + 1, high, a, b) else if mid >= b then Probe(low, mid - 1, a, b) else mid
  }

  /** What is left to be halved leads to the same midpoint as everything. */
  ghost predicate Same(low: nat, high: int, count: nat, a: nat, b: nat) {
    low <= a < b <= high + 1 <= count && Probe(low, high, a, b) == Probe(0, count - 1, a, b)
  }

  /** Position k is where the halving loop stops when it looks for a value that is there. */
  ghost predicate StopsAt<D>(cmp: Compare, s: seq<Member<D>>, sortv: uint64, k: nat) {
    exists a: nat, b: nat :: IsRun(cmp, s, sortv, a, b) && k == Probe(0, |s| - 1, a, b)
  }

  ghost predicate Found<D>(cmp: Compare, s: seq<Member<D>>, sortv: uint64, k: nat, data: Option<D>) {
    k < |s| && StopsAt(cmp, s, sortv, k) && cmp(sortv, s[k].sortv) == 0 && data == Some(s[k].data)
  }

  /** Members that compare equal stand side by side. */
  lemma {:induction false} RunOf<D>(cmp: Compare, descending: bool, s: seq<Member<D>>, sortv: uint64)
    returns (a: nat, b: nat)
    requires Comparator(cmp) && Sorted(cmp, descending, s) && Present(cmp, s, sortv)
    ensures IsRun(cmp, s, sortv, a, b)
  {
    var m :| 0 <= m < |s| && cmp(sortv, s[m].sortv) == 0;
    a, b := m, m + 1;
    while a > 0 && cmp(sortv, s[a - 1].sortv) == 0
      invariant 0 <= a <= m && forall i :: a <= i <= m ==> cmp(sortv, s[i].sortv) == 0
    {
      a := a - 1;
    }
    while b < |s| && cmp(sortv, s[b].sortv) == 0
      invariant m < b <= |s| && forall i :: m <= i < b ==> cmp(sortv, s[i].sortv) == 0
    {
      b := b + 1;
    }
    forall i | 0 <= i < |s| && !(a <= i < b) ensures cmp(sortv, s[i].sortv) != 0 {
      EqualFits(cmp, descending, s, sortv, m);
      if i < a {
        BelowAll(cmp, descending, s, sortv, a - 1);
      } else {
        AboveAll(cmp, descending, s, sortv, b);
      }
    }
  }

  lemma {:induction false} RunUnique<D>(cmp: Compare, s: seq<Member<D>>, sortv: uint64, a: nat, b: nat, c: nat, d: nat)
    requires IsRun(cmp, s, sortv, a, b) && IsRun(cmp, s, sortv, c, d)
    ensures a == c && b == d
  {
    assert cmp(sortv, s[a].sortv) == 0 && cmp(sortv, s[b - 1].sortv) == 0;
    assert cmp(sortv, s[c].sortv) == 0 && cmp(sortv, s[d - 1].sortv) == 0;
  }

  /** Nothing before position k compares equal. */
  ghost predicate IsFirst<D>(cmp: Compare, s: seq<Member<D>>, sortv: uint64, k: nat) {
    k < |s| && cmp(sortv, s[k].sortv) == 0 && forall i :: 0 <= i < k ==> cmp(sortv, s[i].sortv) != 0
  }

  /** The member that is met is the first of those that compare equal exactly if the first midpoint
      among their positions is the first of these. */
  lemma {:induction false} FirstIff<D>(cmp: Compare, s: seq<Member<D>>, sortv: uint64, k: nat, a: nat, b: nat)
    requires IsRun(cmp, s, sortv, a, b) && StopsAt(cmp, s, sortv, k)
    ensures IsFirst(cmp, s, sortv, k) <==> Probe(0, |s| - 1, a, b) == a
  {
    var c: nat, d: nat :| IsRun(cmp, s, sortv, c, d) && k == Probe(0, |s| - 1, c, d);
    RunUnique(cmp, s, sortv, a, b, c, d);
    assert cmp(sortv, s[a].sortv) == 0 && cmp(sortv, s[k].sortv) == 0;
    if k == a {
      forall i | 0 <= i < k ensures cmp(sortv, s[i].sortv) != 0 {}
    }
  }

  /** It always is if no two members compare equal. */
  lemma {:induction false} FirstIfUnique<D>(cmp: Compare, descending: bool, s: seq<Member<D>>, sortv: uint64, k: nat)
    requires Comparator(cmp) && Unique(cmp, s) && StopsAt(cmp, s, sortv, k)
    ensures IsFirst(cmp, s, sortv, k)
  {
    var a: nat, b: nat :| IsRun(cmp, s, sortv, a, b) && k == Probe(0, |s| - 1, a, b);
    FirstIff(cmp, s, sortv, k, a, b);
    assert cmp(sortv, s[a].sortv) == 0 && cmp(sortv, s[b - 1].sortv) == 0;
    if a < b - 1 {
      Opposite(cmp, sortv, s[a].sortv);
      Transitive(cmp, s[a].sortv, sortv, s[b - 1].sortv);
    }
  }

  /** If all members compare equal, it is the first only if there are no more than two. */
  lemma {:induction false} FirstOfEquals<D>(cmp: Compare, s: seq<Member<D>>, sortv: uint64, k: nat)
    requires s != [] && (forall i :: 0 <= i < |s| ==> cmp(sortv, s[i].sortv) == 0) && StopsAt(cmp, s, sortv, k)
    ensures IsFirst(cmp, s, sortv, k) <==> |s| <= 2
  {
    assert IsRun(cmp, s, sortv, 0, |s|);
    FirstIff(cmp, s, sortv, k, 0, |s|);
  }

  /** Of three equal members the second is met. */
  lemma {:induction false} SecondOfThree()
    ensures var s := [Member(5, 'a'), Member(5, 'b'), Member(5, 'c')];
      Sorted(DefCmp, false, s) && StopsAt(DefCmp, s, 5, 1) && !IsFirst(DefCmp, s, 5, 1)
  {
    var s := [Member(5, 'a'), Member(5, 'b'), Member(5, 'c')];
    assert IsRun(DefCmp, s, 5, 0, 3);
    assert Probe(0, 2, 0, 3) == 1;
    assert DefCmp(5, s[0].sortv) == 0;
  }

  class SortedArray<D(0)> {
    const flags: nat
    const cmp: Compare
    const hasFree: bool
    var members: array<Member<D>>
    var count: nat

    /** flags & SAFLAG_ORDER_DESC */
    predicate Descending() {
      flags % 2 == 1
    }

    /** flags & SAFLAG_DUPLCATE_SORTV */
    predicate Duplicates() {
      flags / 2 % 2 == 1
    }

    /** There is always room for one more member than there are. */
    ghost predicate Bounded()
      reads this, members
    {
      count < members.Length && members.Length <= SIZE_MAX
    }

    ghost function Contents(): (s: seq<Member<D>>)
      reads this, members
      requires Bounded()
    {
      members[..count]
    }

    ghost predicate Valid()
      reads this, members
    {
      && Bounded()
      && Comparator(cmp) && Sorted(cmp, Descending(), Contents())
      && (!Duplicates() ==> Unique(cmp, Contents()))
    }

    /** The calls of free_fn when member k of s goes. */
    function Freed(s: seq<Member<D>>, k: nat): seq<Member<D>> {
      if hasFree && k < |s| then [s[k]] else []
    }

    /** sorted_array_create */
    constructor (flags: nat, initial: nat, hasFree: bool, cmp: Option<Compare>)
      requires initial <= SIZE_MAX && (cmp.Some? ==> Comparator(cmp.value))
      ensures Valid() && Contents() == [] && fresh(members)
      ensures this.flags == flags && this.hasFree == hasFree
      ensures if cmp.None? then Numeric(this.cmp) else this.cmp == cmp.value
    {
      DefCmpIsComparator();
      DefCmpIsNumeric();
      this.flags, this.hasFree, count := flags, hasFree, 0;
      this.cmp := Chosen(cmp);
      members := new Member<D>[if initial == 0 then SASZ_DEFAULT else initial];
    }

    /** The halving loop of add, remove and find. A member that compares equal stops it at `mid`;
        otherwise `low` is where the value belongs. */
    method Search(sortv: uint64) returns (found: bool, mid: nat, low: nat)
      requires Valid()
      ensures found ==> mid < count && cmp(sortv, members[mid].sortv) == 0 && Fits(cmp, Descending(), Contents(), sortv, mid)
      ensures !found ==> low <= count && Fits(cmp, Descending(), Contents(), sortv, low)
      ensures found <==> Present(cmp, Contents(), sortv)
      ensures found ==> StopsAt(cmp, Contents(), sortv, mid)
    {
      ghost var s := Contents();
      ghost var a, b := NothingRuledOut(cmp, Descending(), s, sortv);
      low, mid := 0, 0;
      var high := count - 1;
      while low <= high
        invariant Narrows(cmp, Descending(), s, sortv, low, high, a, b)
      {
        mid := (low + high) / 2;
        assert s[mid] == members[mid];
        var c := cmp(sortv, members[mid].sortv);
        if c == 0 {
          Hit(cmp, Descending(), s, sortv, low, high, mid, a, b);
          return true, mid, low;
        }
        Halved(cmp, Descending(), s, sortv, low, high, mid, a, b);
        if Descending() {
          if c > 0 {
            high := mid - 1;
          } else {
            low := mid + 1;
          }
        } else {
          if c < 0 {
            high := mid - 1;
          } else {
            low := mid + 1;
          }
        }
      }
      Missed(cmp, Descending(), s, sortv, low, high, a, b);
      found := false;
    }

    /** sorted_array_add, where `more` says whether realloc() would find memory. A value that is
        there already is refused unless duplicates are allowed. */
    method Add(sortv: uint64, data: D, more: bool) returns (result: int)
      requires Valid()
      modifies this, members
      ensures Valid()
      ensures result == if !Duplicates() && Present(cmp, old(Contents()), sortv) then -1
        else if old(count) + 1 > SIZE_MAX / 2 then -2
        else if old(count) + 1 >= old(members.Length) && !more then -3
        else 0
      ensures result != 0 ==> Contents() == old(Contents())
      ensures result == 0 ==> Added(cmp, Descending(), old(Contents()), Member(sortv, data), Contents())
      ensures members == old(members) || fresh(members)
    {
      if !Duplicates() {
        var present, _ := Find(sortv);
        if present {
          return -1;
        }
      }
      if count + 1 > SIZE_MAX / 2 {
        return -2;
      }
      if count + 1 >= members.Length {
        if !more {
          return -3;
        }
        Grow();
      }
      var found, mid, low := Search(sortv);
      var idx := if found then mid else low;
      SortedInsert(cmp, Descending(), Contents(), Member(sortv, data), idx);
      InsertInto(Member(sortv, data), idx);
      result := 0;
    }

    /** realloc() with room for four more */
    method Grow()
      requires Valid() && count + 1 <= SIZE_MAX / 2 && members.Length <= count + 1
      modifies this`members
      ensures Valid() && fresh(members) && Contents() == old(Contents()) && count + 1 < members.Length
    {
      var bigger := new Member<D>[members.Length + SASZ_DEFAULT];
      forall i | 0 <= i < members.Length { bigger[i] := members[i]; }
      members := bigger;
    }

    /** The end of sorted_array_add: the members from idx on move up by one. */
    method InsertInto(m: Member<D>, idx: nat)
      requires Bounded() && idx <= count && count + 1 < members.Length
      modifies this`count, members
      ensures Bounded() && Contents() == InsertAt(old(Contents()), idx, m)
    {
      ghost var s := Contents();
      var i := count;
      while i > idx
        invariant idx <= i <= count == |s|
        invariant forall k {:trigger members[k]} :: 0 <= k <= i && k < count ==> members[k] == s[k]
        invariant forall k {:trigger members[k]} :: i < k <= count ==> members[k] == s[k - 1]
      {
        members[i] := members[i - 1];
        i := i - 1;
      }
      members[idx] := m;
      count := count + 1;
    }

    /** The shifting loop of remove and delete: the members behind idx move down by one. */
    method CloseGap(idx: nat)
      requires Bounded() && idx < count
      modifies this`count, members
      ensures Bounded() && Contents() == RemoveAt(old(Contents()), idx)
    {
      count := count - 1;
      var i := idx;
      while i < count
        invariant idx <= i <= count == old(count) - 1
        invariant forall k {:trigger members[k]} :: 0 <= k < idx ==> members[k] == old(members[k])
        invariant forall k {:trigger members[k]} :: idx <= k < i ==> members[k] == old(members[k + 1])
        invariant forall k {:trigger members[k]} :: i <= k <= count ==> members[k] == old(members[k])
      {
        members[i] := members[i + 1];
        i := i + 1;
      }
    }

    /** sorted_array_remove: one member with an equal value goes, and free_fn gets it. */
    method Remove(sortv: uint64) returns (removed: bool, freed: seq<Member<D>>)
      requires Valid()
      modifies this`count, members
      ensures Valid()
      ensures removed <==> Present(cmp, old(Contents()), sortv)
      ensures !removed ==> Contents() == old(Contents()) && freed == []
      ensures removed ==> exists k: nat :: Removed(cmp, old(Contents()), sortv, k, Contents()) && freed == Freed(old(Contents()), k)
    {
      var mid, low;
      removed, mid, low := Search(sortv);
      freed := [];
      if removed {
        freed := Delete(mid);
      }
    }

    /** sorted_array_delete */
    method Delete(idx: nat) returns (freed: seq<Member<D>>)
      requires Valid() && idx < count
      modifies this`count, members
      ensures Valid() && Contents() == RemoveAt(old(Contents()), idx)
      ensures freed == Freed(old(Contents()), idx)
    {
      freed := if hasFree then [members[idx]] else [];
      SortedRemove(cmp, Descending(), Contents(), idx);
      CloseGap(idx);
    }

    /** sorted_array_find: the member with an equal value that the halving meets, which is not always the
        first (see FirstIff). */
    method Find(sortv: uint64) returns (found: bool, data: Option<D>)
      requires Valid()
      ensures found <==> Present(cmp, Contents(), sortv)
      ensures found == data.Some?
      ensures found ==> exists k: nat :: Found(cmp, Contents(), sortv, k, data)
    {
      var mid, low;
      found, mid, low := Search(sortv);
      data := if found then Some(members[mid].data) else None;
      assert found ==> Found(cmp, Contents(), sortv, mid, data);
    }

    /** sorted_array_get */
    method Get(idx: nat) returns (sortv: uint64, data: D)
      requires Valid() && idx < count
      ensures Member(sortv, data) == Contents()[idx]
      ensures forall k :: 0 <= k < idx ==> Standing(cmp, Descending(), Contents()[k].sortv, sortv) <= 0
    {
      assert Contents()[idx] == members[idx];
      sortv, data := members[idx].sortv, members[idx].data;
    }

    /** sorted_array_destroy: free_fn gets every member, in order. */
    method Destroy() returns (freed: seq<Member<D>>)
      requires Valid()
      ensures freed == if hasFree then Contents() else []
    {
      freed := [];
      if hasFree {
        for i := 0 to count
          invariant freed == Contents()[..i]
        {
          freed := freed + [members[i]];
        }
      }
    }
  }

  lemma {:induction false} AboveAll<D>(cmp: Compare, descending: bool, s: seq<Member<D>>, sortv: uint64, mid: nat)
    requires Comparator(cmp) && Sorted(cmp, descending, s) && mid < |s|
    requires Standing(cmp, descending, sortv, s[mid].sortv) < 0
    ensures forall i :: mid <= i < |s| ==> Standing(cmp, descending, sortv, s[i].sortv) < 0
  {
    forall i | mid < i < |s| ensures Standing(cmp, descending, sortv, s[i].sortv) < 0 {
      StandingTransitive(cmp, descending, sortv, s[mid].sortv, s[i].sortv);
    }
  }

  lemma {:induction false} BelowAll<D>(cmp: Compare, descending: bool, s: seq<Member<D>>, sortv: uint64, mid: nat)
    requires Comparator(cmp) && Sorted(cmp, descending, s) && mid < |s|
    requires Standing(cmp, descending, sortv, s[mid].sortv) > 0
    ensures forall i :: 0 <= i <= mid ==> Standing(cmp, descending, sortv, s[i].sortv) > 0
  {
    StandingOpposite(cmp, descending, sortv, s[mid].sortv);
    forall i | 0 <= i < mid ensures Standing(cmp, descending, sortv, s[i].sortv) > 0 {
      StandingTransitive(cmp, descending, s[i].sortv, s[mid].sortv, sortv);
      StandingOpposite(cmp, descending, sortv, s[i].sortv);
    }
  }

  /** What the halving loop keeps: everything outside of low to high is ruled out, and what is left
      leads to the same midpoint as everything. */
  ghost predicate Narrowed<D>(cmp: Compare, descending: bool, s: seq<Member<D>>, sortv: uint64, low: int, high: int,
      a: nat, b: nat)
  {
    && 0 <= low <= high + 1 <= |s|
    && (forall i {:trigger s[i]} :: 0 <= i < low ==> Standing(cmp, descending, sortv, s[i].sortv) > 0)
    && (forall i {:trigger s[i]} :: high < i < |s| ==> Standing(cmp, descending, sortv, s[i].sortv) < 0)
    && (Present(cmp, s, sortv) ==> IsRun(cmp, s, sortv, a, b) && Same(low, high, |s|, a, b))
  }

  /** The same, said so that a proof looks into it only where it asks for it. */
  ghost predicate Narrows<D>(cmp: Compare, descending: bool, s: seq<Member<D>>, sortv: uint64, low: int, high: int,
      a: nat, b: nat)
  {
    && 0 <= low <= high + 1 <= |s|
    && forall l {:trigger Narrowed(cmp, descending, s, sortv, l, high, a, b)} :: l == low ==>
         Narrowed(cmp, descending, s, sortv, l, high, a, b)
  }

  lemma {:induction false} NothingRuledOut<D>(cmp: Compare, descending: bool, s: seq<Member<D>>, sortv: uint64)
    returns (a: nat, b: nat)
    requires Comparator(cmp) && Sorted(cmp, descending, s)
    ensures Narrows(cmp, descending, s, sortv, 0, |s| - 1, a, b)
  {
    a, b := 0, 0;
    if Present(cmp, s, sortv) {
      a, b := RunOf(cmp, descending, s, sortv);
    }
  }

  /** What the loop may do after it looked at the member at `mid`. */
  lemma {:induction false} Halved<D>(cmp: Compare, descending: bool, s: seq<Member<D>>, sortv: uint64,
      low: int, high: int, mid: int, a: nat, b: nat)
    requires Comparator(cmp) && Sorted(cmp, descending, s) && Narrows(cmp, descending, s, sortv, low, high, a, b)
    requires low <= high && mid == (low + high) / 2
    ensures var c := Standing(cmp, descending, sortv, s[mid].sortv);
      && (c < 0 ==> Narrows(cmp, descending, s, sortv, low, mid - 1, a, b))
      && (c > 0 ==> Narrows(cmp, descending, s, sortv, mid + 1, high, a, b))
  {
    assert Narrowed(cmp, descending, s, sortv, low, high, a, b);
    var c := Standing(cmp, descending, sortv, s[mid].sortv);
    if c < 0 {
      AboveAll(cmp, descending, s, sortv, mid);
    } else if c > 0 {
      BelowAll(cmp, descending, s, sortv, mid);
    }
    if Present(cmp, s, sortv) {
      assert cmp(sortv, s[a].sortv) == 0 && cmp(sortv, s[b - 1].sortv) == 0;
    }
  }

  lemma {:induction false} Hit<D>(cmp: Compare, descending: bool, s: seq<Member<D>>, sortv: uint64,
      low: int, high: int, mid: int, a: nat, b: nat)
    requires Comparator(cmp) && Sorted(cmp, descending, s) && Narrows(cmp, descending, s, sortv, low, high, a, b)
    requires low <= high && mid == (low + high) / 2 && cmp(sortv, s[mid].sortv) == 0
    ensures Fits(cmp, descending, s, sortv, mid) && Present(cmp, s, sortv) && StopsAt(cmp, s, sortv, mid)
  {
    assert Narrowed(cmp, descending, s, sortv, low, high, a, b);
    EqualFits(cmp, descending, s, sortv, mid);
  }

  lemma {:induction false} Missed<D>(cmp: Compare, descending: bool, s: seq<Member<D>>, sortv: uint64,
      low: int, high: int, a: nat, b: nat)
    requires Narrows(cmp, descending, s, sortv, low, high, a, b) && low > high
    ensures Fits(cmp, descending, s, sortv, low) && !Present(cmp, s, sortv)
  {
    assert Narrowed(cmp, descending, s, sortv, low, high, a, b);
  }

  lemma {:induction false} EqualFits<D>(cmp: Compare, descending: bool, s: seq<Member<D>>, sortv: uint64, mid: nat)
    requires Comparator(cmp) && Sorted(cmp, descending, s) && mid < |s| && cmp(sortv, s[mid].sortv) == 0
    ensures Fits(cmp, descending, s, sortv, mid)
  {
    forall i | mid < i < |s| ensures Standing(cmp, descending, sortv, s[i].sortv) <= 0 {
      StandingTransitive(cmp, descending, sortv, s[mid].sortv, s[i].sortv);
    }
    StandingOpposite(cmp, descending, sortv, s[mid].sortv);
    forall i | 0 <= i < mid ensures Standing(cmp, descending, sortv, s[i].sortv) >= 0 {
      StandingTransitive(cmp, descending, s[i].sortv, s[mid].sortv, sortv);
      StandingOpposite(cmp, descending, sortv, s[i].sortv);
    }
  }
}
