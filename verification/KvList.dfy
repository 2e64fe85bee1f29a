/** The key/value store of kvlist.c, over an AVL tree without duplicates. It refines a finite
    map from names to values. */
module KvList {
  import opened Sequences
  import opened Wrappers
  import opened Trees
  import opened Lists
  import opened AvlHeap
  import opened AvlOrder
  import opened Orders
  import opened AvlInsert
  import AvlFind
  import AvlDelete
  import AvlClear
  import opened Bytes

  /** avl_strcmp: the order of C strings, a proper prefix being smaller. */
  function StrCmp(a: string, b: string): int {
    if a == [] && b == [] then 0
    else if a == [] then -1
    else if b == [] then 1
    else if a[0] != b[0] then a[0] as int - b[0] as int
    else StrCmp(a[1..], b[1..])
  }

  lemma {:induction false} StrCmpSigns(a: string, b: string)
    ensures StrCmp(a, b) == 0 <==> a == b
    ensures StrCmp(a, b) < 0 <==> StrCmp(b, a) > 0
  {
    if a != [] && b != [] && a[0] == b[0] {
      StrCmpSigns(a[1..], b[1..]);
      assert a == [a[0]] + a[1..] && b == [b[0]] + b[1..];
    }
  }

  /** a comes before b: where they part, a ends or has the smaller character. */
  ghost predicate Precedes(a: string, b: string) {
    exists k :: PartAt(a, b, k)
  }

  predicate PartAt(a: string, b: string, k: int) {
    0 <= k <= |a| && k < |b| && a[..k] == b[..k] && (k == |a| || a[k] < b[k])
  }

  lemma {:induction false} StrCmpMeans(a: string, b: string)
    ensures StrCmp(a, b) == 0 <==> a == b
    ensures StrCmp(a, b) < 0 <==> Precedes(a, b)
  {
    StrCmpSigns(a, b);
    if a != [] && b != [] && a[0] == b[0] {
      StrCmpMeans(a[1..], b[1..]);
      if k :| PartAt(a[1..], b[1..], k) {
        assert a[..k + 1] == [a[0]] + a[1..][..k] && b[..k + 1] == [b[0]] + b[1..][..k];
        assert PartAt(a, b, k + 1);
      }
      if k :| PartAt(a, b, k) {
        assert k > 0 && a[1..][..k - 1] == a[..k][1..] && b[1..][..k - 1] == b[..k][1..];
        assert PartAt(a[1..], b[1..], k - 1);
      }
    } else if b != [] && (a == [] || a[0] < b[0]) {
      assert PartAt(a, b, 0);
    } else {
      NotBefore(a, b);
    }
  }

  lemma {:induction false} NotBefore(a: string, b: string)
    requires b == [] || (a != [] && a[0] > b[0])
    ensures !Precedes(a, b)
  {
    if Precedes(a, b) {
      var k :| PartAt(a, b, k);
      PartFirst(a, b, k);
      assert false;
    }
  }

  lemma {:induction false} PartFirst(a: string, b: string, k: int)
    requires PartAt(a, b, k)
    ensures b != [] && (a == [] || a[0] <= b[0])
  {
    if k > 0 {
      assert a[..k][0] == b[..k][0];
    }
  }

  lemma {:induction false} StrCmpTransitive(a: string, b: string, c: string)
    requires StrCmp(a, b) <= 0 && StrCmp(b, c) <= 0
    ensures StrCmp(a, c) <= 0
  {
    if a != [] && b != [] && c != [] && a[0] == b[0] == c[0] {
      StrCmpTransitive(a[1..], b[1..], c[1..]);
    }
  }

  lemma {:induction false} StrCmpIsComparator()
    ensures Comparator(StrCmp)
  {
    forall a, b ensures StrCmp(a, b) < 0 <==> StrCmp(b, a) > 0 { StrCmpSigns(a, b); }
    forall a, b, c | StrCmp(a, b) <= 0 && StrCmp(b, c) <= 0 ensures StrCmp(a, c) <= 0 { StrCmpTransitive(a, b, c); }
  }

  type Node = AvlNode<string, seq<byte>>

  ghost predicate UniqueKeys(s: seq<Node>) {
    forall i, j :: 0 <= i < j < |s| ==> s[i].key != s[j].key
  }

  /** The bindings that a list of nodes stands for. */
  ghost function Bindings(s: seq<Node>): map<string, seq<byte>> {
    if s == [] then map[] else Bindings(s[..|s| - 1])[s[|s| - 1].key := s[|s| - 1].element]
  }

  lemma {:induction false} BindingAt(s: seq<Node>, i: nat)
    requires UniqueKeys(s) && i < |s|
    ensures s[i].key in Bindings(s) && Bindings(s)[s[i].key] == s[i].element
  {
    var front := s[..|s| - 1];
    if i < |front| {
      BindingAt(front, i);
    }
  }

  lemma {:induction false} BindingOf(s: seq<Node>, name: string) returns (i: nat)
    requires UniqueKeys(s) && name in Bindings(s)
    ensures i < |s| && s[i].key == name && Bindings(s)[name] == s[i].element
  {
    if s[|s| - 1].key == name {
      i := |s| - 1;
    } else {
      i := BindingOf(s[..|s| - 1], name);
    }
  }

  /** `r` is `s` with `x` inserted at position k, said index by index. */
  ghost predicate Inserted(s: seq<Node>, r: seq<Node>, k: nat, x: Node) {
    && k < |r| == |s| + 1 && r[k] == x
    && (forall i {:trigger s[i]} :: 0 <= i < |s| ==> s[i] == r[if i < k then i else i + 1])
  }

  lemma {:induction false} FromInsert(s: seq<Node>, r: seq<Node>, k: nat, x: Node, name: string)
    requires Inserted(s, r, k, x) && UniqueKeys(s) && UniqueKeys(r) && name in Bindings(r)
    ensures if name == x.key then Bindings(r)[name] == x.element
            else name in Bindings(s) && Bindings(r)[name] == Bindings(s)[name]
  {
    var i := BindingOf(r, name);
    if i == k {
    } else {
      BindingAt(s, if i < k then i else i - 1);
    }
    if name == x.key {
      BindingAt(r, k);
    }
  }

  lemma {:induction false} IntoInsert(s: seq<Node>, r: seq<Node>, k: nat, x: Node, name: string)
    requires Inserted(s, r, k, x) && UniqueKeys(s) && UniqueKeys(r) && (name == x.key || name in Bindings(s))
    ensures name in Bindings(r)
  {
    if name == x.key {
      BindingAt(r, k);
    } else {
      var i := BindingOf(s, name);
      BindingAt(r, if i < k then i else i + 1);
    }
  }

  lemma {:induction false} BindingsGrow(s: seq<Node>, r: seq<Node>, k: nat, x: Node)
    requires Inserted(s, r, k, x) && UniqueKeys(s) && UniqueKeys(r)
    ensures Bindings(r) == Bindings(s)[x.key := x.element]
  {
    var b, e := Bindings(r), Bindings(s)[x.key := x.element];
    forall name | name in b ensures name in e && b[name] == e[name] { FromInsert(s, r, k, x, name); }
    forall name | name in e ensures name in b { IntoInsert(s, r, k, x, name); }
  }

  lemma {:induction false} BindingsInsert(s: seq<Node>, k: nat, x: Node)
    requires UniqueKeys(s) && k <= |s| && x.key !in Bindings(s)
    ensures Bindings(InsertAt(s, k, x)) == Bindings(s)[x.key := x.element]
  {
    forall i | 0 <= i < |s| ensures s[i].key != x.key { BindingAt(s, i); }
    UniqueInsert(s, k, x);
    InsertAtInserts(s, k, x);
    BindingsGrow(s, InsertAt(s, k, x), k, x);
  }

  lemma {:induction false} InsertAtInserts(s: seq<Node>, k: nat, x: Node)
    requires k <= |s|
    ensures Inserted(s, InsertAt(s, k, x), k, x)
  {
  }

  lemma {:induction false} UniqueInsert(s: seq<Node>, k: nat, x: Node)
    requires UniqueKeys(s) && k <= |s| && forall i :: 0 <= i < |s| ==> s[i].key != x.key
    ensures UniqueKeys(InsertAt(s, k, x))
  {
  }

  lemma {:induction false} BindingsRemove(s: seq<Node>, k: nat)
    requires UniqueKeys(s) && k < |s|
    ensures Bindings(RemoveAt(s, k)) == Bindings(s) - {s[k].key}
  {
    NotInRest(s, k);
    RemoveAtInserts(s, k);
    BindingsGrow(RemoveAt(s, k), s, k, s[k]);
    Restored(Bindings(RemoveAt(s, k)), s[k].key, s[k].element);
  }

  lemma {:induction false} Restored<K, V>(m: map<K, V>, k: K, v: V)
    requires k !in m
    ensures m[k := v] - {k} == m
  {
  }

  lemma {:induction false} Untouched<K, V>(m: map<K, V>, k: K)
    requires k !in m
    ensures m - {k} == m
  {
  }

  lemma {:induction false} Overwritten<K, V>(m: map<K, V>, k: K, v: V)
    ensures (m - {k})[k := v] == m[k := v]
  {
  }

  lemma {:induction false} RemoveAtInserts(s: seq<Node>, k: nat)
    requires k < |s|
    ensures Inserted(RemoveAt(s, k), s, k, s[k])
  {
  }

  lemma {:induction false} NotInRest(s: seq<Node>, k: nat)
    requires UniqueKeys(s) && k < |s|
    ensures UniqueKeys(RemoveAt(s, k)) && s[k].key !in Bindings(RemoveAt(s, k))
  {
    var r := RemoveAt(s, k);
    forall i | 0 <= i < |r| ensures r[i].key != s[k].key { assert r[i] == s[if i < k then i else i + 1]; }
    forall i, j | 0 <= i < j < |r| ensures r[i].key != r[j].key {
      assert r[i] == s[if i < k then i else i + 1] && r[j] == s[if j < k then j else j + 1];
    }
    NotBound(r, s[k].key);
  }

  lemma {:induction false} NotBound(s: seq<Node>, name: string)
    requires UniqueKeys(s) && forall i :: 0 <= i < |s| ==> s[i].key != name
    ensures name !in Bindings(s)
  {
    if s != [] {
      NotBound(s[..|s| - 1], name);
    }
  }

  lemma {:induction false} LookupAgrees(s: seq<Node>, name: string)
    requires UniqueKeys(s)
    ensures name in Bindings(s) <==> Present(StrCmp, s, name)
  {
    if name in Bindings(s) {
      var i := BindingOf(s, name);
      StrCmpSigns(name, s[i].key);
    }
    forall i | 0 <= i < |s| && StrCmp(name, s[i].key) == 0 ensures name in Bindings(s) {
      StrCmpSigns(name, s[i].key);
      BindingAt(s, i);
    }
  }

  /** A tree that refuses duplicates has no two nodes with one key. */
  lemma {:induction false} KeysUnique(avl: AvlTree<string, seq<byte>>)
    requires AvlOrder.Valid(avl) && avl.comp == StrCmp && !avl.allowDups
    ensures UniqueKeys(avl.items)
  {
    var s := avl.items;
    forall i, j | 0 <= i < j < |s| ensures s[i].key != s[j].key {
      LedApart(StrCmp, s, i, j);
      StrCmpSigns(s[i].key, s[j].key);
    }
  }

  /** `r` is `s`, or `s` with one node removed. */
  ghost predicate Shrunk(s: seq<Node>, r: seq<Node>) {
    r == s || exists k: nat :: k < |s| && r == RemoveAt(s, k)
  }

  lemma {:induction false} ShrunkParts(s: seq<Node>, avl: AvlTree<string, seq<byte>>)
    requires Shrunk(s, avl.items)
    ensures forall i :: 0 <= i < |avl.items| ==> avl.items[i] in s
    ensures forall i :: 0 <= i < |RingOf(avl)| ==> RingOf(avl)[i] in [avl.listHead] + Links(s)
  {
    forall x | x in avl.items ensures x in s && x.list in Links(s) {
      var i :| 0 <= i < |s| && s[i] == x;
      assert Links(s)[i] == x.list;
    }
    forall i | 0 <= i < |RingOf(avl)| ensures RingOf(avl)[i] in [avl.listHead] + Links(s) {
      if i > 0 {
        assert RingOf(avl)[i] == avl.items[i - 1].list;
      }
    }
  }

  lemma {:induction false} StillInside(s: seq<Node>, avl: AvlTree<string, seq<byte>>, node: Node)
    requires Shrunk(s, avl.items) && node.list !in [avl.listHead] + Links(s) && node.list.entry == Some(node)
    ensures forall i :: 0 <= i < |avl.items| ==> avl.items[i] in s
    ensures forall i :: 0 <= i < |RingOf(avl)| ==> RingOf(avl)[i] in [avl.listHead] + Links(s)
    ensures Detached(avl, node)
  {
    ShrunkParts(s, avl);
  }

  /** `r` is `s` with `x` put in. */
  ghost predicate Grown(s: seq<Node>, x: Node, r: seq<Node>) {
    exists k: nat :: k <= |s| && r == InsertAt(s, k, x)
  }

  ghost predicate Renewed(s: seq<Node>, x: Node, r: seq<Node>) {
    forall i :: 0 <= i < |r| ==> r[i] in s || r[i] == x
  }

  /** What was there before, and the new node. */
  lemma {:induction false} RenewedParts(s: seq<Node>, avl: AvlTree<string, seq<byte>>, x: Node)
    requires Renewed(s, x, avl.items)
    ensures forall i :: 0 <= i < |avl.items| ==> avl.items[i] in s || avl.items[i] == x
    ensures forall i :: 0 <= i < |RingOf(avl)| ==> RingOf(avl)[i] in [avl.listHead] + Links(s) || RingOf(avl)[i] == x.list
  {
    forall i | 0 <= i < |RingOf(avl)| ensures RingOf(avl)[i] in [avl.listHead] + Links(s) || RingOf(avl)[i] == x.list {
      if i > 0 {
        var y := avl.items[i - 1];
        assert RingOf(avl)[i] == y.list;
        if y != x {
          var j :| 0 <= j < |s| && s[j] == y;
          assert Links(s)[j] == y.list;
        }
      }
    }
  }

  lemma {:induction false} ShrunkThenGrown(s: seq<Node>, t: seq<Node>, x: Node, r: seq<Node>)
    requires Shrunk(s, t) && Grown(t, x, r)
    ensures Renewed(s, x, r)
  {
    var k: nat :| k <= |t| && r == InsertAt(t, k, x);
    forall i | 0 <= i < |r| ensures r[i] in s || r[i] == x {
      if i != k {
        assert r[i] == t[if i < k then i else i - 1];
      }
    }
  }

  lemma {:induction false} GrownByOne(s: seq<Node>, r: seq<Node>, x: Node)
    requires UniqueKeys(s) && x.key !in Bindings(s) && Accepted(StrCmp, s, x, r)
    ensures Bindings(r) == Bindings(s)[x.key := x.element] && Grown(s, x, r)
  {
    var k :| InsertedAt(StrCmp, s, x, k) && r == InsertAt(s, k, x);
    BindingsInsert(s, k, x);
  }

  /** What get_len says, or the size of a pointer. */
  function LengthToCopy(getLen: Option<seq<byte> -> nat>, data: seq<byte>): nat {
    if getLen.None? then 8 else getLen.value(data)
  }

  class KvList {
    const avl: AvlTree<string, seq<byte>>
    /** how many bytes of a value to copy; None for values that are pointers */
    const getLen: Option<seq<byte> -> nat>

    ghost predicate Valid()
      reads avl, avl.items, RingOf(avl), avl.listHead, Links(avl.items), Elems(avl.shape)
    {
      AvlOrder.Valid(avl) && avl.comp == StrCmp && !avl.allowDups
    }

    /** the map that the list stands for */
    ghost function Contents(): map<string, seq<byte>>
      reads avl`items
    {
      Bindings(avl.items)
    }

    /** kvlist_init */
    constructor (getLen: Option<seq<byte> -> nat>)
      ensures Valid() && Contents() == map[] && this.getLen == getLen
      ensures avl.items == [] && fresh(avl) && fresh(avl.listHead)
    {
      StrCmpIsComparator();
      var tree := AvlClear.Init<string, seq<byte>>(StrCmp, false);
      avl := tree;
      this.getLen := getLen;
    }

    /** __kvlist_get */
    method Lookup(name: string) returns (node: AvlNode?<string, seq<byte>>, ghost k: nat)
      requires Valid()
      ensures Valid()
      ensures node == null <==> name !in Contents()
      ensures node != null ==>
        k < |avl.items| && node == avl.items[k] && node.key == name && node.element == Contents()[name]
    {
      KeysUnique(avl);
      LookupAgrees(avl.items, name);
      k := 0;
      node := AvlFind.Find(avl, name);
      if node != null {
        StrCmpSigns(name, node.key);
        k :| 0 <= k < |avl.items| && avl.items[k] == node;
        BindingAt(avl.items, k);
      }
    }

    /** kvlist_get */
    method Get(name: string) returns (value: Option<seq<byte>>)
      requires Valid()
      ensures Valid() && value == if name in Contents() then Some(Contents()[name]) else None
    {
      var node, _ := Lookup(name);
      value := if node == null then None else Some(node.element);
    }

    /** kvlist_delete: reports whether the name was there, and touches no other name. */
    method Delete(name: string) returns (present: bool)
      requires Valid()
      modifies avl, avl.items, RingOf(avl)`next, RingOf(avl)`prev
      ensures Valid() && Contents() == old(Contents()) - {name}
      ensures present <==> name in old(Contents())
      ensures Shrunk(old(avl.items), avl.items)
    {
      var node;
      ghost var k;
      node, k := Lookup(name);
      if node != null {
        Drop(node, k);
      } else {
        Untouched(Contents(), name);
      }
      present := node != null;
    }

    method Drop(node: Node, ghost k: nat)
      requires Valid() && k < |avl.items| && node == avl.items[k]
      modifies avl, avl.items, RingOf(avl)`next, RingOf(avl)`prev
      ensures Valid() && Contents() == old(Contents()) - {node.key}
      ensures Shrunk(old(avl.items), avl.items)
    {
      KeysUnique(avl);
      BindingsRemove(avl.items, k);
      AvlDelete.Delete(avl, node, k);
    }

    /** kvlist_set_ex: the old binding of the name, if any, is replaced by a copy of `data`, unless
        there is no memory for the copy: then nothing changes. */
    method Set(name: string, data: seq<byte>, memory: bool) returns (key: Option<string>)
      requires Valid()
      requires CopyLength(data) <= |data|
      modifies avl, avl.items, RingOf(avl)`next, RingOf(avl)`prev
      ensures Valid() && key == if memory then Some(name) else None
      ensures Contents() == if memory then old(Contents())[name := data[..CopyLength(data)]] else old(Contents())
      ensures !memory ==> avl.items == old(avl.items)
      ensures forall i :: 0 <= i < |avl.items| ==> avl.items[i] in old(avl.items) || fresh(avl.items[i])
      ensures forall i :: 0 <= i < |RingOf(avl)| ==> RingOf(avl)[i] in old(RingOf(avl)) || fresh(RingOf(avl)[i])
    {
      if !memory {
        return None;
      }
      var node := NewNode(name, data[..CopyLength(data)]);
      Replace(node);
      RenewedParts(old(avl.items), avl, node);
      key := Some(name);
    }

    /** A node takes the place of the one with its name, if any. */
    method Replace(node: Node)
      requires Valid() && Detached(avl, node)
      modifies avl, avl.items, RingOf(avl)`next, RingOf(avl)`prev
      modifies node, node.list`next, node.list`prev
      ensures Valid() && Contents() == old(Contents())[node.key := node.element]
      ensures Renewed(old(avl.items), node, avl.items)
    {
      ghost var s := avl.items;
      var _ := Delete(node.key);
      StillInside(s, avl, node);
      ghost var t := avl.items;
      PutWithin(node, s, [avl.listHead] + Links(s));
      ShrunkThenGrown(s, t, node, avl.items);
      Overwritten(old(Contents()), node.key, node.element);
    }

    /** The last step of kvlist_set_ex: a new name enters the tree. */
    method Put(node: Node)
      requires Valid() && Detached(avl, node) && node.key !in Contents()
      modifies avl, avl.items, RingOf(avl)`next, RingOf(avl)`prev
      modifies node, node.list`next, node.list`prev
      ensures Valid() && Contents() == old(Contents())[node.key := node.element]
      ensures Grown(old(avl.items), node, avl.items)
    {
      KeysUnique(avl);
      LookupAgrees(avl.items, node.key);
      ghost var s := avl.items;
      var _ := AvlInsert.Insert(avl, node);
      GrownByOne(s, avl.items, node);
    }

    /** Put, with a frame that is at least the parts of the tree. */
    method PutWithin(node: Node, ghost nodes: seq<Node>, ghost links: seq<ListHead<Node>>)
      requires Valid() && Detached(avl, node) && node.key !in Contents()
      requires forall i :: 0 <= i < |avl.items| ==> avl.items[i] in nodes
      requires forall i :: 0 <= i < |RingOf(avl)| ==> RingOf(avl)[i] in links
      modifies avl, nodes, links`next, links`prev
      modifies node, node.list`next, node.list`prev
      ensures Valid() && Contents() == old(Contents())[node.key := node.element]
      ensures Grown(old(avl.items), node, avl.items)
    {
      Put(node);
    }

    method NewNode(name: string, data: seq<byte>) returns (node: Node)
      requires Valid()
      ensures Valid() && fresh(node) && fresh(node.list) && Detached(avl, node)
      ensures node.key == name && node.element == data
    {
      assert allocated(Elems(avl.shape)) && allocated(Links(avl.items));
      node := new AvlNode<string, seq<byte>>(name, data);
    }

    function CopyLength(data: seq<byte>): nat {
      LengthToCopy(getLen, data)
    }

    /** kvlist_free */
    method Free() returns (visited: seq<Node>)
      requires Valid()
      modifies avl, avl.items, RingOf(avl)`next, RingOf(avl)`prev
      ensures Valid() && Contents() == map[] && visited == old(avl.items) && Distinct(visited)
    {
      TreeIsLeaders(avl);
      visited := AvlClear.RemoveAllElements(avl);
    }
  }
}
