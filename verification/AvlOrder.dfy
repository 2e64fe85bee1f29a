/** The list view of an AVL tree: key order, runs of equal keys and their leaders. */
module AvlOrder {
  import opened Sequences
  import opened Wrappers
  import opened Trees
  import opened Lists
  import opened AvlHeap
  import opened AvlRotations
  import opened Orders

  ghost predicate Sorted<K, E>(comp: (K, K) -> int, s: seq<AvlNode<K, E>>) {
    forall i, j {:trigger comp(s[i].key, s[j].key)} :: 0 <= i < j < |s| ==> comp(s[i].key, s[j].key) <= 0
  }

  /** Exactly the first node of each run of equal keys is marked as its leader. */
  ghost predicate RunsLed<K, E>(comp: (K, K) -> int, s: seq<AvlNode<K, E>>)
    reads s`leader
  {
    forall i {:trigger s[i].leader} {:trigger Starts(comp, s, i)} :: 0 <= i < |s| ==> (s[i].leader <==> Starts(comp, s, i))
  }

  ghost predicate Starts<K, E>(comp: (K, K) -> int, s: seq<AvlNode<K, E>>, i: int)
    requires 0 <= i < |s|
  {
    i == 0 || comp(s[i - 1].key, s[i].key) != 0
  }

  ghost function Leaders<K, E>(s: seq<AvlNode<K, E>>): seq<AvlNode<K, E>>
    reads s`leader
  {
    if s == [] then [] else (if s[0].leader then [s[0]] else []) + Leaders(s[1..])
  }

  lemma {:induction false} LeadersAppend<K, E>(a: seq<AvlNode<K, E>>, b: seq<AvlNode<K, E>>)
    ensures Leaders(a + b) == Leaders(a) + Leaders(b)
  {
    if a == [] {
      assert a + b == b;
    } else {
      assert (a + b)[0] == a[0] && (a + b)[1..] == a[1..] + b;
      LeadersAppend(a[1..], b);
    }
  }

  lemma {:induction false} LeadersAround<K, E>(s: seq<AvlNode<K, E>>, k: nat)
    requires k < |s|
    ensures Leaders(s) == Leaders(s[..k]) + (if s[k].leader then [s[k]] else []) + Leaders(s[k + 1..])
  {
    assert s == s[..k] + ([s[k]] + s[k + 1..]);
    LeadersAppend(s[..k], [s[k]] + s[k + 1..]);
    LeadersAppend([s[k]], s[k + 1..]);
    assert [s[k]][1..] == [];
  }

  lemma {:induction false} LeadersFrom<K, E>(s: seq<AvlNode<K, E>>, k: nat)
    requires k < |s| && s[k].leader
    ensures Leaders(s[k..]) == [s[k]] + Leaders(s[k + 1..])
  {
    assert s[k..][1..] == s[k + 1..];
  }

  lemma {:induction false} LeadersSubset<K, E>(s: seq<AvlNode<K, E>>)
    ensures forall x :: x in Leaders(s) ==> x in s && x.leader
  {
    if s != [] {
      LeadersSubset(s[1..]);
    }
  }

  /** Every node shares its key with a leader at or before it. */
  lemma {:induction false} RunLeader<K(!new), E>(comp: (K, K) -> int, s: seq<AvlNode<K, E>>, i: nat) returns (j: nat)
    requires Comparator(comp) && RunsLed(comp, s) && i < |s|
    ensures j <= i && s[j].leader && comp(s[j].key, s[i].key) == 0
    decreases i
  {
    if s[i].leader {
      j := i;
      Opposite(comp, s[i].key, s[i].key);
    } else {
      j := RunLeader(comp, s, i - 1);
      Transitive(comp, s[j].key, s[i - 1].key, s[i].key);
    }
  }

  lemma {:induction false} InLeaders<K, E>(s: seq<AvlNode<K, E>>, j: nat)
    requires j < |s| && s[j].leader
    ensures s[j] in Leaders(s)
  {
    LeadersAround(s, j);
  }

  ghost predicate Ordered<K, E>(comp: (K, K) -> int, s: seq<AvlNode<K, E>>)
    reads s`leader
  {
    Sorted(comp, s) && RunsLed(comp, s)
  }

  ghost function ItemSet<K, E>(s: seq<AvlNode<K, E>>): set<AvlNode<K, E>> {
    set x | x in s
  }

  ghost function Links<K, E>(s: seq<AvlNode<K, E>>): seq<ListHead<AvlNode<K, E>>> {
    seq(|s|, i requires 0 <= i < |s| => s[i].list)
  }

  /** The ring of list links of a tree: its list_head, then one link per node. */
  ghost function RingOf<K, E>(tree: AvlTree<K, E>): seq<ListHead<AvlNode<K, E>>>
    reads tree`items
  {
    [tree.listHead] + Links(tree.items)
  }

  /** Every link leads back to its node. */
  ghost predicate Entries<K, E>(s: seq<AvlNode<K, E>>)
    reads Links(s)`entry
  {
    forall i {:trigger Links(s)[i]} :: 0 <= i < |s| ==> Links(s)[i].entry == Some(s[i])
  }

  lemma {:induction false} EntriesInsert<K, E>(s: seq<AvlNode<K, E>>, k: nat, x: AvlNode<K, E>)
    requires Entries(s) && x.list.entry == Some(x) && k <= |s|
    ensures Entries(InsertAt(s, k, x))
  {
    var r := InsertAt(s, k, x);
    forall i | 0 <= i < |r| ensures r[i].list.entry == Some(r[i]) {
      if i < k {
        assert r[i] == s[i] && Links(s)[i] == s[i].list;
      } else if i > k {
        assert r[i] == s[i - 1] && Links(s)[i - 1] == s[i - 1].list;
      }
    }
  }

  lemma {:induction false} EntriesRemove<K, E>(s: seq<AvlNode<K, E>>, k: nat)
    requires Entries(s) && k < |s|
    ensures Entries(RemoveAt(s, k))
  {
    var r := RemoveAt(s, k);
    forall i | 0 <= i < |r| ensures r[i].list.entry == Some(r[i]) {
      var j := if i < k then i else i + 1;
      assert r[i] == s[j] && Links(s)[j] == s[j].list;
    }
  }

  /** The list half of the invariant: a well-formed ring of all nodes, counted. */
  ghost predicate ListValid<K, E>(tree: AvlTree<K, E>)
    reads tree`items, tree`count, RingOf(tree)`next, RingOf(tree)`prev, tree.listHead`entry, Links(tree.items)`entry
  {
    && Ring(RingOf(tree))
    && tree.listHead.entry == None
    && Entries(tree.items)
    && tree.count == |tree.items|
  }

  /** The order half: the list is sorted, each run of equal keys is led by its first node, and
      the leaders in list order are the in-order traversal of the tree. */
  ghost predicate OrderValid<K, E>(tree: AvlTree<K, E>)
    reads tree`items, tree`shape, tree.items`leader
  {
    && Ordered(tree.comp, tree.items)
    && InOrder(tree.shape) == Leaders(tree.items)
    && (!tree.allowDups ==> forall i :: 0 <= i < |tree.items| ==> tree.items[i].leader)
  }

  /** The invariant of avl.c: list and order, and a tree that is linked, balanced, and carries
      the true balance in every node. */
  ghost predicate Valid<K(!new), E>(tree: AvlTree<K, E>)
    reads tree, tree.items, RingOf(tree), tree.listHead, Links(tree.items), Elems(tree.shape)
  {
    Comparator(tree.comp) && ListValid(tree) && OrderValid(tree) && Whole(tree, tree.shape)
  }

  lemma {:induction false} LinksDistinct<K, E>(head: ListHead<AvlNode<K, E>>, s: seq<AvlNode<K, E>>)
    requires Distinct([head] + Links(s))
    ensures Distinct(s)
  {
    var ring := [head] + Links(s);
    forall i, j | 0 <= i < j < |s| ensures s[i] != s[j] {
      assert ring[i + 1] == s[i].list && ring[j + 1] == s[j].list;
    }
  }

  lemma {:induction false} LeaderElems<K, E>(s: seq<AvlNode<K, E>>)
    ensures SeqElems(Leaders(s)) == set x | x in s && x.leader
  {
    if s != [] {
      LeaderElems(s[1..]);
      SeqElemsAppend(if s[0].leader then [s[0]] else [], Leaders(s[1..]));
    }
  }

  /** Nothing is listed twice, and the tree nodes are the listed leaders. */
  lemma {:induction false} TreeIsLeaders<K(!new), E>(tree: AvlTree<K, E>)
    requires Valid(tree)
    ensures Distinct(tree.items)
    ensures Elems(tree.shape) == set x | x in tree.items && x.leader
    ensures Elems(tree.shape) <= ItemSet(tree.items)
  {
    LinksDistinct(tree.listHead, tree.items);
    LeaderElems(tree.items);
    InOrderElems(tree.shape);
  }

  /** A leader at list position k splits list and traversal alike. */
  lemma {:induction false} SplitAtLeader<K(!new), E>(tree: AvlTree<K, E>, k: nat, c: Ctx<AvlNode<K, E>>,
      l: Tree<AvlNode<K, E>>,
      r: Tree<AvlNode<K, E>>)
    requires Valid(tree) && k < |tree.items| && tree.items[k].leader
    requires tree.shape == Plug(c, Node(l, tree.items[k], r))
    ensures Leaders(tree.items[..k]) == Before(c) + InOrder(l)
    ensures Leaders(tree.items[k + 1..]) == InOrder(r) + After(c)
  {
    var n, s := tree.items[k], tree.items;
    LeadersAround(s, k);
    PlugAround(c, l, n, r);
    NoDupInOrder(tree.shape);
    UniqueSplit(Leaders(s[..k]), n, Leaders(s[k + 1..]), Before(c) + InOrder(l), InOrder(r) + After(c));
  }

  // ---------- where a key belongs ----------

  ghost predicate KeyAbove<K, E>(comp: (K, K) -> int, key: K, s: seq<AvlNode<K, E>>) {
    forall i :: 0 <= i < |s| ==> comp(key, s[i].key) > 0
  }

  ghost predicate KeyBelow<K, E>(comp: (K, K) -> int, key: K, s: seq<AvlNode<K, E>>) {
    forall i :: 0 <= i < |s| ==> comp(key, s[i].key) < 0
  }

  lemma {:induction false} LeadersSorted<K(!new), E>(comp: (K, K) -> int, s: seq<AvlNode<K, E>>)
    requires Sorted(comp, s)
    ensures Sorted(comp, Leaders(s))
  {
    if s != [] {
      LeadersSorted(comp, s[1..]);
      LeadersSubset(s[1..]);
      var rest := Leaders(s[1..]);
      forall j | 0 <= j < |rest| ensures comp(s[0].key, rest[j].key) <= 0 {
        assert rest[j] in s[1..];
        var k :| 0 <= k < |s[1..]| && s[1..][k] == rest[j];
        assert s[k + 1] == rest[j];
      }
    }
  }

  /** A key above every leader of a stretch of the list is above the whole stretch. */
  lemma {:induction false} AboveLeaders<K(!new), E>(comp: (K, K) -> int, s: seq<AvlNode<K, E>>, k: nat, key: K)
    requires Comparator(comp) && RunsLed(comp, s) && k <= |s|
    requires KeyAbove(comp, key, Leaders(s[..k]))
    ensures forall i :: 0 <= i < k ==> comp(key, s[i].key) > 0
  {
    forall i | 0 <= i < k ensures comp(key, s[i].key) > 0 {
      var j := RunLeader(comp, s, i);
      InLeaders(s[..k], j);
      assert comp(key, s[j].key) > 0;
      Replace(comp, key, s[j].key, s[i].key);
    }
  }

  /** A key below the leader that starts the rest of the list is below the whole rest. */
  lemma {:induction false} BelowRest<K(!new), E>(comp: (K, K) -> int, s: seq<AvlNode<K, E>>, k: nat, key: K)
    requires Comparator(comp) && Sorted(comp, s) && k <= |s|
    requires k < |s| ==> comp(key, s[k].key) < 0
    ensures forall i :: k <= i < |s| ==> comp(key, s[i].key) < 0
  {
    forall i | k < i < |s| ensures comp(key, s[i].key) < 0 {
      Transitive(comp, key, s[k].key, s[i].key);
    }
  }

  lemma {:induction false} Replace<K(!new)>(comp: (K, K) -> int, key: K, a: K, b: K)
    requires Comparator(comp) && comp(a, b) == 0
    ensures (comp(key, a) > 0 <==> comp(key, b) > 0) && (comp(key, a) < 0 <==> comp(key, b) < 0)
  {
    Opposite(comp, a, b);
    Opposite(comp, key, a);
    Opposite(comp, key, b);
    if comp(key, a) <= 0 { Transitive(comp, key, a, b); }
    if comp(key, b) <= 0 { Transitive(comp, key, b, a); }
    if comp(a, key) <= 0 { Transitive(comp, b, a, key); }
    if comp(b, key) <= 0 { Transitive(comp, a, b, key); }
  }

  /** One past the last node of the run that position k belongs to. */
  ghost function RunEnd<K, E>(s: seq<AvlNode<K, E>>, k: nat): (e: nat)
    requires k < |s|
    reads s`leader
    ensures k < e <= |s| && (e < |s| ==> s[e].leader)
    ensures forall i :: k < i < e ==> !s[i].leader
    decreases |s| - k
  {
    if k + 1 == |s| || s[k + 1].leader then k + 1 else RunEnd(s, k + 1)
  }

  lemma {:induction false} NoLeaders<K, E>(s: seq<AvlNode<K, E>>)
    requires forall i :: 0 <= i < |s| ==> !s[i].leader
    ensures Leaders(s) == []
  {
    if s != [] {
      NoLeaders(s[1..]);
    }
  }

  /** All keys of a run compare alike. */
  lemma {:induction false} RunAlike<K(!new), E>(comp: (K, K) -> int, s: seq<AvlNode<K, E>>, k: nat, i: nat)
    requires Comparator(comp) && RunsLed(comp, s) && k < |s| && k <= i < RunEnd(s, k)
    ensures comp(s[k].key, s[i].key) == 0
    decreases i
  {
    if i == k {
      Opposite(comp, s[k].key, s[k].key);
    } else {
      RunAlike(comp, s, k, i - 1);
      Transitive(comp, s[k].key, s[i - 1].key, s[i].key);
    }
  }

  /** The leader at position k, where the descent for `key` stopped, tells how `key` compares
      with the whole list: before k, within the run of k, and after it. */
  lemma {:induction false} Landing<K(!new), E>(tree: AvlTree<K, E>, key: K, k: nat, c: Ctx<AvlNode<K, E>>,
      l: Tree<AvlNode<K, E>>,
      r: Tree<AvlNode<K, E>>)
    requires Valid(tree) && k < |tree.items| && tree.items[k].leader
    requires tree.shape == Plug(c, Node(l, tree.items[k], r))
    requires KeyAbove(tree.comp, key, Before(c)) && KeyBelow(tree.comp, key, After(c))
    requires tree.comp(key, tree.items[k].key) < 0 ==> l == Leaf
    requires tree.comp(key, tree.items[k].key) > 0 ==> r == Leaf
    ensures forall i :: 0 <= i < k ==> tree.comp(key, tree.items[i].key) > 0
    ensures forall i :: k <= i < RunEnd(tree.items, k) ==>
      (tree.comp(key, tree.items[i].key) > 0 <==> tree.comp(key, tree.items[k].key) > 0) &&
      (tree.comp(key, tree.items[i].key) < 0 <==> tree.comp(key, tree.items[k].key) < 0)
    ensures forall i :: RunEnd(tree.items, k) <= i < |tree.items| ==> tree.comp(key, tree.items[i].key) < 0
  {
    var s, comp, e := tree.items, tree.comp, RunEnd(tree.items, k);
    SplitAtLeader(tree, k, c, l, r);
    LandingBefore(comp, s, key, k, Before(c), InOrder(l));
    forall i | k <= i < e
      ensures (comp(key, s[i].key) > 0 <==> comp(key, s[k].key) > 0) && (comp(key, s[i].key) < 0 <==> comp(key, s[k].key) < 0)
    {
      RunAlike(comp, s, k, i);
      Replace(comp, key, s[k].key, s[i].key);
    }
    LandingAfter(comp, s, key, k, InOrder(r), After(c));
  }

  lemma {:induction false} LandingBefore<K(!new), E>(comp: (K, K) -> int, s: seq<AvlNode<K, E>>, key: K, k: nat,
      p: seq<AvlNode<K, E>>,
      l: seq<AvlNode<K, E>>)
    requires Comparator(comp) && Ordered(comp, s) && k < |s| && s[k].leader && Leaders(s[..k]) == p + l
    requires KeyAbove(comp, key, p) && (comp(key, s[k].key) < 0 ==> l == [])
    ensures forall i :: 0 <= i < k ==> comp(key, s[i].key) > 0
  {
    if comp(key, s[k].key) < 0 {
      assert p + l == p;
      AboveLeaders(comp, s, k, key);
    } else {
      forall i | 0 <= i < k ensures comp(key, s[i].key) > 0 {
        LedApart(comp, s, i, k);
        Opposite(comp, key, s[k].key);
        Opposite(comp, key, s[i].key);
        Transitive(comp, s[i].key, s[k].key, key);
      }
    }
  }

  /** A node before a leader has a strictly smaller key. */
  lemma {:induction false} LedApart<K(!new), E>(comp: (K, K) -> int, s: seq<AvlNode<K, E>>, i: nat, k: nat)
    requires Comparator(comp) && Ordered(comp, s) && i < k < |s| && s[k].leader
    ensures comp(s[i].key, s[k].key) < 0
  {
    assert Starts(comp, s, k) && comp(s[k - 1].key, s[k].key) <= 0;
    if i < k - 1 {
      Transitive(comp, s[i].key, s[k - 1].key, s[k].key);
    }
  }

  lemma {:induction false} LandingAfter<K(!new), E>(comp: (K, K) -> int, s: seq<AvlNode<K, E>>, key: K, k: nat,
      r: seq<AvlNode<K, E>>,
      q: seq<AvlNode<K, E>>)
    requires Comparator(comp) && Ordered(comp, s) && k < |s| && s[k].leader && Leaders(s[k + 1..]) == r + q
    requires KeyBelow(comp, key, q) && (comp(key, s[k].key) > 0 ==> r == [])
    ensures forall i :: RunEnd(s, k) <= i < |s| ==> comp(key, s[i].key) < 0
  {
    var e := RunEnd(s, k);
    if e < |s| {
      if comp(key, s[k].key) <= 0 {
        LedApart(comp, s, k, e);
        Transitive(comp, key, s[k].key, s[e].key);
      } else {
        FirstLeader(s, k, e);
        assert r + q == q;
        assert q[0] == s[e];
      }
    }
    BelowRest(comp, s, e, key);
  }

  lemma {:induction false} FirstLeader<K, E>(s: seq<AvlNode<K, E>>, k: nat, e: nat)
    requires k < e < |s| && s[e].leader && forall i :: k < i < e ==> !s[i].leader
    ensures Leaders(s[k + 1..]) == [s[e]] + Leaders(s[e + 1..])
  {
    var rest := s[k + 1..];
    LeadersAround(rest, e - k - 1);
    NoLeaders(rest[..e - k - 1]);
    assert rest[e - k..] == s[e + 1..];
  }
}
