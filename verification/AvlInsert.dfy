/** avl_insert of avl.c. */
module AvlInsert {
  import opened Sequences
  import opened Wrappers
  import opened Trees
  import opened Lists
  import opened AvlHeap
  import opened AvlRotations
  import opened AvlPostInsert
  import opened AvlOrder
  import opened Orders
  import opened AvlFind

  /** `s` with `x` put behind everything whose key is not above its own. */
  ghost predicate InsertedAt<K, E>(comp: (K, K) -> int, s: seq<AvlNode<K, E>>, x: AvlNode<K, E>, k: int) {
    && 0 <= k <= |s|
    && (forall i :: 0 <= i < k ==> comp(x.key, s[i].key) >= 0)
    && (forall i :: k <= i < |s| ==> comp(x.key, s[i].key) < 0)
  }

  lemma {:induction false} SortedInsert<K(!new), E>(comp: (K, K) -> int, s: seq<AvlNode<K, E>>, x: AvlNode<K, E>,
      k: nat)
    requires Comparator(comp) && Sorted(comp, s) && InsertedAt(comp, s, x, k)
    ensures Sorted(comp, InsertAt(s, k, x))
  {
    var r := InsertAt(s, k, x);
    forall i, j | 0 <= i < j < |r| ensures comp(r[i].key, r[j].key) <= 0 {
      if i < k && j == k {
        Opposite(comp, x.key, s[i].key);
      }
    }
  }

  /** The new node leads a run exactly if its predecessor has another key; the run it is put
      behind keeps its leader. */
  lemma {:induction false} LedInsert<K(!new), E>(comp: (K, K) -> int, s: seq<AvlNode<K, E>>, x: AvlNode<K, E>, k: nat)
    requires Comparator(comp) && Sorted(comp, s) && RunsLed(comp, s) && InsertedAt(comp, s, x, k)
    requires x.leader <==> k == 0 || comp(x.key, s[k - 1].key) != 0
    requires k < |s| ==> s[k].leader
    ensures RunsLed(comp, InsertAt(s, k, x))
  {
    var r := InsertAt(s, k, x);
    if k > 0 { Opposite(comp, x.key, s[k - 1].key); }
    forall i | 0 <= i < |r| ensures r[i].leader <==> Starts(comp, r, i) {
      if i < k {
        assert r[i] == s[i] && Starts(comp, s, i) == Starts(comp, r, i);
      } else if i > k + 1 {
        assert r[i] == s[i - 1] && Starts(comp, s, i - 1) == Starts(comp, r, i);
      }
    }
  }

  lemma {:induction false} LeadersInsert<K, E>(s: seq<AvlNode<K, E>>, x: AvlNode<K, E>, k: nat)
    requires k <= |s|
    ensures Leaders(InsertAt(s, k, x)) == Leaders(s[..k]) + (if x.leader then [x] else []) + Leaders(s[k..])
  {
    var r := InsertAt(s, k, x);
    assert r[..k] == s[..k] && r[k] == x && r[k + 1..] == s[k..];
    LeadersAround(r, k);
  }

  /** A node that is not in the tree: its link is in no position of the ring. */
  ghost predicate Detached<K, E>(tree: AvlTree<K, E>, node: AvlNode<K, E>)
    reads tree`items, node.list
  {
    node.list !in RingOf(tree) && node.list.entry == Some(node)
  }

  lemma {:induction false} LinksInsert<K, E>(s: seq<AvlNode<K, E>>, head: ListHead<AvlNode<K, E>>, k: nat,
      x: AvlNode<K, E>)
    requires k <= |s|
    ensures [head] + Links(InsertAt(s, k, x)) == InsertAt([head] + Links(s), k + 1, x.list)
  {
  }

  /** avl_insert_before */
  method InsertBefore<K, E>(tree: AvlTree<K, E>, pos: AvlNode<K, E>, node: AvlNode<K, E>, ghost k: nat)
    requires ListValid(tree) && Detached(tree, node) && k < |tree.items| && pos == tree.items[k]
    modifies tree`count, tree`items, node.list`next, node.list`prev, RingOf(tree)`next, RingOf(tree)`prev
    ensures ListValid(tree) && tree.items == InsertAt(old(tree.items), k, node)
  {
    assert RingOf(tree)[k + 1] == pos.list;
    ListAddTail(node.list, pos.list, RingOf(tree), k + 1);
    tree.count := tree.count + 1;
    LinksInsert(tree.items, tree.listHead, k, node);
    EntriesInsert(tree.items, k, node);
    tree.items := InsertAt(tree.items, k, node);
  }

  /** avl_insert_after */
  method InsertAfter<K, E>(tree: AvlTree<K, E>, pos: AvlNode<K, E>, node: AvlNode<K, E>, ghost k: nat)
    requires ListValid(tree) && Detached(tree, node) && k < |tree.items| && pos == tree.items[k]
    modifies tree`count, tree`items, node.list`next, node.list`prev, RingOf(tree)`next, RingOf(tree)`prev
    ensures ListValid(tree) && tree.items == InsertAt(old(tree.items), k + 1, node)
  {
    assert RingOf(tree)[k + 1] == pos.list;
    ListAdd(node.list, pos.list, RingOf(tree), k + 1);
    tree.count := tree.count + 1;
    LinksInsert(tree.items, tree.listHead, k + 1, node);
    EntriesInsert(tree.items, k + 1, node);
    tree.items := InsertAt(tree.items, k + 1, node);
  }

  /** Hang a new leaf into the empty place on one side of `at` and count it in at's balance. */
  method Hang<K, E>(tree: AvlTree<K, E>, ghost S: set<AvlNode<K, E>>, node: AvlNode<K, E>, at: AvlNode<K, E>,
      toLeft: bool, ghost c: Ctx<AvlNode<K, E>>)
    requires !c.Top? && c.node == at && c.InLeft? == toLeft
    requires Whole(tree, Plug(c, Leaf)) && Elems(Plug(c, Leaf)) <= S
    requires node in S && node !in Elems(Plug(c, Leaf)) && node.left == null && node.right == null && node.balance == 0
    modifies {node}`parent, {at}`left, {at}`right, {at}`balance
    ensures at.balance == old(at.balance) + (if toLeft then -1 else 1) == Balance(Fill(c, Node(Leaf, node, Leaf)))
    ensures Open(tree, S, c.up, HeightAbove(c, 0), Fill(c, Node(Leaf, node, Leaf))) && CtxBalanced(c, 0)
  {
    ghost var t := Node(Leaf, node, Leaf);
    OpenUp(tree, S, c, Leaf);
    assert Opened(tree, S, c, Height<AvlNode<K, E>>(Leaf), Leaf);
    PlugElems(c, Leaf);
    CtxAround(tree, c, null, 0);
    node.parent := at;
    if toLeft {
      at.left := node;
    } else {
      at.right := node;
    }
    CtxAround(tree, c, node, 0);
    assert Opened(tree, S, c, 0, t);
    Adjust(tree, S, at, if toLeft then -1 else 1, c, 0, t);
  }

  /** The cases of avl_insert where the new leaf evens out the balance of `at`. */
  method HangEven<K, E>(tree: AvlTree<K, E>, ghost S: set<AvlNode<K, E>>, node: AvlNode<K, E>, at: AvlNode<K, E>,
      toLeft: bool, ghost c: Ctx<AvlNode<K, E>>)
    requires !c.Top? && c.node == at && c.InLeft? == toLeft && at.balance == if toLeft then 1 else -1
    requires Whole(tree, Plug(c, Leaf)) && Elems(Plug(c, Leaf)) <= S
    requires node in S && node !in Elems(Plug(c, Leaf)) && node.left == null && node.right == null && node.balance == 0
    modifies S`parent, S`left, S`right, S`balance
    ensures Whole(tree, Plug(c, Node(Leaf, node, Leaf))) && at.balance == 0
  {
    PlugElems(c, Leaf);
    Hang(tree, S, node, at, toLeft, c);
    GrowUp(c, 0, Node(Leaf, node, Leaf));
    Close(tree, S, c.up, Fill(c, Node(Leaf, node, Leaf)));
  }

  /** The cases where `at` was a leaf and its subtree grows. */
  method HangDeeper<K, E>(tree: AvlTree<K, E>, ghost S: set<AvlNode<K, E>>, node: AvlNode<K, E>, at: AvlNode<K, E>,
      toLeft: bool, ghost c: Ctx<AvlNode<K, E>>)
    returns (ghost s: Tree<AvlNode<K, E>>, ghost calls: nat)
    requires !c.Top? && c.node == at && c.InLeft? == toLeft && at.balance == 0
    requires Whole(tree, Plug(c, Leaf)) && Elems(Plug(c, Leaf)) <= S
    requires node in S && node !in Elems(Plug(c, Leaf)) && node.left == null && node.right == null && node.balance == 0
    modifies tree`root, S`parent, S`left, S`right, S`balance
    ensures Whole(tree, s) && InOrder(s) == InOrder(Plug(c, Node(Leaf, node, Leaf)))
    ensures calls <= Height(Plug(c, Leaf))
  {
    OpenUp(tree, S, c, Leaf);
    assert Opened(tree, S, c, Height<AvlNode<K, E>>(Leaf), Leaf);
    PlugElems(c, Leaf);
    Hang(tree, S, node, at, toLeft, c);
    GrowUp(c, 0, Node(Leaf, node, Leaf));
    s, calls := PostInsert(tree, S, at, c.up, 1, Fill(c, Node(Leaf, node, Leaf)));
    calls := calls + 1;
    DepthBound(c, Leaf);
  }

  /** Where a new leader goes: position k of the list is hole c of the tree. */
  ghost predicate Place<K, E>(comp: (K, K) -> int, s: seq<AvlNode<K, E>>, x: AvlNode<K, E>, k: int,
      c: Ctx<AvlNode<K, E>>)
    reads s`leader
  {
    && InsertedAt(comp, s, x, k)
    && (k > 0 ==> comp(x.key, s[k - 1].key) != 0)
    && (k < |s| ==> s[k].leader)
    && Leaders(s[..k]) == Before(c) && Leaders(s[k..]) == After(c)
  }

  /** On the way left of `at`. */
  lemma {:induction false} PlaceLeft<K(!new), E>(tree: AvlTree<K, E>, x: AvlNode<K, E>, k: nat, c: Ctx<AvlNode<K, E>>,
      r: Tree<AvlNode<K, E>>)
    requires Valid(tree) && k < |tree.items| && tree.items[k].leader && tree.comp(x.key, tree.items[k].key) < 0
    requires tree.shape == Plug(c, Node(Leaf, tree.items[k], r))
    requires KeyAbove(tree.comp, x.key, Before(c)) && KeyBelow(tree.comp, x.key, After(c))
    ensures Place(tree.comp, tree.items, x, k, InLeft(c, tree.items[k], r))
  {
    LeadersLeft(tree, k, c, r);
    LandingLeft(tree, x, k, c, r);
  }

  lemma {:induction false} LeadersLeft<K(!new), E>(tree: AvlTree<K, E>, k: nat, c: Ctx<AvlNode<K, E>>,
      r: Tree<AvlNode<K, E>>)
    requires Valid(tree) && k < |tree.items| && tree.items[k].leader
    requires tree.shape == Plug(c, Node(Leaf, tree.items[k], r))
    ensures Leaders(tree.items[..k]) == Before(InLeft(c, tree.items[k], r))
    ensures Leaders(tree.items[k..]) == After(InLeft(c, tree.items[k], r))
  {
    SplitAtLeader(tree, k, c, Leaf, r);
    LeadersFrom(tree.items, k);
    assert Before(c) + InOrder<AvlNode<K, E>>(Leaf) == Before(c);
    assert [tree.items[k]] + (InOrder(r) + After(c)) == [tree.items[k]] + InOrder(r) + After(c);
  }

  lemma {:induction false} LandingLeft<K(!new), E>(tree: AvlTree<K, E>, x: AvlNode<K, E>, k: nat, c: Ctx<AvlNode<K, E>>,
      r: Tree<AvlNode<K, E>>)
    requires Valid(tree) && k < |tree.items| && tree.items[k].leader && tree.comp(x.key, tree.items[k].key) < 0
    requires tree.shape == Plug(c, Node(Leaf, tree.items[k], r))
    requires KeyAbove(tree.comp, x.key, Before(c)) && KeyBelow(tree.comp, x.key, After(c))
    ensures InsertedAt(tree.comp, tree.items, x, k)
    ensures k > 0 ==> tree.comp(x.key, tree.items[k - 1].key) != 0
  {
    Landing(tree, x.key, k, c, Leaf, r);
  }

  /** On the way right of `at`: behind the run that `at` leads. */
  lemma {:induction false} PlaceRight<K(!new), E>(tree: AvlTree<K, E>, x: AvlNode<K, E>, k: nat, c: Ctx<AvlNode<K, E>>,
      l: Tree<AvlNode<K, E>>)
    requires Valid(tree) && k < |tree.items| && tree.items[k].leader && tree.comp(x.key, tree.items[k].key) > 0
    requires tree.shape == Plug(c, Node(l, tree.items[k], Leaf))
    requires KeyAbove(tree.comp, x.key, Before(c)) && KeyBelow(tree.comp, x.key, After(c))
    ensures Place(tree.comp, tree.items, x, RunEnd(tree.items, k), InRight(l, tree.items[k], c))
  {
    SplitAtLeader(tree, k, c, l, Leaf);
    SplitAtRun(tree.items, k);
    RightHole(c, l, tree.items[k]);
    LandingRight(tree, x, k, c, l, Leaf);
  }

  lemma {:induction false} RightHole<N>(c: Ctx<N>, l: Tree<N>, n: N)
    ensures Before(InRight(l, n, c)) == (Before(c) + InOrder(l)) + [n]
    ensures After(InRight(l, n, c)) == InOrder<N>(Leaf) + After(c)
  {
  }

  lemma {:induction false} LandingRight<K(!new), E>(tree: AvlTree<K, E>, x: AvlNode<K, E>, k: nat,
      c: Ctx<AvlNode<K, E>>,
      l: Tree<AvlNode<K, E>>, r: Tree<AvlNode<K, E>>)
    requires Valid(tree) && k < |tree.items| && tree.items[k].leader
    requires var diff := tree.comp(x.key, tree.items[k].key); diff >= 0 && (diff > 0 ==> r == Leaf)
    requires tree.shape == Plug(c, Node(l, tree.items[k], r))
    requires KeyAbove(tree.comp, x.key, Before(c)) && KeyBelow(tree.comp, x.key, After(c))
    ensures InsertedAt(tree.comp, tree.items, x, RunEnd(tree.items, k))
    ensures tree.comp(x.key, tree.items[RunEnd(tree.items, k) - 1].key) == 0 <==> tree.comp(x.key, tree.items[k].key) == 0
  {
    Landing(tree, x.key, k, c, l, r);
    var e := RunEnd(tree.items, k);
    assert k <= e - 1 < e;
  }

  /** The duplicates of a run contribute no leaders. */
  lemma {:induction false} SplitAtRun<K, E>(s: seq<AvlNode<K, E>>, k: nat)
    requires k < |s| && s[k].leader
    ensures Leaders(s[..RunEnd(s, k)]) == Leaders(s[..k]) + [s[k]]
    ensures Leaders(s[RunEnd(s, k)..]) == Leaders(s[k + 1..])
  {
    var e := RunEnd(s, k);
    NoLeaders(s[k + 1..e]);
    assert s[..e] == (s[..k] + [s[k]]) + s[k + 1..e];
    assert s[k + 1..] == s[k + 1..e] + s[e..];
    LeadersAppend(s[..k] + [s[k]], s[k + 1..e]);
    LeadersAppend(s[..k], [s[k]]);
    LeadersAppend(s[k + 1..e], s[e..]);
    LeadersAround([s[k]], 0);
  }

  /** After a leader went into its place in list and tree, the invariant holds again. */
  lemma {:induction false} LeaderPlaced<K(!new), E>(tree: AvlTree<K, E>, x: AvlNode<K, E>, s: seq<AvlNode<K, E>>,
      k: nat,
      c: Ctx<AvlNode<K, E>>)
    requires Planned(tree, s, x, k, c)
    requires ListValid(tree) && tree.items == InsertAt(s, k, x)
    requires Whole(tree, tree.shape) && InOrder(tree.shape) == InOrder(Plug(c, Node(Leaf, x, Leaf)))
    ensures Valid(tree)
  {
    OrderPlaced(tree.comp, s, x, k);
    LeafPlaced(s, x, k, c);
  }

  lemma {:induction false} OrderPlaced<K(!new), E>(comp: (K, K) -> int, s: seq<AvlNode<K, E>>, x: AvlNode<K, E>, k: nat)
    requires Comparator(comp) && Ordered(comp, s) && InsertedAt(comp, s, x, k)
    requires x.leader <==> k == 0 || comp(x.key, s[k - 1].key) != 0
    requires k < |s| ==> s[k].leader
    ensures Ordered(comp, InsertAt(s, k, x))
  {
    SortedInsert(comp, s, x, k);
    LedInsert(comp, s, x, k);
  }

  lemma {:induction false} LeafPlaced<K, E>(s: seq<AvlNode<K, E>>, x: AvlNode<K, E>, k: nat, c: Ctx<AvlNode<K, E>>)
    requires k <= |s| && x.leader && Leaders(s[..k]) == Before(c) && Leaders(s[k..]) == After(c)
    ensures Leaders(InsertAt(s, k, x)) == InOrder(Plug(c, Node(Leaf, x, Leaf)))
  {
    LeadersInsert(s, x, k);
    PlugInOrder(c, Node(Leaf, x, Leaf));
    assert InOrder(Node(Leaf, x, Leaf)) == [x];
  }

  /** After a duplicate was listed behind its run, likewise. */
  lemma {:induction false} DuplicatePlaced<K(!new), E>(tree: AvlTree<K, E>, x: AvlNode<K, E>, s: seq<AvlNode<K, E>>,
      k: nat)
    requires Comparator(tree.comp) && Ordered(tree.comp, s) && tree.allowDups
    requires InsertedAt(tree.comp, s, x, k) && k > 0 && tree.comp(x.key, s[k - 1].key) == 0
    requires !x.leader && (k < |s| ==> s[k].leader)
    requires ListValid(tree) && tree.items == InsertAt(s, k, x)
    requires Whole(tree, tree.shape) && InOrder(tree.shape) == Leaders(s)
    ensures Valid(tree)
  {
    OrderPlaced(tree.comp, s, x, k);
    DuplicateUnled(s, x, k);
  }

  lemma {:induction false} DuplicateUnled<K, E>(s: seq<AvlNode<K, E>>, x: AvlNode<K, E>, k: nat)
    requires k <= |s| && !x.leader
    ensures Leaders(InsertAt(s, k, x)) == Leaders(s)
  {
    LeadersInsert(s, x, k);
    LeadersCut(s, k);
    NothingBetween(Leaders(s[..k]), Leaders(s[k..]));
  }

  lemma {:induction false} NothingBetween<T>(a: seq<T>, b: seq<T>)
    ensures a + [] + b == a + b
  {
  }

  lemma {:induction false} LeadersCut<K, E>(s: seq<AvlNode<K, E>>, k: nat)
    requires k <= |s|
    ensures Leaders(s) == Leaders(s[..k]) + Leaders(s[k..])
  {
    LeadersAppend(s[..k], s[k..]);
    assert s[..k] + s[k..] == s;
  }

  /** The order facts that the insertion of a leader starts from, about the old list `s`. */
  ghost predicate Planned<K(!new), E>(tree: AvlTree<K, E>, s: seq<AvlNode<K, E>>, node: AvlNode<K, E>, k: int,
      c: Ctx<AvlNode<K, E>>)
    reads s`leader, node`leader
  {
    && Comparator(tree.comp) && Ordered(tree.comp, s) && Place(tree.comp, s, node, k, c) && node.leader
    && (!tree.allowDups ==> forall i :: 0 <= i < |s| ==> s[i].leader)
  }

  /** The same, said so that a proof looks into it only where it asks for it. */
  ghost predicate IsPlanned<K(!new), E>(tree: AvlTree<K, E>, s: seq<AvlNode<K, E>>, node: AvlNode<K, E>, k: int,
      c: Ctx<AvlNode<K, E>>)
    reads s`leader, node`leader
  {
    forall i {:trigger Planned(tree, s, node, i, c)} :: i == k ==> Planned(tree, s, node, i, c)
  }

  /** The tree has not seen `node`, which is ready to become a leaf. */
  ghost predicate Vacant<K, E>(tree: AvlTree<K, E>, S: set<AvlNode<K, E>>, node: AvlNode<K, E>, t: Tree<AvlNode<K, E>>)
    reads tree`root, Elems(t), node`left, node`right, node`balance
  {
    && Whole(tree, t) && Elems(t) <= S
    && node in S && node !in Elems(t) && node.left == null && node.right == null && node.balance == 0
  }

  lemma {:induction false} NotListed<K, E>(tree: AvlTree<K, E>, node: AvlNode<K, E>)
    requires Detached(tree, node)
    ensures node !in tree.items
  {
    forall k | 0 <= k < |tree.items| ensures tree.items[k] != node {
      assert RingOf(tree)[k + 1] == tree.items[k].list;
    }
  }

  /** Enter `node` into the list next to `pos`; the tree does not notice. */
  method List<K, E>(tree: AvlTree<K, E>, ghost S: set<AvlNode<K, E>>, node: AvlNode<K, E>,
      pos: AvlNode<K, E>, before: bool, ghost k: nat, ghost t: Tree<AvlNode<K, E>>)
    requires ListValid(tree) && Detached(tree, node) && Vacant(tree, S, node, t)
    requires if before then k < |tree.items| && pos == tree.items[k] else 0 < k <= |tree.items| && pos == tree.items[k - 1]
    modifies tree`count, tree`items, node.list`next, node.list`prev, RingOf(tree)`next, RingOf(tree)`prev
    ensures ListValid(tree) && tree.items == InsertAt(old(tree.items), k, node)
    ensures Vacant(tree, S, node, t)
  {
    assert allocated(Elems(t));
    if before {
      InsertBefore(tree, pos, node, k);
    } else {
      InsertAfter(tree, pos, node, k - 1);
    }
  }

  /** The list half of an insertion. */
  method ListLeader<K(!new), E>(tree: AvlTree<K, E>, ghost S: set<AvlNode<K, E>>, node: AvlNode<K, E>,
      pos: AvlNode<K, E>, before: bool, ghost k: nat, ghost c: Ctx<AvlNode<K, E>>)
    requires ListValid(tree) && Detached(tree, node) && Planned(tree, tree.items, node, k, c)
    requires Vacant(tree, S, node, tree.shape)
    requires if before then k < |tree.items| && pos == tree.items[k] else 0 < k <= |tree.items| && pos == tree.items[k - 1]
    modifies tree`count, tree`items, node.list`next, node.list`prev, RingOf(tree)`next, RingOf(tree)`prev
    ensures ListValid(tree) && tree.items == InsertAt(old(tree.items), k, node)
    ensures Planned(tree, old(tree.items), node, k, c) && Vacant(tree, S, node, tree.shape)
  {
    List(tree, S, node, pos, before, k, tree.shape);
  }

  /** The tree half, where the other side of `at` was the higher one. */
  method TreeLeaderEven<K(!new), E>(tree: AvlTree<K, E>, ghost S: set<AvlNode<K, E>>, node: AvlNode<K, E>,
      at: AvlNode<K, E>,
      toLeft: bool, ghost s: seq<AvlNode<K, E>>, ghost k: nat, ghost c: Ctx<AvlNode<K, E>>)
    requires Planned(tree, s, node, k, c) && ListValid(tree) && tree.items == InsertAt(s, k, node)
    requires tree.shape == Plug(c, Leaf) && Vacant(tree, S, node, tree.shape)
    requires !c.Top? && c.node == at && c.InLeft? == toLeft && at.balance == if toLeft then 1 else -1
    modifies tree`shape, S`parent, S`left, S`right, S`balance
    ensures Valid(tree)
  {
    assert IsPlanned(tree, s, node, k, c);
    GrowEven(tree, S, node, at, toLeft, s, k, c);
    assert ListValid(tree);
    assert Planned(tree, s, node, k, c);
    LeaderPlaced(tree, node, s, k, c);
  }

  method GrowEven<K(!new), E>(tree: AvlTree<K, E>, ghost S: set<AvlNode<K, E>>, node: AvlNode<K, E>, at: AvlNode<K, E>,
      toLeft: bool, ghost s: seq<AvlNode<K, E>>, ghost k: nat, ghost c: Ctx<AvlNode<K, E>>)
    requires IsPlanned(tree, s, node, k, c) && Vacant(tree, S, node, Plug(c, Leaf))
    requires !c.Top? && c.node == at && c.InLeft? == toLeft && at.balance == if toLeft then 1 else -1
    modifies tree`shape, S`parent, S`left, S`right, S`balance
    ensures IsPlanned(tree, s, node, k, c)
    ensures Whole(tree, tree.shape) && tree.shape == Plug(c, Node(Leaf, node, Leaf))
  {
    HangEven(tree, S, node, at, toLeft, c);
    assert IsPlanned(tree, s, node, k, c);
    tree.shape := Plug(c, Node(Leaf, node, Leaf));
  }

  /** The tree half, where `at` was a leaf. */
  method TreeLeaderDeeper<K(!new), E>(tree: AvlTree<K, E>, ghost S: set<AvlNode<K, E>>, node: AvlNode<K, E>,
      at: AvlNode<K, E>,
      toLeft: bool, ghost s: seq<AvlNode<K, E>>, ghost k: nat, ghost c: Ctx<AvlNode<K, E>>)
    requires Planned(tree, s, node, k, c) && ListValid(tree) && tree.items == InsertAt(s, k, node)
    requires tree.shape == Plug(c, Leaf) && Vacant(tree, S, node, tree.shape)
    requires !c.Top? && c.node == at && c.InLeft? == toLeft && at.balance == 0
    modifies tree`root, tree`shape, S`parent, S`left, S`right, S`balance
    ensures Valid(tree)
  {
    assert IsPlanned(tree, s, node, k, c);
    GrowDeeper(tree, S, node, at, toLeft, s, k, c);
    assert ListValid(tree);
    assert Planned(tree, s, node, k, c);
    LeaderPlaced(tree, node, s, k, c);
  }

  method GrowDeeper<K(!new), E>(tree: AvlTree<K, E>, ghost S: set<AvlNode<K, E>>, node: AvlNode<K, E>,
      at: AvlNode<K, E>,
      toLeft: bool, ghost s: seq<AvlNode<K, E>>, ghost k: nat, ghost c: Ctx<AvlNode<K, E>>)
    requires IsPlanned(tree, s, node, k, c) && Vacant(tree, S, node, Plug(c, Leaf))
    requires !c.Top? && c.node == at && c.InLeft? == toLeft && at.balance == 0
    modifies tree`root, tree`shape, S`parent, S`left, S`right, S`balance
    ensures IsPlanned(tree, s, node, k, c)
    ensures Whole(tree, tree.shape) && InOrder(tree.shape) == InOrder(Plug(c, Node(Leaf, node, Leaf)))
  {
    ghost var u, _ := HangDeeper(tree, S, node, at, toLeft, c);
    assert IsPlanned(tree, s, node, k, c);
    tree.shape := u;
  }

  /** The first lines of avl_insert. */
  method Reset<K(!new), E>(tree: AvlTree<K, E>, node: AvlNode<K, E>)
    requires Valid(tree) && Detached(tree, node)
    modifies node`parent, node`left, node`right, node`balance, node`leader
    ensures Valid(tree) && Vacant(tree, ItemSet(tree.items) + {node}, node, tree.shape)
    ensures node !in tree.items && node.parent == null && node.leader
  {
    NotListed(tree, node);
    TreeIsLeaders(tree);
    ClearNode(tree, node);
  }

  method ClearNode<K, E>(tree: AvlTree<K, E>, node: AvlNode<K, E>)
    requires OrderValid(tree) && Whole(tree, tree.shape) && ListValid(tree) && node !in tree.items
    requires node !in Elems(tree.shape)
    modifies node`parent, node`left, node`right, node`balance, node`leader
    ensures OrderValid(tree) && Whole(tree, tree.shape) && ListValid(tree)
    ensures node.parent == null && node.left == null && node.right == null && node.balance == 0 && node.leader
  {
    assert allocated(Elems(tree.shape));
    node.parent := null;
    node.left := null;
    node.right := null;
    node.balance := 0;
    node.leader := true;
  }

  method InsertFirst<K(!new), E>(tree: AvlTree<K, E>, node: AvlNode<K, E>)
    requires Valid(tree) && Detached(tree, node) && tree.root == null
    requires node.parent == null && node.left == null && node.right == null && node.balance == 0 && node.leader
    modifies tree`count, tree`items, tree`root, tree`shape
    modifies node.list`next, node.list`prev, RingOf(tree)`next, RingOf(tree)`prev
    ensures Valid(tree) && tree.items == InsertAt(old(tree.items), 0, node)
  {
    EmptyTree(tree);
    ListFirst(tree, node);
    tree.root := node;
    tree.shape := Node(Leaf, node, Leaf);
    assert ListValid(tree);
    assert Leaders([node]) == [node];
  }

  /** The list of one node. */
  method ListFirst<K, E>(tree: AvlTree<K, E>, node: AvlNode<K, E>)
    requires ListValid(tree) && Detached(tree, node) && tree.items == []
    modifies tree`count, tree`items, node.list`next, node.list`prev, RingOf(tree)`next, RingOf(tree)`prev
    ensures ListValid(tree) && tree.items == [node]
  {
    assert RingOf(tree) == [tree.listHead];
    ListAdd(node.list, tree.listHead, RingOf(tree), 0);
    tree.count := 1;
    LinksInsert(tree.items, tree.listHead, 0, node);
    tree.items := InsertAt(tree.items, 0, node);
    assert tree.items == [node];
  }

  method InsertDuplicate<K(!new), E>(tree: AvlTree<K, E>, node: AvlNode<K, E>, last: AvlNode<K, E>, ghost e: nat)
    requires Valid(tree) && Detached(tree, node) && tree.allowDups && node !in tree.items
    requires 0 < e <= |tree.items| && last == tree.items[e - 1] && (e < |tree.items| ==> tree.items[e].leader)
    requires InsertedAt(tree.comp, tree.items, node, e) && tree.comp(node.key, last.key) == 0
    modifies tree`count, tree`items, node`leader, node.list`next, node.list`prev, RingOf(tree)`next, RingOf(tree)`prev
    ensures Valid(tree) && tree.items == InsertAt(old(tree.items), e, node)
  {
    ghost var s := tree.items;
    TreeIsLeaders(tree);
    ListDuplicate(tree, node, last, e);
    DuplicatePlaced(tree, node, s, e);
  }

  method ListDuplicate<K, E>(tree: AvlTree<K, E>, node: AvlNode<K, E>, last: AvlNode<K, E>, ghost e: nat)
    requires ListValid(tree) && OrderValid(tree) && Whole(tree, tree.shape)
    requires Detached(tree, node) && node !in tree.items && node !in Elems(tree.shape)
    requires 0 < e <= |tree.items| && last == tree.items[e - 1]
    modifies tree`count, tree`items, node`leader, node.list`next, node.list`prev, RingOf(tree)`next, RingOf(tree)`prev
    ensures ListValid(tree) && tree.items == InsertAt(old(tree.items), e, node)
    ensures Ordered(tree.comp, old(tree.items)) && InOrder(tree.shape) == Leaders(old(tree.items)) && Whole(tree, tree.shape)
    ensures !node.leader && forall x :: x in old(tree.items) ==> x.leader == old(x.leader)
  {
    assert allocated(Elems(tree.shape));
    node.leader := false;
    assert OrderValid(tree);
    InsertAfter(tree, last, node, e - 1);
  }

  /** The new leader is listed, then hung below `at`. */
  method AddLeader<K(!new), E>(tree: AvlTree<K, E>, ghost S: set<AvlNode<K, E>>, node: AvlNode<K, E>, at: AvlNode<K, E>,
      pos: AvlNode<K, E>, toLeft: bool, even: bool, ghost k: nat, ghost c: Ctx<AvlNode<K, E>>)
    requires ListValid(tree) && Detached(tree, node) && Planned(tree, tree.items, node, k, c)
    requires tree.shape == Plug(c, Leaf) && Vacant(tree, S, node, tree.shape)
    requires !c.Top? && c.node == at && c.InLeft? == toLeft && at.balance == if !even then 0 else if toLeft then 1 else -1
    requires if toLeft then k < |tree.items| && pos == tree.items[k] else 0 < k <= |tree.items| && pos == tree.items[k - 1]
    modifies tree`count, tree`items, tree`root, tree`shape
    modifies node.list`next, node.list`prev, RingOf(tree)`next, RingOf(tree)`prev
    modifies S`parent, S`left, S`right, S`balance
    ensures Valid(tree) && tree.items == InsertAt(old(tree.items), k, node)
  {
    ghost var s := tree.items;
    ListLeader(tree, S, node, pos, toLeft, k, c);
    if even {
      TreeLeaderEven(tree, S, node, at, toLeft, s, k, c);
    } else {
      TreeLeaderDeeper(tree, S, node, at, toLeft, s, k, c);
    }
  }

  lemma {:induction false} FieldBalance<K, E>(tree: AvlTree<K, E>, c: Ctx<AvlNode<K, E>>, l: Tree<AvlNode<K, E>>,
      at: AvlNode<K, E>,
      r: Tree<AvlNode<K, E>>)
    requires Whole(tree, Plug(c, Node(l, at, r)))
    ensures -1 <= at.balance <= 1
    ensures l == Leaf ==> at.balance >= 0
    ensures r == Leaf ==> at.balance <= 0
  {
    OpenUp(tree, Elems(Plug(c, Node(l, at, r))), c, Node(l, at, r));
    assert Opened(tree, Elems(Plug(c, Node(l, at, r))), c, Height(Node(l, at, r)), Node(l, at, r));
    assert Balance(Node(l, at, r)) == Height(r) - Height(l);
  }

  /** The branches of avl_insert for a key that is not there yet. */
  method InsertLeader<K(!new), E>(tree: AvlTree<K, E>, ghost S: set<AvlNode<K, E>>, node: AvlNode<K, E>,
      at: AvlNode<K, E>, last: AvlNode<K, E>,
      diff: int, ghost k: nat, ghost e: nat, ghost c: Ctx<AvlNode<K, E>>, ghost l: Tree<AvlNode<K, E>>,
      ghost r: Tree<AvlNode<K, E>>)
    requires ListValid(tree) && Detached(tree, node) && Vacant(tree, S, node, tree.shape)
    requires k < e <= |tree.items| && at == tree.items[k] && last == tree.items[e - 1]
    requires tree.shape == Plug(c, Node(l, at, r)) && diff != 0
    requires diff < 0 ==> l == Leaf && Planned(tree, tree.items, node, k, InLeft(c, at, r))
    requires diff > 0 ==> r == Leaf && Planned(tree, tree.items, node, e, InRight(l, at, c))
    modifies tree`count, tree`items, tree`root, tree`shape
    modifies node.list`next, node.list`prev, RingOf(tree)`next, RingOf(tree)`prev
    modifies S`parent, S`left, S`right, S`balance
    ensures Valid(tree) && tree.items == InsertAt(old(tree.items), if diff < 0 then k else e, node)
  {
    FieldBalance(tree, c, l, at, r);
    if at.balance == 1 || (at.balance != -1 && diff < 0) {
      AddLeader(tree, S, node, at, at, true, at.balance == 1, k, InLeft(c, at, r));
    } else {
      AddLeader(tree, S, node, at, last, false, at.balance == -1, e, InRight(l, at, c));
    }
  }

  ghost predicate Present<K, E>(comp: (K, K) -> int, s: seq<AvlNode<K, E>>, key: K) {
    exists i :: 0 <= i < |s| && comp(key, s[i].key) == 0
  }

  /** The list after `x` was accepted. */
  ghost predicate Accepted<K, E>(comp: (K, K) -> int, before: seq<AvlNode<K, E>>, x: AvlNode<K, E>,
      after: seq<AvlNode<K, E>>) {
    exists k :: InsertedAt(comp, before, x, k) && after == InsertAt(before, k, x)
  }

  /** avl_insert. A key that is present already is refused, and list, tree and count stay as they
      were, unless the tree allows duplicates. Otherwise the node is listed behind everything whose
      key is not above its own, so duplicates keep the order in which they came. */
  method Insert<K(!new), E>(tree: AvlTree<K, E>, node: AvlNode<K, E>) returns (result: int)
    requires Valid(tree) && Detached(tree, node)
    modifies tree`count, tree`items, tree`root, tree`shape
    modifies node.list`next, node.list`prev, RingOf(tree)`next, RingOf(tree)`prev
    modifies node, tree.items`parent, tree.items`left, tree.items`right, tree.items`balance
    ensures Valid(tree)
    ensures result == if !tree.allowDups && Present(tree.comp, old(tree.items), node.key) then -1 else 0
    ensures result == -1 ==> tree.items == old(tree.items) && tree.shape == old(tree.shape) && tree.count == old(tree.count)
    ensures result == 0 ==> Accepted(tree.comp, old(tree.items), node, tree.items)
  {
    Reset(tree, node);
    if tree.root == null {
      EmptyTree(tree);
      InsertFirst(tree, node);
      assert InsertedAt(tree.comp, old(tree.items), node, 0);
      return 0;
    }
    result := InsertBelow(tree, node);
  }

  /** What the search part of avl_insert finds out: the node `at` where the descent stops, at
      position k of the list, and the last duplicate behind it, at position e - 1. */
  ghost predicate Located<K(!new), E>(tree: AvlTree<K, E>, node: AvlNode<K, E>, at: AvlNode<K, E>, last: AvlNode<K, E>,
      k: nat, e: nat, c: Ctx<AvlNode<K, E>>, l: Tree<AvlNode<K, E>>, r: Tree<AvlNode<K, E>>)
    reads tree, tree.items`leader, node`leader
  {
    var diff := tree.comp(node.key, at.key);
    && k < e <= |tree.items| && at == tree.items[k] && last == tree.items[e - 1]
    && tree.shape == Plug(c, Node(l, at, r))
    && (Present(tree.comp, tree.items, node.key) <==> diff == 0)
    && (diff < 0 ==> l == Leaf && Planned(tree, tree.items, node, k, InLeft(c, at, r)))
    && (diff > 0 ==> r == Leaf && Planned(tree, tree.items, node, e, InRight(l, at, c)))
    && (diff == 0 ==> InsertedAt(tree.comp, tree.items, node, e) && tree.comp(node.key, last.key) == 0)
    && (e < |tree.items| ==> tree.items[e].leader)
  }

  lemma {:induction false} LocatedLeft<K(!new), E>(tree: AvlTree<K, E>, node: AvlNode<K, E>, k: nat,
      c: Ctx<AvlNode<K, E>>,
      r: Tree<AvlNode<K, E>>)
    requires Valid(tree) && node.leader && k < |tree.items| && tree.items[k].leader
    requires tree.shape == Plug(c, Node(Leaf, tree.items[k], r))
    requires KeyAbove(tree.comp, node.key, Before(c)) && KeyBelow(tree.comp, node.key, After(c))
    requires tree.comp(node.key, tree.items[k].key) < 0
    ensures Located(tree, node, tree.items[k], tree.items[RunEnd(tree.items, k) - 1], k, RunEnd(tree.items, k), c, Leaf, r)
  {
    Absent(tree, node.key, k, c, Leaf, r);
    PlaceLeft(tree, node, k, c, r);
  }

  lemma {:induction false} Absent<K(!new), E>(tree: AvlTree<K, E>, key: K, k: nat, c: Ctx<AvlNode<K, E>>,
      l: Tree<AvlNode<K, E>>,
      r: Tree<AvlNode<K, E>>)
    requires Valid(tree) && k < |tree.items| && tree.items[k].leader && tree.shape == Plug(c, Node(l, tree.items[k], r))
    requires KeyAbove(tree.comp, key, Before(c)) && KeyBelow(tree.comp, key, After(c))
    requires (tree.comp(key, tree.items[k].key) < 0 && l == Leaf) || (tree.comp(key, tree.items[k].key) > 0 && r == Leaf)
    ensures !Present(tree.comp, tree.items, key)
  {
    Landing(tree, key, k, c, l, r);
  }

  lemma {:induction false} LocatedRight<K(!new), E>(tree: AvlTree<K, E>, node: AvlNode<K, E>, k: nat,
      c: Ctx<AvlNode<K, E>>,
      l: Tree<AvlNode<K, E>>)
    requires Valid(tree) && node.leader && k < |tree.items| && tree.items[k].leader
    requires tree.shape == Plug(c, Node(l, tree.items[k], Leaf))
    requires KeyAbove(tree.comp, node.key, Before(c)) && KeyBelow(tree.comp, node.key, After(c))
    requires tree.comp(node.key, tree.items[k].key) > 0
    ensures Located(tree, node, tree.items[k], tree.items[RunEnd(tree.items, k) - 1], k, RunEnd(tree.items, k), c, l, Leaf)
  {
    Absent(tree, node.key, k, c, l, Leaf);
    PlaceRight(tree, node, k, c, l);
  }

  lemma {:induction false} LocatedSame<K(!new), E>(tree: AvlTree<K, E>, node: AvlNode<K, E>, k: nat,
      c: Ctx<AvlNode<K, E>>,
      l: Tree<AvlNode<K, E>>, r: Tree<AvlNode<K, E>>)
    requires Valid(tree) && node.leader && k < |tree.items| && tree.items[k].leader
    requires tree.shape == Plug(c, Node(l, tree.items[k], r))
    requires KeyAbove(tree.comp, node.key, Before(c)) && KeyBelow(tree.comp, node.key, After(c))
    requires tree.comp(node.key, tree.items[k].key) == 0
    ensures Located(tree, node, tree.items[k], tree.items[RunEnd(tree.items, k) - 1], k, RunEnd(tree.items, k), c, l, r)
  {
    LandingRight(tree, node, k, c, l, r);
  }

  /** The descent decides whether the key is there, and where a new leader would go. */
  lemma {:induction false} LocatedBy<K(!new), E>(tree: AvlTree<K, E>, node: AvlNode<K, E>, at: AvlNode<K, E>,
      last: AvlNode<K, E>,
      k: nat, e: nat, c: Ctx<AvlNode<K, E>>, l: Tree<AvlNode<K, E>>, r: Tree<AvlNode<K, E>>)
    requires Valid(tree) && node.leader && k < |tree.items| && at.leader && tree.shape == Plug(c, Node(l, at, r))
    requires at == tree.items[k] && e == RunEnd(tree.items, k) && last == tree.items[e - 1]
    requires KeyAbove(tree.comp, node.key, Before(c)) && KeyBelow(tree.comp, node.key, After(c))
    requires tree.comp(node.key, at.key) < 0 ==> l == Leaf
    requires tree.comp(node.key, at.key) > 0 ==> r == Leaf
    ensures Located(tree, node, at, last, k, e, c, l, r)
  {
    if tree.comp(node.key, at.key) < 0 {
      LocatedLeft(tree, node, k, c, r);
    } else if tree.comp(node.key, at.key) > 0 {
      LocatedRight(tree, node, k, c, l);
    } else {
      LocatedSame(tree, node, k, c, l, r);
    }
  }

  /** The loop of avl_insert that runs from a leader to the last duplicate behind it. */
  method RunLast<K, E>(tree: AvlTree<K, E>, at: AvlNode<K, E>, ghost k: nat) returns (last: AvlNode<K, E>)
    requires ListValid(tree) && k < |tree.items| && at == tree.items[k]
    ensures ListValid(tree) && last == tree.items[RunEnd(tree.items, k) - 1]
  {
    last := at;
    ghost var i := k;
    Steps(tree, i);
    while !ListIsLast(last.list, tree.listHead)
      invariant ListValid(tree) && k <= i < |tree.items| && last == tree.items[i]
      invariant ListIsLast(last.list, tree.listHead) <==> i == |tree.items| - 1
      invariant i < |tree.items| - 1 ==> LeadsTo(last.list.next, tree.items[i + 1])
      invariant RunEnd(tree.items, i) == RunEnd(tree.items, k)
      decreases |tree.items| - i
    {
      var next := last.list.next.entry.value;
      if next.leader {
        break;
      }
      last, i := next, i + 1;
      Steps(tree, i);
    }
  }

  method Walk<K(!new), E>(tree: AvlTree<K, E>, ghost node: AvlNode<K, E>, at: AvlNode<K, E>, ghost k: nat)
    returns (last: AvlNode<K, E>)
    requires Valid(tree) && Detached(tree, node) && Vacant(tree, ItemSet(tree.items) + {node}, node, tree.shape)
    requires k < |tree.items| && at == tree.items[k]
    ensures Valid(tree) && Detached(tree, node) && Vacant(tree, ItemSet(tree.items) + {node}, node, tree.shape)
    ensures last == tree.items[RunEnd(tree.items, k) - 1]
  {
    assert allocated(Elems(tree.shape));
    last := RunLast(tree, at, k);
  }

  method InsertBelow<K(!new), E>(tree: AvlTree<K, E>, node: AvlNode<K, E>) returns (result: int)
    requires Valid(tree) && Detached(tree, node) && tree.root != null && node !in tree.items && node.leader
    requires Vacant(tree, ItemSet(tree.items) + {node}, node, tree.shape)
    modifies tree`count, tree`items, tree`root, tree`shape
    modifies node.list`next, node.list`prev, RingOf(tree)`next, RingOf(tree)`prev
    modifies node, tree.items`parent, tree.items`left, tree.items`right, tree.items`balance
    ensures Valid(tree)
    ensures result == if !tree.allowDups && Present(tree.comp, old(tree.items), node.key) then -1 else 0
    ensures result == -1 ==> tree.items == old(tree.items) && tree.shape == old(tree.shape) && tree.count == old(tree.count)
    ensures result == 0 ==> Accepted(tree.comp, old(tree.items), node, tree.items)
  {
    var at := FindRec(tree.root, node.key, tree.comp, null, tree.shape).0;
    ghost var k, c, l, r := Descend(tree, node.key);
    var last := Walk(tree, node, at, k);
    result := Enter(tree, node, at, last, k, c, l, r);
  }

  method Enter<K(!new), E>(tree: AvlTree<K, E>, node: AvlNode<K, E>, at: AvlNode<K, E>, last: AvlNode<K, E>,
      ghost k: nat, ghost c: Ctx<AvlNode<K, E>>, ghost l: Tree<AvlNode<K, E>>, ghost r: Tree<AvlNode<K, E>>)
    returns (result: int)
    requires Valid(tree) && Detached(tree, node) && node !in tree.items && node.leader
    requires Vacant(tree, ItemSet(tree.items) + {node}, node, tree.shape)
    requires k < |tree.items| && at == tree.items[k] && at.leader && last == tree.items[RunEnd(tree.items, k) - 1]
    requires tree.shape == Plug(c, Node(l, at, r))
    requires KeyAbove(tree.comp, node.key, Before(c)) && KeyBelow(tree.comp, node.key, After(c))
    requires tree.comp(node.key, at.key) < 0 ==> l == Leaf
    requires tree.comp(node.key, at.key) > 0 ==> r == Leaf
    modifies tree`count, tree`items, tree`root, tree`shape
    modifies node.list`next, node.list`prev, RingOf(tree)`next, RingOf(tree)`prev
    modifies node, tree.items`parent, tree.items`left, tree.items`right, tree.items`balance
    ensures Valid(tree)
    ensures result == if !tree.allowDups && Present(tree.comp, old(tree.items), node.key) then -1 else 0
    ensures result == -1 ==> tree.items == old(tree.items) && tree.shape == old(tree.shape) && tree.count == old(tree.count)
    ensures result == 0 ==> Accepted(tree.comp, old(tree.items), node, tree.items)
  {
    ghost var e := RunEnd(tree.items, k);
    LocatedBy(tree, node, at, last, k, e, c, l, r);
    result := InsertAtNode(tree, node, at, last, k, e, c, l, r);
  }

  /** The rest of avl_insert. */
  method InsertAtNode<K(!new), E>(tree: AvlTree<K, E>, node: AvlNode<K, E>, at: AvlNode<K, E>, last: AvlNode<K, E>,
      ghost k: nat, ghost e: nat, ghost c: Ctx<AvlNode<K, E>>, ghost l: Tree<AvlNode<K, E>>,
      ghost r: Tree<AvlNode<K, E>>)
    returns (result: int)
    requires Valid(tree) && Detached(tree, node) && node !in tree.items
    requires Vacant(tree, ItemSet(tree.items) + {node}, node, tree.shape)
    requires Located(tree, node, at, last, k, e, c, l, r)
    modifies tree`count, tree`items, tree`root, tree`shape
    modifies node.list`next, node.list`prev, RingOf(tree)`next, RingOf(tree)`prev
    modifies node, tree.items`parent, tree.items`left, tree.items`right, tree.items`balance
    ensures Valid(tree)
    ensures result == if !tree.allowDups && Present(tree.comp, old(tree.items), node.key) then -1 else 0
    ensures result == -1 ==> tree.items == old(tree.items) && tree.shape == old(tree.shape) && tree.count == old(tree.count)
    ensures result == 0 ==> Accepted(tree.comp, old(tree.items), node, tree.items)
  {
    var diff := tree.comp(node.key, at.key);
    if diff == 0 {
      if !tree.allowDups {
        return -1;
      }
      InsertDuplicate(tree, node, last, e);
      return 0;
    }
    InsertLeader(tree, ItemSet(tree.items) + {node}, node, at, last, diff, k, e, c, l, r);
    return 0;
  }
}
