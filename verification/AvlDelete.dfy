/** avl_delete of avl.c. */
module AvlDelete {
  import opened Sequences
  import opened Trees
  import opened Lists
  import opened AvlHeap
  import opened AvlRotations
  import opened AvlOrder
  import opened Orders
  import opened AvlFind
  import opened AvlDeleteWorker

  /** Everything is as it should be once the node at position k is also taken off the list. */
  ghost predicate Unlisted<K(!new), E>(tree: AvlTree<K, E>, k: nat)
    reads tree, tree.items, RingOf(tree), tree.listHead, Links(tree.items), Elems(tree.shape)
  {
    && Comparator(tree.comp) && ListValid(tree) && Whole(tree, tree.shape) && k < |tree.items|
    && Due(tree, RemoveAt(tree.items, k), InOrder(tree.shape))
  }

  /** The order half of the invariant, for a list `s` and a traversal `leaders`. */
  ghost predicate Due<K, E>(tree: AvlTree<K, E>, s: seq<AvlNode<K, E>>, leaders: seq<AvlNode<K, E>>)
    reads s`leader
  {
    && Ordered(tree.comp, s) && Leaders(s) == leaders
    && (!tree.allowDups ==> forall i :: 0 <= i < |s| ==> s[i].leader)
  }

  /** The list is in order, and Due without the node at position k; said so that a proof looks into it
      only where it asks for it. */
  ghost predicate ListDue<K, E>(tree: AvlTree<K, E>, k: nat, leaders: seq<AvlNode<K, E>>)
    reads tree`items, tree`count, tree.items`leader, RingOf(tree)`next, RingOf(tree)`prev, tree.listHead`entry, Links(tree.items)`entry
  {
    forall l {:trigger DueAt(tree, k, l)} :: l == leaders ==> DueAt(tree, k, l)
  }

  ghost predicate DueAt<K, E>(tree: AvlTree<K, E>, k: nat, leaders: seq<AvlNode<K, E>>)
    reads tree`items, tree`count, tree.items`leader, RingOf(tree)`next, RingOf(tree)`prev, tree.listHead`entry, Links(tree.items)`entry
  {
    ListValid(tree) && k < |tree.items| && Due(tree, RemoveAt(tree.items, k), leaders)
  }

  lemma {:induction false} LinksRemove<K, E>(s: seq<AvlNode<K, E>>, head: ListHead<AvlNode<K, E>>, k: nat)
    requires k < |s|
    ensures [head] + Links(RemoveAt(s, k)) == RemoveAt([head] + Links(s), k + 1)
  {
  }

  /** avl_remove */
  method Remove<K(!new), E>(tree: AvlTree<K, E>, node: AvlNode<K, E>, ghost k: nat)
    requires Unlisted(tree, k) && node == tree.items[k]
    modifies tree`count, tree`items, RingOf(tree)`next, RingOf(tree)`prev
    ensures Valid(tree) && tree.items == RemoveAt(old(tree.items), k)
    ensures node.list.next == null && node.list.prev == null
  {
    Unlink(tree, node, k);
  }

  method Unlink<K, E>(tree: AvlTree<K, E>, node: AvlNode<K, E>, ghost k: nat)
    requires ListValid(tree) && Whole(tree, tree.shape) && k < |tree.items| && node == tree.items[k]
    requires Due(tree, RemoveAt(tree.items, k), InOrder(tree.shape))
    modifies tree`count, tree`items, RingOf(tree)`next, RingOf(tree)`prev
    ensures ListValid(tree) && Whole(tree, tree.shape)
    ensures tree.items == RemoveAt(old(tree.items), k) && Due(tree, tree.items, InOrder(tree.shape))
    ensures node.list.next == null && node.list.prev == null
  {
    assert allocated(Elems(tree.shape));
    DropLink(tree, node, k);
  }

  method DropLink<K, E>(tree: AvlTree<K, E>, node: AvlNode<K, E>, ghost k: nat)
    requires ListValid(tree) && k < |tree.items| && node == tree.items[k]
    modifies tree`count, tree`items, RingOf(tree)`next, RingOf(tree)`prev
    ensures ListValid(tree) && tree.items == RemoveAt(old(tree.items), k)
    ensures node.list.next == null && node.list.prev == null
  {
    assert RingOf(tree)[k + 1] == node.list;
    ListDel(node.list, RingOf(tree), k + 1);
    tree.count := tree.count - 1;
    LinksRemove(tree.items, tree.listHead, k);
    EntriesRemove(tree.items, k);
    tree.items := RemoveAt(tree.items, k);
  }

  lemma {:induction false} SortedRemove<K(!new), E>(comp: (K, K) -> int, s: seq<AvlNode<K, E>>, k: nat)
    requires Sorted(comp, s) && k < |s|
    ensures Sorted(comp, RemoveAt(s, k))
  {
    var r := RemoveAt(s, k);
    forall i, j | 0 <= i < j < |r| ensures comp(r[i].key, r[j].key) <= 0 {
      var i2, j2 := if i < k then i else i + 1, if j < k then j else j + 1;
      assert r[i] == s[i2] && r[j] == s[j2];
      assert comp(s[i2].key, s[j2].key) <= 0;
    }
  }

  /** Without s[k], only its successor gets a new predecessor. */
  lemma {:induction false} LedRemove<K(!new), E>(comp: (K, K) -> int, s: seq<AvlNode<K, E>>, k: nat)
    requires k < |s|
    requires forall i :: 0 <= i < |s| && i != k && i != k + 1 ==> (s[i].leader <==> Starts(comp, s, i))
    requires k + 1 < |s| ==> (s[k + 1].leader <==> k == 0 || comp(s[k - 1].key, s[k + 1].key) != 0)
    ensures RunsLed(comp, RemoveAt(s, k))
  {
    var r := RemoveAt(s, k);
    forall i | 0 <= i < |r| ensures r[i].leader <==> Starts(comp, r, i) {
      if i < k {
        assert r[i] == s[i];
      } else {
        assert r[i] == s[i + 1];
      }
    }
  }

  lemma {:induction false} LeadersRemove<K, E>(s: seq<AvlNode<K, E>>, k: nat)
    requires k < |s|
    ensures Leaders(RemoveAt(s, k)) == Leaders(s[..k]) + Leaders(s[k + 1..])
  {
    LeadersAppend(s[..k], s[k + 1..]);
  }

  /** Taking away a duplicate, or a leader without duplicates, leaves a well-led list. */
  lemma {:induction false} OrderGone<K(!new), E>(comp: (K, K) -> int, s: seq<AvlNode<K, E>>, k: nat)
    requires Comparator(comp) && Ordered(comp, s) && k < |s|
    requires s[k].leader ==> k + 1 == |s| || s[k + 1].leader
    ensures Ordered(comp, RemoveAt(s, k))
  {
    SortedRemove(comp, s, k);
    if 0 < k && k + 1 < |s| {
      Transitive(comp, s[k - 1].key, s[k].key, s[k + 1].key);
      assert s[k].leader <==> Starts(comp, s, k);
      assert s[k + 1].leader <==> Starts(comp, s, k + 1);
    } else if k + 1 < |s| {
      assert Starts(comp, s, k);
    }
    LedRemove(comp, s, k);
  }

  /** Taking away a leader whose first duplicate has been promoted. */
  lemma {:induction false} OrderPromoted<K(!new), E>(comp: (K, K) -> int, s: seq<AvlNode<K, E>>, k: nat)
    requires Comparator(comp) && Sorted(comp, s) && k + 1 < |s| && s[k + 1].leader
    requires forall i :: 0 <= i < |s| && i != k && i != k + 1 ==> (s[i].leader <==> Starts(comp, s, i))
    requires Starts(comp, s, k)
    ensures Ordered(comp, RemoveAt(s, k))
  {
    SortedRemove(comp, s, k);
    if 0 < k {
      Transitive(comp, s[k - 1].key, s[k].key, s[k + 1].key);
    }
    LedRemove(comp, s, k);
  }

  /** The case of avl_delete where the node is a duplicate and not in the tree. */
  lemma {:induction false} DuplicateGone<K(!new), E>(tree: AvlTree<K, E>, k: nat)
    requires Valid(tree) && k < |tree.items| && !tree.items[k].leader
    ensures Unlisted(tree, k)
  {
    OrderGone(tree.comp, tree.items, k);
    LeadersAround(tree.items, k);
    LeadersRemove(tree.items, k);
    assert Leaders(tree.items[..k]) + [] + Leaders(tree.items[k + 1..]) == Leaders(tree.items[..k]) + Leaders(tree.items[k + 1..]);
  }

  /** The case where the first duplicate takes the leader's place. Shape and balances of the tree
      stay the same. */
  method Promote<K(!new), E>(tree: AvlTree<K, E>, node: AvlNode<K, E>, next: AvlNode<K, E>,
      ghost k: nat, ghost c: Ctx<AvlNode<K, E>>, ghost l: Tree<AvlNode<K, E>>, ghost r: Tree<AvlNode<K, E>>)
    requires Valid(tree) && k + 1 < |tree.items| && node == tree.items[k] && next == tree.items[k + 1]
    requires node.leader && !next.leader && tree.shape == Plug(c, Node(l, node, r))
    modifies tree`root, tree`shape, next`leader, tree.items`parent, tree.items`left, tree.items`right, tree.items`balance
    ensures Unlisted(tree, k) && tree.shape == Plug(c, Node(l, next, r))
  {
    TreeIsLeaders(tree);
    Mark(tree, node, next, k, c, l, r);
    TakeOver(tree, ItemSet(tree.items), node, next, k, c, l, r);
  }

  method Mark<K(!new), E>(tree: AvlTree<K, E>, node: AvlNode<K, E>, next: AvlNode<K, E>,
      ghost k: nat, ghost c: Ctx<AvlNode<K, E>>, ghost l: Tree<AvlNode<K, E>>, ghost r: Tree<AvlNode<K, E>>)
    requires Valid(tree) && k + 1 < |tree.items| && node == tree.items[k] && next == tree.items[k + 1]
    requires node.leader && !next.leader && tree.shape == Plug(c, Node(l, node, r))
    requires next !in Elems(tree.shape)
    modifies next`leader
    ensures ListValid(tree) && Whole(tree, tree.shape)
    ensures Due(tree, RemoveAt(tree.items, k), InOrder(Plug(c, Node(l, next, r))))
  {
    SplitAtLeader(tree, k, c, l, r);
    DuplicatesApart(tree, k);
    PlugAround(c, l, next, r);
    MarkOnly(tree, next, k, Before(c) + InOrder(l), InOrder(r) + After(c));
  }

  method MarkOnly<K(!new), E>(tree: AvlTree<K, E>, next: AvlNode<K, E>, ghost k: nat, ghost p: seq<AvlNode<K, E>>,
      ghost q: seq<AvlNode<K, E>>)
    requires Comparator(tree.comp) && Ordered(tree.comp, tree.items) && Distinct(tree.items) && tree.allowDups
    requires k + 1 < |tree.items| && next == tree.items[k + 1] && tree.items[k].leader
    requires tree.comp(tree.items[k].key, next.key) == 0
    requires Leaders(tree.items[..k]) == p && Leaders(tree.items[k + 2..]) == q
    requires ListValid(tree) && Whole(tree, tree.shape) && next !in Elems(tree.shape)
    modifies next`leader
    ensures ListValid(tree) && Whole(tree, tree.shape) && Due(tree, RemoveAt(tree.items, k), p + [next] + q)
  {
    assert allocated(Elems(tree.shape));
    SetLeader(tree.comp, tree.items, next, k, p, q);
    assert ListValid(tree);
    assert Whole(tree, tree.shape);
  }

  lemma {:induction false} DuplicatesApart<K(!new), E>(tree: AvlTree<K, E>, k: nat)
    requires Valid(tree) && k + 1 < |tree.items| && !tree.items[k + 1].leader
    ensures Distinct(tree.items) && tree.allowDups
    ensures tree.comp(tree.items[k].key, tree.items[k + 1].key) == 0
    ensures Leaders(tree.items[k + 1..]) == Leaders(tree.items[k + 2..])
  {
    TreeIsLeaders(tree);
    var rest := tree.items[k + 1..];
    assert rest[1..] == tree.items[k + 2..];
    assert !rest[0].leader;
    assert Leaders(rest) == [] + Leaders(rest[1..]);
  }

  method SetLeader<K(!new), E>(ghost comp: (K, K) -> int, ghost s: seq<AvlNode<K, E>>, next: AvlNode<K, E>,
      ghost k: nat,
      ghost p: seq<AvlNode<K, E>>, ghost q: seq<AvlNode<K, E>>)
    requires Comparator(comp) && Ordered(comp, s) && Distinct(s) && k + 1 < |s| && next == s[k + 1]
    requires s[k].leader && comp(s[k].key, next.key) == 0
    requires Leaders(s[..k]) == p && Leaders(s[k + 2..]) == q
    modifies next`leader
    ensures next.leader && Ordered(comp, RemoveAt(s, k)) && Leaders(RemoveAt(s, k)) == p + [next] + q
  {
    next.leader := true;
    assert Leaders(s[..k]) == p && Leaders(s[k + 2..]) == q;
    assert Starts(comp, s, k);
    OrderPromoted(comp, s, k);
    LeadersRemove(s, k);
    LeadersFrom(s, k + 1);
    assert p + ([next] + q) == p + [next] + q;
  }

  method TakeOver<K(!new), E>(tree: AvlTree<K, E>, ghost S: set<AvlNode<K, E>>, node: AvlNode<K, E>,
      next: AvlNode<K, E>,
      ghost k: nat, ghost c: Ctx<AvlNode<K, E>>, ghost l: Tree<AvlNode<K, E>>, ghost r: Tree<AvlNode<K, E>>)
    requires Comparator(tree.comp) && ListValid(tree) && Whole(tree, tree.shape)
    requires tree.shape == Plug(c, Node(l, node, r))
    requires k < |tree.items| && Due(tree, RemoveAt(tree.items, k), InOrder(Plug(c, Node(l, next, r))))
    requires Elems(tree.shape) <= S && next in S && next !in Elems(tree.shape)
    modifies tree`root, tree`shape, S`parent, S`left, S`right, S`balance
    ensures Unlisted(tree, k) && tree.shape == Plug(c, Node(l, next, r))
  {
    assert DueAt(tree, k, InOrder(Plug(c, Node(l, next, r))));
    TakePlaceOnly(tree, S, node, next, k, c, l, r);
    assert DueAt(tree, k, InOrder(Plug(c, Node(l, next, r))));
    Reshape(tree, k, Plug(c, Node(l, next, r)));
  }

  ghost method Reshape<K(!new), E>(tree: AvlTree<K, E>, k: nat, t: Tree<AvlNode<K, E>>)
    requires Comparator(tree.comp) && ListValid(tree) && Whole(tree, t)
    requires k < |tree.items| && Due(tree, RemoveAt(tree.items, k), InOrder(t))
    modifies tree`shape
    ensures Unlisted(tree, k) && tree.shape == t
  {
    tree.shape := t;
  }

  method TakePlaceOnly<K, E>(tree: AvlTree<K, E>, ghost S: set<AvlNode<K, E>>, node: AvlNode<K, E>, next: AvlNode<K, E>,
      ghost k: nat, ghost c: Ctx<AvlNode<K, E>>, ghost l: Tree<AvlNode<K, E>>, ghost r: Tree<AvlNode<K, E>>)
    requires Whole(tree, Plug(c, Node(l, node, r))) && Elems(Plug(c, Node(l, node, r))) <= S
    requires ListDue(tree, k, InOrder(Plug(c, Node(l, next, r))))
    requires next in S && next !in Elems(Plug(c, Node(l, node, r)))
    modifies tree`root, S`parent, S`left, S`right, S`balance
    ensures Whole(tree, Plug(c, Node(l, next, r))) && ListDue(tree, k, InOrder(Plug(c, Node(l, next, r))))
  {
    ghost var leaders := InOrder(Plug(c, Node(l, next, r)));
    assert DueAt(tree, k, leaders);
    TakePlace(tree, S, node, next, c, l, r);
    assert DueAt(tree, k, leaders);
  }

  /** The case where a leader without duplicates leaves the tree. */
  method Extract<K(!new), E>(tree: AvlTree<K, E>, node: AvlNode<K, E>,
      ghost k: nat, ghost c: Ctx<AvlNode<K, E>>, ghost l: Tree<AvlNode<K, E>>, ghost r: Tree<AvlNode<K, E>>)
    requires Valid(tree) && k < |tree.items| && node == tree.items[k] && node.leader
    requires tree.shape == Plug(c, Node(l, node, r))
    requires k + 1 == |tree.items| || tree.items[k + 1].leader
    modifies tree`root, tree`shape, tree.items`parent, tree.items`left, tree.items`right, tree.items`balance
    ensures Unlisted(tree, k)
  {
    TreeIsLeaders(tree);
    SplitAtLeader(tree, k, c, l, r);
    OrderGone(tree.comp, tree.items, k);
    LeadersRemove(tree.items, k);
    TakeOut(tree, ItemSet(tree.items), node, k, c, l, r);
  }

  method TakeOut<K(!new), E>(tree: AvlTree<K, E>, ghost S: set<AvlNode<K, E>>, node: AvlNode<K, E>,
      ghost k: nat, ghost c: Ctx<AvlNode<K, E>>, ghost l: Tree<AvlNode<K, E>>, ghost r: Tree<AvlNode<K, E>>)
    requires Comparator(tree.comp) && ListValid(tree) && Whole(tree, tree.shape)
    requires tree.shape == Plug(c, Node(l, node, r))
    requires k < |tree.items| && Elems(tree.shape) <= S
    requires Due(tree, RemoveAt(tree.items, k), Before(c) + InOrder(l) + (InOrder(r) + After(c)))
    modifies tree`root, tree`shape, S`parent, S`left, S`right, S`balance
    ensures Unlisted(tree, k)
  {
    assert DueAt(tree, k, Before(c) + InOrder(l) + (InOrder(r) + After(c)));
    ghost var t, _ := TakeOutOnly(tree, S, node, k, c, l, r);
    assert DueAt(tree, k, InOrder(t));
    Reshape(tree, k, t);
  }

  method TakeOutOnly<K, E>(tree: AvlTree<K, E>, ghost S: set<AvlNode<K, E>>, node: AvlNode<K, E>,
      ghost k: nat, ghost c: Ctx<AvlNode<K, E>>, ghost l: Tree<AvlNode<K, E>>, ghost r: Tree<AvlNode<K, E>>)
    returns (ghost t: Tree<AvlNode<K, E>>, ghost calls: nat)
    requires Whole(tree, tree.shape) && tree.shape == Plug(c, Node(l, node, r))
    requires Elems(tree.shape) <= S && ListDue(tree, k, Before(c) + InOrder(l) + (InOrder(r) + After(c)))
    modifies tree`root, S`parent, S`left, S`right, S`balance
    ensures Whole(tree, t) && ListDue(tree, k, InOrder(t)) && calls <= Height(tree.shape)
  {
    ghost var leaders := Before(c) + InOrder(l) + (InOrder(r) + After(c));
    assert DueAt(tree, k, leaders);
    t, calls := DeleteWorker(tree, S, node, c, l, r);
    assert DueAt(tree, k, leaders);
  }

  /** avl_delete: the node leaves the list and, if it is a leader, the tree; nothing else is
      touched. A leader with duplicates hands its place in the tree to the first of them. */
  method Delete<K(!new), E>(tree: AvlTree<K, E>, node: AvlNode<K, E>, ghost k: nat)
    requires Valid(tree) && k < |tree.items| && node == tree.items[k]
    modifies tree`count, tree`items, tree`root, tree`shape, RingOf(tree)`next, RingOf(tree)`prev
    modifies tree.items`leader, tree.items`parent, tree.items`left, tree.items`right, tree.items`balance
    ensures Valid(tree) && tree.items == RemoveAt(old(tree.items), k)
    ensures node.list.next == null && node.list.prev == null
    ensures !old(node.leader) ==> tree.shape == old(tree.shape)
    ensures old(node.leader) && k + 1 < |old(tree.items)| && !old(tree.items[k + 1].leader) ==>
      exists c, l, r :: old(tree.shape) == Plug(c, Node(l, node, r)) && tree.shape == Plug(c, Node(l, old(tree.items)[k + 1], r))
  {
    Steps(tree, k);
    if node.leader {
      TreeIsLeaders(tree);
      ghost var c, l, r := Unplug(Top, tree.shape, node);
      if tree.allowDups && !ListIsLast(node.list, tree.listHead) && !node.list.next.entry.value.leader {
        Promote(tree, node, node.list.next.entry.value, k, c, l, r);
      } else {
        Extract(tree, node, k, c, l, r);
      }
    } else {
      DuplicateGone(tree, k);
    }
    Remove(tree, node, k);
  }
}
