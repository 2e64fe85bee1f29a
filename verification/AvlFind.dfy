/** The lookups of avl.c. */
module AvlFind {
  import opened Wrappers
  import opened Trees
  import opened Lists
  import opened AvlHeap
  import opened AvlOrder
  import opened Orders

  /** avl_find_rec: descend towards `key`. The result is the node where the descent stops and
      the last comparison. */
  function FindRec<K, E>(node: AvlNode<K, E>, key: K, comp: (K, K) -> int, ghost p: AvlNode?<K, E>,
      ghost t: Tree<AvlNode<K, E>>): (AvlNode<K, E>, int)
    requires t.Node? && t.node == node && Linked(t, p)
    reads Elems(t)
    decreases t
  {
    var diff := comp(key, node.key);
    if diff < 0 then
      if node.left != null then FindRec(node.left, key, comp, node, t.left) else (node, diff)
    else if diff > 0 then
      if node.right != null then FindRec(node.right, key, comp, node, t.right) else (node, diff)
    else
      (node, diff)
  }

  /** The descent stops at a node with the key, or where a node with that key would be
      attached, and it visits at most one node per level. */
  lemma {:induction false} FindRecStops<K(!new), E>(node: AvlNode<K, E>, key: K, comp: (K, K) -> int,
      p: AvlNode?<K, E>, c: Ctx<AvlNode<K, E>>, t: Tree<AvlNode<K, E>>)
    returns (c2: Ctx<AvlNode<K, E>>, l: Tree<AvlNode<K, E>>, r: Tree<AvlNode<K, E>>)
    requires Comparator(comp) && t.Node? && t.node == node && Linked(t, p) && Sorted(comp, InOrder(t))
    requires KeyAbove(comp, key, Before(c)) && KeyBelow(comp, key, After(c))
    ensures var (found, diff) := FindRec(node, key, comp, p, t);
      && Plug(c2, Node(l, found, r)) == Plug(c, t) && diff == comp(key, found.key)
      && (diff < 0 ==> l == Leaf)
      && (diff > 0 ==> r == Leaf)
    ensures KeyAbove(comp, key, Before(c2)) && KeyBelow(comp, key, After(c2))
    ensures Depth(c2) + 1 <= Depth(c) + Height(t)
    decreases t
  {
    var diff := comp(key, node.key);
    StepDown(comp, key, c, t);
    if diff < 0 && node.left != null {
      c2, l, r := FindRecStops(node.left, key, comp, node, InLeft(c, node, t.right), t.left);
    } else if diff > 0 && node.right != null {
      c2, l, r := FindRecStops(node.right, key, comp, node, InRight(t.left, node, c), t.right);
    } else {
      c2, l, r := c, t.left, t.right;
    }
  }

  /** Either way down from a node, the key stays between what is left behind. */
  lemma {:induction false} StepDown<K(!new), E>(comp: (K, K) -> int, key: K, c: Ctx<AvlNode<K, E>>,
      t: Tree<AvlNode<K, E>>)
    requires Comparator(comp) && t.Node? && Sorted(comp, InOrder(t))
    requires KeyAbove(comp, key, Before(c)) && KeyBelow(comp, key, After(c))
    ensures Sorted(comp, InOrder(t.left)) && Sorted(comp, InOrder(t.right))
    ensures comp(key, t.node.key) < 0 ==> KeyBelow(comp, key, After(InLeft(c, t.node, t.right)))
    ensures comp(key, t.node.key) > 0 ==> KeyAbove(comp, key, Before(InRight(t.left, t.node, c)))
  {
    SortedSplit(comp, InOrder(t.left), t.node, InOrder(t.right), key);
    AppendBounds(comp, key, [t.node] + InOrder(t.right), After(c));
    AppendBounds(comp, key, Before(c), InOrder(t.left) + [t.node]);
    assert Before(InRight(t.left, t.node, c)) == Before(c) + (InOrder(t.left) + [t.node]);
  }

  lemma {:induction false} SortedSplit<K(!new), E>(comp: (K, K) -> int, l: seq<AvlNode<K, E>>, n: AvlNode<K, E>,
      r: seq<AvlNode<K, E>>,
      key: K)
    requires Comparator(comp) && Sorted(comp, l + [n] + r)
    ensures Sorted(comp, l) && Sorted(comp, r)
    ensures comp(key, n.key) < 0 ==> KeyBelow(comp, key, [n] + r)
    ensures comp(key, n.key) > 0 ==> KeyAbove(comp, key, l + [n])
  {
    var s := l + [n] + r;
    forall i, j | 0 <= i < j < |l| ensures comp(l[i].key, l[j].key) <= 0 { assert l[i] == s[i] && l[j] == s[j]; }
    forall i, j | 0 <= i < j < |r| ensures comp(r[i].key, r[j].key) <= 0 {
      assert r[i] == s[|l| + 1 + i] && r[j] == s[|l| + 1 + j];
    }
    forall i | 0 <= i < |r| && comp(key, n.key) < 0 ensures comp(key, r[i].key) < 0 {
      assert s[|l|] == n && s[|l| + 1 + i] == r[i];
      Transitive(comp, key, n.key, r[i].key);
    }
    forall i | 0 <= i < |l| && comp(key, n.key) > 0 ensures comp(key, l[i].key) > 0 {
      assert s[|l|] == n && s[i] == l[i];
      Opposite(comp, key, n.key);
      Opposite(comp, key, l[i].key);
      Transitive(comp, l[i].key, n.key, key);
    }
  }

  lemma {:induction false} AppendBounds<K, E>(comp: (K, K) -> int, key: K, a: seq<AvlNode<K, E>>, b: seq<AvlNode<K, E>>)
    ensures KeyAbove(comp, key, a) && KeyAbove(comp, key, b) ==> KeyAbove(comp, key, a + b)
    ensures KeyBelow(comp, key, a) && KeyBelow(comp, key, b) ==> KeyBelow(comp, key, a + b)
  {
  }

  /** Where the descent from the root stops, as a place in the tree and in the list. */
  lemma {:induction false} Descend<K(!new), E>(tree: AvlTree<K, E>, key: K)
    returns (k: nat, c: Ctx<AvlNode<K, E>>, l: Tree<AvlNode<K, E>>, r: Tree<AvlNode<K, E>>)
    requires Valid(tree) && tree.root != null
    ensures var (node, diff) := FindRec(tree.root, key, tree.comp, null, tree.shape);
      && k < |tree.items| && node == tree.items[k] && node.leader && diff == tree.comp(key, node.key)
      && tree.shape == Plug(c, Node(l, node, r))
      && (diff < 0 ==> l == Leaf)
      && (diff > 0 ==> r == Leaf)
    ensures KeyAbove(tree.comp, key, Before(c)) && KeyBelow(tree.comp, key, After(c))
    ensures Depth(c) < Height(tree.shape)
  {
    LeadersSorted(tree.comp, tree.items);
    TreeIsLeaders(tree);
    c, l, r := FindRecStops(tree.root, key, tree.comp, null, Top, tree.shape);
    var node := FindRec(tree.root, key, tree.comp, null, tree.shape).0;
    PlugElems(c, Node(l, node, r));
    assert node in Elems(tree.shape);
    k :| 0 <= k < |tree.items| && tree.items[k] == node;
  }

  /** A tree of height h has at least Fib(h + 2) - 1 leaders, so no way down is long: the height is
      at most about twice the binary logarithm of the number of leaders. */
  lemma {:induction false} HeightOfTree<K(!new), E>(tree: AvlTree<K, E>)
    requires Valid(tree)
    ensures |Leaders(tree.items)| + 1 >= Fib(Height(tree.shape) + 2)
    ensures |Leaders(tree.items)| + 1 >= Pow2(Height(tree.shape) / 2)
  {
    HeightBound(tree.shape);
    HeightLogarithmic(tree.shape);
  }

  /** The same for the way up from any place in the tree. */
  lemma {:induction false} WayUp<K(!new), E>(tree: AvlTree<K, E>, c: Ctx<AvlNode<K, E>>, t: Tree<AvlNode<K, E>>)
    requires Valid(tree) && tree.shape == Plug(c, t)
    ensures |Leaders(tree.items)| + 1 >= Pow2((Depth(c) + Height(t)) / 2)
  {
    HeightOfTree(tree);
    DepthBound(c, t);
    Pow2Monotone((Depth(c) + Height(t)) / 2, Height(tree.shape) / 2);
  }

  lemma {:induction false} Pow2Monotone(i: nat, k: nat)
    requires i <= k
    ensures Pow2(i) <= Pow2(k)
    decreases k
  {
    if i < k {
      Pow2Monotone(i, k - 1);
    }
  }

  /** avl_find: the leader with the key, if there is any node with it. */
  method Find<K(!new), E>(tree: AvlTree<K, E>, key: K) returns (found: AvlNode?<K, E>)
    requires Valid(tree)
    ensures Valid(tree)
    ensures found != null ==> found in tree.items && found.leader && tree.comp(key, found.key) == 0
    ensures found == null <==> forall i :: 0 <= i < |tree.items| ==> tree.comp(key, tree.items[i].key) != 0
  {
    if tree.root == null {
      EmptyTree(tree);
      return null;
    }
    var (node, diff) := FindRec(tree.root, key, tree.comp, null, tree.shape);
    ghost var k, c, l, r := Descend(tree, key);
    Landing(tree, key, k, c, l, r);
    return if diff == 0 then node else null;
  }

  lemma {:induction false} EmptyTree<K(!new), E>(tree: AvlTree<K, E>)
    requires Valid(tree)
    ensures tree.root == null <==> tree.items == []
  {
    if tree.items != [] {
      LeadersAround(tree.items, 0);
    }
  }

  /** The steps along the list: where a link leads, said in terms of positions. */
  lemma {:induction false} Steps<K, E>(tree: AvlTree<K, E>, i: nat)
    requires ListValid(tree) && i < |tree.items|
    ensures ListIsFirst(tree.items[i].list, tree.listHead) <==> i == 0
    ensures ListIsLast(tree.items[i].list, tree.listHead) <==> i == |tree.items| - 1
    ensures i > 0 ==> LeadsTo(tree.items[i].list.prev, tree.items[i - 1])
    ensures i < |tree.items| - 1 ==> LeadsTo(tree.items[i].list.next, tree.items[i + 1])
  {
    var ring := RingOf(tree);
    assert ring[i + 1] == tree.items[i].list;
    ListTests(ring, i + 1);
    Neighbours(ring, i + 1);
    assert i > 0 ==> ring[i] == Links(tree.items)[i - 1];
    assert i < |tree.items| - 1 ==> ring[i + 2] == Links(tree.items)[i + 1];
  }

  ghost predicate LeadsTo<K, E>(link: ListHead?<AvlNode<K, E>>, node: AvlNode<K, E>)
    reads if link == null then {} else {link}
  {
    link != null && link.entry == Some(node)
  }

  /** Keys further down the list compare no higher. */
  lemma {:induction false} Monotone<K(!new), E>(comp: (K, K) -> int, s: seq<AvlNode<K, E>>, key: K, i: nat, j: nat)
    requires Comparator(comp) && Sorted(comp, s) && i <= j < |s|
    ensures comp(key, s[i].key) <= 0 ==> comp(key, s[j].key) <= 0
    ensures comp(key, s[i].key) < 0 ==> comp(key, s[j].key) < 0
  {
    if i < j && comp(key, s[i].key) <= 0 {
      Transitive(comp, key, s[i].key, s[j].key);
    }
  }

  lemma {:induction false} CutAfter<K(!new), E>(comp: (K, K) -> int, s: seq<AvlNode<K, E>>, key: K, k: nat)
    requires Comparator(comp) && Sorted(comp, s) && k < |s| && comp(key, s[k].key) >= 0
    requires k + 1 < |s| ==> comp(key, s[k + 1].key) < 0
    ensures forall i :: 0 <= i <= k ==> comp(key, s[i].key) >= 0
    ensures forall i :: k < i < |s| ==> comp(key, s[i].key) < 0
  {
    forall i | 0 <= i <= k ensures comp(key, s[i].key) >= 0 { Monotone(comp, s, key, i, k); }
    forall i | k < i < |s| ensures comp(key, s[i].key) < 0 { Monotone(comp, s, key, k + 1, i); }
  }

  /** avl_find_lessequal: the last node of the list whose key is at most `key`, wherever the
      descent stopped. */
  method FindLessEqual<K(!new), E>(tree: AvlTree<K, E>, key: K) returns (found: AvlNode?<K, E>)
    requires Valid(tree)
    ensures found == null <==> forall i :: 0 <= i < |tree.items| ==> tree.comp(key, tree.items[i].key) < 0
    ensures found != null ==> exists m ::
      && 0 <= m < |tree.items| && found == tree.items[m]
      && (forall i :: 0 <= i <= m ==> tree.comp(key, tree.items[i].key) >= 0)
      && (forall i :: m < i < |tree.items| ==> tree.comp(key, tree.items[i].key) < 0)
  {
    if tree.root == null {
      EmptyTree(tree);
      return null;
    }
    var (node, diff) := FindRec(tree.root, key, tree.comp, null, tree.shape);
    ghost var k, c, l, r := Descend(tree, key);
    ghost var m;
    found, m := LastNotAbove(tree, key, node, diff, k);
  }

  /** The two loops of avl_find_lessequal, from any node of the list. */
  method LastNotAbove<K(!new), E>(tree: AvlTree<K, E>, key: K, start: AvlNode<K, E>, cmp: int, ghost pos: nat)
    returns (found: AvlNode?<K, E>, ghost k: nat)
    requires Comparator(tree.comp) && ListValid(tree) && Sorted(tree.comp, tree.items)
    requires pos < |tree.items| && start == tree.items[pos] && cmp == tree.comp(key, start.key)
    ensures found == null ==> forall i :: 0 <= i < |tree.items| ==> tree.comp(key, tree.items[i].key) < 0
    ensures found != null ==>
      && k < |tree.items| && found == tree.items[k]
      && (forall i :: 0 <= i <= k ==> tree.comp(key, tree.items[i].key) >= 0)
      && (forall i :: k < i < |tree.items| ==> tree.comp(key, tree.items[i].key) < 0)
  {
    ghost var s := tree.items;
    var node, diff := start, cmp;
    k := pos;
    while diff < 0
      invariant k < |s| && node == s[k] && diff == tree.comp(key, s[k].key)
      decreases k, diff < 0
    {
      Steps(tree, k);
      if ListIsFirst(node.list, tree.listHead) {
        BelowRest(tree.comp, s, 0, key);
        return null, k;
      }
      node, k := node.list.prev.entry.value, k - 1;
      diff := tree.comp(key, node.key);
    }
    var next := node;
    ghost var m := k;
    while diff >= 0
      invariant m < |s| && next == s[m] && diff == tree.comp(key, s[m].key)
      invariant k < |s| && node == s[k] && tree.comp(key, s[k].key) >= 0
      invariant diff < 0 ==> m == k + 1
      decreases |s| - m
    {
      node, k := next, m;
      Steps(tree, k);
      if ListIsLast(node.list, tree.listHead) {
        break;
      }
      next, m := node.list.next.entry.value, m + 1;
      diff := tree.comp(key, next.key);
    }
    CutAfter(tree.comp, s, key, k);
    found := node;
  }

  /** avl_find_greaterequal: the first node of the list whose key is at least `key`. */
  method FindGreaterEqual<K(!new), E>(tree: AvlTree<K, E>, key: K) returns (found: AvlNode?<K, E>)
    requires Valid(tree)
    ensures found == null <==> forall i :: 0 <= i < |tree.items| ==> tree.comp(key, tree.items[i].key) > 0
    ensures found != null ==> exists m ::
      && 0 <= m < |tree.items| && found == tree.items[m]
      && (forall i :: m <= i < |tree.items| ==> tree.comp(key, tree.items[i].key) <= 0)
      && (forall i :: 0 <= i < m ==> tree.comp(key, tree.items[i].key) > 0)
  {
    if tree.root == null {
      EmptyTree(tree);
      return null;
    }
    var (node, diff) := FindRec(tree.root, key, tree.comp, null, tree.shape);
    ghost var k, c, l, r := Descend(tree, key);
    ghost var m;
    found, m := FirstNotBelow(tree, key, node, diff, k);
  }

  /** The two loops of avl_find_greaterequal, from any node of the list. */
  method FirstNotBelow<K(!new), E>(tree: AvlTree<K, E>, key: K, start: AvlNode<K, E>, cmp: int, ghost pos: nat)
    returns (found: AvlNode?<K, E>, ghost k: nat)
    requires Comparator(tree.comp) && ListValid(tree) && Sorted(tree.comp, tree.items)
    requires pos < |tree.items| && start == tree.items[pos] && cmp == tree.comp(key, start.key)
    ensures found == null ==> forall i :: 0 <= i < |tree.items| ==> tree.comp(key, tree.items[i].key) > 0
    ensures found != null ==>
      && k < |tree.items| && found == tree.items[k]
      && (forall i :: k <= i < |tree.items| ==> tree.comp(key, tree.items[i].key) <= 0)
      && (forall i :: 0 <= i < k ==> tree.comp(key, tree.items[i].key) > 0)
  {
    ghost var s := tree.items;
    var node, diff := start, cmp;
    k := pos;
    while diff > 0
      invariant k < |s| && node == s[k] && diff == tree.comp(key, s[k].key)
      decreases |s| - k, diff > 0
    {
      Steps(tree, k);
      if ListIsLast(node.list, tree.listHead) {
        forall i | 0 <= i < |s| ensures tree.comp(key, s[i].key) > 0 { Monotone(tree.comp, s, key, i, |s| - 1); }
        return null, k;
      }
      node, k := node.list.next.entry.value, k + 1;
      diff := tree.comp(key, node.key);
    }
    var next := node;
    ghost var m: int := k;
    while diff <= 0
      invariant 0 <= m < |s| && next == s[m] && diff == tree.comp(key, s[m].key)
      invariant k < |s| && node == s[k] && tree.comp(key, s[k].key) <= 0
      invariant diff > 0 ==> m == k - 1
      decreases m
    {
      node, k := next, m;
      Steps(tree, k);
      if ListIsFirst(node.list, tree.listHead) {
        break;
      }
      next, m := node.list.prev.entry.value, m - 1;
      diff := tree.comp(key, next.key);
    }
    assert k > 0 ==> tree.comp(key, s[k - 1].key) > 0;
    forall i | k <= i < |s| ensures tree.comp(key, s[i].key) <= 0 { Monotone(tree.comp, s, key, k, i); }
    forall i | 0 <= i < k ensures tree.comp(key, s[i].key) > 0 { Monotone(tree.comp, s, key, i, k - 1); }
    found := node;
  }
}
