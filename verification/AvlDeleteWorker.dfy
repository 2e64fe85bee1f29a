/** avl_delete_worker of avl.c: taking a leader out of the tree. */
module AvlDeleteWorker {
  import opened Trees
  import opened AvlHeap
  import opened AvlRotations
  import opened AvlPostDelete

  /** Put `other` in the place of `node`: same parent, same children, same balance. This is
      the end of avl_delete_worker, and it is how avl_delete promotes a duplicate. */
  method TakePlace<K, E>(tree: AvlTree<K, E>, ghost S: set<AvlNode<K, E>>, node: AvlNode<K, E>, other: AvlNode<K, E>,
      ghost c: Ctx<AvlNode<K, E>>, ghost l: Tree<AvlNode<K, E>>, ghost r: Tree<AvlNode<K, E>>)
    requires Whole(tree, Plug(c, Node(l, node, r))) && Elems(Plug(c, Node(l, node, r))) <= S
    requires other in S && other !in Elems(Plug(c, Node(l, node, r)))
    modifies tree`root, S`parent, S`left, S`right, S`balance
    ensures Whole(tree, Plug(c, Node(l, other, r)))
  {
    NodeOpens(tree, S, node, other, c, l, r);
    Swap(tree, S, node, other, c, l, r);
    Close(tree, S, c, Node(l, other, r));
  }

  lemma {:induction false} NodeOpens<K, E>(tree: AvlTree<K, E>, S: set<AvlNode<K, E>>, node: AvlNode<K, E>,
      other: AvlNode<K, E>,
      c: Ctx<AvlNode<K, E>>, l: Tree<AvlNode<K, E>>, r: Tree<AvlNode<K, E>>)
    requires Whole(tree, Plug(c, Node(l, node, r))) && Elems(Plug(c, Node(l, node, r))) <= S
    requires other !in Elems(Plug(c, Node(l, node, r)))
    ensures Open(tree, S, c, Height(Node(l, node, r)), Node(l, node, r)) && Balanced(Node(l, node, r))
    ensures other !in Elems(Node(l, node, r)) && other !in CtxElems(c)
  {
    OpenUp(tree, S, c, Node(l, node, r));
    PlugElems(c, Node(l, node, r));
  }

  method Swap<K, E>(tree: AvlTree<K, E>, ghost S: set<AvlNode<K, E>>, node: AvlNode<K, E>, other: AvlNode<K, E>,
      ghost c: Ctx<AvlNode<K, E>>, ghost l: Tree<AvlNode<K, E>>, ghost r: Tree<AvlNode<K, E>>)
    requires Open(tree, S, c, Height(Node(l, node, r)), Node(l, node, r))
    requires other in S && other !in Elems(Node(l, node, r)) && other !in CtxElems(c)
    modifies tree`root, S`parent, S`left, S`right, S`balance
    ensures Open(tree, S, c, Height(Node(l, other, r)), Node(l, other, r))
  {
    ghost var t := Node(l, node, r);
    OpenAround(tree, S, c, Height(t), t);
    StepIn(tree, node, other, c, HeightAbove(c, Height(t)), l, r);
    OpenAround(tree, S, c, Height(t), Node(l, other, r));
  }

  method StepIn<K, E>(tree: AvlTree<K, E>, node: AvlNode<K, E>, other: AvlNode<K, E>,
      ghost c: Ctx<AvlNode<K, E>>, ghost hu: int, ghost l: Tree<AvlNode<K, E>>, ghost r: Tree<AvlNode<K, E>>)
    requires Apart(c, Node(l, node, r)) && Linked(Node(l, node, r), HoleParent(c)) && Fits(tree, c, node, hu)
    requires other !in Elems(Node(l, node, r)) && other !in CtxElems(c)
    modifies tree`root, Opt(HoleParent(c))`left, Opt(HoleParent(c))`right
    modifies {other}`parent, {other}`left, {other}`right, {other}`balance, Opt(Root(l))`parent, Opt(Root(r))`parent
    ensures Fits(tree, c, other, hu) && Linked(Node(l, other, r), HoleParent(c))
  {
    var parent := node.parent;
    CopyLinks(tree, node, other, c, hu, l, r);
    assert allocated(Elems(Node(l, other, r)));
    SetHole(tree, node, parent, other, c, hu);
  }

  method CopyLinks<K, E>(tree: AvlTree<K, E>, node: AvlNode<K, E>, other: AvlNode<K, E>,
      ghost c: Ctx<AvlNode<K, E>>, ghost hu: int, ghost l: Tree<AvlNode<K, E>>, ghost r: Tree<AvlNode<K, E>>)
    requires NoDup(Node(l, node, r)) && Linked(Node(l, node, r), node.parent)
    requires other !in Elems(Node(l, node, r))
    requires Apart(c, Node(l, node, r)) && other !in CtxElems(c) && Fits(tree, c, node, hu)
    modifies {other}`parent, {other}`left, {other}`right, {other}`balance, Opt(Root(l))`parent, Opt(Root(r))`parent
    ensures Linked(Node(l, other, r), node.parent) && node.parent == old(node.parent)
    ensures Fits(tree, c, node, hu)
  {
    assert allocated(Elems(l)) && allocated(Elems(r)) && allocated(CtxElems(c));
    RootIn(l);
    RootIn(r);
    Mirror(tree, node, other, c, hu, l, r);
    Adopt(other, node, l, r);
  }

  method Mirror<K, E>(tree: AvlTree<K, E>, node: AvlNode<K, E>, other: AvlNode<K, E>,
      ghost c: Ctx<AvlNode<K, E>>, ghost hu: int, ghost l: Tree<AvlNode<K, E>>, ghost r: Tree<AvlNode<K, E>>)
    requires Linked(Node(l, node, r), node.parent) && other !in Elems(Node(l, node, r))
    requires other !in CtxElems(c) && Fits(tree, c, node, hu)
    modifies {other}`parent, {other}`left, {other}`right, {other}`balance
    ensures other.parent == node.parent && other.left == Root(l) && other.right == Root(r)
    ensures other.balance == Balance(Node(l, other, r)) && Linked(l, node) && Linked(r, node)
    ensures Fits(tree, c, node, hu)
  {
    assert allocated(Elems(l)) && allocated(Elems(r)) && allocated(CtxElems(c));
    other.balance := node.balance;
    other.parent := node.parent;
    other.left := node.left;
    other.right := node.right;
  }

  method Adopt<K, E>(other: AvlNode<K, E>, ghost node: AvlNode<K, E>, ghost l: Tree<AvlNode<K, E>>,
      ghost r: Tree<AvlNode<K, E>>)
    requires NoDup(l) && NoDup(r) && Elems(l) !! Elems(r) && other !in Elems(l) && other !in Elems(r)
    requires Linked(l, node) && Linked(r, node) && other.left == Root(l) && other.right == Root(r)
    modifies Opt(Root(l))`parent, Opt(Root(r))`parent
    ensures Linked(l, other) && Linked(r, other)
  {
    assert allocated(Elems(l)) && allocated(Elems(r));
    SetParent(other.left, other, l, node);
    SetParent(other.right, other, r, node);
  }

  /** avl_local_min: the leftmost node below `node`, and the way down to it. */
  method LocalMin<K, E>(node: AvlNode<K, E>, ghost p: AvlNode?<K, E>, ghost c: Ctx<AvlNode<K, E>>,
      ghost t: Tree<AvlNode<K, E>>)
    returns (min: AvlNode<K, E>, ghost c2: Ctx<AvlNode<K, E>>, ghost r: Tree<AvlNode<K, E>>)
    requires t.Node? && t.node == node && Linked(t, p)
    ensures min.left == null && Plug(c2, Node(Leaf, min, r)) == Plug(c, t) && Before(c2) == Before(c)
  {
    min, c2 := node, c;
    ghost var q, u := p, t;
    while min.left != null
      invariant u.Node? && u.node == min && Linked(u, q)
      invariant Plug(c2, u) == Plug(c, t) && Before(c2) == Before(c)
      decreases u
    {
      c2, q, u := InLeft(c2, u.node, u.right), u.node, u.left;
      min := min.left;
    }
    r := u.right;
  }

  /** avl_delete_worker. What is left is the same traversal without `node`. */
  method DeleteWorker<K, E>(tree: AvlTree<K, E>, ghost S: set<AvlNode<K, E>>, node: AvlNode<K, E>,
      ghost c: Ctx<AvlNode<K, E>>, ghost l: Tree<AvlNode<K, E>>, ghost r: Tree<AvlNode<K, E>>)
    returns (ghost s: Tree<AvlNode<K, E>>, ghost calls: nat)
    requires Whole(tree, Plug(c, Node(l, node, r))) && Elems(Plug(c, Node(l, node, r))) <= S
    modifies tree`root, S`parent, S`left, S`right, S`balance
    ensures Whole(tree, s)
    ensures InOrder(s) == Before(c) + InOrder(l) + (InOrder(r) + After(c))
    ensures calls <= Height(Plug(c, Node(l, node, r)))
    decreases l.Node? && r.Node?
  {
    DepthBound(c, Node(l, node, r));
    OpenUp(tree, S, c, Node(l, node, r));
    ChildrenKnow(tree, S, c, Height(Node(l, node, r)), Node(l, node, r));
    if node.left == null && node.right == null {
      s, calls := DeleteLeaf(tree, S, node, c);
      return;
    }
    if node.left == null {
      s, calls := DeleteWithRight(tree, S, node, c, r);
      return;
    }
    if node.right == null {
      s, calls := DeleteWithLeft(tree, S, node, c, l);
      return;
    }
    s, calls := DeleteInner(tree, S, node, c, l, r);
  }

  method DeleteInner<K, E>(tree: AvlTree<K, E>, ghost S: set<AvlNode<K, E>>, node: AvlNode<K, E>,
      ghost c: Ctx<AvlNode<K, E>>, ghost l: Tree<AvlNode<K, E>>, ghost r: Tree<AvlNode<K, E>>)
    returns (ghost s: Tree<AvlNode<K, E>>, ghost calls: nat)
    requires l.Node? && r.Node? && Open(tree, S, c, Height(Node(l, node, r)), Node(l, node, r))
    requires Whole(tree, Plug(c, Node(l, node, r))) && Elems(Plug(c, Node(l, node, r))) <= S
    modifies tree`root, S`parent, S`left, S`right, S`balance
    ensures Whole(tree, s)
    ensures InOrder(s) == Before(c) + InOrder(l) + (InOrder(r) + After(c))
    ensures calls <= Height(Plug(c, Node(l, node, r)))
    decreases true, 0
  {
    assert Opened(tree, S, c, Height(Node(l, node, r)), Node(l, node, r));
    ghost var c0 := InRight(l, node, c);
    ghost var c2, r2;
    var min;
    min, c2, r2 := LocalMin(node.right, node, c0, r);
    ghost var s1;
    s1, calls := DeleteWorker(tree, S, min, c2, Leaf, r2);
    ghost var c1, l1, r1 := SuccessorGone(c, l, node, r, c2, min, r2, s1);
    TakePlace(tree, S, node, min, c1, l1, r1);
    s := Plug(c1, Node(l1, min, r1));
  }

  /** The traversal before and after the successor is out. */
  lemma {:induction false} SuccessorOrder<N>(c: Ctx<N>, l: Tree<N>, node: N, r: Tree<N>, c2: Ctx<N>, min: N,
      r2: Tree<N>)
    returns (p: seq<N>, rest: seq<N>)
    requires Plug(c2, Node(Leaf, min, r2)) == Plug(InRight(l, node, c), r) && Before(c2) == Before(InRight(l, node, c))
    ensures p == Before(c) + InOrder(l) && [min] + rest == InOrder(r) + After(c)
    ensures Before(c2) + InOrder(Leaf) + (InOrder(r2) + After(c2)) == p + [node] + rest
    ensures InOrder(Plug(c, Node(l, node, r))) == p + [node] + [min] + rest
  {
    p, rest := Before(c) + InOrder(l), InOrder(r2) + After(c2);
    NextInOrder(c, l, node, r, c2, min, r2);
    assert Before(c2) == p + [node];
    PlugInOrder(c2, Node(Leaf, min, r2));
  }

  /** Once the successor is out, `node` may have been rotated elsewhere; what precedes and
      what follows it in the traversal is still known. */
  lemma {:induction false} SuccessorGone<N>(c: Ctx<N>, l: Tree<N>, node: N, r: Tree<N>, c2: Ctx<N>, min: N,
      r2: Tree<N>, s1: Tree<N>)
    returns (c1: Ctx<N>, l1: Tree<N>, r1: Tree<N>)
    requires Plug(c2, Node(Leaf, min, r2)) == Plug(InRight(l, node, c), r) && Before(c2) == Before(InRight(l, node, c))
    requires NoDup(Plug(c, Node(l, node, r)))
    requires InOrder(s1) == Before(c2) + InOrder(Leaf) + (InOrder(r2) + After(c2)) && NoDup(s1)
    ensures s1 == Plug(c1, Node(l1, node, r1)) && min !in Elems(s1) && Elems(s1) + {min} == Elems(Plug(c, Node(l, node, r)))
    ensures InOrder(Plug(c1, Node(l1, min, r1))) == Before(c) + InOrder(l) + (InOrder(r) + After(c))
  {
    var p, rest := SuccessorOrder(c, l, node, r, c2, min, r2);
    c1, l1, r1 := ReplacedBy(Plug(c, Node(l, node, r)), s1, p, node, min, rest);
    assert p + [min] + rest == p + ([min] + rest);
  }

  lemma {:induction false} ReplacedBy<N>(t: Tree<N>, s: Tree<N>, p: seq<N>, node: N, min: N, rest: seq<N>)
    returns (c: Ctx<N>, l: Tree<N>, r: Tree<N>)
    requires InOrder(t) == p + [node] + [min] + rest && InOrder(s) == p + [node] + rest && NoDup(t) && NoDup(s)
    ensures s == Plug(c, Node(l, node, r)) && min !in Elems(s) && Elems(s) + {min} == Elems(t)
    ensures InOrder(Plug(c, Node(l, min, r))) == p + [min] + rest
  {
    OneLess(t, s, p + [node], min, rest);
    c, l, r := Locate(s, p, node, rest, min);
  }

  lemma {:induction false} NextInOrder<N>(c: Ctx<N>, l: Tree<N>, node: N, r: Tree<N>, c2: Ctx<N>, min: N, r2: Tree<N>)
    requires Plug(c2, Node(Leaf, min, r2)) == Plug(InRight(l, node, c), r) && Before(c2) == Before(InRight(l, node, c))
    ensures InOrder(r) + After(c) == [min] + (InOrder(r2) + After(c2))
  {
    var c0 := InRight(l, node, c);
    PlugFront(c2, Node(Leaf, min, r2));
    PlugFront(c0, r);
    MinFirst(c2, min, r2);
    assert After(c0) == After(c);
    SameTail(Before(c2), [min] + (InOrder(r2) + After(c2)), InOrder(r) + After(c0));
  }

  lemma {:induction false} PlugFront<N>(c: Ctx<N>, t: Tree<N>)
    ensures InOrder(Plug(c, t)) == Before(c) + (InOrder(t) + After(c))
  {
    PlugInOrder(c, t);
  }

  lemma {:induction false} MinFirst<N>(c: Ctx<N>, min: N, r: Tree<N>)
    ensures InOrder(Node(Leaf, min, r)) + After(c) == [min] + (InOrder(r) + After(c))
  {
    assert InOrder(Node(Leaf, min, r)) == [] + [min] + InOrder(r);
  }

  /** Dropping one element of a traversal drops one node of the tree. */
  lemma {:induction false} OneLess<N>(t: Tree<N>, s: Tree<N>, p: seq<N>, x: N, q: seq<N>)
    requires InOrder(t) == p + [x] + q && InOrder(s) == p + q && NoDup(t)
    ensures x !in Elems(s) && Elems(s) + {x} == Elems(t)
  {
    NoDupInOrder(t);
    DistinctThree(p, x, q);
    InOrderElems(t);
    InOrderElems(s);
    SeqElemsAppend(p, q);
    SeqElemsAppend(p + [x], q);
    SeqElemsAppend(p, [x]);
    assert SeqElems([x]) == {x};
  }

  /** Where the traversal has `x` between p and q, putting `y` there instead. */
  lemma {:induction false} Locate<N>(s: Tree<N>, p: seq<N>, x: N, q: seq<N>, y: N)
    returns (c: Ctx<N>, l: Tree<N>, r: Tree<N>)
    requires InOrder(s) == p + [x] + q && NoDup(s)
    ensures s == Plug(c, Node(l, x, r)) && Before(c) + InOrder(l) == p && InOrder(r) + After(c) == q
    ensures InOrder(Plug(c, Node(l, y, r))) == p + [y] + q
  {
    InOrderElems(s);
    assert x in SeqElems(p + [x] + q) by { assert (p + [x] + q)[|p|] == x; }
    c, l, r := Unplug(Top, s, x);
    PlugAround(c, l, x, r);
    PlugAround(c, l, y, r);
    NoDupInOrder(s);
    UniqueSplit(p, x, q, Before(c) + InOrder(l), InOrder(r) + After(c));
  }

  lemma {:induction false} SameTail<N>(p: seq<N>, a: seq<N>, b: seq<N>)
    requires p + a == p + b
    ensures a == b
  {
    assert a == (p + a)[|p|..] && b == (p + b)[|p|..];
  }

  method DeleteWithRight<K, E>(tree: AvlTree<K, E>, ghost S: set<AvlNode<K, E>>, node: AvlNode<K, E>,
      ghost c: Ctx<AvlNode<K, E>>, ghost r: Tree<AvlNode<K, E>>)
    returns (ghost s: Tree<AvlNode<K, E>>, ghost calls: nat)
    requires r.Node? && Open(tree, S, c, Height(Node(Leaf, node, r)), Node(Leaf, node, r))
    requires Balanced(Node(Leaf, node, r))
    modifies tree`root, S`parent, S`left, S`right, S`balance
    ensures Whole(tree, s) && calls <= Depth(c) + 1
    ensures InOrder(s) == Before(c) + InOrder(Leaf) + (InOrder(r) + After(c))
  {
    assert Opened(tree, S, c, Height(Node(Leaf, node, r)), Node(Leaf, node, r));
    var parent := node.parent;
    Bypass(tree, S, node, node.right, c, Leaf, r, r);
    PlugInOrder(c, r);
    if parent == null {
      assert Opened(tree, S, c, Height(Node(Leaf, node, r)), r);
      s, calls := r, 0;
      return;
    }
    s, calls := PostDelete(tree, S, node.right, c, Height(Node(Leaf, node, r)), r);
    calls := calls + 1;
  }

  method DeleteWithLeft<K, E>(tree: AvlTree<K, E>, ghost S: set<AvlNode<K, E>>, node: AvlNode<K, E>,
      ghost c: Ctx<AvlNode<K, E>>, ghost l: Tree<AvlNode<K, E>>)
    returns (ghost s: Tree<AvlNode<K, E>>, ghost calls: nat)
    requires l.Node? && Open(tree, S, c, Height(Node(l, node, Leaf)), Node(l, node, Leaf))
    requires Balanced(Node(l, node, Leaf))
    modifies tree`root, S`parent, S`left, S`right, S`balance
    ensures Whole(tree, s) && calls <= Depth(c) + 1
    ensures InOrder(s) == Before(c) + InOrder(l) + (InOrder(Leaf) + After(c))
  {
    assert Opened(tree, S, c, Height(Node(l, node, Leaf)), Node(l, node, Leaf));
    var parent := node.parent;
    Bypass(tree, S, node, node.left, c, l, Leaf, l);
    PlugInOrder(c, l);
    if parent == null {
      assert Opened(tree, S, c, Height(Node(l, node, Leaf)), l);
      s, calls := l, 0;
      return;
    }
    s, calls := PostDelete(tree, S, node.left, c, Height(Node(l, node, Leaf)), l);
    calls := calls + 1;
  }

  /** Hang the only child `t` of `node` where `node` was. */
  method Bypass<K, E>(tree: AvlTree<K, E>, ghost S: set<AvlNode<K, E>>, node: AvlNode<K, E>, child: AvlNode?<K, E>,
      ghost c: Ctx<AvlNode<K, E>>, ghost l: Tree<AvlNode<K, E>>, ghost r: Tree<AvlNode<K, E>>,
      ghost t: Tree<AvlNode<K, E>>)
    requires (t == l || t == r) && child == Root(t)
    requires Open(tree, S, c, Height(Node(l, node, r)), Node(l, node, r))
    modifies tree`root, S`parent, S`left, S`right
    ensures node.left == old(node.left) && node.right == old(node.right)
    ensures Open(tree, S, c, Height(Node(l, node, r)), t)
  {
    ghost var h := Height(Node(l, node, r));
    assert Opened(tree, S, c, h, Node(l, node, r));
    CtxAround(tree, c, node, h);
    Leave(tree, node, child, c, HeightAbove(c, h), t);
    CtxAround(tree, c, child, h);
  }

  method Leave<K, E>(tree: AvlTree<K, E>, node: AvlNode<K, E>, child: AvlNode?<K, E>,
      ghost c: Ctx<AvlNode<K, E>>, ghost hu: int, ghost t: Tree<AvlNode<K, E>>)
    requires child == Root(t) && Linked(t, node) && Apart(c, t) && node !in Elems(t) && node !in CtxElems(c)
    requires node.parent == HoleParent(c) && Fits(tree, c, node, hu)
    modifies tree`root, Opt(HoleParent(c))`left, Opt(HoleParent(c))`right, Opt(Root(t))`parent
    ensures Fits(tree, c, child, hu) && Linked(t, HoleParent(c))
  {
    assert allocated(Elems(t)) && allocated(CtxElems(c));
    RootIn(t);
    var parent := node.parent;
    SetParent(child, parent, t, node);
    SetHole(tree, node, parent, child, c, hu);
  }

  method DeleteLeaf<K, E>(tree: AvlTree<K, E>, ghost S: set<AvlNode<K, E>>, node: AvlNode<K, E>,
      ghost c: Ctx<AvlNode<K, E>>)
    returns (ghost s: Tree<AvlNode<K, E>>, ghost calls: nat)
    requires Open(tree, S, c, 1, Node(Leaf, node, Leaf))
    modifies tree`root, S`parent, S`left, S`right, S`balance
    ensures Whole(tree, s) && calls <= Depth(c)
    ensures InOrder(s) == Before(c) + InOrder(Leaf) + (InOrder(Leaf) + After(c))
  {
    assert Opened(tree, S, c, 1, Node(Leaf, node, Leaf));
    var parent := node.parent;
    if parent == null {
      tree.root := null;
      s, calls := Leaf, 0;
      return;
    }
    var wasLeft := parent.left == node;
    Bypass(tree, S, node, null, c, Leaf, Leaf, Leaf);
    PlugInOrder(c, Leaf);
    if wasLeft {
      s, calls := ShrunkLeft(tree, S, parent, c, 1, Leaf);
    } else {
      s, calls := ShrunkRight(tree, S, parent, c, 1, Leaf);
    }
  }
}
