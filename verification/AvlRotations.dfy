/** The single and double rotations as post_insert and avl_post_delete use them. */
module AvlRotations {
  import opened Trees
  import opened AvlHeap

  /** The heap is exactly the tree `s`, which is balanced. */
  ghost predicate Whole<K, E>(tree: AvlTree<K, E>, s: Tree<AvlNode<K, E>>)
    reads tree`root, Elems(s)
  {
    tree.root == Root(s) && Linked(s, null) && Balanced(s) && NoDup(s)
  }

  /** Everything is in place except that the tree in the hole may be out of balance, or of
      another height than its surroundings were built for. `S` is any set of nodes that
      contains all of them: the memory the rebalancing may write. */
  ghost predicate Opened<K, E>(tree: AvlTree<K, E>, S: set<AvlNode<K, E>>, c: Ctx<AvlNode<K, E>>, h: int,
      t: Tree<AvlNode<K, E>>)
    reads tree`root, CtxElems(c), Elems(t)
  {
    && CtxElems(c) <= S && Elems(t) <= S
    && Apart(c, t) && CtxLinked(tree, c, Root(t), h) && CtxBalanced(c, h) && Linked(t, HoleParent(c))
  }

  /** The same, said so that a proof looks into it only where it mentions what is open. */
  ghost predicate Open<K, E>(tree: AvlTree<K, E>, S: set<AvlNode<K, E>>, c: Ctx<AvlNode<K, E>>, h: int,
      t: Tree<AvlNode<K, E>>)
    reads tree`root, CtxElems(c), Elems(t)
  {
    forall d {:trigger Opened(tree, S, d, h, t)} :: d == c ==> Opened(tree, S, d, h, t)
  }

  /** The children of what is open know their parent. */
  lemma {:induction false} ChildrenKnow<K, E>(tree: AvlTree<K, E>, S: set<AvlNode<K, E>>, c: Ctx<AvlNode<K, E>>, h: int,
      t: Tree<AvlNode<K, E>>)
    requires Open(tree, S, c, h, t) && t.Node?
    ensures t.node.left == Root(t.left) && t.node.right == Root(t.right)
    ensures t.left.Node? ==> t.left.node.parent == t.node && t.left.node.balance == Balance(t.left)
    ensures t.right.Node? ==> t.right.node.parent == t.node && t.right.node.balance == Balance(t.right)
  {
    assert Opened(tree, S, c, h, t);
    assert Linked(t, HoleParent(c));
    assert t.left.Node? ==> Linked(t.left, t.node);
    assert t.right.Node? ==> Linked(t.right, t.node);
  }

  lemma {:induction false} Close<K, E>(tree: AvlTree<K, E>, S: set<AvlNode<K, E>>, c: Ctx<AvlNode<K, E>>,
      t: Tree<AvlNode<K, E>>)
    requires Open(tree, S, c, Height(t), t) && Balanced(t)
    ensures Whole(tree, Plug(c, t))
  {
    assert Opened(tree, S, c, Height(t), t);
    CutLinked(tree, c, t);
    PlugBalanced(c, t);
    PlugApart(c, t);
  }

  lemma {:induction false} OpenUp<K, E>(tree: AvlTree<K, E>, S: set<AvlNode<K, E>>, c: Ctx<AvlNode<K, E>>,
      t: Tree<AvlNode<K, E>>)
    requires Whole(tree, Plug(c, t)) && Elems(Plug(c, t)) <= S
    ensures Open(tree, S, c, Height(t), t) && Balanced(t)
  {
    CutLinked(tree, c, t);
    PlugBalanced(c, t);
    PlugApart(c, t);
    PlugElems(c, t);
  }

  /** The whole tree is in order again. */
  lemma {:induction false} Done<K, E>(tree: AvlTree<K, E>, S: set<AvlNode<K, E>>, c: Ctx<AvlNode<K, E>>,
      t: Tree<AvlNode<K, E>>)
    returns (s: Tree<AvlNode<K, E>>)
    requires Open(tree, S, c, Height(t), t) && Balanced(t)
    ensures Whole(tree, s) && InOrder(s) == InOrder(Plug(c, t))
  {
    s := Plug(c, t);
    Close(tree, S, c, t);
  }

  lemma {:induction false} ParentIn<K, E>(tree: AvlTree<K, E>, S: set<AvlNode<K, E>>, c: Ctx<AvlNode<K, E>>, h: int,
      t: Tree<AvlNode<K, E>>)
    requires Open(tree, S, c, h, t) && !c.Top?
    ensures c.node in S && CtxBalanced(c, h)
  {
    assert Opened(tree, S, c, h, t);
  }

  /** What is open, in parts. */
  ghost predicate InParts<K, E>(tree: AvlTree<K, E>, S: set<AvlNode<K, E>>, c: Ctx<AvlNode<K, E>>, h: int,
      t: Tree<AvlNode<K, E>>)
    reads tree`root, CtxElems(c), Elems(t)
  {
    && CtxElems(c) <= S && Elems(t) <= S && Apart(c, t) && CtxBalanced(c, h) && Linked(t, HoleParent(c))
    && Fits(tree, c, Root(t), HeightAbove(c, h)) && (c.Top? || c.node.balance == BalanceAbove(c, h))
  }

  lemma {:induction false} OpenAround<K, E>(tree: AvlTree<K, E>, S: set<AvlNode<K, E>>, c: Ctx<AvlNode<K, E>>, h: int,
      t: Tree<AvlNode<K, E>>)
    ensures Open(tree, S, c, h, t) <==> InParts(tree, S, c, h, t)
  {
    assert Open(tree, S, c, h, t) <==> Opened(tree, S, c, h, t);
    CtxAround(tree, c, Root(t), h);
  }

  /** Moving the cut one level down, without asking that the hole's parent be balanced. */
  ghost predicate Below<K, E>(tree: AvlTree<K, E>, S: set<AvlNode<K, E>>, c: Ctx<AvlNode<K, E>>, h: int,
      t: Tree<AvlNode<K, E>>)
    requires !c.Top?
    reads tree`root, CtxElems(c), Elems(t)
  {
    && CtxElems(c) <= S && Elems(t) <= S && Apart(c, t) && CtxBalanced(c.up, h)
    && Fits(tree, c, Root(t), h) && Linked(t, c.node) && c.node.balance == Balance(Fill(c, t))
  }

  lemma {:induction false} OpenBelow<K, E>(tree: AvlTree<K, E>, S: set<AvlNode<K, E>>, c: Ctx<AvlNode<K, E>>, h: int,
      t: Tree<AvlNode<K, E>>)
    requires !c.Top?
    ensures Open(tree, S, c.up, h, Fill(c, t)) <==> Below(tree, S, c, h, t)
  {
    PlugApart(c, t);
    PlugApart(c.up, Fill(c, t));
    assert Open(tree, S, c.up, h, Fill(c, t)) <==> Opened(tree, S, c.up, h, Fill(c, t));
    assert Fits(tree, c, Root(t), h) <==> Around(tree, c, Root(t), h);
    assert Elems(Fill(c, t)) + CtxElems(c.up) == Elems(t) + CtxElems(c);
  }

  /** Add `delta` to the balance of the hole's parent, to account for a subtree that grew or
      shrank; the parent's own subtree is then linked. */
  method Adjust<K, E>(tree: AvlTree<K, E>, ghost S: set<AvlNode<K, E>>, p: AvlNode<K, E>, delta: int,
      ghost c: Ctx<AvlNode<K, E>>, ghost h: int, ghost t: Tree<AvlNode<K, E>>)
    requires Open(tree, S, c, h, t) && !c.Top? && p == c.node
    requires Height(t) == if c.InLeft? then h - delta else h + delta
    modifies p`balance
    ensures p.balance == old(p.balance) + delta == Balance(Fill(c, t))
    ensures Open(tree, S, c.up, HeightAbove(c, h), Fill(c, t))
    ensures Plug(c.up, Fill(c, t)) == Plug(c, t)
  {
    OpenAround(tree, S, c, h, t);
    Move(tree, p, delta, c, HeightAbove(c, h), t);
    OpenBelow(tree, S, c, HeightAbove(c, h), t);
  }

  /** The balance of the hole's parent is of no concern to what is around and in it. */
  method Move<K, E>(tree: AvlTree<K, E>, p: AvlNode<K, E>, delta: int, ghost c: Ctx<AvlNode<K, E>>, ghost hu: int,
      ghost t: Tree<AvlNode<K, E>>)
    requires !c.Top? && p == c.node && Apart(c, t) && Fits(tree, c, Root(t), hu) && Linked(t, p)
    modifies p`balance
    ensures p.balance == old(p.balance) + delta && Fits(tree, c, Root(t), hu) && Linked(t, p)
  {
    assert allocated(Elems(t)) && allocated(CtxElems(c));
    assert Around(tree, c, Root(t), hu);
    p.balance := p.balance + delta;
    assert Around(tree, c, Root(t), hu);
  }

  lemma {:induction false} PiecesApart<N>(c: Ctx<N>, a: Tree<N>, n: N, b: Tree<N>, p: N, d: Tree<N>)
    ensures Elems(Node(Node(a, n, b), p, d)) == Elems(Node(a, n, Node(b, p, d)))
    ensures Apart(c, Node(Node(a, n, b), p, d)) <==> Pieces(a, n, b, p, d) && Away(c, a, n, b, p, d)
    ensures Apart(c, Node(a, n, Node(b, p, d))) <==> Pieces(a, n, b, p, d) && Away(c, a, n, b, p, d)
  {
    PiecesOf(a, n, b, p, d);
  }

  /** One right rotation at `p`, whose left child is `n`. */
  method SingleRight<K, E>(tree: AvlTree<K, E>, ghost S: set<AvlNode<K, E>>, p: AvlNode<K, E>,
      ghost up: Ctx<AvlNode<K, E>>, ghost h: int,
      ghost a: Tree<AvlNode<K, E>>, ghost n: AvlNode<K, E>, ghost b: Tree<AvlNode<K, E>>, ghost r: Tree<AvlNode<K, E>>)
    requires Open(tree, S, up, h, Node(Node(a, n, b), p, r))
    modifies tree`root, S`parent, S`left, S`right, S`balance
    ensures Open(tree, S, up, h, Node(a, n, Node(b, p, r)))
  {
    assert Opened(tree, S, up, h, Node(Node(a, n, b), p, r));
    PiecesApart(up, a, n, b, p, r);
    CtxAround(tree, up, p, h);
    RotateRight(tree, p, up, HeightAbove(up, h), a, n, b, r);
    CtxAround(tree, up, n, h);
  }

  /** One left rotation at `p`, whose right child is `n`. */
  method SingleLeft<K, E>(tree: AvlTree<K, E>, ghost S: set<AvlNode<K, E>>, p: AvlNode<K, E>,
      ghost up: Ctx<AvlNode<K, E>>, ghost h: int,
      ghost l: Tree<AvlNode<K, E>>, ghost b: Tree<AvlNode<K, E>>, ghost n: AvlNode<K, E>, ghost d: Tree<AvlNode<K, E>>)
    requires Open(tree, S, up, h, Node(l, p, Node(b, n, d)))
    modifies tree`root, S`parent, S`left, S`right, S`balance
    ensures Open(tree, S, up, h, Node(Node(l, p, b), n, d))
  {
    assert Opened(tree, S, up, h, Node(l, p, Node(b, n, d)));
    PiecesApart(up, l, p, b, n, d);
    CtxAround(tree, up, p, h);
    RotateLeft(tree, p, up, HeightAbove(up, h), l, b, n, d);
    CtxAround(tree, up, n, h);
  }

  /** A left rotation at the left child `n` of `p`. The rotation keeps the height of that
      subtree, so `p` stays linked. */
  method InnerLeft<K, E>(tree: AvlTree<K, E>, ghost S: set<AvlNode<K, E>>, n: AvlNode<K, E>, ghost p: AvlNode<K, E>,
      ghost up: Ctx<AvlNode<K, E>>, ghost h: int,
      ghost a: Tree<AvlNode<K, E>>, ghost b: Tree<AvlNode<K, E>>, ghost x: AvlNode<K, E>,
      ghost d: Tree<AvlNode<K, E>>, ghost r: Tree<AvlNode<K, E>>)
    requires Height(a) == Max(Height(b), Height(d))
    requires Open(tree, S, up, h, Node(Node(a, n, Node(b, x, d)), p, r))
    modifies tree`root, S`parent, S`left, S`right, S`balance
    ensures Open(tree, S, up, h, Node(Node(Node(a, n, b), x, d), p, r))
  {
    ghost var c, t := InLeft(up, p, r), Node(a, n, Node(b, x, d));
    ghost var u := Node(Node(a, n, b), x, d);
    assert Height(u) == Height(t);
    OpenBelow(tree, S, c, h, t);
    PiecesApart(c, a, n, b, x, d);
    RotateLeft(tree, n, c, h, a, b, x, d);
    OpenBelow(tree, S, c, h, u);
  }

  /** A right rotation at the right child `n` of `p`. */
  method InnerRight<K, E>(tree: AvlTree<K, E>, ghost S: set<AvlNode<K, E>>, n: AvlNode<K, E>, ghost p: AvlNode<K, E>,
      ghost up: Ctx<AvlNode<K, E>>, ghost h: int,
      ghost l: Tree<AvlNode<K, E>>, ghost a: Tree<AvlNode<K, E>>, ghost x: AvlNode<K, E>,
      ghost b: Tree<AvlNode<K, E>>, ghost d: Tree<AvlNode<K, E>>)
    requires Height(d) == Max(Height(a), Height(b))
    requires Open(tree, S, up, h, Node(l, p, Node(Node(a, x, b), n, d)))
    modifies tree`root, S`parent, S`left, S`right, S`balance
    ensures Open(tree, S, up, h, Node(l, p, Node(a, x, Node(b, n, d))))
  {
    ghost var c, t := InRight(l, p, up), Node(Node(a, x, b), n, d);
    ghost var u := Node(a, x, Node(b, n, d));
    assert Height(u) == Height(t);
    OpenBelow(tree, S, c, h, t);
    PiecesApart(c, a, x, b, n, d);
    RotateRight(tree, n, c, h, a, x, b, d);
    OpenBelow(tree, S, c, h, u);
  }

  /** Rotations do not change the traversal. */
  lemma {:induction false} SameOrderRight<N>(c: Ctx<N>, a: Tree<N>, n: N, b: Tree<N>, p: N, r: Tree<N>)
    ensures InOrder(Plug(c, Node(a, n, Node(b, p, r)))) == InOrder(Plug(c, Node(Node(a, n, b), p, r)))
  {
    PlugInOrder(c, Node(a, n, Node(b, p, r)));
    PlugInOrder(c, Node(Node(a, n, b), p, r));
    assert InOrder(Node(a, n, Node(b, p, r))) == InOrder(a) + [n] + (InOrder(b) + [p] + InOrder(r));
    assert InOrder(Node(Node(a, n, b), p, r)) == (InOrder(a) + [n] + InOrder(b)) + [p] + InOrder(r);
  }

  /** A double rotation to the right: the left child's right child ends up on top. */
  method DoubleRight<K, E>(tree: AvlTree<K, E>, ghost S: set<AvlNode<K, E>>, n: AvlNode<K, E>, p: AvlNode<K, E>,
      ghost up: Ctx<AvlNode<K, E>>, ghost h: int,
      ghost a: Tree<AvlNode<K, E>>, ghost b: Tree<AvlNode<K, E>>, ghost x: AvlNode<K, E>,
      ghost d: Tree<AvlNode<K, E>>, ghost r: Tree<AvlNode<K, E>>)
    requires Height(a) == Max(Height(b), Height(d))
    requires Open(tree, S, up, h, Node(Node(a, n, Node(b, x, d)), p, r))
    modifies tree`root, S`parent, S`left, S`right, S`balance
    ensures Open(tree, S, up, h, Node(Node(a, n, b), x, Node(d, p, r)))
    ensures InOrder(Plug(up, Node(Node(a, n, b), x, Node(d, p, r)))) == InOrder(Plug(up, Node(Node(a, n, Node(b, x, d)), p, r)))
  {
    InnerLeft(tree, S, n, p, up, h, a, b, x, d, r);
    SingleRight(tree, S, p, up, h, Node(a, n, b), x, d, r);
    SameOrderRight(up, Node(a, n, b), x, d, p, r);
    SameOrderRight(InLeft(up, p, r), a, n, b, x, d);
  }

  method DoubleLeft<K, E>(tree: AvlTree<K, E>, ghost S: set<AvlNode<K, E>>, n: AvlNode<K, E>, p: AvlNode<K, E>,
      ghost up: Ctx<AvlNode<K, E>>, ghost h: int,
      ghost l: Tree<AvlNode<K, E>>, ghost a: Tree<AvlNode<K, E>>, ghost x: AvlNode<K, E>,
      ghost b: Tree<AvlNode<K, E>>, ghost d: Tree<AvlNode<K, E>>)
    requires Height(d) == Max(Height(a), Height(b))
    requires Open(tree, S, up, h, Node(l, p, Node(Node(a, x, b), n, d)))
    modifies tree`root, S`parent, S`left, S`right, S`balance
    ensures Open(tree, S, up, h, Node(Node(l, p, a), x, Node(b, n, d)))
    ensures InOrder(Plug(up, Node(Node(l, p, a), x, Node(b, n, d)))) == InOrder(Plug(up, Node(l, p, Node(Node(a, x, b), n, d))))
  {
    InnerRight(tree, S, n, p, up, h, l, a, x, b, d);
    SingleLeft(tree, S, p, up, h, l, a, x, Node(b, n, d));
    SameOrderRight(up, l, p, a, x, Node(b, n, d));
    SameOrderRight(InRight(l, p, up), a, x, b, n, d);
  }
}
