/** avl_post_delete of avl.c: rebalancing after a deletion. */
module AvlPostDelete {
  import opened Trees
  import opened AvlHeap
  import opened AvlRotations

  /** `node` roots a subtree `t` that has just shrunk from height h to h - 1. `calls` counts the recursive
      calls. */
  method PostDelete<K, E>(tree: AvlTree<K, E>, ghost S: set<AvlNode<K, E>>, node: AvlNode<K, E>,
      ghost c: Ctx<AvlNode<K, E>>, ghost h: nat, ghost t: Tree<AvlNode<K, E>>)
    returns (ghost s: Tree<AvlNode<K, E>>, ghost calls: nat)
    requires t.Node? && t.node == node && Height(t) == h - 1 && Balanced(t)
    requires Open(tree, S, c, h, t)
    modifies tree`root, S`parent, S`left, S`right, S`balance
    ensures Whole(tree, s) && InOrder(s) == InOrder(Plug(c, t))
    ensures calls <= Depth(c)
    decreases c, 0, 0
  {
    assert Opened(tree, S, c, h, t);
    var parent := node.parent;
    if parent == null {
      s, calls := t, 0;
      return;
    }
    if node == parent.left {
      s, calls := ShrunkLeft(tree, S, parent, c, h, t);
    } else {
      s, calls := ShrunkRight(tree, S, parent, c, h, t);
    }
  }

  /** The left subtree `t` of `parent`, now possibly empty, lost a level. The branches are those of
      avl_post_delete; the leaf case of avl_delete_worker repeats them. */
  method ShrunkLeft<K, E>(tree: AvlTree<K, E>, ghost S: set<AvlNode<K, E>>, parent: AvlNode<K, E>,
      ghost c: Ctx<AvlNode<K, E>>, ghost h: nat, ghost t: Tree<AvlNode<K, E>>)
    returns (ghost s: Tree<AvlNode<K, E>>, ghost calls: nat)
    requires c.InLeft? && parent == c.node && Height(t) == h - 1 && Balanced(t)
    requires Open(tree, S, c, h, t)
    modifies tree`root, S`parent, S`left, S`right, S`balance
    ensures Whole(tree, s) && InOrder(s) == InOrder(Plug(c, t))
    ensures calls <= Depth(c)
    decreases c.up, 2
  {
    ParentIn(tree, S, c, h, t);
    ShrinkUp(c, h, t);
    Adjust(tree, S, parent, 1, c, h, t);
    if parent.balance == 0 {
      s, calls := PostDelete(tree, S, parent, c.up, HeightAbove(c, h), Fill(c, t));
      calls := calls + 1;
      return;
    }
    if parent.balance == 1 {
      s := Done(tree, S, c.up, Fill(c, t));
      calls := 0;
      return;
    }
    s, calls := RightHeavy(tree, S, parent, c.up, t, c.right);
  }

  /** The same on the right. */
  method ShrunkRight<K, E>(tree: AvlTree<K, E>, ghost S: set<AvlNode<K, E>>, parent: AvlNode<K, E>,
      ghost c: Ctx<AvlNode<K, E>>, ghost h: nat, ghost t: Tree<AvlNode<K, E>>)
    returns (ghost s: Tree<AvlNode<K, E>>, ghost calls: nat)
    requires c.InRight? && parent == c.node && Height(t) == h - 1 && Balanced(t)
    requires Open(tree, S, c, h, t)
    modifies tree`root, S`parent, S`left, S`right, S`balance
    ensures Whole(tree, s) && InOrder(s) == InOrder(Plug(c, t))
    ensures calls <= Depth(c)
    decreases c.up, 2
  {
    ParentIn(tree, S, c, h, t);
    ShrinkUp(c, h, t);
    Adjust(tree, S, parent, -1, c, h, t);
    if parent.balance == 0 {
      s, calls := PostDelete(tree, S, parent, c.up, HeightAbove(c, h), Fill(c, t));
      calls := calls + 1;
      return;
    }
    if parent.balance == -1 {
      s := Done(tree, S, c.up, Fill(c, t));
      calls := 0;
      return;
    }
    s, calls := LeftHeavy(tree, S, parent, c.up, c.left, t);
  }

  /** The left subtree of `parent` shrank to two levels below the right one: rotate, and go on
      upwards unless the height is what it was. */
  method RightHeavy<K, E>(tree: AvlTree<K, E>, ghost S: set<AvlNode<K, E>>, parent: AvlNode<K, E>,
      ghost up: Ctx<AvlNode<K, E>>, ghost l: Tree<AvlNode<K, E>>, ghost r: Tree<AvlNode<K, E>>)
    returns (ghost s: Tree<AvlNode<K, E>>, ghost calls: nat)
    requires Balanced(l) && Balanced(r) && Height(r) == Height(l) + 2
    requires Open(tree, S, up, Height(r) + 1, Node(l, parent, r))
    modifies tree`root, S`parent, S`left, S`right, S`balance
    ensures Whole(tree, s) && InOrder(s) == InOrder(Plug(up, Node(l, parent, r)))
    ensures calls <= Depth(up) + 1
    decreases up, 1
  {
    ChildrenKnow(tree, S, up, Height(r) + 1, Node(l, parent, r));
    if parent.right.balance == 0 || parent.right.balance == 1 {
      s, calls := RightSingle(tree, S, parent, up, l, r);
    } else {
      s, calls := RightDouble(tree, S, parent, up, l, r);
    }
  }

  method RightSingle<K, E>(tree: AvlTree<K, E>, ghost S: set<AvlNode<K, E>>, parent: AvlNode<K, E>,
      ghost up: Ctx<AvlNode<K, E>>, ghost l: Tree<AvlNode<K, E>>, ghost r: Tree<AvlNode<K, E>>)
    returns (ghost s: Tree<AvlNode<K, E>>, ghost calls: nat)
    requires Balanced(l) && Balanced(r) && Height(r) == Height(l) + 2 && parent.right == r.node
    requires Open(tree, S, up, Height(r) + 1, Node(l, parent, r)) && r.node.balance == Balance(r) >= 0
    modifies tree`root, S`parent, S`left, S`right, S`balance
    ensures Whole(tree, s) && InOrder(s) == InOrder(Plug(up, Node(l, parent, r)))
    ensures calls <= Depth(up) + 1
    decreases up, 0
  {
    ghost var h, a, n, b := Height(r) + 1, r.left, r.node, r.right;
    var flat := parent.right.balance == 0;
    SingleLeftHeights(l, parent, a, n, b);
    SingleLeft(tree, S, parent, up, h, l, a, n, b);
    SameOrderRight(up, l, parent, a, n, b);
    ghost var u := Node(Node(l, parent, a), n, b);
    if flat {
      s := Done(tree, S, up, u);
      calls := 0;
      return;
    }
    ChildrenKnow(tree, S, up, h, u);
    s, calls := PostDelete(tree, S, parent.parent, up, h, u);
    calls := calls + 1;
  }

  method RightDouble<K, E>(tree: AvlTree<K, E>, ghost S: set<AvlNode<K, E>>, parent: AvlNode<K, E>,
      ghost up: Ctx<AvlNode<K, E>>, ghost l: Tree<AvlNode<K, E>>, ghost r: Tree<AvlNode<K, E>>)
    returns (ghost s: Tree<AvlNode<K, E>>, ghost calls: nat)
    requires Balanced(l) && Balanced(r) && Height(r) == Height(l) + 2 && parent.right == r.node
    requires Open(tree, S, up, Height(r) + 1, Node(l, parent, r)) && Balance(r) < 0
    modifies tree`root, S`parent, S`left, S`right, S`balance
    ensures Whole(tree, s) && InOrder(s) == InOrder(Plug(up, Node(l, parent, r)))
    ensures calls <= Depth(up) + 1
    decreases up, 0
  {
    ghost var h, a, n, b := Height(r) + 1, r.left, r.node, r.right;
    DoubleLeftHeights(l, parent, a, n, b);
    DoubleLeft(tree, S, parent.right, parent, up, h, l, a.left, a.node, a.right, b);
    ghost var u := Node(Node(l, parent, a.left), a.node, Node(a.right, n, b));
    ChildrenKnow(tree, S, up, h, u);
    s, calls := PostDelete(tree, S, parent.parent, up, h, u);
    calls := calls + 1;
  }

  /** The mirror image. */
  method LeftHeavy<K, E>(tree: AvlTree<K, E>, ghost S: set<AvlNode<K, E>>, parent: AvlNode<K, E>,
      ghost up: Ctx<AvlNode<K, E>>, ghost l: Tree<AvlNode<K, E>>, ghost r: Tree<AvlNode<K, E>>)
    returns (ghost s: Tree<AvlNode<K, E>>, ghost calls: nat)
    requires Balanced(l) && Balanced(r) && Height(l) == Height(r) + 2
    requires Open(tree, S, up, Height(l) + 1, Node(l, parent, r))
    modifies tree`root, S`parent, S`left, S`right, S`balance
    ensures Whole(tree, s) && InOrder(s) == InOrder(Plug(up, Node(l, parent, r)))
    ensures calls <= Depth(up) + 1
    decreases up, 1
  {
    ChildrenKnow(tree, S, up, Height(l) + 1, Node(l, parent, r));
    if parent.left.balance == 0 || parent.left.balance == -1 {
      s, calls := LeftSingle(tree, S, parent, up, l, r);
    } else {
      s, calls := LeftDouble(tree, S, parent, up, l, r);
    }
  }

  method LeftSingle<K, E>(tree: AvlTree<K, E>, ghost S: set<AvlNode<K, E>>, parent: AvlNode<K, E>,
      ghost up: Ctx<AvlNode<K, E>>, ghost l: Tree<AvlNode<K, E>>, ghost r: Tree<AvlNode<K, E>>)
    returns (ghost s: Tree<AvlNode<K, E>>, ghost calls: nat)
    requires Balanced(l) && Balanced(r) && Height(l) == Height(r) + 2 && parent.left == l.node
    requires Open(tree, S, up, Height(l) + 1, Node(l, parent, r)) && l.node.balance == Balance(l) <= 0
    modifies tree`root, S`parent, S`left, S`right, S`balance
    ensures Whole(tree, s) && InOrder(s) == InOrder(Plug(up, Node(l, parent, r)))
    ensures calls <= Depth(up) + 1
    decreases up, 0
  {
    ghost var h, a, n, b := Height(l) + 1, l.left, l.node, l.right;
    var flat := parent.left.balance == 0;
    SingleRightHeights(a, n, b, parent, r);
    SingleRight(tree, S, parent, up, h, a, n, b, r);
    SameOrderRight(up, a, n, b, parent, r);
    ghost var u := Node(a, n, Node(b, parent, r));
    if flat {
      s := Done(tree, S, up, u);
      calls := 0;
      return;
    }
    ChildrenKnow(tree, S, up, h, u);
    s, calls := PostDelete(tree, S, parent.parent, up, h, u);
    calls := calls + 1;
  }

  method LeftDouble<K, E>(tree: AvlTree<K, E>, ghost S: set<AvlNode<K, E>>, parent: AvlNode<K, E>,
      ghost up: Ctx<AvlNode<K, E>>, ghost l: Tree<AvlNode<K, E>>, ghost r: Tree<AvlNode<K, E>>)
    returns (ghost s: Tree<AvlNode<K, E>>, ghost calls: nat)
    requires Balanced(l) && Balanced(r) && Height(l) == Height(r) + 2 && parent.left == l.node
    requires Open(tree, S, up, Height(l) + 1, Node(l, parent, r)) && Balance(l) > 0
    modifies tree`root, S`parent, S`left, S`right, S`balance
    ensures Whole(tree, s) && InOrder(s) == InOrder(Plug(up, Node(l, parent, r)))
    ensures calls <= Depth(up) + 1
    decreases up, 0
  {
    ghost var h, a, n, b := Height(l) + 1, l.left, l.node, l.right;
    DoubleRightHeights(a, n, b, parent, r);
    DoubleRight(tree, S, parent.left, parent, up, h, a, b.left, b.node, b.right, r);
    ghost var u := Node(Node(a, n, b.left), b.node, Node(b.right, parent, r));
    ChildrenKnow(tree, S, up, h, u);
    s, calls := PostDelete(tree, S, parent.parent, up, h, u);
    calls := calls + 1;
  }
}
