/** post_insert of avl.c: rebalancing after an insertion. */
module AvlPostInsert {
  import opened Trees
  import opened AvlHeap
  import opened AvlRotations

  /** `node` roots a subtree `t` that has just grown from height h to h + 1. `calls` counts the recursive
      calls. */
  method PostInsert<K, E>(tree: AvlTree<K, E>, ghost S: set<AvlNode<K, E>>, node: AvlNode<K, E>,
      ghost c: Ctx<AvlNode<K, E>>, ghost h: nat, ghost t: Tree<AvlNode<K, E>>)
    returns (ghost s: Tree<AvlNode<K, E>>, ghost calls: nat)
    requires t.Node? && t.node == node && Height(t) == h + 1 && Balance(t) != 0 && Balanced(t)
    requires Open(tree, S, c, h, t)
    modifies tree`root, S`parent, S`left, S`right, S`balance
    ensures Whole(tree, s) && InOrder(s) == InOrder(Plug(c, t))
    ensures calls <= Depth(c)
    decreases c, 1
  {
    assert Opened(tree, S, c, h, t);
    var parent := node.parent;
    if parent == null {
      s, calls := t, 0;
      return;
    }
    GrowUp(c, h, t);
    if node == parent.left {
      s, calls := GrownLeft(tree, S, node, parent, c, h, t);
    } else {
      s, calls := GrownRight(tree, S, node, parent, c, h, t);
    }
  }

  method GrownLeft<K, E>(tree: AvlTree<K, E>, ghost S: set<AvlNode<K, E>>, node: AvlNode<K, E>, parent: AvlNode<K, E>,
      ghost c: Ctx<AvlNode<K, E>>, ghost h: nat, ghost t: Tree<AvlNode<K, E>>)
    returns (ghost s: Tree<AvlNode<K, E>>, ghost calls: nat)
    requires t.Node? && t.node == node && Height(t) == h + 1 && Balance(t) != 0 && Balanced(t)
    requires Open(tree, S, c, h, t) && c.InLeft? && c.node == parent
    modifies tree`root, S`parent, S`left, S`right, S`balance
    ensures Whole(tree, s) && InOrder(s) == InOrder(Plug(c, t))
    ensures calls <= Depth(c)
    decreases c, 0
  {
    calls := 0;
    ParentIn(tree, S, c, h, t);
    GrowUp(c, h, t);
    Adjust(tree, S, parent, -1, c, h, t);
    if parent.balance == 0 {
      s := Done(tree, S, c.up, Fill(c, t));
    } else if parent.balance == -1 {
      s, calls := PostInsert(tree, S, parent, c.up, h + 1, Fill(c, t));
      calls := calls + 1;
    } else {
      s := LeftTooHigh(tree, S, node, parent, c.up, t, c.right);
    }
  }

  method GrownRight<K, E>(tree: AvlTree<K, E>, ghost S: set<AvlNode<K, E>>, node: AvlNode<K, E>, parent: AvlNode<K, E>,
      ghost c: Ctx<AvlNode<K, E>>, ghost h: nat, ghost t: Tree<AvlNode<K, E>>)
    returns (ghost s: Tree<AvlNode<K, E>>, ghost calls: nat)
    requires t.Node? && t.node == node && Height(t) == h + 1 && Balance(t) != 0 && Balanced(t)
    requires Open(tree, S, c, h, t) && c.InRight? && c.node == parent
    modifies tree`root, S`parent, S`left, S`right, S`balance
    ensures Whole(tree, s) && InOrder(s) == InOrder(Plug(c, t))
    ensures calls <= Depth(c)
    decreases c, 0
  {
    calls := 0;
    ParentIn(tree, S, c, h, t);
    GrowUp(c, h, t);
    Adjust(tree, S, parent, 1, c, h, t);
    if parent.balance == 0 {
      s := Done(tree, S, c.up, Fill(c, t));
    } else if parent.balance == 1 {
      s, calls := PostInsert(tree, S, parent, c.up, h + 1, Fill(c, t));
      calls := calls + 1;
    } else {
      s := RightTooHigh(tree, S, node, parent, c.up, c.left, t);
    }
  }

  /** The last branch on the left side: `node` is two levels higher than its sibling. */
  method LeftTooHigh<K, E>(tree: AvlTree<K, E>, ghost S: set<AvlNode<K, E>>, node: AvlNode<K, E>, parent: AvlNode<K, E>,
      ghost up: Ctx<AvlNode<K, E>>, ghost t: Tree<AvlNode<K, E>>, ghost r: Tree<AvlNode<K, E>>)
    returns (ghost s: Tree<AvlNode<K, E>>)
    requires t.Node? && t.node == node && Balance(t) != 0 && Balanced(t) && Balanced(r) && Height(t) == Height(r) + 2
    requires Open(tree, S, up, Height(t), Node(t, parent, r))
    modifies tree`root, S`parent, S`left, S`right, S`balance
    ensures Whole(tree, s) && InOrder(s) == InOrder(Plug(up, Node(t, parent, r)))
  {
    ghost var a, b := t.left, t.right;
    ChildrenKnow(tree, S, up, Height(t), Node(t, parent, r));
    if node.balance == -1 {
      SingleRightHeights(a, node, b, parent, r);
      SingleRight(tree, S, parent, up, Height(t), a, node, b, r);
      SameOrderRight(up, a, node, b, parent, r);
      s := Plug(up, Node(a, node, Node(b, parent, r)));
      Close(tree, S, up, Node(a, node, Node(b, parent, r)));
      return;
    }
    DoubleRightHeights(a, node, b, parent, r);
    DoubleRight(tree, S, node, parent, up, Height(t), a, b.left, b.node, b.right, r);
    s := Plug(up, Node(Node(a, node, b.left), b.node, Node(b.right, parent, r)));
    Close(tree, S, up, Node(Node(a, node, b.left), b.node, Node(b.right, parent, r)));
  }

  /** The last branch on the right side. */
  method RightTooHigh<K, E>(tree: AvlTree<K, E>, ghost S: set<AvlNode<K, E>>, node: AvlNode<K, E>,
      parent: AvlNode<K, E>,
      ghost up: Ctx<AvlNode<K, E>>, ghost l: Tree<AvlNode<K, E>>, ghost t: Tree<AvlNode<K, E>>)
    returns (ghost s: Tree<AvlNode<K, E>>)
    requires t.Node? && t.node == node && Balance(t) != 0 && Balanced(t) && Balanced(l) && Height(t) == Height(l) + 2
    requires Open(tree, S, up, Height(t), Node(l, parent, t))
    modifies tree`root, S`parent, S`left, S`right, S`balance
    ensures Whole(tree, s) && InOrder(s) == InOrder(Plug(up, Node(l, parent, t)))
  {
    ghost var a, b := t.left, t.right;
    ChildrenKnow(tree, S, up, Height(t), Node(l, parent, t));
    if node.balance == 1 {
      SingleLeftHeights(l, parent, a, node, b);
      SingleLeft(tree, S, parent, up, Height(t), l, a, node, b);
      SameOrderRight(up, l, parent, a, node, b);
      s := Plug(up, Node(Node(l, parent, a), node, b));
      Close(tree, S, up, Node(Node(l, parent, a), node, b));
      return;
    }
    DoubleLeftHeights(l, parent, a, node, b);
    DoubleLeft(tree, S, node, parent, up, Height(t), l, a.left, a.node, a.right, b);
    s := Plug(up, Node(Node(l, parent, a.left), a.node, Node(a.right, node, b)));
    Close(tree, S, up, Node(Node(l, parent, a.left), a.node, Node(a.right, node, b)));
  }
}
