/** The structures of avl.h, what it means for their pointers to represent a tree,
    and the two rotations of avl.c. */
module AvlHeap {
  import opened Wrappers
  import opened Trees
  import opened Lists

  /** struct avl_node. `element` is the structure the node is embedded in. */
  class AvlNode<K, E> {
    const key: K
    const element: E
    const list: ListHead<AvlNode<K, E>>
    var parent: AvlNode?<K, E>
    var left: AvlNode?<K, E>
    var right: AvlNode?<K, E>
    var balance: int
    var leader: bool

    constructor (key: K, element: E)
      ensures this.key == key && this.element == element
      ensures fresh(list) && list.entry == Some(this)
    {
      this.key, this.element := key, element;
      list := new ListHead<AvlNode<K, E>>();
      new;
      list.entry := Some(this);
    }
  }

  /** struct avl_tree. The two ghost fields are its abstract value: the nodes in list
      order, and the tree formed by the leaders. */
  class AvlTree<K, E> {
    const listHead: ListHead<AvlNode<K, E>>
    const comp: (K, K) -> int
    const allowDups: bool
    var root: AvlNode?<K, E>
    var count: nat
    ghost var items: seq<AvlNode<K, E>>
    ghost var shape: Tree<AvlNode<K, E>>

    /** avl_init */
    constructor (comp: (K, K) -> int, allowDups: bool)
      ensures this.comp == comp && this.allowDups == allowDups
      ensures items == [] && shape == Leaf && root == null && count == 0
      ensures fresh(listHead) && listHead.entry == None && Ring([listHead])
    {
      this.comp, this.allowDups := comp, allowDups;
      listHead := new ListHead<AvlNode<K, E>>();
      root, count := null, 0;
      items, shape := [], Leaf;
    }
  }

  ghost function Root<K, E>(t: Tree<AvlNode<K, E>>): AvlNode?<K, E> {
    if t.Leaf? then null else t.node
  }

  ghost function HoleParent<K, E>(c: Ctx<AvlNode<K, E>>): AvlNode?<K, E> {
    if c.Top? then null else c.node
  }

  /** The heap represents `t`: child and parent pointers agree with it, and every
      balance field is the true difference of heights. */
  ghost predicate Linked<K, E>(t: Tree<AvlNode<K, E>>, parent: AvlNode?<K, E>)
    reads Elems(t)
  {
    t.Node? ==>
      && t.node.parent == parent
      && t.node.left == Root(t.left) && t.node.right == Root(t.right)
      && t.node.balance == Balance(t)
      && Linked(t.left, t.node) && Linked(t.right, t.node)
  }

  /** The heap represents the surroundings `c` of a hole. The pointer into the hole is
      `hole`, and balance fields are right for a hole holding a tree of height h. */
  ghost predicate CtxLinked<K, E>(tree: AvlTree<K, E>, c: Ctx<AvlNode<K, E>>, hole: AvlNode?<K, E>, h: int)
    reads tree`root, CtxElems(c)
  {
    match c
    case Top => tree.root == hole
    case InLeft(up, n, r) =>
      && n.left == hole && n.right == Root(r) && n.parent == HoleParent(up)
      && n.balance == Height(r) - h && Linked(r, n)
      && CtxLinked(tree, up, n, 1 + Max(h, Height(r)))
    case InRight(l, n, up) =>
      && n.left == Root(l) && n.right == hole && n.parent == HoleParent(up)
      && n.balance == h - Height(l) && Linked(l, n)
      && CtxLinked(tree, up, n, 1 + Max(h, Height(l)))
  }

  /** Like `CtxLinked`, but silent about the balance field of the hole's parent; `hu` is the
      height that the nodes above that parent take it to have. In the middle of a double
      rotation the two disagree. */
  ghost predicate Around<K, E>(tree: AvlTree<K, E>, c: Ctx<AvlNode<K, E>>, hole: AvlNode?<K, E>, hu: int)
    reads tree`root, CtxElems(c)
  {
    match c
    case Top => tree.root == hole
    case InLeft(up, n, r) =>
      n.left == hole && n.right == Root(r) && n.parent == HoleParent(up) && Linked(r, n) && CtxLinked(tree, up, n, hu)
    case InRight(l, n, up) =>
      n.left == Root(l) && n.right == hole && n.parent == HoleParent(up) && Linked(l, n) && CtxLinked(tree, up, n, hu)
  }

  /** The same, said so that a proof looks into the surroundings only where it mentions what is
      around. */
  ghost predicate Fits<K, E>(tree: AvlTree<K, E>, c: Ctx<AvlNode<K, E>>, hole: AvlNode?<K, E>, hu: int)
    reads tree`root, CtxElems(c)
  {
    forall h {:trigger Around(tree, c, h, hu)} :: h == hole ==> Around(tree, c, h, hu)
  }

  lemma {:induction false} CtxAround<K, E>(tree: AvlTree<K, E>, c: Ctx<AvlNode<K, E>>, hole: AvlNode?<K, E>, h: int)
    ensures CtxLinked(tree, c, hole, h) <==>
      Around(tree, c, hole, HeightAbove(c, h)) && (c.Top? || c.node.balance == BalanceAbove(c, h))
  {
  }

  /** A whole tree is linked exactly when its two parts are, at whatever node it is cut. */
  lemma {:induction false} CutLinked<K, E>(tree: AvlTree<K, E>, c: Ctx<AvlNode<K, E>>, t: Tree<AvlNode<K, E>>)
    ensures tree.root == Root(Plug(c, t)) && Linked(Plug(c, t), null)
       <==> CtxLinked(tree, c, Root(t), Height(t)) && Linked(t, HoleParent(c))
  {
    if c != Top {
      FillLinked(tree, c, t);
      CutLinked(tree, c.up, Fill(c, t));
    }
  }

  lemma {:induction false} FillLinked<K, E>(tree: AvlTree<K, E>, c: Ctx<AvlNode<K, E>>, t: Tree<AvlNode<K, E>>)
    requires !c.Top?
    ensures CtxLinked(tree, c, Root(t), Height(t)) && Linked(t, c.node)
       <==> CtxLinked(tree, c.up, c.node, Height(Fill(c, t))) && Linked(Fill(c, t), HoleParent(c.up))
  {
    var side := if c.InLeft? then c.right else c.left;
    assert Height(Fill(c, t)) == 1 + Max(Height(t), Height(side));
  }

  /** A node pointer as a frame. */
  ghost function Opt<K, E>(node: AvlNode?<K, E>): set<AvlNode<K, E>> {
    if node == null then {} else {node}
  }

  lemma {:induction false} RootIn<K, E>(t: Tree<AvlNode<K, E>>)
    ensures Opt(Root(t)) <= Elems(t)
  {
  }

  /** Redirect the pointer that leads into the hole: the tree's root or one child pointer
      of the hole's parent. */
  method SetHole<K, E>(tree: AvlTree<K, E>, node: AvlNode<K, E>, parent: AvlNode?<K, E>, to: AvlNode?<K, E>,
                       ghost c: Ctx<AvlNode<K, E>>, ghost hu: int)
    requires CtxNoDup(c) && Fits(tree, c, node, hu) && parent == HoleParent(c) && node !in CtxElems(c)
    modifies tree`root, Opt(parent)`left, Opt(parent)`right
    ensures Fits(tree, c, to, hu)
  {
    assert Around(tree, c, node, hu);
    if parent == null {
      tree.root := to;
    } else if parent.left == node {
      parent.left := to;
    } else {
      parent.right := to;
    }
  }

  /** Hang a detached subtree under another parent. */
  method SetParent<K, E>(node: AvlNode?<K, E>, parent: AvlNode?<K, E>, ghost t: Tree<AvlNode<K, E>>,
      ghost was: AvlNode?<K, E>)
    requires NoDup(t) && node == Root(t) && Linked(t, was)
    modifies Opt(node)`parent
    ensures Linked(t, parent)
  {
    if node != null {
      node.parent := parent;
    }
  }

  /** Two nodes and the three subtrees around them, all separate; what a rotation works on. */
  ghost predicate Pieces<N>(a: Tree<N>, l: N, b: Tree<N>, n: N, d: Tree<N>) {
    && NoDup(a) && NoDup(b) && NoDup(d) && l != n
    && l !in Elems(a) && l !in Elems(b) && l !in Elems(d)
    && n !in Elems(a) && n !in Elems(b) && n !in Elems(d)
    && Elems(a) !! Elems(b) && Elems(a) !! Elems(d) && Elems(b) !! Elems(d)
  }

  ghost function PieceElems<N>(a: Tree<N>, l: N, b: Tree<N>, n: N, d: Tree<N>): set<N> {
    {l, n} + Elems(a) + Elems(b) + Elems(d)
  }

  lemma {:induction false} PiecesOf<N>(a: Tree<N>, l: N, b: Tree<N>, n: N, d: Tree<N>)
    ensures NoDup(Node(Node(a, l, b), n, d)) <==> Pieces(a, l, b, n, d)
    ensures NoDup(Node(a, l, Node(b, n, d))) <==> Pieces(a, l, b, n, d)
    ensures Elems(Node(Node(a, l, b), n, d)) == PieceElems(a, l, b, n, d)
    ensures Elems(Node(a, l, Node(b, n, d))) == PieceElems(a, l, b, n, d)
  {
    var t, u := Node(a, l, b), Node(b, n, d);
    assert Elems(t) == Elems(a) + {l} + Elems(b);
    assert Elems(u) == Elems(b) + {n} + Elems(d);
    assert NoDup(t) <==> l !in Elems(a) && l !in Elems(b) && Elems(a) !! Elems(b) && NoDup(a) && NoDup(b);
    assert NoDup(u) <==> n !in Elems(b) && n !in Elems(d) && Elems(b) !! Elems(d) && NoDup(b) && NoDup(d);
  }

  /** avl_rotate_right, on a node whose left child is `l`. The traversal order is unchanged
      and the balance arithmetic is exact for subtrees of any heights. */
  method RotateRight<K, E>(tree: AvlTree<K, E>, node: AvlNode<K, E>, ghost c: Ctx<AvlNode<K, E>>, ghost hu: int,
      ghost a: Tree<AvlNode<K, E>>, ghost l: AvlNode<K, E>, ghost b: Tree<AvlNode<K, E>>, ghost d: Tree<AvlNode<K, E>>)
    requires Pieces(a, l, b, node, d) && Away(c, a, l, b, node, d)
    requires Fits(tree, c, node, hu) && Linked(Node(Node(a, l, b), node, d), HoleParent(c))
    modifies tree`root, Opt(HoleParent(c))`left, Opt(HoleParent(c))`right,
      {l, node}`parent, {l, node}`left, {l, node}`right, {l, node}`balance, Opt(Root(b))`parent
    ensures Fits(tree, c, l, hu)
    ensures Linked(Node(a, l, Node(b, node, d)), HoleParent(c))
  {
    var left := node.left;
    var parent := node.parent;
    Lift(tree, node, left, parent, c, hu, a, b, d);
    assert allocated(CtxElems(c));
    TakeRightChild(node, left, a, b, d);
  }

  /** The last steps of a right rotation: new balances from old ones, without looking at heights. */
  method SettleRight<K, E>(node: AvlNode<K, E>, left: AvlNode<K, E>,
      ghost a: Tree<AvlNode<K, E>>, ghost b: Tree<AvlNode<K, E>>, ghost d: Tree<AvlNode<K, E>>)
    requires Pieces(a, left, b, node, d)
    requires Linked(a, left) && Linked(b, node) && Linked(d, node)
    requires left.left == Root(a) && left.right == node && node.left == Root(b) && node.right == Root(d)
    requires node.parent == left
    requires left.balance == Height(b) - Height(a)
    requires node.balance == Height(d) - (1 + Max(Height(a), Height(b)))
    modifies node`balance, left`balance
    ensures Linked(Node(a, left, Node(b, node, d)), left.parent)
  {
    node.balance := node.balance + 1 - Min(left.balance, 0);
    left.balance := left.balance + 1 + Max(node.balance, 0);
    assert Linked(a, left) && Linked(b, node) && Linked(d, node);
    assert Linked(Node(b, node, d), left);
  }

  ghost predicate Away<N>(c: Ctx<N>, a: Tree<N>, l: N, b: Tree<N>, n: N, d: Tree<N>) {
    && CtxNoDup(c) && l !in CtxElems(c) && n !in CtxElems(c)
    && Elems(a) !! CtxElems(c) && Elems(b) !! CtxElems(c) && Elems(d) !! CtxElems(c)
  }

  /** The rest of a right rotation: the inner subtree changes sides and the node hangs below `left`. */
  method TakeRightChild<K, E>(node: AvlNode<K, E>, left: AvlNode<K, E>,
      ghost a: Tree<AvlNode<K, E>>, ghost b: Tree<AvlNode<K, E>>, ghost d: Tree<AvlNode<K, E>>)
    requires Pieces(a, left, b, node, d) && left.right == Root(b)
    requires Linked(a, left) && Linked(b, left) && Linked(d, node)
    requires left.left == Root(a) && node.right == Root(d) && node.parent == left
    requires left.balance == Height(b) - Height(a)
    requires node.balance == Height(d) - (1 + Max(Height(a), Height(b)))
    modifies node`left, left`right, Opt(Root(b))`parent, node`balance, left`balance
    ensures Linked(Node(a, left, Node(b, node, d)), left.parent)
  {
    assert allocated(Elems(a)) && allocated(Elems(d));
    node.left := left.right;
    left.right := node;
    SetParent(node.left, node, b, left);
    SettleRight(node, left, a, b, d);
  }

  /** The first steps of either rotation: the child takes the node's place below `parent`. */
  method Lift<K, E>(tree: AvlTree<K, E>, node: AvlNode<K, E>, child: AvlNode<K, E>, parent: AvlNode?<K, E>,
      ghost c: Ctx<AvlNode<K, E>>, ghost hu: int, ghost a: Tree<AvlNode<K, E>>, ghost b: Tree<AvlNode<K, E>>,
      ghost d: Tree<AvlNode<K, E>>)
    requires Pieces(a, child, b, node, d) && CtxNoDup(c) && child !in CtxElems(c) && node !in CtxElems(c)
    requires parent == null || (parent !in Elems(a) && parent !in Elems(b) && parent !in Elems(d))
    requires Fits(tree, c, node, hu) && parent == HoleParent(c)
    requires Linked(a, child) && Linked(b, child) && Linked(d, node)
    modifies tree`root, Opt(parent)`left, Opt(parent)`right, child`parent, node`parent
    ensures Fits(tree, c, child, hu)
    ensures Linked(a, child) && Linked(b, child) && Linked(d, node)
    ensures child.parent == parent && node.parent == child
  {
    assert allocated(Elems(a)) && allocated(Elems(b)) && allocated(Elems(d));
    child.parent := parent;
    node.parent := child;
    SetHole(tree, node, parent, child, c, hu);
  }

  /** avl_rotate_left, on a node whose right child is `r`; the mirror image. */
  method RotateLeft<K, E>(tree: AvlTree<K, E>, node: AvlNode<K, E>, ghost c: Ctx<AvlNode<K, E>>, ghost hu: int,
      ghost a: Tree<AvlNode<K, E>>, ghost b: Tree<AvlNode<K, E>>, ghost r: AvlNode<K, E>, ghost d: Tree<AvlNode<K, E>>)
    requires Pieces(d, r, b, node, a) && Away(c, d, r, b, node, a)
    requires Fits(tree, c, node, hu) && Linked(Node(a, node, Node(b, r, d)), HoleParent(c))
    modifies tree`root, Opt(HoleParent(c))`left, Opt(HoleParent(c))`right,
      {r, node}`parent, {r, node}`left, {r, node}`right, {r, node}`balance, Opt(Root(b))`parent
    ensures Fits(tree, c, r, hu)
    ensures Linked(Node(Node(a, node, b), r, d), HoleParent(c))
  {
    assert Linked(Node(b, r, d), node);
    var right := node.right;
    var parent := node.parent;
    Lift(tree, node, right, parent, c, hu, d, b, a);
    assert allocated(CtxElems(c));
    TakeLeftChild(node, right, a, b, d);
  }

  /** The rest of a left rotation. */
  method TakeLeftChild<K, E>(node: AvlNode<K, E>, right: AvlNode<K, E>,
      ghost a: Tree<AvlNode<K, E>>, ghost b: Tree<AvlNode<K, E>>, ghost d: Tree<AvlNode<K, E>>)
    requires Pieces(d, right, b, node, a) && right.left == Root(b)
    requires Linked(a, node) && Linked(b, right) && Linked(d, right)
    requires right.right == Root(d) && node.left == Root(a) && node.parent == right
    requires right.balance == Height(d) - Height(b)
    requires node.balance == (1 + Max(Height(b), Height(d))) - Height(a)
    modifies node`right, right`left, Opt(Root(b))`parent, node`balance, right`balance
    ensures Linked(Node(Node(a, node, b), right, d), right.parent)
  {
    assert allocated(Elems(a)) && allocated(Elems(d));
    node.right := right.left;
    right.left := node;
    SetParent(node.right, node, b, right);
    SettleLeft(node, right, a, b, d);
  }

  /** The last steps of a left rotation. */
  method SettleLeft<K, E>(node: AvlNode<K, E>, right: AvlNode<K, E>,
      ghost a: Tree<AvlNode<K, E>>, ghost b: Tree<AvlNode<K, E>>, ghost d: Tree<AvlNode<K, E>>)
    requires Pieces(d, right, b, node, a)
    requires Linked(a, node) && Linked(b, node) && Linked(d, right)
    requires right.right == Root(d) && right.left == node && node.right == Root(b) && node.left == Root(a)
    requires node.parent == right
    requires right.balance == Height(d) - Height(b)
    requires node.balance == (1 + Max(Height(b), Height(d))) - Height(a)
    modifies node`balance, right`balance
    ensures Linked(Node(Node(a, node, b), right, d), right.parent)
  {
    node.balance := node.balance - (1 + Max(right.balance, 0));
    right.balance := right.balance - (1 - Min(node.balance, 0));
    assert Linked(a, node) && Linked(b, node) && Linked(d, right);
    assert Linked(Node(a, node, b), right);
  }
}
