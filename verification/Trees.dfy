/** Binary trees as mathematical values: the ghost counterpart of the pointer
    structure in avl.c. A tree stores only node identities; what a node's fields
    must contain for the heap to represent a tree is stated in AvlHeap. */
module Trees {

  import opened Sequences

  function Max(x: int, y: int): int {
    if x > y then x else y
  }

  function Min(x: int, y: int): int {
    if x < y then x else y
  }

  datatype Tree<N> = Leaf | Node(left: Tree<N>, node: N, right: Tree<N>)

  /** A tree with a hole: the path from the hole up to the root, together with
      the subtrees that hang off the path. `InLeft(up, n, r)` says the hole is the
      left child of `n`, whose right subtree is `r`. */
  datatype Ctx<N> = Top | InLeft(up: Ctx<N>, node: N, right: Tree<N>) | InRight(left: Tree<N>, node: N, up: Ctx<N>)

  ghost function Height<N>(t: Tree<N>): nat {
    if t.Leaf? then 0 else 1 + Max(Height(t.left), Height(t.right))
  }

  /** height(right) minus height(left) */
  ghost function Balance<N>(t: Tree<N>): int
    requires t.Node?
  {
    Height(t.right) - Height(t.left)
  }

  ghost predicate Balanced<N>(t: Tree<N>) {
    t.Node? ==> -1 <= Balance(t) <= 1 && Balanced(t.left) && Balanced(t.right)
  }

  ghost function InOrder<N>(t: Tree<N>): seq<N> {
    if t.Leaf? then [] else InOrder(t.left) + [t.node] + InOrder(t.right)
  }

  ghost function Elems<N>(t: Tree<N>): set<N> {
    if t.Leaf? then {} else Elems(t.left) + {t.node} + Elems(t.right)
  }

  ghost predicate NoDup<N>(t: Tree<N>) {
    t.Node? ==>
      && t.node !in Elems(t.left) && t.node !in Elems(t.right)
      && Elems(t.left) !! Elems(t.right)
      && NoDup(t.left) && NoDup(t.right)
  }

  /** Fill the hole. */
  ghost function Plug<N>(c: Ctx<N>, t: Tree<N>): Tree<N> {
    match c
    case Top => t
    case InLeft(up, n, r) => Plug(up, Node(t, n, r))
    case InRight(l, n, up) => Plug(up, Node(l, n, t))
  }

  ghost function CtxElems<N>(c: Ctx<N>): set<N> {
    match c
    case Top => {}
    case InLeft(up, n, r) => {n} + Elems(r) + CtxElems(up)
    case InRight(l, n, up) => Elems(l) + {n} + CtxElems(up)
  }

  ghost predicate CtxNoDup<N>(c: Ctx<N>) {
    match c
    case Top => true
    case InLeft(up, n, r) => n !in Elems(r) && n !in CtxElems(up) && Elems(r) !! CtxElems(up) && NoDup(r) && CtxNoDup(up)
    case InRight(l, n, up) => n !in Elems(l) && n !in CtxElems(up) && Elems(l) !! CtxElems(up) && NoDup(l) && CtxNoDup(up)
  }

  /** The pieces are separate in memory. */
  ghost predicate Apart<N>(c: Ctx<N>, t: Tree<N>) {
    NoDup(t) && CtxNoDup(c) && Elems(t) !! CtxElems(c)
  }

  /** What the in-order traversal visits before and after the hole. */
  ghost function Before<N>(c: Ctx<N>): seq<N> {
    match c
    case Top => []
    case InLeft(up, n, r) => Before(up)
    case InRight(l, n, up) => Before(up) + InOrder(l) + [n]
  }

  ghost function After<N>(c: Ctx<N>): seq<N> {
    match c
    case Top => []
    case InLeft(up, n, r) => [n] + InOrder(r) + After(up)
    case InRight(l, n, up) => After(up)
  }

  /** Every node on the path is balanced if the hole holds a tree of height h. */
  ghost predicate CtxBalanced<N>(c: Ctx<N>, h: int) {
    match c
    case Top => true
    case InLeft(up, n, r) => -1 <= Height(r) - h <= 1 && Balanced(r) && CtxBalanced(up, 1 + Max(h, Height(r)))
    case InRight(l, n, up) => -1 <= h - Height(l) <= 1 && Balanced(l) && CtxBalanced(up, 1 + Max(h, Height(l)))
  }

  // ---------- filling the hole ----------

  lemma {:induction false} PlugInOrder<N>(c: Ctx<N>, t: Tree<N>)
    ensures InOrder(Plug(c, t)) == Before(c) + InOrder(t) + After(c)
  {
    match c
    case Top =>
    case InLeft(up, n, r) => PlugInOrder(up, Node(t, n, r));
    case InRight(l, n, up) => PlugInOrder(up, Node(l, n, t));
  }

  lemma {:induction false} PlugAround<N>(c: Ctx<N>, l: Tree<N>, x: N, r: Tree<N>)
    ensures InOrder(Plug(c, Node(l, x, r))) == (Before(c) + InOrder(l)) + [x] + (InOrder(r) + After(c))
  {
    PlugInOrder(c, Node(l, x, r));
  }

  lemma {:induction false} PlugElems<N>(c: Ctx<N>, t: Tree<N>)
    ensures Elems(Plug(c, t)) == CtxElems(c) + Elems(t)
  {
    match c
    case Top =>
    case InLeft(up, n, r) => PlugElems(up, Node(t, n, r));
    case InRight(l, n, up) => PlugElems(up, Node(l, n, t));
  }

  lemma {:induction false} PlugApart<N>(c: Ctx<N>, t: Tree<N>)
    ensures NoDup(Plug(c, t)) <==> Apart(c, t)
  {
    match c
    case Top =>
    case InLeft(up, n, r) => PlugApart(up, Node(t, n, r));
    case InRight(l, n, up) => PlugApart(up, Node(l, n, t));
  }

  lemma {:induction false} FillBalanced<N>(c: Ctx<N>, t: Tree<N>)
    requires !c.Top?
    ensures CtxBalanced(c, Height(t)) && Balanced(t) <==> CtxBalanced(c.up, Height(Fill(c, t))) && Balanced(Fill(c, t))
  {
    var side := if c.InLeft? then c.right else c.left;
    assert Height(Fill(c, t)) == 1 + Max(Height(t), Height(side));
    assert Balanced(Fill(c, t)) <==> -1 <= Height(t) - Height(side) <= 1 && Balanced(t) && Balanced(side);
  }

  lemma {:induction false} PlugBalanced<N>(c: Ctx<N>, t: Tree<N>)
    ensures Balanced(Plug(c, t)) <==> CtxBalanced(c, Height(t)) && Balanced(t)
    decreases c
  {
    if c != Top {
      FillBalanced(c, t);
      PlugBalanced(c.up, Fill(c, t));
    }
  }

  /** Every node of a tree is the root of some subtree. */
  lemma {:induction false} Unplug<N>(up: Ctx<N>, t: Tree<N>, x: N) returns (c: Ctx<N>, l: Tree<N>, r: Tree<N>)
    requires x in Elems(t)
    ensures Plug(c, Node(l, x, r)) == Plug(up, t)
    decreases t
  {
    if x == t.node {
      c, l, r := up, t.left, t.right;
    } else if x in Elems(t.left) {
      c, l, r := Unplug(InLeft(up, t.node, t.right), t.left, x);
    } else {
      c, l, r := Unplug(InRight(t.left, t.node, up), t.right, x);
    }
  }

  ghost function SeqElems<N>(s: seq<N>): set<N> {
    set x | x in s
  }

  lemma {:induction false} InOrderElems<N>(t: Tree<N>)
    ensures SeqElems(InOrder(t)) == Elems(t)
  {
    if t.Node? {
      InOrderElems(t.left);
      InOrderElems(t.right);
      SeqElemsAppend(InOrder(t.left) + [t.node], InOrder(t.right));
      SeqElemsAppend(InOrder(t.left), [t.node]);
    }
  }

  lemma {:induction false} SeqElemsAppend<N>(a: seq<N>, b: seq<N>)
    ensures SeqElems(a + b) == SeqElems(a) + SeqElems(b)
  {
  }

  ghost predicate NoCommon<N>(a: seq<N>, b: seq<N>) {
    forall i, j :: 0 <= i < |a| && 0 <= j < |b| ==> a[i] != b[j]
  }

  lemma {:induction false} DistinctAppend<N>(a: seq<N>, b: seq<N>)
    ensures Distinct(a + b) <==> Distinct(a) && Distinct(b) && NoCommon(a, b)
  {
    if Distinct(a + b) {
      forall i, j | 0 <= i < j < |a| ensures a[i] != a[j] { assert (a + b)[i] != (a + b)[j]; }
      forall i, j | 0 <= i < j < |b| ensures b[i] != b[j] { assert (a + b)[|a| + i] != (a + b)[|a| + j]; }
      forall i, j | 0 <= i < |a| && 0 <= j < |b| ensures a[i] != b[j] { assert (a + b)[i] != (a + b)[|a| + j]; }
    }
  }

  lemma {:induction false} NoCommonElems<N>(a: seq<N>, b: seq<N>)
    ensures NoCommon(a, b) <==> SeqElems(a) !! SeqElems(b)
  {
    if x :| x in a && x in b {
      assert x in SeqElems(a) && x in SeqElems(b);
      var i :| 0 <= i < |a| && a[i] == x;
      var j :| 0 <= j < |b| && b[j] == x;
    } else {
      forall i, j | 0 <= i < |a| && 0 <= j < |b| ensures a[i] != b[j] {
        assert a[i] in a && b[j] in b;
      }
    }
  }

  /** No node occurs twice, said of the tree and of its traversal. */
  lemma {:induction false} NoDupInOrder<N>(t: Tree<N>)
    ensures NoDup(t) <==> Distinct(InOrder(t))
  {
    if t.Node? {
      NoDupInOrder(t.left);
      NoDupInOrder(t.right);
      NoDupSplit(t);
    }
  }

  lemma {:induction false} NoDupSplit<N>(t: Tree<N>)
    requires t.Node?
    ensures Distinct(InOrder(t)) <==>
      && Distinct(InOrder(t.left)) && Distinct(InOrder(t.right)) && Elems(t.left) !! Elems(t.right)
      && t.node !in Elems(t.left) && t.node !in Elems(t.right)
  {
    InOrderElems(t.left);
    InOrderElems(t.right);
    DistinctThree(InOrder(t.left), t.node, InOrder(t.right));
  }

  lemma {:induction false} DistinctThree<N>(l: seq<N>, n: N, r: seq<N>)
    ensures Distinct(l + [n] + r) <==>
      Distinct(l) && Distinct(r) && SeqElems(l) !! SeqElems(r) && n !in SeqElems(l) && n !in SeqElems(r)
  {
    DistinctAppend(l + [n], r);
    DistinctAppend(l, [n]);
    NoCommonElems(l + [n], r);
    NoCommonElems(l, [n]);
    assert SeqElems(l + [n]) == SeqElems(l) + {n};
    assert SeqElems([n]) == {n};
  }

  /** The height, and the balance, that a hole of height h gives its parent. */
  ghost function HeightAbove<N>(c: Ctx<N>, h: int): int {
    match c
    case Top => h
    case InLeft(up, n, r) => 1 + Max(h, Height(r))
    case InRight(l, n, up) => 1 + Max(h, Height(l))
  }

  ghost function BalanceAbove<N>(c: Ctx<N>, h: int): int {
    match c
    case Top => 0
    case InLeft(up, n, r) => Height(r) - h
    case InRight(l, n, up) => h - Height(l)
  }

  /** One level up: the hole's parent with its subtrees. */
  ghost function Fill<N>(c: Ctx<N>, t: Tree<N>): Tree<N>
    requires !c.Top?
  {
    if c.InLeft? then Node(t, c.node, c.right) else Node(c.left, c.node, t)
  }

  ghost function Depth<N>(c: Ctx<N>): nat {
    if c.Top? then 0 else 1 + Depth(c.up)
  }

  /** A way up is no longer than the tree is high. */
  lemma {:induction false} DepthBound<N>(c: Ctx<N>, t: Tree<N>)
    ensures Depth(c) + Height(t) <= Height(Plug(c, t))
    decreases c
  {
    if c != Top {
      DepthBound(c.up, Fill(c, t));
    }
  }

  /** The three cases after the tree in the hole grew by one level. */
  lemma {:induction false} GrowUp<N>(c: Ctx<N>, h: int, t: Tree<N>)
    requires !c.Top? && CtxBalanced(c, h) && Balanced(t) && Height(t) == h + 1
    ensures CtxBalanced(c.up, HeightAbove(c, h))
    ensures Balanced(if c.InLeft? then c.right else c.left)
    ensures Balance(Fill(c, t)) == 0 ==> Balanced(Fill(c, t)) && Height(Fill(c, t)) == HeightAbove(c, h)
    ensures Balance(Fill(c, t)) == (if c.InLeft? then -1 else 1) ==>
      Balanced(Fill(c, t)) && Height(Fill(c, t)) == h + 2 && HeightAbove(c, h) == h + 1
    ensures Balance(Fill(c, t)) in {0, if c.InLeft? then -1 else 1} ||
      (HeightAbove(c, h) == Height(t) == 2 + Height(if c.InLeft? then c.right else c.left))
  {
  }

  /** The three cases after the tree in the hole shrank by one level. */
  lemma {:induction false} ShrinkUp<N>(c: Ctx<N>, h: int, t: Tree<N>)
    requires !c.Top? && CtxBalanced(c, h) && Balanced(t) && Height(t) == h - 1
    ensures CtxBalanced(c.up, HeightAbove(c, h))
    ensures Balanced(if c.InLeft? then c.right else c.left)
    ensures Balance(Fill(c, t)) == 0 ==> Balanced(Fill(c, t)) && Height(Fill(c, t)) == HeightAbove(c, h) - 1
    ensures Balance(Fill(c, t)) == (if c.InLeft? then 1 else -1) ==>
      Balanced(Fill(c, t)) && Height(Fill(c, t)) == HeightAbove(c, h)
    ensures Balance(Fill(c, t)) in {0, if c.InLeft? then 1 else -1} ||
      (HeightAbove(c, h) - 1 == Height(t) + 2 == Height(if c.InLeft? then c.right else c.left))
  {
  }

  /** A node that occurs once splits a sequence in one way only. */
  lemma {:induction false} UniqueSplit<N>(p: seq<N>, x: N, q: seq<N>, p2: seq<N>, q2: seq<N>)
    requires p + [x] + q == p2 + [x] + q2 && Distinct(p + [x] + q)
    ensures p == p2 && q == q2
  {
    var s := p + [x] + q;
    assert s[|p|] == x && s[|p2|] == x;
    assert |p| == |p2|;
    assert p == s[..|p|] && p2 == s[..|p2|];
    assert q == s[|p| + 1..] && q2 == s[|p2| + 1..];
  }

  // ---------- what rotations do to heights ----------

  lemma {:induction false} SingleRightHeights<N>(a: Tree<N>, n: N, b: Tree<N>, p: N, r: Tree<N>)
    requires Balanced(Node(a, n, b)) && Balanced(r)
    requires Height(Node(a, n, b)) == Height(r) + 2 && Balance(Node(a, n, b)) <= 0
    ensures Balanced(Node(a, n, Node(b, p, r)))
    ensures Height(Node(a, n, Node(b, p, r))) == Height(r) + if Balance(Node(a, n, b)) == 0 then 3 else 2
  {
    assert Height(Node(b, p, r)) == 1 + Max(Height(b), Height(r));
    assert Balance(Node(b, p, r)) == Height(r) - Height(b);
  }

  lemma {:induction false} SingleLeftHeights<N>(l: Tree<N>, p: N, b: Tree<N>, n: N, d: Tree<N>)
    requires Balanced(Node(b, n, d)) && Balanced(l)
    requires Height(Node(b, n, d)) == Height(l) + 2 && Balance(Node(b, n, d)) >= 0
    ensures Balanced(Node(Node(l, p, b), n, d))
    ensures Height(Node(Node(l, p, b), n, d)) == Height(l) + if Balance(Node(b, n, d)) == 0 then 3 else 2
  {
    assert Height(Node(l, p, b)) == 1 + Max(Height(l), Height(b));
    assert Balance(Node(l, p, b)) == Height(b) - Height(l);
  }

  lemma {:induction false} DoubleRightHeights<N>(a: Tree<N>, n: N, b: Tree<N>, p: N, r: Tree<N>)
    requires Balanced(Node(a, n, b)) && Balanced(r)
    requires Height(Node(a, n, b)) == Height(r) + 2 && Balance(Node(a, n, b)) == 1
    ensures b.Node? && Height(a) == Max(Height(b.left), Height(b.right))
    ensures Balanced(Node(Node(a, n, b.left), b.node, Node(b.right, p, r)))
    ensures Height(Node(Node(a, n, b.left), b.node, Node(b.right, p, r))) == Height(r) + 2
  {
    assert Height(Node(a, n, b.left)) == 1 + Max(Height(a), Height(b.left));
    assert Height(Node(b.right, p, r)) == 1 + Max(Height(b.right), Height(r));
    assert Balanced(b) && -1 <= Height(b.right) - Height(b.left) <= 1;
  }

  lemma {:induction false} DoubleLeftHeights<N>(l: Tree<N>, p: N, b: Tree<N>, n: N, d: Tree<N>)
    requires Balanced(Node(b, n, d)) && Balanced(l)
    requires Height(Node(b, n, d)) == Height(l) + 2 && Balance(Node(b, n, d)) == -1
    ensures b.Node? && Height(d) == Max(Height(b.left), Height(b.right))
    ensures Balanced(Node(Node(l, p, b.left), b.node, Node(b.right, n, d)))
    ensures Height(Node(Node(l, p, b.left), b.node, Node(b.right, n, d))) == Height(l) + 2
  {
    assert Height(Node(l, p, b.left)) == 1 + Max(Height(l), Height(b.left));
    assert Height(Node(b.right, n, d)) == 1 + Max(Height(b.right), Height(d));
    assert Balanced(b) && -1 <= Height(b.right) - Height(b.left) <= 1;
  }

  // ---------- the height bound ----------

  ghost function Fib(n: nat): nat {
    if n < 2 then n else Fib(n - 1) + Fib(n - 2)
  }

  lemma {:induction false} FibMonotone(n: nat, m: nat)
    requires n <= m
    ensures Fib(n) <= Fib(m)
    decreases m
  {
    if n < m {
      if m < 2 {
      } else if n <= m - 1 {
        FibMonotone(n, m - 1);
      }
    }
  }

  /** A balanced tree of height h has at least Fib(h + 2) - 1 nodes. */
  lemma {:induction false} HeightBound<N>(t: Tree<N>)
    requires Balanced(t)
    ensures |InOrder(t)| + 1 >= Fib(Height(t) + 2)
  {
    if t.Node? {
      HeightBound(t.left);
      HeightBound(t.right);
      assert |InOrder(t)| == |InOrder(t.left)| + 1 + |InOrder(t.right)|;
      FibStep(Height(t.left), Height(t.right));
    }
  }

  lemma {:induction false} FibStep(a: nat, b: nat)
    requires -1 <= a - b <= 1
    ensures Fib(a + 2) + Fib(b + 2) >= Fib(1 + Max(a, b) + 2)
  {
    var h := 1 + Max(a, b);
    FibMonotone(h, a + 2);
    FibMonotone(h, b + 2);
    assert Fib(h + 2) == Fib(h + 1) + Fib(h);
  }

  ghost function Pow2(n: nat): nat {
    if n == 0 then 1 else 2 * Pow2(n - 1)
  }

  lemma {:induction false} FibGrows(h: nat)
    ensures Fib(h + 2) >= Pow2(h / 2)
    decreases h
  {
    if h >= 2 {
      FibGrows(h - 2);
      FibMonotone(h, h + 1);
      assert Fib(h + 2) == Fib(h + 1) + Fib(h);
      assert h / 2 == (h - 2) / 2 + 1;
    } else {
      assert h / 2 == 0;
      assert Fib(2) == 1;
      assert Fib(3) == 2;
    }
  }

  /** Logarithmic depth: doubling the number of nodes adds at most two levels. */
  lemma {:induction false} HeightLogarithmic<N>(t: Tree<N>)
    requires Balanced(t)
    ensures Pow2(Height(t) / 2) <= |InOrder(t)| + 1
  {
    HeightBound(t);
    FibGrows(Height(t));
  }
}
