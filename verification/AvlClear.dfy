/** avl_init and the clearing loop avl_remove_all_elements of avl.h. */
module AvlClear {
  import opened Wrappers
  import opened Trees
  import opened Lists
  import opened AvlHeap
  import opened AvlRotations
  import opened AvlOrder
  import opened Orders

  /** A fresh tree is empty and valid. */
  method Init<K(!new), E>(comp: (K, K) -> int, allowDups: bool) returns (tree: AvlTree<K, E>)
    requires Comparator(comp)
    ensures Valid(tree) && tree.items == [] && tree.comp == comp && tree.allowDups == allowDups
    ensures fresh(tree) && fresh(tree.listHead)
  {
    tree := new AvlTree<K, E>(comp, allowDups);
    EmptyIsValid(tree);
  }

  lemma {:induction false} EmptyIsValid<K(!new), E>(tree: AvlTree<K, E>)
    requires Comparator(tree.comp) && tree.items == [] && tree.shape == Leaf && tree.root == null && tree.count == 0
    requires tree.listHead.entry == None && Ring([tree.listHead])
    ensures Valid(tree)
  {
    assert RingOf(tree) == [tree.listHead];
  }

  /** avl_remove_all_elements, with the loop body: every node is visited once, in list order, and
      released. A released link is dead, so the loop must have fetched its successor before. */
  method RemoveAllElements<K(!new), E>(tree: AvlTree<K, E>) returns (visited: seq<AvlNode<K, E>>)
    requires Valid(tree)
    modifies tree`root, tree`count, tree`items, tree`shape, RingOf(tree)`next, RingOf(tree)`prev
    ensures visited == old(tree.items)
    ensures Valid(tree) && tree.items == []
  {
    EntriesOnRing(tree);
    visited := VisitAll(tree, RingOf(tree), tree.items);
    tree.items, tree.shape := [], Leaf;
    EmptyIsValid(tree);
  }

  lemma {:induction false} EntriesOnRing<K, E>(tree: AvlTree<K, E>)
    requires ListValid(tree)
    ensures var ring := RingOf(tree);
      forall j :: 0 < j < |ring| ==> ring[j].entry == Some(tree.items[j - 1])
  {
    forall j | 0 < j <= |tree.items| ensures RingOf(tree)[j].entry == Some(tree.items[j - 1]) {
      assert RingOf(tree)[j] == Links(tree.items)[j - 1];
    }
  }

  method VisitAll<K, E>(tree: AvlTree<K, E>, ghost ring: seq<ListHead<AvlNode<K, E>>>, ghost items: seq<AvlNode<K, E>>)
    returns (visited: seq<AvlNode<K, E>>)
    requires Ring(ring) && ring[0] == tree.listHead && |ring| == tree.count + 1 == |items| + 1
    requires forall j {:trigger ring[j].entry} :: 0 < j < |ring| ==> ring[j].entry == Some(items[j - 1])
    modifies tree`root, tree`count, ring`next, ring`prev
    ensures visited == items
    ensures tree.root == null && tree.count == 0 && Ring([tree.listHead])
  {
    ghost var n := |ring| - 1;
    Neighbours(ring, 0);
    Neighbours(ring, Succ(ring, 0));
    var head := tree.listHead;
    var element := head.next;
    var next := element.next;
    head.next, head.prev := head, head;
    tree.root := null;
    visited := [];
    ghost var i := 0;
    while tree.count > 0
      invariant 0 <= i <= n && tree.count == n - i && visited == items[..i]
      invariant tree.root == null && head.next == head && head.prev == head
      invariant forall j {:trigger ring[j].next} :: i < j <= n ==> ring[j].next == ring[Succ(ring, j)]
      invariant element == ring[if i < n then i + 1 else 0]
      invariant i < n ==> next == ring[Succ(ring, i + 1)]
    {
      visited := visited + [element.entry.value];
      element.next, element.prev := null, null;
      element, next, tree.count := next, next.next, tree.count - 1;
      i := i + 1;
    }
  }
}
