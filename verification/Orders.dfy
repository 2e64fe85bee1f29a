/** Three-way comparison functions, as avl.c and sorted-array.c get them from their callers. */
module Orders {
  /** What avl_tree_comp is documented to be, and sorted-array.c expects: the sign of a total preorder. `Keys` holds of
      everything; it is there to be mentioned where one of the two laws is wanted. */
  ghost predicate Comparator<K(!new)>(comp: (K, K) -> int) {
    && (forall a, b {:trigger Keys([a, b])} :: comp(a, b) < 0 <==> comp(b, a) > 0)
    && (forall a, b, c {:trigger Keys([a, b, c])} :: comp(a, b) <= 0 && comp(b, c) <= 0 ==> comp(a, c) <= 0)
  }

  ghost predicate Keys<K>(keys: seq<K>) {
    true
  }

  lemma {:induction false} Opposite<K(!new)>(comp: (K, K) -> int, a: K, b: K)
    requires Comparator(comp)
    ensures comp(a, b) < 0 <==> comp(b, a) > 0
    ensures comp(a, b) > 0 <==> comp(b, a) < 0
    ensures comp(a, b) == 0 <==> comp(b, a) == 0
    ensures a == b ==> comp(a, b) == 0
  {
    assert Keys([a, b]) && Keys([b, a]);
  }

  lemma {:induction false} Transitive<K(!new)>(comp: (K, K) -> int, a: K, b: K, c: K)
    requires Comparator(comp) && comp(a, b) <= 0 && comp(b, c) <= 0
    ensures comp(a, c) <= 0
    ensures comp(a, c) == 0 <==> comp(a, b) == 0 && comp(b, c) == 0
  {
    Opposite(comp, a, b);
    Opposite(comp, b, c);
    Opposite(comp, a, c);
    assert Keys([a, b, c]) && Keys([c, a, b]) && Keys([b, c, a]) && Keys([c, b, a]);
  }
}
