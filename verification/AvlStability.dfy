/** Duplicates in an AVL tree stay in the order in which they came. */
module AvlStability {
  import opened Sequences
  import opened Orders
  import opened AvlHeap
  import opened AvlInsert

  /** x is listed before y. */
  ghost predicate Before<K, E>(s: seq<AvlNode<K, E>>, x: AvlNode<K, E>, y: AvlNode<K, E>) {
    exists a, b :: 0 <= a < b < |s| && s[a] == x && s[b] == y
  }

  /** Entering a node does not change the order of the others. */
  lemma {:induction false} InsertKeepsOrder<K, E>(comp: (K, K) -> int, s: seq<AvlNode<K, E>>, z: AvlNode<K, E>,
      r: seq<AvlNode<K, E>>, x: AvlNode<K, E>, y: AvlNode<K, E>)
    requires Accepted(comp, s, z, r) && Before(s, x, y)
    ensures Before(r, x, y)
  {
    var k :| InsertedAt(comp, s, z, k) && r == InsertAt(s, k, z);
    var a, b :| 0 <= a < b < |s| && s[a] == x && s[b] == y;
    var c, d := if a < k then a else a + 1, if b < k then b else b + 1;
    assert 0 <= c < d < |r|;
    assert r[c] == x;
    assert r[d] == y;
  }

  /** Neither does removing one of the others. */
  lemma {:induction false} RemoveKeepsOrder<K, E>(s: seq<AvlNode<K, E>>, k: nat, x: AvlNode<K, E>, y: AvlNode<K, E>)
    requires k < |s| && Distinct(s) && Before(s, x, y) && s[k] != x && s[k] != y
    ensures Before(RemoveAt(s, k), x, y)
  {
    var r := RemoveAt(s, k);
    var a, b :| 0 <= a < b < |s| && s[a] == x && s[b] == y;
    var c, d := if a < k then a else a - 1, if b < k then b else b - 1;
    assert 0 <= c < d < |r|;
    assert r[c] == x;
    assert r[d] == y;
  }

  /** A node is entered behind all nodes that are there already with an equal key. */
  lemma {:induction false} InsertGoesBehind<K(!new), E>(comp: (K, K) -> int, s: seq<AvlNode<K, E>>, z: AvlNode<K, E>,
      r: seq<AvlNode<K, E>>, x: AvlNode<K, E>)
    requires Comparator(comp) && Accepted(comp, s, z, r) && x in s && comp(x.key, z.key) == 0
    ensures Before(r, x, z)
  {
    var k :| InsertedAt(comp, s, z, k) && r == InsertAt(s, k, z);
    var a :| 0 <= a < |s| && s[a] == x;
    Opposite(comp, x.key, z.key);
    assert a < k;
    assert r[a] == x && r[k] == z;
  }

  /** What happens to a tree: avl_insert of a node, or avl_delete of the node at a position. */
  datatype Change<!K, !E> = Enter(node: AvlNode<K, E>) | Leave(k: nat)

  ghost predicate Leads<K, E>(comp: (K, K) -> int, s: seq<AvlNode<K, E>>, change: Change<K, E>, r: seq<AvlNode<K, E>>) {
    match change
    case Enter(z) => z !in s && Accepted(comp, s, z, r)
    case Leave(k) => k < |s| && r == RemoveAt(s, k)
  }

  /** `lists` are the states of a list during the changes. */
  ghost predicate History<K, E>(comp: (K, K) -> int, changes: seq<Change<K, E>>, lists: seq<seq<AvlNode<K, E>>>) {
    && |lists| == |changes| + 1 && lists[0] == []
    && forall n {:trigger changes[n]} :: 0 <= n < |changes| ==> Leads(comp, lists[n], changes[n], lists[n + 1])
  }

  /** When the node came in for the last time before change n; -1 if it never did. */
  ghost function Arrival<K, E>(changes: seq<Change<K, E>>, n: nat, x: AvlNode<K, E>): (i: int)
    requires n <= |changes|
    ensures -1 <= i < n && (i >= 0 ==> changes[i] == Enter(x))
  {
    if n == 0 then -1 else if changes[n - 1] == Enter(x) then n - 1 else Arrival(changes, n - 1, x)
  }

  lemma {:induction false} EnterHas<K, E>(comp: (K, K) -> int, s: seq<AvlNode<K, E>>, z: AvlNode<K, E>,
      r: seq<AvlNode<K, E>>)
    requires z !in s && Distinct(s) && Accepted(comp, s, z, r)
    ensures Distinct(r) && forall x :: x in r ==> x == z || x in s
  {
    var k :| InsertedAt(comp, s, z, k) && r == InsertAt(s, k, z);
    forall i | 0 <= i < |r| ensures r[i] == if i < k then s[i] else if i == k then z else s[i - 1] {
    }
  }

  lemma {:induction false} RemoveHas<K, E>(s: seq<AvlNode<K, E>>, k: nat, r: seq<AvlNode<K, E>>)
    requires k < |s| && Distinct(s) && r == RemoveAt(s, k)
    ensures Distinct(r) && forall x :: x in r ==> x != s[k] && x in s
  {
    forall i | 0 <= i < |r| ensures r[i] == if i < k then s[i] else s[i + 1] {
    }
  }

  /** No node is listed twice. */
  lemma {:induction false} NoneTwice<K, E>(comp: (K, K) -> int, changes: seq<Change<K, E>>,
      lists: seq<seq<AvlNode<K, E>>>, n: nat)
    requires History(comp, changes, lists) && n <= |changes|
    ensures Distinct(lists[n])
  {
    if n > 0 {
      NoneTwice(comp, changes, lists, n - 1);
      var s, r := lists[n - 1], lists[n];
      assert Leads(comp, s, changes[n - 1], r);
      match changes[n - 1]
      case Enter(z) => EnterHas(comp, s, z, r);
      case Leave(k) => RemoveHas(s, k, r);
    }
  }

  /** What is listed came in. */
  lemma {:induction false} Came<K, E>(comp: (K, K) -> int, changes: seq<Change<K, E>>, lists: seq<seq<AvlNode<K, E>>>,
      n: nat, x: AvlNode<K, E>)
    requires History(comp, changes, lists) && n <= |changes| && x in lists[n]
    ensures Arrival(changes, n, x) >= 0
  {
    NoneTwice(comp, changes, lists, n - 1);
    var s, r := lists[n - 1], lists[n];
    assert Leads(comp, s, changes[n - 1], r);
    if changes[n - 1] != Enter(x) {
      match changes[n - 1] {
        case Enter(z) => EnterHas(comp, s, z, r);
        case Leave(k) => RemoveHas(s, k, r);
      }
      Came(comp, changes, lists, n - 1, x);
    }
  }

  /** A change puts equal nodes in order if they were, unless the second comes in just now. */
  lemma {:induction false} ChangeKeeps<K(!new), E>(comp: (K, K) -> int, s: seq<AvlNode<K, E>>, change: Change<K, E>,
      r: seq<AvlNode<K, E>>, x: AvlNode<K, E>, y: AvlNode<K, E>)
    requires Comparator(comp) && Distinct(s) && Leads(comp, s, change, r) && x in r && y in r && x != y
    requires change != Enter(x) && comp(x.key, y.key) == 0
    ensures x in s
    ensures change == Enter(y) || (y in s && (Before(s, x, y) ==> Before(r, x, y)))
    ensures change == Enter(y) ==> Before(r, x, y)
  {
    match change
    case Enter(z) => EnterHas(comp, s, z, r);
      if y == z {
        InsertGoesBehind(comp, s, z, r, x);
      } else if Before(s, x, y) {
        InsertKeepsOrder(comp, s, z, r, x, y);
      }
    case Leave(k) =>
      RemoveHas(s, k, r);
      if Before(s, x, y) {
        RemoveKeepsOrder(s, k, x, y);
      }
  }

  /** Of two nodes with equal keys the one that came first is listed first. */
  lemma {:induction false} FirstComes<K(!new), E>(comp: (K, K) -> int, changes: seq<Change<K, E>>,
      lists: seq<seq<AvlNode<K, E>>>, n: nat, x: AvlNode<K, E>, y: AvlNode<K, E>)
    requires Comparator(comp) && History(comp, changes, lists) && n <= |changes|
    requires x in lists[n] && y in lists[n] && comp(x.key, y.key) == 0
    requires Arrival(changes, n, x) < Arrival(changes, n, y)
    ensures Before(lists[n], x, y)
    decreases n
  {
    NoneTwice(comp, changes, lists, n - 1);
    ChangeKeeps(comp, lists[n - 1], changes[n - 1], lists[n], x, y);
    if changes[n - 1] != Enter(y) {
      FirstComes(comp, changes, lists, n - 1, x, y);
    }
  }

  lemma {:induction false} NotBoth<K, E>(s: seq<AvlNode<K, E>>, x: AvlNode<K, E>, y: AvlNode<K, E>)
    requires Distinct(s) && Before(s, x, y)
    ensures !Before(s, y, x) && x != y
  {
  }

  /** Whatever came and went: two nodes with equal keys are listed in the order in which they came. */
  lemma {:induction false} FirstComeFirst<K(!new), E>(comp: (K, K) -> int, changes: seq<Change<K, E>>,
      lists: seq<seq<AvlNode<K, E>>>, n: nat, x: AvlNode<K, E>, y: AvlNode<K, E>)
    requires Comparator(comp) && History(comp, changes, lists) && n <= |changes|
    requires x in lists[n] && y in lists[n] && comp(x.key, y.key) == 0
    ensures Before(lists[n], x, y) <==> Arrival(changes, n, x) < Arrival(changes, n, y)
    ensures Arrival(changes, n, x) == Arrival(changes, n, y) ==> x == y
  {
    NoneTwice(comp, changes, lists, n);
    Came(comp, changes, lists, n, x);
    Opposite(comp, x.key, y.key);
    if Arrival(changes, n, x) < Arrival(changes, n, y) {
      FirstComes(comp, changes, lists, n, x, y);
    } else if Before(lists[n], x, y) {
      NotBoth(lists[n], x, y);
      FirstComes(comp, changes, lists, n, y, x);
    }
  }
}
