/** The unbalanced binary search tree of
    Core.Library/DataStructures/BinarySearchTree..cs. `CompareTo` is the
    parameter `cmp`. Duplicates are accepted and routed left. */
module BinarySearchTrees {
  import opened Ordering

  /** `BinarySearchTreeNode<T>`; `Nil` is a `null` child. */
  datatype Tree<T> = Nil | Node(left: Tree<T>, value: T, right: Tree<T>)

  /** The values stored in a tree, with their multiplicities. */
  function Elems<T>(t: Tree<T>): multiset<T>
  {
    match t
    case Nil => multiset{}
    case Node(l, v, r) => Elems(l) + multiset{v} + Elems(r)
  }

  /** The order `Remove` preserves: at every node, the left subtree holds
      values at most the node's and the right subtree values at least it. */
  ghost predicate Ordered<T>(cmp: (T, T) -> int, t: Tree<T>)
  {
    match t
    case Nil => true
    case Node(l, v, r) =>
      && (forall y :: y in Elems(l) ==> cmp(y, v) <= 0)
      && (forall y :: y in Elems(r) ==> cmp(y, v) >= 0)
      && Ordered(cmp, l) && Ordered(cmp, r)
  }

  /** The order insertion alone produces: left values at most the node's,
      right values strictly above it. */
  ghost predicate InsertOrdered<T>(cmp: (T, T) -> int, t: Tree<T>)
  {
    match t
    case Nil => true
    case Node(l, v, r) =>
      && (forall y :: y in Elems(l) ==> cmp(y, v) <= 0)
      && (forall y :: y in Elems(r) ==> cmp(y, v) > 0)
      && InsertOrdered(cmp, l) && InsertOrdered(cmp, r)
  }

  /** `InsertRec` (and `Insert` on an empty root): descends left on
      compare <= 0 and right otherwise, and hangs a new leaf where it falls
      off the tree. It always adds exactly one occurrence. */
  function InsertRec<T>(cmp: (T, T) -> int, t: Tree<T>, x: T): (r: Tree<T>)
    ensures Elems(r) == Elems(t) + multiset{x}
  {
    match t
    case Nil => Node(Nil, x, Nil)
    case Node(l, v, rt) =>
      if cmp(x, v) <= 0 then Node(InsertRec(cmp, l, x), v, rt)
      else Node(l, v, InsertRec(cmp, rt, x))
  }

  /** `ContainsRec`: the search that stops at an equal value. A hit is a
      stored value comparing equal to `x`. */
  function ContainsRec<T(!new)>(cmp: (T, T) -> int, t: Tree<T>, x: T): (found: bool)
    ensures found ==> exists y :: y in Elems(t) && cmp(x, y) == 0
  {
    match t
    case Nil => false
    case Node(l, v, r) =>
      var c := cmp(x, v);
      if c == 0 then true
      else if c < 0 then ContainsRec(cmp, l, x)
      else ContainsRec(cmp, r, x)
  }

  /** The value of the leftmost node, the node `FindMin` stops at. */
  function Leftmost<T>(t: Tree<T>): (m: T)
    requires t.Node?
    ensures m in Elems(t)
  {
    if t.left.Nil? then t.value else Leftmost(t.left)
  }

  /** `RemoveRec`: the new subtree root and whether a node was removed.
      A matched node with no left child is replaced by its right child, one
      with no right child by its left child, and one with two children takes
      the value of its in-order successor, which is then removed from the
      right subtree. */
  function RemoveRec<T>(cmp: (T, T) -> int, t: Tree<T>, x: T): (r: (Tree<T>, bool))
    ensures !r.1 ==> r.0 == t
  {
    match t
    case Nil => (Nil, false)
    case Node(l, v, rt) =>
      var c := cmp(x, v);
      if c < 0 then
        var (l', removed) := RemoveRec(cmp, l, x);
        (Node(l', v, rt), removed)
      else if c > 0 then
        var (r', removed) := RemoveRec(cmp, rt, x);
        (Node(l, v, r'), removed)
      else if l.Nil? then (rt, true)
      else if rt.Nil? then (l, true)
      else
        var m := Leftmost(rt);
        (Node(l, m, RemoveRec(cmp, rt, m).0), true)
  }

  /** `InOrderTraverse`: left subtree, node, right subtree. It lists
      exactly the stored values, with their multiplicities. */
  function InOrderTraverse<T>(t: Tree<T>): (s: seq<T>)
    ensures multiset(s) == Elems(t)
  {
    match t
    case Nil => []
    case Node(l, v, r) => InOrderTraverse(l) + [v] + InOrderTraverse(r)
  }

  /** `FindMin`: walks left children down to the leftmost node. */
  method FindMin<T>(t: Tree<T>) returns (m: T)
    requires t.Node?
    ensures m == Leftmost(t)
    ensures m in Elems(t)
  {
    var node := t;
    while node.left.Node?
      invariant node.Node?
      invariant Leftmost(node) == Leftmost(t)
      invariant Elems(node) <= Elems(t)
      decreases node
    {
      node := node.left;
    }
    m := node.value;
  }

  /** Insertion keeps the weak order. */
  lemma {:induction false} InsertPreservesOrdered<T>(cmp: (T, T) -> int, t: Tree<T>, x: T)
    requires Ordered(cmp, t)
    ensures Ordered(cmp, InsertRec(cmp, t, x))
  {
    match t
    case Nil =>
    case Node(l, v, r) =>
      if cmp(x, v) <= 0 {
        InsertPreservesOrdered(cmp, l, x);
        var l' := InsertRec(cmp, l, x);
        forall y | y in Elems(l') ensures cmp(y, v) <= 0 {
          assert y in Elems(l) || y == x;
        }
        assert InsertRec(cmp, t, x) == Node(l', v, r);
      } else {
        InsertPreservesOrdered(cmp, r, x);
        var r' := InsertRec(cmp, r, x);
        forall y | y in Elems(r') ensures cmp(y, v) >= 0 {
          assert y in Elems(r) || y == x;
        }
        assert InsertRec(cmp, t, x) == Node(l, v, r');
      }
  }

  /** Insertion keeps the insert-only order: routing compare <= 0 left and
      > 0 right puts every left descendant at most, and every right
      descendant strictly above, its ancestor. */
  lemma {:induction false} InsertPreservesInsertOrdered<T>(cmp: (T, T) -> int, t: Tree<T>, x: T)
    requires InsertOrdered(cmp, t)
    ensures InsertOrdered(cmp, InsertRec(cmp, t, x))
  {
    match t
    case Nil =>
    case Node(l, v, r) =>
      if cmp(x, v) <= 0 {
        InsertPreservesInsertOrdered(cmp, l, x);
        var l' := InsertRec(cmp, l, x);
        forall y | y in Elems(l') ensures cmp(y, v) <= 0 {
          assert y in Elems(l) || y == x;
        }
        assert InsertRec(cmp, t, x) == Node(l', v, r);
      } else {
        InsertPreservesInsertOrdered(cmp, r, x);
        var r' := InsertRec(cmp, r, x);
        forall y | y in Elems(r') ensures cmp(y, v) > 0 {
          assert y in Elems(r) || y == x;
        }
        assert InsertRec(cmp, t, x) == Node(l, v, r');
      }
  }

  /** The insert-only order is the weak order with a strict right side. */
  lemma {:induction false} InsertOrderedIsOrdered<T>(cmp: (T, T) -> int, t: Tree<T>)
    requires InsertOrdered(cmp, t)
    ensures Ordered(cmp, t)
  {
    match t
    case Nil =>
    case Node(l, v, r) =>
      InsertOrderedIsOrdered(cmp, l);
      InsertOrderedIsOrdered(cmp, r);
  }

  /** On an ordered tree the search is exact. */
  lemma {:induction false} ContainsCorrect<T(!new)>(cmp: (T, T) -> int, t: Tree<T>, x: T)
    requires TotalOrder(cmp) && Ordered(cmp, t)
    ensures ContainsRec(cmp, t, x) <==> x in Elems(t)
  {
    match t
    case Nil =>
    case Node(l, v, r) =>
      var c := cmp(x, v);
      if c < 0 {
        ContainsCorrect(cmp, l, x);
        assert x !in Elems(r);
      } else if c > 0 {
        ContainsCorrect(cmp, r, x);
        assert x !in Elems(l);
      }
  }

  /** The leftmost value is the minimum of an ordered tree. */
  lemma {:induction false} LeftmostIsMinimum<T(!new)>(cmp: (T, T) -> int, t: Tree<T>)
    requires TotalOrder(cmp) && Ordered(cmp, t) && t.Node?
    ensures Leftmost(t) in Elems(t)
    ensures forall y :: y in Elems(t) ==> cmp(Leftmost(t), y) <= 0
  {
    var m := Leftmost(t);
    if t.left.Node? {
      LeftmostIsMinimum(cmp, t.left);
      forall y | y in Elems(t) ensures cmp(m, y) <= 0 {
        if y in Elems(t.right) {
          assert cmp(m, t.value) <= 0 && cmp(t.value, y) <= 0;
        } else if y == t.value {
        }
      }
    } else {
      forall y | y in Elems(t) ensures cmp(m, y) <= 0 {
        if y in Elems(t.right) {
          assert cmp(y, m) >= 0;
        }
      }
    }
  }

  /** `Remove` on an ordered tree reports whether the value occurred and
      removes exactly one occurrence of it. */
  lemma {:induction false} RemoveElems<T(!new)>(cmp: (T, T) -> int, t: Tree<T>, x: T)
    requires TotalOrder(cmp) && Ordered(cmp, t)
    ensures RemoveRec(cmp, t, x).1 == (x in Elems(t))
    ensures Elems(RemoveRec(cmp, t, x).0) == Elems(t) - multiset{x}
  {
    match t
    case Nil =>
    case Node(l, v, r) =>
      var c := cmp(x, v);
      if c < 0 {
        var (l', removed) := RemoveRec(cmp, l, x);
        assert RemoveRec(cmp, t, x) == (Node(l', v, r), removed);
        RemoveElems(cmp, l, x);
        assert x !in multiset{v} + Elems(r);
        RemoveFromLeft(Elems(l), v, Elems(r), x);
      } else if c > 0 {
        var (r', removed) := RemoveRec(cmp, r, x);
        assert RemoveRec(cmp, t, x) == (Node(l, v, r'), removed);
        RemoveElems(cmp, r, x);
        assert x !in Elems(l) + multiset{v};
        RemoveFromRight(Elems(l), v, Elems(r), x);
      } else if l.Nil? || r.Nil? {
        assert x == v;
        RemoveRoot(Elems(l), v, Elems(r));
      } else {
        var m := Leftmost(r);
        assert RemoveRec(cmp, t, x) == (Node(l, m, RemoveRec(cmp, r, m).0), true);
        RemoveElems(cmp, r, m);
        assert x == v;
        SwapWithSuccessor(Elems(l), v, Elems(r), m);
      }
  }

  /* Multiset identities for the three shapes `RemoveRec` rebuilds. */

  lemma RemoveFromLeft<T>(a: multiset<T>, v: T, b: multiset<T>, x: T)
    requires x !in multiset{v} + b
    ensures (a - multiset{x}) + multiset{v} + b == (a + multiset{v} + b) - multiset{x}
  {
  }

  lemma RemoveFromRight<T>(a: multiset<T>, v: T, b: multiset<T>, x: T)
    requires x !in a + multiset{v}
    ensures a + multiset{v} + (b - multiset{x}) == (a + multiset{v} + b) - multiset{x}
  {
  }

  lemma RemoveRoot<T>(a: multiset<T>, v: T, b: multiset<T>)
    ensures (a + multiset{v} + b) - multiset{v} == a + b
  {
  }

  lemma SwapWithSuccessor<T>(a: multiset<T>, v: T, b: multiset<T>, m: T)
    requires m in b
    ensures a + multiset{m} + (b - multiset{m}) == (a + multiset{v} + b) - multiset{v}
  {
  }

  /** `Remove` keeps the weak order: the in-order successor that replaces a
      removed two-child node is at least everything on the left and at most
      everything left on the right. */
  lemma {:induction false} RemoveOrdered<T(!new)>(cmp: (T, T) -> int, t: Tree<T>, x: T)
    requires TotalOrder(cmp) && Ordered(cmp, t)
    ensures Ordered(cmp, RemoveRec(cmp, t, x).0)
  {
    match t
    case Nil =>
    case Node(l, v, r) =>
      var c := cmp(x, v);
      if c < 0 {
        RemoveOrdered(cmp, l, x);
        RemoveElems(cmp, l, x);
        RemoveLeftOrdered(cmp, l, v, r, x);
      } else if c > 0 {
        RemoveOrdered(cmp, r, x);
        RemoveElems(cmp, r, x);
        RemoveRightOrdered(cmp, l, v, r, x);
      } else if l.Nil? {
        assert RemoveRec(cmp, t, x).0 == r;
      } else if r.Nil? {
        assert RemoveRec(cmp, t, x).0 == l;
      } else {
        RemoveOrdered(cmp, r, Leftmost(r));
        RemoveBothOrdered(cmp, l, v, r, x);
      }
  }

  /** The step of `RemoveOrdered` that descends left. */
  lemma RemoveLeftOrdered<T>(cmp: (T, T) -> int, l: Tree<T>, v: T, r: Tree<T>, x: T)
    requires Ordered(cmp, Node(l, v, r)) && cmp(x, v) < 0
    requires Ordered(cmp, RemoveRec(cmp, l, x).0) && Elems(RemoveRec(cmp, l, x).0) <= Elems(l)
    ensures Ordered(cmp, RemoveRec(cmp, Node(l, v, r), x).0)
  {
    var l' := RemoveRec(cmp, l, x).0;
    ShrinkLeft(cmp, l, l', v, r);
    assert RemoveRec(cmp, Node(l, v, r), x).0 == Node(l', v, r);
  }

  /** The step of `RemoveOrdered` that descends right. */
  lemma RemoveRightOrdered<T>(cmp: (T, T) -> int, l: Tree<T>, v: T, r: Tree<T>, x: T)
    requires Ordered(cmp, Node(l, v, r)) && cmp(x, v) > 0
    requires Ordered(cmp, RemoveRec(cmp, r, x).0) && Elems(RemoveRec(cmp, r, x).0) <= Elems(r)
    ensures Ordered(cmp, RemoveRec(cmp, Node(l, v, r), x).0)
  {
    var r' := RemoveRec(cmp, r, x).0;
    ShrinkRight(cmp, l, v, r, r');
    assert RemoveRec(cmp, Node(l, v, r), x).0 == Node(l, v, r');
  }

  /** The step of `RemoveOrdered` at a matched node with two children. */
  lemma RemoveBothOrdered<T(!new)>(cmp: (T, T) -> int, l: Tree<T>, v: T, r: Tree<T>, x: T)
    requires TotalOrder(cmp) && Ordered(cmp, Node(l, v, r)) && cmp(x, v) == 0
    requires l.Node? && r.Node? && Ordered(cmp, RemoveRec(cmp, r, Leftmost(r)).0)
    ensures Ordered(cmp, RemoveRec(cmp, Node(l, v, r), x).0)
  {
    var m := Leftmost(r);
    RemoveElems(cmp, r, m);
    SuccessorAsRoot(cmp, l, v, r);
    assert RemoveRec(cmp, Node(l, v, r), x).0 == Node(l, m, RemoveRec(cmp, r, m).0);
  }

  /** Replacing the left subtree by an ordered one holding fewer values keeps
      the order. */
  lemma ShrinkLeft<T>(cmp: (T, T) -> int, l: Tree<T>, l': Tree<T>, v: T, r: Tree<T>)
    requires Ordered(cmp, Node(l, v, r)) && Ordered(cmp, l') && Elems(l') <= Elems(l)
    ensures Ordered(cmp, Node(l', v, r))
  {
  }

  /** Replacing the right subtree by an ordered one holding fewer values keeps
      the order. */
  lemma ShrinkRight<T>(cmp: (T, T) -> int, l: Tree<T>, v: T, r: Tree<T>, r': Tree<T>)
    requires Ordered(cmp, Node(l, v, r)) && Ordered(cmp, r') && Elems(r') <= Elems(r)
    ensures Ordered(cmp, Node(l, v, r'))
  {
  }

  /** The two-child case: the leftmost value of the right subtree, taken out
      of that subtree, can stand in the removed node's place. */
  lemma SuccessorAsRoot<T(!new)>(cmp: (T, T) -> int, l: Tree<T>, v: T, r: Tree<T>)
    requires TotalOrder(cmp) && Ordered(cmp, Node(l, v, r)) && r.Node?
    requires Ordered(cmp, RemoveRec(cmp, r, Leftmost(r)).0)
    requires Elems(RemoveRec(cmp, r, Leftmost(r)).0) == Elems(r) - multiset{Leftmost(r)}
    ensures Ordered(cmp, Node(l, Leftmost(r), RemoveRec(cmp, r, Leftmost(r)).0))
  {
    var m := Leftmost(r);
    var r' := RemoveRec(cmp, r, m).0;
    LeftmostIsMinimum(cmp, r);
    BelowSuccessor(cmp, l, v, m);
    forall y | y in Elems(r') ensures cmp(y, m) >= 0 {
      assert y in Elems(r);
      AtMostFlip(cmp, m, y);
    }
  }

  /** Values at most `v`, and `v` at most `m`, are all at most `m`. */
  lemma BelowSuccessor<T(!new)>(cmp: (T, T) -> int, l: Tree<T>, v: T, m: T)
    requires TotalOrder(cmp) && cmp(v, m) <= 0
    requires forall y :: y in Elems(l) ==> cmp(y, v) <= 0
    ensures forall y :: y in Elems(l) ==> cmp(y, m) <= 0
  {
    forall y | y in Elems(l) ensures cmp(y, m) <= 0 {
      AtMostTransitive(cmp, y, v, m);
    }
  }

  /** In-order traversal of an ordered tree is non-decreasing. */
  lemma {:induction false} InOrderSorted<T(!new)>(cmp: (T, T) -> int, t: Tree<T>)
    requires TotalOrder(cmp) && Ordered(cmp, t)
    ensures NonDecreasing(cmp, InOrderTraverse(t))
  {
    match t
    case Nil =>
    case Node(l, v, r) =>
      InOrderSorted(cmp, l);
      InOrderSorted(cmp, r);
      var a, b := InOrderTraverse(l), InOrderTraverse(r);
      assert forall y :: y in a ==> y in Elems(l);
      assert forall y :: y in b ==> y in Elems(r);
      JoinNonDecreasing(cmp, a, v, b);
  }

  /** Removing the only value of a one-node tree empties it. */
  lemma InsertThenRemoveIsEmpty<T(!new)>(cmp: (T, T) -> int, v: T)
    requires TotalOrder(cmp)
    ensures RemoveRec(cmp, InsertRec(cmp, Nil, v), v) == (Nil, true)
  {
  }

  /** With duplicates the strict order of insertion is not what `Remove`
      keeps: inserting 5, 3, 7, 7 and removing 5 moves the inner 7 up to the
      root while the other 7 stays on its right (`RemoveKeepsWeakOrder`:
      only the weak order survives). */
  lemma RemoveKeepsOnlyWeakOrder()
    ensures var t := InsertRec(IntCompare, InsertRec(IntCompare, InsertRec(IntCompare, InsertRec(IntCompare, Nil, 5), 3), 7), 7);
            && InsertOrdered(IntCompare, t)
            && RemoveRec(IntCompare, t, 5) == (Node(Node(Nil, 3, Nil), 7, Node(Nil, 7, Nil)), true)
            && !InsertOrdered(IntCompare, RemoveRec(IntCompare, t, 5).0)
  {
    var t := InsertRec(IntCompare, InsertRec(IntCompare, InsertRec(IntCompare, InsertRec(IntCompare, Nil, 5), 3), 7), 7);
    assert t == Node(Node(Nil, 3, Nil), 5, Node(Node(Nil, 7, Nil), 7, Nil));
    assert Elems(Node(Nil, 7, Nil)) == multiset{7};
  }

  /** The same insertions and removal on integers keep the weak order, as
      every removal from a weakly ordered tree does. */
  lemma RemoveKeepsWeakOrder()
    ensures var t := InsertRec(IntCompare, InsertRec(IntCompare, InsertRec(IntCompare, InsertRec(IntCompare, Nil, 5), 3), 7), 7);
            Ordered(IntCompare, RemoveRec(IntCompare, t, 5).0)
  {
    IntCompareIsTotalOrder();
    var t1 := InsertRec(IntCompare, Nil, 5);
    InsertPreservesOrdered(IntCompare, Nil, 5);
    var t2 := InsertRec(IntCompare, t1, 3);
    InsertPreservesOrdered(IntCompare, t1, 3);
    var t3 := InsertRec(IntCompare, t2, 7);
    InsertPreservesOrdered(IntCompare, t2, 7);
    InsertPreservesOrdered(IntCompare, t3, 7);
    RemoveOrdered(IntCompare, InsertRec(IntCompare, t3, 7), 5);
  }

  /** `BinarySearchTree<T>`: the `_root` field, replaced by each update. */
  class BinarySearchTree<T(!new)> {
    const cmp: (T, T) -> int
    var root: Tree<T>

    ghost predicate Valid()
      reads this
    {
      TotalOrder(cmp) && Ordered(cmp, root)
    }

    constructor (cmp: (T, T) -> int)
      requires TotalOrder(cmp)
      ensures Valid() && this.cmp == cmp && root == Nil
    {
      this.cmp := cmp;
      root := Nil;
    }

    /** `Insert`: always succeeds. */
    method Insert(x: T)
      requires Valid()
      modifies this
      ensures Valid()
      ensures root == InsertRec(cmp, old(root), x)
      ensures Elems(root) == old(Elems(root)) + multiset{x}
    {
      InsertPreservesOrdered(cmp, root, x);
      root := InsertRec(cmp, root, x);
    }

    /** `Contains`. */
    method Contains(x: T) returns (found: bool)
      requires Valid()
      ensures found == (x in Elems(root))
    {
      ContainsCorrect(cmp, root, x);
      found := ContainsRec(cmp, root, x);
    }

    /** `Remove`: whether an occurrence was removed; exactly one is. */
    method Remove(x: T) returns (removed: bool)
      requires Valid()
      modifies this
      ensures Valid()
      ensures removed == (x in old(Elems(root)))
      ensures Elems(root) == old(Elems(root)) - multiset{x}
      ensures !removed ==> root == old(root)
      ensures (root, removed) == RemoveRec(cmp, old(root), x)
    {
      RemoveElems(cmp, root, x);
      RemoveOrdered(cmp, root, x);
      var result := RemoveRec(cmp, root, x);
      root, removed := result.0, result.1;
    }

    /** `GetEnumerator`: the in-order values, non-decreasing. */
    method GetEnumerator() returns (s: seq<T>)
      requires Valid()
      ensures s == InOrderTraverse(root)
      ensures multiset(s) == Elems(root)
      ensures NonDecreasing(cmp, s)
    {
      InOrderSorted(cmp, root);
      s := InOrderTraverse(root);
    }
  }
}
