/** The self-balancing tree of Core.Library/DataStructures/AvlTree.cs.
    `CompareTo` is the parameter `cmp`; a node caches its height. Duplicates
    are rejected (an insertion of a present value changes nothing). */
module AvlTrees {
  import opened Ordering

  /** `AvlNode<T>`: `Empty` is a `null` child; `height` is the cached
      `Height` property, which the code keeps up to date itself. */
  datatype Tree<T> = Empty | Node(left: Tree<T>, value: T, right: Tree<T>, height: int)

  function Max(a: int, b: int): int
  {
    if a >= b then a else b
  }

  /** The height of a tree, computed from its shape: the number of nodes
      on its longest root-to-leaf path. */
  function Height<T>(t: Tree<T>): nat
  {
    match t
    case Empty => 0
    case Node(l, _, r, _) => 1 + Max(Height(l), Height(r))
  }

  /** `GetHeight`: the cached height, 0 for `null`. */
  function GetHeight<T>(t: Tree<T>): int
  {
    if t.Empty? then 0 else t.height
  }

  /** `GetBalance`: height of the left subtree minus that of the right. */
  function GetBalance<T>(t: Tree<T>): int
  {
    if t.Empty? then 0 else GetHeight(t.left) - GetHeight(t.right)
  }

  /** The `AvlNode` constructor: a leaf of height 1, which is a one-value
      AVL tree. */
  function Leaf<T>(x: T): (r: Tree<T>)
    ensures Shape(r) && Height(r) == 1
    ensures Elems(r) == {x} && InOrder(r) == [x]
  {
    Node(Empty, x, Empty, 1)
  }

  /** The values stored in a tree. */
  function Elems<T>(t: Tree<T>): set<T>
  {
    match t
    case Empty => {}
    case Node(l, v, r, _) => Elems(l) + {v} + Elems(r)
  }

  /** `InOrder`: left subtree, node, right subtree. It lists only stored
      values (`ElemsInOrder`: it lists each of them). */
  function InOrder<T>(t: Tree<T>): (s: seq<T>)
    ensures forall i :: 0 <= i < |s| ==> s[i] in Elems(t)
  {
    match t
    case Empty => []
    case Node(l, v, r, _) => InOrder(l) + [v] + InOrder(r)
  }

  /** Every cached height is one more than the larger child height. */
  ghost predicate HeightsCorrect<T>(t: Tree<T>)
  {
    match t
    case Empty => true
    case Node(l, _, r, h) =>
      && h == 1 + Max(GetHeight(l), GetHeight(r))
      && HeightsCorrect(l) && HeightsCorrect(r)
  }

  /** Every balance factor is -1, 0 or 1. */
  ghost predicate Balanced<T>(t: Tree<T>)
  {
    match t
    case Empty => true
    case Node(l, _, r, _) =>
      && -1 <= GetBalance(t) <= 1
      && Balanced(l) && Balanced(r)
  }

  /** Where every cached height is maintained, `GetHeight` is the height
      of the tree and `GetBalance` the difference of its subtrees'
      heights. */
  lemma {:induction false} CachedHeight<T>(t: Tree<T>)
    requires HeightsCorrect(t)
    ensures GetHeight(t) == Height(t)
    ensures t.Node? ==> GetBalance(t) == Height(t.left) - Height(t.right)
  {
    if t.Node? {
      CachedHeight(t.left);
      CachedHeight(t.right);
    }
  }

  /** Correct heights and balance: the shape `InsertRec` keeps. */
  ghost predicate Shape<T>(t: Tree<T>)
  {
    HeightsCorrect(t) && Balanced(t)
  }

  /** Left descendants compare below their ancestor, right ones above. */
  ghost predicate Ordered<T>(cmp: (T, T) -> int, t: Tree<T>)
  {
    match t
    case Empty => true
    case Node(l, v, r, _) =>
      && (forall y :: y in Elems(l) ==> cmp(y, v) < 0)
      && (forall y :: y in Elems(r) ==> cmp(y, v) > 0)
      && Ordered(cmp, l) && Ordered(cmp, r)
  }

  /** The invariant of `AvlTree<T>._root`. */
  ghost predicate IsAvl<T>(cmp: (T, T) -> int, t: Tree<T>)
  {
    Shape(t) && Ordered(cmp, t)
  }

  /** `RotateRight(y)`: the left child `x` becomes the local root, `y` its
      right child, and `x`'s old right subtree moves under `y`; both heights
      are recomputed, `y`'s first. */
  function RotateRight<T>(t: Tree<T>): (r: Tree<T>)
    requires t.Node? && t.left.Node?
    ensures r.Node? && r.right.Node?
    ensures r.value == t.left.value && r.right.value == t.value
    ensures InOrder(r) == InOrder(t)
    ensures HeightsCorrect(t) ==> HeightsCorrect(r)
  {
    var x := t.left;
    assert HeightsCorrect(t) ==> HeightsCorrect(x) && HeightsCorrect(x.left) && HeightsCorrect(x.right);
    var y := Node(x.right, t.value, t.right, Max(GetHeight(x.right), GetHeight(t.right)) + 1);
    Node(x.left, x.value, y, Max(GetHeight(x.left), GetHeight(y)) + 1)
  }

  /** `RotateLeft(x)`: the mirror image of `RotateRight`. */
  function RotateLeft<T>(t: Tree<T>): (r: Tree<T>)
    requires t.Node? && t.right.Node?
    ensures r.Node? && r.left.Node?
    ensures r.value == t.right.value && r.left.value == t.value
    ensures InOrder(r) == InOrder(t)
    ensures HeightsCorrect(t) ==> HeightsCorrect(r)
  {
    var y := t.right;
    assert HeightsCorrect(t) ==> HeightsCorrect(y) && HeightsCorrect(y.left) && HeightsCorrect(y.right);
    var x := Node(t.left, t.value, y.left, Max(GetHeight(t.left), GetHeight(y.left)) + 1);
    Node(x, y.value, y.right, Max(GetHeight(x), GetHeight(y.right)) + 1)
  }

  lemma {:induction false} HeightNonNegative<T>(t: Tree<T>)
    requires HeightsCorrect(t)
    ensures GetHeight(t) >= 0
  {
    if t.Node? {
      HeightNonNegative(t.left);
      HeightNonNegative(t.right);
    }
  }

  /** Left Left case: a left-heavy left child is fixed by one right rotation,
      and the subtree gets back the height it had before the insertion. */
  lemma LeftLeft<T>(l: Tree<T>, v: T, r: Tree<T>)
    requires Shape(l) && Shape(r) && l.Node?
    requires GetHeight(l) == GetHeight(r) + 2 && GetBalance(l) == 1
    ensures var n := RotateRight(Node(l, v, r, GetHeight(l) + 1));
            Shape(n) && GetHeight(n) == GetHeight(l)
  {
  }

  /** Left Right case: a right-heavy left child first rotates left. */
  lemma LeftRight<T>(l: Tree<T>, v: T, r: Tree<T>)
    requires Shape(l) && Shape(r) && l.Node?
    requires GetHeight(l) == GetHeight(r) + 2 && GetBalance(l) == -1
    ensures l.right.Node?
    ensures var n := RotateRight(Node(RotateLeft(l), v, r, GetHeight(l) + 1));
            Shape(n) && GetHeight(n) == GetHeight(l)
  {
    HeightNonNegative(l.left);
    var b := l.right;
    assert HeightsCorrect(b) && Balanced(b);
    HeightNonNegative(b.left);
    HeightNonNegative(b.right);
  }

  /** Right Right case: mirror of Left Left. */
  lemma RightRight<T>(l: Tree<T>, v: T, r: Tree<T>)
    requires Shape(l) && Shape(r) && r.Node?
    requires GetHeight(r) == GetHeight(l) + 2 && GetBalance(r) == -1
    ensures var n := RotateLeft(Node(l, v, r, GetHeight(r) + 1));
            Shape(n) && GetHeight(n) == GetHeight(r)
  {
  }

  /** Right Left case: mirror of Left Right. */
  lemma RightLeft<T>(l: Tree<T>, v: T, r: Tree<T>)
    requires Shape(l) && Shape(r) && r.Node?
    requires GetHeight(r) == GetHeight(l) + 2 && GetBalance(r) == 1
    ensures r.left.Node?
    ensures var n := RotateLeft(Node(l, v, RotateRight(r), GetHeight(r) + 1));
            Shape(n) && GetHeight(n) == GetHeight(r)
  {
    HeightNonNegative(r.right);
    var b := r.left;
    assert HeightsCorrect(b) && Balanced(b);
    HeightNonNegative(b.left);
    HeightNonNegative(b.right);
  }

  /** The tail of `InsertRec` after the recursive call: recompute the height,
      and rotate when the balance left [-1, 1]. The case is picked by the
      sign of the balance and by comparing the inserted value with the heavy
      child's value. Its precondition is the situation an insertion into one
      side leaves behind: that side grew by at most one level, and if it now
      sticks out by two it leans towards the side `x` went down. */
  function Rebalance<T>(cmp: (T, T) -> int, l: Tree<T>, v: T, r: Tree<T>, x: T): (n: Tree<T>)
    requires Shape(l) && Shape(r)
    requires -2 <= GetHeight(l) - GetHeight(r) <= 2
    requires GetHeight(l) - GetHeight(r) == 2 ==>
               l.Node? && cmp(x, l.value) != 0 && GetBalance(l) == (if cmp(x, l.value) < 0 then 1 else -1)
    requires GetHeight(r) - GetHeight(l) == 2 ==>
               r.Node? && cmp(x, r.value) != 0 && GetBalance(r) == (if cmp(x, r.value) > 0 then -1 else 1)
    ensures n.Node? && Shape(n)
    ensures InOrder(n) == InOrder(l) + [v] + InOrder(r)
    ensures -1 <= GetHeight(l) - GetHeight(r) <= 1 ==> n == Node(l, v, r, 1 + Max(GetHeight(l), GetHeight(r)))
    ensures GetHeight(n) == if GetHeight(l) - GetHeight(r) in {-2, 2} then Max(GetHeight(l), GetHeight(r))
                            else 1 + Max(GetHeight(l), GetHeight(r))
  {
    var node := Node(l, v, r, 1 + Max(GetHeight(l), GetHeight(r)));
    var balance := GetBalance(node);
    if balance > 1 && cmp(x, l.value) < 0 then
      LeftLeft(l, v, r);
      RotateRight(node)
    else if balance < -1 && cmp(x, r.value) > 0 then
      RightRight(l, v, r);
      RotateLeft(node)
    else if balance > 1 && cmp(x, l.value) > 0 then
      LeftRight(l, v, r);
      RotateRight(node.(left := RotateLeft(l)))
    else if balance < -1 && cmp(x, r.value) < 0 then
      RightLeft(l, v, r);
      RotateLeft(node.(right := RotateRight(r)))
    else
      node
  }

  /** `InsertRec`: an equal value returns the node unchanged; otherwise the
      value goes down the side the comparison picks and the node is
      rebalanced on the way back. The result keeps heights and balance,
      grows by at most one level, and when it grows its root is unchanged
      and leans towards the side the value went down. */
  function InsertRec<T>(cmp: (T, T) -> int, t: Tree<T>, x: T): (r: Tree<T>)
    requires Shape(t)
    ensures r.Node? && Shape(r)
    ensures GetHeight(t) <= GetHeight(r) <= GetHeight(t) + 1
    ensures GetHeight(r) == GetHeight(t) + 1 && t.Node? ==>
              && cmp(x, t.value) != 0
              && r.value == t.value
              && GetBalance(r) == (if cmp(x, t.value) < 0 then 1 else -1)
  {
    match t
    case Empty => Leaf(x)
    case Node(l, v, rt, _) =>
      HeightNonNegative(l);
      HeightNonNegative(rt);
      var c := cmp(x, v);
      if c < 0 then Rebalance(cmp, InsertRec(cmp, l, x), v, rt, x)
      else if c > 0 then Rebalance(cmp, l, v, InsertRec(cmp, rt, x), x)
      else t
  }

  /** The stored values are exactly the values listed in order. */
  lemma {:induction false} ElemsInOrder<T>(t: Tree<T>)
    ensures forall y :: y in Elems(t) <==> y in InOrder(t)
  {
    match t
    case Empty =>
    case Node(l, v, r, _) =>
      ElemsInOrder(l);
      ElemsInOrder(r);
  }

  /** An ordered tree lists its values strictly ascending. */
  lemma {:induction false} OrderedAscending<T(!new)>(cmp: (T, T) -> int, t: Tree<T>)
    requires TotalOrder(cmp) && Ordered(cmp, t)
    ensures StrictlyAscending(cmp, InOrder(t))
  {
    match t
    case Empty =>
    case Node(l, v, r, _) =>
      OrderedAscending(cmp, l);
      OrderedAscending(cmp, r);
      ElemsInOrder(l);
      ElemsInOrder(r);
      JoinStrictlyAscending(cmp, InOrder(l), v, InOrder(r));
  }

  /** A tree that lists its values strictly ascending is ordered. */
  lemma {:induction false} AscendingOrdered<T(!new)>(cmp: (T, T) -> int, t: Tree<T>)
    requires TotalOrder(cmp) && StrictlyAscending(cmp, InOrder(t))
    ensures Ordered(cmp, t)
  {
    match t
    case Empty =>
    case Node(l, v, r, _) =>
      ElemsInOrder(l);
      ElemsInOrder(r);
      SplitStrictlyAscending(cmp, InOrder(l), v, InOrder(r));
      AscendingOrdered(cmp, l);
      AscendingOrdered(cmp, r);
  }

  /** The ordering invariant holds exactly when the in-order listing is
      strictly ascending. */
  lemma OrderedIffAscending<T(!new)>(cmp: (T, T) -> int, t: Tree<T>)
    requires TotalOrder(cmp)
    ensures Ordered(cmp, t) <==> StrictlyAscending(cmp, InOrder(t))
  {
    if Ordered(cmp, t) {
      OrderedAscending(cmp, t);
    }
    if StrictlyAscending(cmp, InOrder(t)) {
      AscendingOrdered(cmp, t);
    }
  }

  /** Two trees with the same in-order listing hold the same values and are
      ordered alike. */
  lemma SameInOrder<T(!new)>(cmp: (T, T) -> int, t: Tree<T>, u: Tree<T>)
    requires TotalOrder(cmp) && InOrder(t) == InOrder(u)
    ensures Elems(t) == Elems(u)
    ensures Ordered(cmp, t) <==> Ordered(cmp, u)
  {
    OrderedIffAscending(cmp, t);
    OrderedIffAscending(cmp, u);
    ElemsInOrder(t);
    ElemsInOrder(u);
  }

  /** The rotations keep the values and the ordering invariant. */
  lemma RotationsKeepOrder<T(!new)>(cmp: (T, T) -> int, t: Tree<T>)
    requires TotalOrder(cmp) && t.Node?
    ensures t.left.Node? ==> Elems(RotateRight(t)) == Elems(t)
    ensures t.left.Node? ==> (Ordered(cmp, RotateRight(t)) <==> Ordered(cmp, t))
    ensures t.right.Node? ==> Elems(RotateLeft(t)) == Elems(t)
    ensures t.right.Node? ==> (Ordered(cmp, RotateLeft(t)) <==> Ordered(cmp, t))
  {
    if t.left.Node? {
      SameInOrder(cmp, RotateRight(t), t);
    }
    if t.right.Node? {
      SameInOrder(cmp, RotateLeft(t), t);
    }
  }

  /** Insertion into an AVL tree adds exactly the value, keeps the order, and
      changes nothing when the value is already present. */
  lemma {:induction false} InsertCorrect<T(!new)>(cmp: (T, T) -> int, t: Tree<T>, x: T)
    requires TotalOrder(cmp) && IsAvl(cmp, t)
    ensures IsAvl(cmp, InsertRec(cmp, t, x))
    ensures Elems(InsertRec(cmp, t, x)) == Elems(t) + {x}
    ensures x in Elems(t) ==> InsertRec(cmp, t, x) == t
  {
    match t
    case Empty =>
    case Node(l, v, rt, h) =>
      var c := cmp(x, v);
      if c < 0 {
        InsertCorrect(cmp, l, x);
        InsertLeftStep(cmp, t, x);
        InsertLeftElems(cmp, t, x);
      } else if c > 0 {
        InsertCorrect(cmp, rt, x);
        InsertRightStep(cmp, t, x);
        InsertRightElems(cmp, t, x);
      }
      if x in Elems(t) {
        InsertPresent(cmp, t, x);
      }
  }

  /** Inserting a value already present returns the very same tree: no
      rotation and no height changes anywhere on the search path. */
  lemma {:induction false} InsertPresent<T(!new)>(cmp: (T, T) -> int, t: Tree<T>, x: T)
    requires TotalOrder(cmp) && IsAvl(cmp, t) && x in Elems(t)
    ensures InsertRec(cmp, t, x) == t
  {
    var c := cmp(x, t.value);
    if c < 0 {
      assert x !in Elems(t.right);
      InsertPresent(cmp, t.left, x);
      assert InsertRec(cmp, t, x) == Rebalance(cmp, t.left, t.value, t.right, x);
    } else if c > 0 {
      assert x !in Elems(t.left);
      InsertPresent(cmp, t.right, x);
      assert InsertRec(cmp, t, x) == Rebalance(cmp, t.left, t.value, t.right, x);
    }
  }

  /** Rebalancing keeps the order of the node it rebuilds. */
  lemma RebalanceKeepsOrder<T(!new)>(cmp: (T, T) -> int, l: Tree<T>, v: T, r: Tree<T>, x: T)
    requires TotalOrder(cmp) && Ordered(cmp, Node(l, v, r, 0))
    requires Shape(l) && Shape(r)
    requires -2 <= GetHeight(l) - GetHeight(r) <= 2
    requires GetHeight(l) - GetHeight(r) == 2 ==>
               l.Node? && cmp(x, l.value) != 0 && GetBalance(l) == (if cmp(x, l.value) < 0 then 1 else -1)
    requires GetHeight(r) - GetHeight(l) == 2 ==>
               r.Node? && cmp(x, r.value) != 0 && GetBalance(r) == (if cmp(x, r.value) > 0 then -1 else 1)
    ensures Ordered(cmp, Rebalance(cmp, l, v, r, x))
  {
    SameInOrder(cmp, Rebalance(cmp, l, v, r, x), Node(l, v, r, 0));
  }

  /** A tree listing `l`, then `v`, then `r` in order holds their values. */
  lemma InOrderJoinElems<T>(n: Tree<T>, l: Tree<T>, v: T, r: Tree<T>)
    requires InOrder(n) == InOrder(l) + [v] + InOrder(r)
    ensures Elems(n) == Elems(l) + {v} + Elems(r)
  {
    ElemsInOrder(n);
    ElemsInOrder(l);
    ElemsInOrder(r);
    forall y
      ensures y in Elems(n) <==> y in Elems(l) + {v} + Elems(r)
    {
      assert y in InOrder(n) <==> y in InOrder(l) + [v] + InOrder(r);
    }
    SameMembers(Elems(n), Elems(l) + {v} + Elems(r));
  }

  /** Sets with the same members are equal (stated on plain sets, where the
      solver applies extensionality without unfolding `Elems`). */
  lemma SameMembers<T>(a: set<T>, b: set<T>)
    requires forall y :: y in a <==> y in b
    ensures a == b
  {
  }

  lemma AddToLeft<T>(a: set<T>, v: T, b: set<T>, x: T)
    ensures (a + {x}) + {v} + b == a + {v} + b + {x}
  {
  }

  lemma AddToRight<T>(a: set<T>, v: T, b: set<T>, x: T)
    ensures a + {v} + (b + {x}) == a + {v} + b + {x}
  {
  }

  /** Inserting down the left of a node is rebalancing the node with the
      grown left subtree, and that rebalancing is defined. */
  lemma InsertLeftUnfold<T>(cmp: (T, T) -> int, t: Tree<T>, x: T)
    requires Shape(t) && t.Node? && cmp(x, t.value) < 0
    ensures var l' := InsertRec(cmp, t.left, x);
            && Shape(l') && Shape(t.right)
            && -1 <= GetHeight(l') - GetHeight(t.right) <= 2
            && (GetHeight(l') - GetHeight(t.right) == 2 ==>
                  l'.Node? && cmp(x, l'.value) != 0 && GetBalance(l') == (if cmp(x, l'.value) < 0 then 1 else -1))
            && InsertRec(cmp, t, x) == Rebalance(cmp, l', t.value, t.right, x)
  {
    HeightNonNegative(t.left);
    HeightNonNegative(t.right);
  }

  /** The mirror image of `InsertLeftUnfold`. */
  lemma InsertRightUnfold<T>(cmp: (T, T) -> int, t: Tree<T>, x: T)
    requires Shape(t) && t.Node? && cmp(x, t.value) > 0
    ensures var r' := InsertRec(cmp, t.right, x);
            && Shape(t.left) && Shape(r')
            && -2 <= GetHeight(t.left) - GetHeight(r') <= 1
            && (GetHeight(r') - GetHeight(t.left) == 2 ==>
                  r'.Node? && cmp(x, r'.value) != 0 && GetBalance(r') == (if cmp(x, r'.value) > 0 then -1 else 1))
            && InsertRec(cmp, t, x) == Rebalance(cmp, t.left, t.value, r', x)
  {
    HeightNonNegative(t.left);
    HeightNonNegative(t.right);
  }

  /** The step of `InsertCorrect` for a value that goes down the left. */
  lemma InsertLeftStep<T(!new)>(cmp: (T, T) -> int, t: Tree<T>, x: T)
    requires TotalOrder(cmp) && IsAvl(cmp, t) && t.Node? && cmp(x, t.value) < 0
    requires Ordered(cmp, InsertRec(cmp, t.left, x))
    requires Elems(InsertRec(cmp, t.left, x)) == Elems(t.left) + {x}
    ensures IsAvl(cmp, InsertRec(cmp, t, x))
  {
    var l' := InsertRec(cmp, t.left, x);
    InsertLeftUnfold(cmp, t, x);
    assert Ordered(cmp, Node(l', t.value, t.right, 0));
    RebalanceKeepsOrder(cmp, l', t.value, t.right, x);
  }

  /** The values after inserting down the left. */
  lemma InsertLeftElems<T>(cmp: (T, T) -> int, t: Tree<T>, x: T)
    requires Shape(t) && t.Node? && cmp(x, t.value) < 0
    requires Elems(InsertRec(cmp, t.left, x)) == Elems(t.left) + {x}
    ensures Elems(InsertRec(cmp, t, x)) == Elems(t) + {x}
  {
    var l' := InsertRec(cmp, t.left, x);
    InsertLeftUnfold(cmp, t, x);
    InOrderJoinElems(InsertRec(cmp, t, x), l', t.value, t.right);
    assert Elems(t) == Elems(t.left) + {t.value} + Elems(t.right);
    AddToLeft(Elems(t.left), t.value, Elems(t.right), x);
  }

  /** The step of `InsertCorrect` for a value that goes down the right. */
  lemma InsertRightStep<T(!new)>(cmp: (T, T) -> int, t: Tree<T>, x: T)
    requires TotalOrder(cmp) && IsAvl(cmp, t) && t.Node? && cmp(x, t.value) > 0
    requires Ordered(cmp, InsertRec(cmp, t.right, x))
    requires Elems(InsertRec(cmp, t.right, x)) == Elems(t.right) + {x}
    ensures IsAvl(cmp, InsertRec(cmp, t, x))
  {
    var r' := InsertRec(cmp, t.right, x);
    InsertRightUnfold(cmp, t, x);
    assert Ordered(cmp, Node(t.left, t.value, r', 0));
    RebalanceKeepsOrder(cmp, t.left, t.value, r', x);
  }

  /** The values after inserting down the right. */
  lemma InsertRightElems<T>(cmp: (T, T) -> int, t: Tree<T>, x: T)
    requires Shape(t) && t.Node? && cmp(x, t.value) > 0
    requires Elems(InsertRec(cmp, t.right, x)) == Elems(t.right) + {x}
    ensures Elems(InsertRec(cmp, t, x)) == Elems(t) + {x}
  {
    var r' := InsertRec(cmp, t.right, x);
    InsertRightUnfold(cmp, t, x);
    InOrderJoinElems(InsertRec(cmp, t, x), t.left, t.value, r');
    assert Elems(t) == Elems(t.left) + {t.value} + Elems(t.right);
    AddToRight(Elems(t.left), t.value, Elems(t.right), x);
  }

  /** The in-order listing of an AVL tree is strictly ascending, so it has no
      duplicates, and lists exactly the stored values. */
  lemma InOrderAscending<T(!new)>(cmp: (T, T) -> int, t: Tree<T>)
    requires TotalOrder(cmp) && IsAvl(cmp, t)
    ensures StrictlyAscending(cmp, InOrder(t))
    ensures forall y :: y in InOrder(t) <==> y in Elems(t)
  {
    OrderedIffAscending(cmp, t);
    ElemsInOrder(t);
  }

  /** Inserting three ascending values into an empty tree hits the Right
      Right case at the root on the third insertion, which makes the middle
      value the root. */
  lemma InsertAscendingThree(a: char, b: char, c: char)
    requires a < b < c
    ensures InsertRec(CharCompare, InsertRec(CharCompare, InsertRec(CharCompare, Empty, a), b), c)
            == Node(Leaf(a), b, Leaf(c), 2)
  {
    var t1 := InsertRec(CharCompare, Empty, a);
    assert t1 == Leaf(a);
    var t2 := InsertRec(CharCompare, t1, b);
    assert InsertRec(CharCompare, Empty, b) == Leaf(b);
    assert t2 == Rebalance(CharCompare, Empty, a, Leaf(b), b);
    assert t2 == Node(Empty, a, Leaf(b), 2);
    var u := InsertRec(CharCompare, Leaf(b), c);
    assert InsertRec(CharCompare, Empty, c) == Leaf(c);
    assert u == Rebalance(CharCompare, Empty, b, Leaf(c), c);
    assert u == Node(Empty, b, Leaf(c), 2);
    assert InsertRec(CharCompare, t2, c) == Rebalance(CharCompare, Empty, a, u, c);
    assert Rebalance(CharCompare, Empty, a, u, c) == RotateLeft(Node(Empty, a, u, 3));
  }

  /** Inserting M, N, O into an empty tree yields N over M and O, an AVL
      tree under the character order. */
  lemma InsertMNO()
    ensures InsertRec(CharCompare, InsertRec(CharCompare, InsertRec(CharCompare, Empty, 'M'), 'N'), 'O')
            == Node(Leaf('M'), 'N', Leaf('O'), 2)
    ensures IsAvl(CharCompare, Node(Leaf('M'), 'N', Leaf('O'), 2))
  {
    InsertAscendingThree('M', 'N', 'O');
    CharCompareIsTotalOrder();
    var t1 := InsertRec(CharCompare, Empty, 'M');
    InsertCorrect(CharCompare, Empty, 'M');
    InsertCorrect(CharCompare, t1, 'N');
    InsertCorrect(CharCompare, InsertRec(CharCompare, t1, 'N'), 'O');
  }

  /** `AvlTree<T>`: the `_root` field, replaced by each insertion. */
  class AvlTree<T(!new)> {
    const cmp: (T, T) -> int
    var root: Tree<T>

    ghost predicate Valid()
      reads this
    {
      TotalOrder(cmp) && IsAvl(cmp, root)
    }

    constructor (cmp: (T, T) -> int)
      requires TotalOrder(cmp)
      ensures Valid() && this.cmp == cmp && root == Empty
    {
      this.cmp := cmp;
      root := Empty;
    }

    /** `Insert`: adds the value, or changes nothing if it is present. */
    method Insert(x: T)
      requires Valid()
      modifies this
      ensures Valid()
      ensures root == InsertRec(cmp, old(root), x)
      ensures Elems(root) == old(Elems(root)) + {x}
      ensures x in old(Elems(root)) ==> root == old(root)
    {
      InsertCorrect(cmp, root, x);
      root := InsertRec(cmp, root, x);
    }

    /** `GetEnumerator`: the values in strictly ascending order. */
    method GetEnumerator() returns (s: seq<T>)
      requires Valid()
      ensures s == InOrder(root)
      ensures StrictlyAscending(cmp, s)
      ensures forall y :: y in s <==> y in Elems(root)
    {
      InOrderAscending(cmp, root);
      s := InOrder(root);
    }
  }
}
