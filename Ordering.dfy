/** The comparison the search trees are parameterised by, standing for
    `IComparable<T>.CompareTo`, and facts about sequences sorted by it. */
module Ordering {

  /** `cmp` is the sign-valued comparison of a total order in which only
      equal values compare as 0. Transitivity fires only on a comparison
      already in view (the trigger names all three), so that it does not
      keep inventing new ones. */
  ghost predicate TotalOrder<T(!new)>(cmp: (T, T) -> int)
  {
    && (forall a, b :: cmp(a, b) == 0 <==> a == b)
    && (forall a, b :: cmp(a, b) < 0 <==> cmp(b, a) > 0)
    && (forall a, b, c {:trigger cmp(a, b), cmp(b, c), cmp(a, c)} ::
          cmp(a, b) < 0 && cmp(b, c) < 0 ==> cmp(a, c) < 0)
  }

  /** "At most" is transitive. */
  lemma AtMostTransitive<T(!new)>(cmp: (T, T) -> int, a: T, b: T, c: T)
    requires TotalOrder(cmp) && cmp(a, b) <= 0 && cmp(b, c) <= 0
    ensures cmp(a, c) <= 0
  {
    if cmp(a, b) == 0 {
      assert a == b;
    } else if cmp(b, c) == 0 {
      assert b == c;
    }
  }

  /** "At most" read the other way round is "at least". */
  lemma AtMostFlip<T(!new)>(cmp: (T, T) -> int, a: T, b: T)
    requires TotalOrder(cmp) && cmp(a, b) <= 0
    ensures cmp(b, a) >= 0
  {
    if cmp(a, b) == 0 {
      assert a == b;
    }
  }

  /** Every element is at most every later one (duplicates allowed). */
  ghost predicate NonDecreasing<T>(cmp: (T, T) -> int, s: seq<T>)
  {
    forall i, j :: 0 <= i < j < |s| ==> cmp(s[i], s[j]) <= 0
  }

  /** Every element is below every later one (so no duplicates). */
  ghost predicate StrictlyAscending<T>(cmp: (T, T) -> int, s: seq<T>)
  {
    forall i, j :: 0 <= i < j < |s| ==> cmp(s[i], s[j]) < 0
  }

  /** `int.CompareTo`. */
  function IntCompare(a: int, b: int): int
  {
    if a < b then -1 else if a > b then 1 else 0
  }

  /** Ordinal comparison of characters. */
  function CharCompare(a: char, b: char): int
  {
    if a < b then -1 else if a > b then 1 else 0
  }

  lemma IntCompareIsTotalOrder()
    ensures TotalOrder(IntCompare)
  {
  }

  lemma CharCompareIsTotalOrder()
    ensures TotalOrder(CharCompare)
  {
  }

  /** Joining two non-decreasing runs around a pivot that separates them
      gives a non-decreasing sequence. */
  lemma JoinNonDecreasing<T(!new)>(cmp: (T, T) -> int, a: seq<T>, v: T, b: seq<T>)
    requires TotalOrder(cmp)
    requires NonDecreasing(cmp, a) && NonDecreasing(cmp, b)
    requires forall y :: y in a ==> cmp(y, v) <= 0
    requires forall y :: y in b ==> cmp(y, v) >= 0
    ensures NonDecreasing(cmp, a + [v] + b)
  {
    var s := a + [v] + b;
    forall i, j | 0 <= i < j < |s| ensures cmp(s[i], s[j]) <= 0 {
      if j < |a| {
      } else if i < |a| && j == |a| {
        assert s[i] in a;
      } else if i < |a| {
        assert s[i] in a && s[j] in b;
        assert cmp(s[i], v) <= 0 && cmp(s[j], v) >= 0;
      } else if i == |a| {
        assert s[j] in b;
      } else {
        assert s[i] == b[i - |a| - 1] && s[j] == b[j - |a| - 1];
      }
    }
  }

  /** Joining two strictly ascending runs around a pivot strictly between
      them gives a strictly ascending sequence. */
  lemma JoinStrictlyAscending<T(!new)>(cmp: (T, T) -> int, a: seq<T>, v: T, b: seq<T>)
    requires TotalOrder(cmp)
    requires StrictlyAscending(cmp, a) && StrictlyAscending(cmp, b)
    requires forall y :: y in a ==> cmp(y, v) < 0
    requires forall y :: y in b ==> cmp(y, v) > 0
    ensures StrictlyAscending(cmp, a + [v] + b)
  {
    var s := a + [v] + b;
    forall i, j | 0 <= i < j < |s| ensures cmp(s[i], s[j]) < 0 {
      if j < |a| {
      } else if i < |a| && j == |a| {
        assert s[i] in a;
      } else if i < |a| {
        assert s[i] in a && s[j] in b;
        assert cmp(s[i], v) < 0 && cmp(v, s[j]) < 0;
      } else if i == |a| {
        assert s[j] in b;
      } else {
        assert s[i] == b[i - |a| - 1] && s[j] == b[j - |a| - 1];
      }
    }
  }

  /** The converse split: the runs on either side of an element of a strictly
      ascending sequence are strictly ascending and lie below, respectively
      above, that element. */
  lemma SplitStrictlyAscending<T>(cmp: (T, T) -> int, a: seq<T>, v: T, b: seq<T>)
    requires StrictlyAscending(cmp, a + [v] + b)
    ensures StrictlyAscending(cmp, a) && StrictlyAscending(cmp, b)
    ensures forall y :: y in a ==> cmp(y, v) < 0
    ensures forall y :: y in b ==> cmp(v, y) < 0
  {
    var s := a + [v] + b;
    assert s[|a|] == v;
    forall i, j | 0 <= i < j < |a| ensures cmp(a[i], a[j]) < 0 {
      assert s[i] == a[i] && s[j] == a[j];
    }
    forall i, j | 0 <= i < j < |b| ensures cmp(b[i], b[j]) < 0 {
      assert s[|a| + 1 + i] == b[i] && s[|a| + 1 + j] == b[j];
    }
    forall y | y in a ensures cmp(y, v) < 0 {
      var i :| 0 <= i < |a| && a[i] == y;
      assert s[i] == y;
    }
    forall y | y in b ensures cmp(v, y) < 0 {
      var i :| 0 <= i < |b| && b[i] == y;
      assert s[|a| + 1 + i] == y;
    }
  }
}
