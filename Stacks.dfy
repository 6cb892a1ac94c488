/** The list-backed LIFO stack of Core.Library/DataStructures/Stack.cs. The
    `List<T>` is the sequence `elements`, bottom first, so the top is its last
    element. */
module Stacks {
  import opened Wrappers

  class Stack<T> {
    var elements: seq<T>

    /** `Count`: the number of stored elements. */
    function Count(): (n: nat)
      reads this
      ensures n == 0 <==> elements == []
    {
      |elements|
    }

    constructor ()
      ensures elements == []
    {
      elements := [];
    }

    /** `Push`: the item becomes the new top. */
    method Push(item: T)
      modifies this
      ensures elements == old(elements) + [item]
      ensures Count() == old(Count()) + 1
    {
      elements := elements + [item];
    }

    /** `Pop`: removes and returns the top; fails on an empty stack. */
    method Pop() returns (r: Result<T, Error>)
      modifies this
      ensures old(elements) == [] ==> r == Failure(EmptyContainer) && elements == old(elements)
      ensures old(elements) != [] ==>
                && r == Success(old(elements)[|old(elements)| - 1])
                && elements == old(elements)[..|old(elements)| - 1]
                && old(elements) == elements + [r.value]
    {
      if |elements| == 0 {
        return Failure(EmptyContainer);
      }
      var index := |elements| - 1;
      var item := elements[index];
      elements := elements[..index];
      return Success(item);
    }

    /** `Peek`: the top, without removing it; fails on an empty stack. */
    method Peek() returns (r: Result<T, Error>)
      ensures r.Failure? <==> elements == []
      ensures r.Failure? ==> r.error == EmptyContainer
      ensures r.Success? ==> r.value == elements[|elements| - 1]
    {
      if |elements| == 0 {
        return Failure(EmptyContainer);
      }
      return Success(elements[|elements| - 1]);
    }

    /** `GetEnumerator`: top to bottom, the reverse of push order. */
    method GetEnumerator() returns (s: seq<T>)
      ensures |s| == |elements|
      ensures forall i :: 0 <= i < |s| ==> s[i] == elements[|elements| - 1 - i]
    {
      s := [];
      var i := |elements| - 1;
      while i >= 0
        invariant -1 <= i < |elements|
        invariant |s| == |elements| - 1 - i
        invariant forall j :: 0 <= j < |s| ==> s[j] == elements[|elements| - 1 - j]
      {
        s := s + [elements[i]];
        i := i - 1;
      }
    }
  }

  /** A push followed by a pop returns the pushed item and restores the
      stack. */
  method PushThenPop<T>(st: Stack<T>, x: T) returns (r: Result<T, Error>)
    modifies st
    ensures r == Success(x)
    ensures st.elements == old(st.elements)
  {
    st.Push(x);
    r := st.Pop();
  }

  /** Pushing `xs` onto a new stack and popping as many times returns `xs`
      last to first. */
  method PushAllPopAll<T>(xs: seq<T>) returns (ys: seq<T>)
    ensures |ys| == |xs|
    ensures forall i :: 0 <= i < |xs| ==> ys[i] == xs[|xs| - 1 - i]
  {
    var st := new Stack<T>();
    var n := 0;
    while n < |xs|
      invariant 0 <= n <= |xs|
      invariant st.elements == xs[..n]
    {
      st.Push(xs[n]);
      n := n + 1;
    }
    ys := [];
    while n > 0
      invariant 0 <= n <= |xs|
      invariant st.elements == xs[..n]
      invariant |ys| == |xs| - n
      invariant forall i :: 0 <= i < |ys| ==> ys[i] == xs[|xs| - 1 - i]
    {
      var r := st.Pop();
      ys := ys + [r.value];
      n := n - 1;
    }
  }
}
