/** The list-backed FIFO queue of Core.Library/DataStructures/Queue.cs. The
    `List<T>` is the sequence `elements`, front first. */
module Queues {
  import opened Wrappers

  class Queue<T> {
    var elements: seq<T>

    /** `Count`: the number of stored elements. */
    function Count(): (n: nat)
      reads this
      ensures n == 0 <==> elements == []
    {
      |elements|
    }

    constructor ()
      ensures elements == []
    {
      elements := [];
    }

    /** `Enqueue`: the item joins at the back. */
    method Enqueue(item: T)
      modifies this
      ensures elements == old(elements) + [item]
      ensures Count() == old(Count()) + 1
    {
      elements := elements + [item];
    }

    /** `Dequeue`: removes and returns the front, keeping the order of the
        rest; fails on an empty queue. */
    method Dequeue() returns (r: Result<T, Error>)
      modifies this
      ensures old(elements) == [] ==> r == Failure(EmptyContainer) && elements == old(elements)
      ensures old(elements) != [] ==>
                && r == Success(old(elements)[0])
                && elements == old(elements)[1..]
                && old(elements) == [r.value] + elements
    {
      if |elements| == 0 {
        return Failure(EmptyContainer);
      }
      var item := elements[0];
      elements := elements[1..];
      return Success(item);
    }

    /** `Peek`: the front, without removing it; fails on an empty queue. */
    method Peek() returns (r: Result<T, Error>)
      ensures r.Failure? <==> elements == []
      ensures r.Failure? ==> r.error == EmptyContainer
      ensures r.Success? ==> r.value == elements[0]
    {
      if |elements| == 0 {
        return Failure(EmptyContainer);
      }
      return Success(elements[0]);
    }

    /** `GetEnumerator`: front to back. */
    method GetEnumerator() returns (s: seq<T>)
      ensures s == elements
    {
      s := [];
      for i := 0 to |elements|
        invariant s == elements[..i]
      {
        s := s + [elements[i]];
      }
    }
  }

  /** Enqueueing `xs` into a new queue and dequeuing as many times returns
      `xs` in the same order. */
  method EnqueueAllDequeueAll<T>(xs: seq<T>) returns (ys: seq<T>)
    ensures ys == xs
  {
    var q := new Queue<T>();
    for n := 0 to |xs|
      invariant q.elements == xs[..n]
    {
      q.Enqueue(xs[n]);
    }
    ys := [];
    for n := 0 to |xs|
      invariant ys + q.elements == xs
      invariant |ys| == n
    {
      var r := q.Dequeue();
      ys := ys + [r.value];
    }
  }
}
