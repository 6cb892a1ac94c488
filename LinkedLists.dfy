/** The singly linked list of Core.Library/DataStructures/SinglyLinkedList.cs
    and its node type from Core.Library/DataStructures/LinkedListNode.cs.
    Value equality (`EqualityComparer<T>.Default`) is `==`. */
module LinkedLists {

  /** The sequence without its first occurrence of `v` (unchanged when there
      is none): what `Remove` leaves behind. */
  function RemoveFirst<T(==)>(s: seq<T>, v: T): (r: seq<T>)
    ensures |r| == if v in s then |s| - 1 else |s|
    ensures forall j :: 0 <= j < |r| ==> r[j] in s
  {
    if s == [] then []
    else if s[0] == v then s[1..]
    else [s[0]] + RemoveFirst(s[1..], v)
  }

  /** When `k` is the first position holding `v`, removing the first
      occurrence cuts out exactly position `k`. */
  lemma {:induction false} RemoveFirstAt<T>(s: seq<T>, v: T, k: int)
    requires 0 <= k < |s| && s[k] == v && v !in s[..k]
    ensures RemoveFirst(s, v) == s[..k] + s[k + 1..]
  {
    if k > 0 {
      assert s[1..][..k - 1] == s[1..k];
      assert v !in s[1..][..k - 1];
      RemoveFirstAt(s[1..], v, k - 1);
      assert s[1..][k..] == s[k + 1..];
      assert s[..k] == [s[0]] + s[1..k];
    }
  }

  /** Without an occurrence nothing is removed. */
  lemma {:induction false} RemoveFirstAbsent<T>(s: seq<T>, v: T)
    requires v !in s
    ensures RemoveFirst(s, v) == s
  {
    if s != [] {
      RemoveFirstAbsent(s[1..], v);
    }
  }

  /** Removing the first occurrence takes one copy of `v` out of the
      multiset of values, shortens the sequence by one, and keeps the other
      elements in their order (they form `s` with one position cut out). */
  lemma RemoveFirstProperties<T>(s: seq<T>, v: T)
    ensures v in s ==> |RemoveFirst(s, v)| == |s| - 1
    ensures v in s ==> multiset(RemoveFirst(s, v)) == multiset(s) - multiset{v}
    ensures v in s ==> exists k :: 0 <= k < |s| && s[k] == v && v !in s[..k] &&
                                   RemoveFirst(s, v) == s[..k] + s[k + 1..]
    ensures v !in s ==> RemoveFirst(s, v) == s
  {
    if v in s {
      var k := FirstIndex(s, v);
      RemoveFirstAt(s, v, k);
      SplitAt(s, k);
    } else {
      RemoveFirstAbsent(s, v);
    }
  }

  /** Cutting `s` around position `k`. */
  lemma SplitAt<T>(s: seq<T>, k: int)
    requires 0 <= k < |s|
    ensures multiset(s) == multiset(s[..k] + s[k + 1..]) + multiset{s[k]}
  {
    assert s[k..] == [s[k]] + s[k + 1..];
    assert s == s[..k] + s[k..];
  }

  /** The position of the first occurrence. */
  function FirstIndex<T(==)>(s: seq<T>, v: T): (k: int)
    requires v in s
    ensures 0 <= k < |s| && s[k] == v && v !in s[..k]
  {
    if s[0] == v then 0
    else
      assert s == [s[0]] + s[1..];
      var k := FirstIndex(s[1..], v);
      assert s[..k + 1] == [s[0]] + s[1..][..k];
      k + 1
  }

  /** `LinkedListNode<T>`. */
  class Node<T> {
    var value: T
    var next: Node?<T>

    /** A new node has no successor. */
    constructor (value: T)
      ensures this.value == value && next == null
    {
      this.value := value;
      next := null;
    }
  }

  /** `SinglyLinkedList<T>`: `head`, `tail` and `Count`, with the values in
      `Contents` and the nodes holding them, head to tail, in `Nodes`. */
  class SinglyLinkedList<T(==)> {
    var head: Node?<T>
    var tail: Node?<T>
    var Count: nat
    ghost var Contents: seq<T>
    ghost var Nodes: seq<Node<T>>
    ghost var Repr: set<object>

    /** The nodes are distinct and chained by `next` in order, the last one
        ends the chain, `head`/`tail` are the first/last node (both `null`
        exactly when the list is empty) and `Count` is the length. */
    ghost predicate Valid()
      reads this, Repr
    {
      && this in Repr
      && (forall i :: 0 <= i < |Nodes| ==> Nodes[i] in Repr)
      && |Nodes| == |Contents| == Count
      && (forall i, j :: 0 <= i < j < |Nodes| ==> Nodes[i] != Nodes[j])
      && (forall i :: 0 <= i < |Nodes| ==> Nodes[i].value == Contents[i])
      && (forall i :: 0 <= i < |Nodes| - 1 ==> Nodes[i].next == Nodes[i + 1])
      && (|Nodes| > 0 ==> Nodes[|Nodes| - 1].next == null)
      && head == (if |Nodes| == 0 then null else Nodes[0])
      && tail == (if |Nodes| == 0 then null else Nodes[|Nodes| - 1])
    }

    constructor ()
      ensures Valid() && fresh(Repr)
      ensures Contents == [] && head == null && tail == null
    {
      head, tail, Count := null, null, 0;
      Contents, Nodes := [], [];
      Repr := {this};
    }

    /** `AddLast`: links a new node after the tail. */
    method AddLast(v: T)
      requires Valid()
      modifies this, tail
      ensures Valid() && fresh(Repr - old(Repr))
      ensures Contents == old(Contents) + [v]
      ensures Count == old(Count) + 1
    {
      var node := new Node(v);
      if head == null {
        head, tail := node, node;
      } else {
        tail.next := node;
        tail := node;
      }
      Count := Count + 1;
      Contents := Contents + [v];
      Nodes := Nodes + [node];
      Repr := Repr + {node};
    }

    /** `Remove`: walks `prev`/`current` from the head and unlinks the first
        node holding `v`, moving `head` or `tail` when that node is the first
        or the last one. */
    method Remove(v: T) returns (removed: bool)
      requires Valid()
      modifies this, Repr
      ensures Valid() && Repr <= old(Repr)
      ensures removed == (v in old(Contents))
      ensures Contents == RemoveFirst(old(Contents), v)
      ensures removed ==> Count == old(Count) - 1
      ensures removed ==> exists k :: 0 <= k < |old(Nodes)| && old(Contents)[k] == v && v !in old(Contents)[..k] &&
                                      Nodes == old(Nodes)[..k] + old(Nodes)[k + 1..]
      ensures !removed ==> Count == old(Count) && unchanged(this) && unchanged(Repr)
    {
      var prev, current, k := Locate(v);
      if current == null {
        assert Contents[..k] == Contents;
        RemoveFirstAbsent(Contents, v);
        return false;
      }
      RemoveFirstAt(Contents, v, k);
      Unlink(prev, current, k);
      return true;
    }

    /** The walk of `Remove`: advances `prev`/`current` from the head until
        `current` holds `v` or falls off the end. */
    method Locate(v: T) returns (prev: Node?<T>, current: Node?<T>, ghost k: int)
      requires Valid()
      ensures 0 <= k <= |Nodes|
      ensures current == if k < |Nodes| then Nodes[k] else null
      ensures prev == if k == 0 then null else Nodes[k - 1]
      ensures v !in Contents[..k]
      ensures k < |Nodes| ==> Contents[k] == v
    {
      prev, current, k := null, head, 0;
      while current != null
        invariant 0 <= k <= |Nodes|
        invariant current == if k < |Nodes| then Nodes[k] else null
        invariant prev == if k == 0 then null else Nodes[k - 1]
        invariant v !in Contents[..k]
        decreases |Nodes| - k
      {
        if current.value == v {
          return;
        }
        assert Contents[..k + 1] == Contents[..k] + [Contents[k]];
        prev := current;
        current := current.next;
        k := k + 1;
      }
    }

    /** The body of the match in `Remove`: bypass `current`, the `k`-th node,
        from its predecessor `prev` (or from `head` when it is the first),
        and move `tail` back to `prev` when it is the last. */
    method Unlink(prev: Node?<T>, current: Node<T>, ghost k: int)
      requires Valid()
      requires 0 <= k < |Nodes| && current == Nodes[k]
      requires prev == if k == 0 then null else Nodes[k - 1]
      modifies this, prev
      ensures Valid() && Repr <= old(Repr)
      ensures Contents == old(Contents[..k] + Contents[k + 1..])
      ensures Nodes == old(Nodes[..k] + Nodes[k + 1..])
      ensures Count == old(Count) - 1
      ensures prev == null ==> head == old(current.next)
      ensures old(current == tail) ==> tail == prev
    {
      if prev == null {
        assert Contents[..0] + Contents[1..] == Contents[1..];
        UnlinkFirst(current);
      } else {
        UnlinkAfter(prev, current, k);
      }
    }

    /** `head = current.Next`, and `tail = prev` (that is, `null`) when the
        first node is also the last. */
    method UnlinkFirst(current: Node<T>)
      requires Valid()
      requires 0 < |Nodes| && current == Nodes[0]
      modifies this
      ensures Valid() && Repr <= old(Repr)
      ensures Contents == old(Contents[1..])
      ensures Nodes == old(Nodes[1..]) && head == old(current.next)
      ensures Count == old(Count) - 1
      ensures old(current == tail) ==> tail == null
    {
      ghost var nodes := Nodes;
      assert current.next == if 1 < |nodes| then nodes[1] else null;
      head := current.next;
      if current == tail {
        tail := null;
      }
      Count := Count - 1;
      Contents := Contents[1..];
      Nodes := Nodes[1..];
      Repr := Repr - {current};
      forall i | 0 <= i < |Nodes|
        ensures Nodes[i] in Repr
      {
        assert Nodes[i] == nodes[i + 1] != nodes[0];
      }
    }

    /** `prev.Next = current.Next`, and `tail = prev` when `current` is the
        last node. */
    method UnlinkAfter(prev: Node<T>, current: Node<T>, ghost k: int)
      requires Valid()
      requires 0 < k < |Nodes| && current == Nodes[k] && prev == Nodes[k - 1]
      modifies this, prev
      ensures Valid() && Repr <= old(Repr)
      ensures Contents == old(Contents[..k] + Contents[k + 1..])
      ensures Nodes == old(Nodes[..k] + Nodes[k + 1..])
      ensures Count == old(Count) - 1
      ensures old(current == tail) ==> tail == prev
    {
      ghost var nodes, contents := Nodes, Contents;
      ghost var after: Node?<T> := current.next;
      assert after == if k + 1 < |nodes| then nodes[k + 1] else null;
      prev.next := current.next;
      if current == tail {
        tail := prev;
      }
      Count := Count - 1;
      Contents := Contents[..k] + Contents[k + 1..];
      Nodes := Nodes[..k] + Nodes[k + 1..];
      Repr := Repr - {current};
      forall i | 0 <= i < |Nodes|
        ensures Nodes[i] == nodes[if i < k then i else i + 1]
        ensures Nodes[i].value == Contents[i] && Nodes[i] in Repr
      {
        var i' := if i < k then i else i + 1;
        assert Nodes[i] == nodes[i'] && Contents[i] == contents[i'];
        assert nodes[i'] != current;
      }
      forall i, j | 0 <= i < j < |Nodes|
        ensures Nodes[i] != Nodes[j]
      {
        assert Nodes[i] == nodes[if i < k then i else i + 1];
        assert Nodes[j] == nodes[if j < k then j else j + 1];
      }
      forall i | 0 <= i < |Nodes| - 1
        ensures Nodes[i].next == Nodes[i + 1]
      {
        if i < k - 1 {
          assert Nodes[i] == nodes[i] && nodes[i] != nodes[k - 1];
          assert Nodes[i + 1] == nodes[i + 1];
        } else if i == k - 1 {
          assert Nodes[i] == prev;
          assert prev.next == after;
        } else {
          assert Nodes[i] == nodes[i + 1] && nodes[i + 1] != nodes[k - 1];
          assert Nodes[i + 1] == nodes[i + 2];
        }
      }
      var last := |Nodes| - 1;
      if last == k - 1 {
        assert Nodes[last] == prev && prev.next == after == null;
      } else {
        assert Nodes[last] == nodes[last + 1] && nodes[last + 1] != nodes[k - 1];
      }
    }

    /** `GetEnumerator`: the values from the head along `next` to the end. */
    method GetEnumerator() returns (s: seq<T>)
      requires Valid()
      ensures s == Contents
    {
      s := [];
      var node := head;
      ghost var k := 0;
      while node != null
        invariant 0 <= k <= |Nodes|
        invariant node == if k < |Nodes| then Nodes[k] else null
        invariant s == Contents[..k]
        decreases |Nodes| - k
      {
        s := s + [node.value];
        node := node.next;
        k := k + 1;
      }
      assert Contents[..k] == Contents;
    }
  }
}
