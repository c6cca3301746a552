/** The container itself: a LIFO stack over a doubly-linked chain of nodes,
    with a count of its elements, and the two bidirectional cursors over the
    chain. The chain runs from the most recently pushed element (the head)
    through `next` links to the oldest one, whose `next` is null. */
module LinkedStack {
  import opened StackSpec
  import opened Chain

  class Stack<T> {
    // The implementation's fields.
    var head: Node?<T>
    var stackSize: nat

    // The abstract view: the elements top first, the nodes holding them, and
    // the set of nodes the stack owns (a superset of those nodes).
    ghost var elems: seq<T>
    ghost var nodes: seq<Node<T>>
    ghost var Repr: set<Node<T>>

    /** The representation invariant (see ChainOf) for this stack's fields. */
    ghost predicate Valid()
      reads this, Repr
    {
      ChainOf(head, stackSize, elems, nodes, Repr)
    }

    /** Position k of a traversal: node k of the chain, or null (the end
        sentinel) for k == |nodes|. */
    ghost predicate Cursor(p: Node?<T>, k: int)
      reads this
    {
      0 <= k <= |nodes| && p == (if k < |nodes| then nodes[k] else null)
    }

    /** An empty stack. */
    constructor ()
      ensures Valid() && elems == [] && nodes == [] && Repr == {}
    {
      head := null;
      stackSize := 0;
      elems := [];
      nodes := [];
      Repr := {};
    }

    /** push: a fresh node holding `x` becomes the head, in front of every
        older element. */
    method Push(x: T)
      requires Valid()
      modifies this, Repr
      ensures Valid()
      ensures elems == [x] + old(elems)
      ensures |nodes| > 0 && nodes == [nodes[0]] + old(nodes)
      ensures fresh(nodes[0]) && Repr == old(Repr) + {nodes[0]}
    {
      var n := new Node(x);
      n.next := head;
      if head != null {
        head.prev := n;
      }
      head := n;
      stackSize := stackSize + 1;
      nodes := [n] + nodes;
      elems := [x] + elems;
      Repr := Repr + {n};
    }

    /** push_range: pushes the list's elements in list order, so they end up
        reversed on top of the old contents, the last one as the new top
        (PushAllIsReverse: the same contents as pushing them one by one). */
    method PushRange(list: seq<T>)
      requires Valid()
      modifies this, Repr
      ensures Valid()
      ensures elems == Reverse(list) + old(elems)
      ensures |nodes| == |list| + |old(nodes)| && nodes[|list|..] == old(nodes)
      ensures Repr == old(Repr) + Members(nodes[..|list|]) && fresh(Repr - old(Repr))
    {
      ghost var elems0, nodes0, repr0 := elems, nodes, Repr;
      ghost var added: seq<Node<T>> := [];
      var i := 0;
      while i < |list|
        invariant i <= |list|
        invariant Valid()
        invariant elems == Reverse(list[..i]) + elems0
        invariant |added| == i && nodes == added + nodes0
        invariant Repr == repr0 + Members(added) && fresh(Repr - repr0)
      {
        ghost var before, nodesBefore, reprBefore := elems, nodes, Repr;
        Push(list[i]);
        PushRangeStep(list, i, elems0, before, elems);
        ChainGrowsStep(nodes0, repr0, added, nodesBefore, reprBefore, nodes, Repr);
        added := [nodes[0]] + added;
        i := i + 1;
      }
      assert list[..i] == list;
      assert nodes[..i] == added && nodes[i..] == nodes0;
    }

    /** emplace: builds the value from the constructor arguments and pushes it. */
    method Emplace<A>(args: A, construct: A -> T)
      requires Valid()
      modifies this, Repr
      ensures Valid()
      ensures elems == [construct(args)] + old(elems)
      ensures |nodes| > 0 && nodes == [nodes[0]] + old(nodes)
      ensures fresh(nodes[0]) && Repr == old(Repr) + {nodes[0]}
    {
      Push(construct(args));
    }

    /** swap: exchanges head and count with `other`; no node is touched, so
        each stack now owns exactly the other's former chain. */
    method Swap(other: Stack<T>)
      requires Valid() && other.Valid()
      modifies this, other
      ensures Valid() && other.Valid()
      ensures elems == old(other.elems) && other.elems == old(elems)
      ensures nodes == old(other.nodes) && other.nodes == old(nodes)
      ensures Repr == old(other.Repr) && other.Repr == old(Repr)
    {
      if other == this {
        // Exchanging a stack's fields with themselves leaves them as they are.
        return;
      }
      var h, n := head, stackSize;
      ghost var e, ns, r := elems, nodes, Repr;
      head, stackSize := other.head, other.stackSize;
      elems, nodes, Repr := other.elems, other.nodes, other.Repr;
      other.head, other.stackSize := h, n;
      other.elems, other.nodes, other.Repr := e, ns, r;
    }

    /** pop: unlinks the head, which leaves the stack's ownership, and
        decrements the count; on an empty stack it fails with EmptyContainer
        and changes nothing. */
    method Pop() returns (r: Outcome)
      requires Valid()
      modifies this, Repr
      ensures Valid()
      ensures old(elems) == [] ==>
        r == Fail(EmptyContainer) && elems == [] && unchanged(this) && unchanged(Repr)
      ensures old(elems) != [] ==>
        r == Pass && elems == old(elems)[1..] && nodes == old(nodes)[1..] &&
        Repr == old(Repr) - {old(nodes)[0]}
    {
      if head == null {
        return Fail(EmptyContainer);
      }
      assert |nodes| > 1 ==> nodes[0].next == nodes[1];
      var victim := head;
      head := head.next;
      if head != null {
        head.prev := null;
      }
      stackSize := stackSize - 1;
      nodes := nodes[1..];
      elems := elems[1..];
      Repr := Repr - {victim};
      r := Pass;
    }

    /** top: the head element, or EmptyContainer on an empty stack. */
    function Top(): (r: Result<T>)
      reads this, Repr
      requires Valid()
      ensures r.Success? <==> elems != []
      ensures r.Success? ==> r.value == elems[0]
      ensures r.Failure? ==> r.error == EmptyContainer
    {
      if head == null then Failure(EmptyContainer) else Success(head.data)
    }

    /** size: the number of elements. */
    function Size(): (n: nat)
      reads this, Repr
      requires Valid()
      ensures n == |elems| && n == |nodes|
    {
      stackSize
    }

    /** empty: true exactly when there are no elements, that is when size is 0. */
    function Empty(): (b: bool)
      reads this, Repr
      requires Valid()
      ensures b <==> elems == []
      ensures b <==> Size() == 0
    {
      stackSize == 0
    }

    /** clear: walks the chain from the head to the terminal null, releasing
        every node, then resets the count. */
    method Clear()
      requires Valid()
      modifies this
      ensures Valid() && elems == [] && nodes == [] && Repr == {}
    {
      while head != null
        invariant |nodes| == |elems|
        invariant head == null <==> nodes == []
        invariant nodes != [] ==> head == nodes[0] && nodes[|nodes| - 1].next == null
        invariant Linked(nodes)
        invariant Distinct(nodes)
        decreases |nodes|
      {
        assert |nodes| > 1 ==> nodes[0].next == nodes[1];
        head := head.next;
        nodes := nodes[1..];
        elems := elems[1..];
      }
      stackSize := 0;
      Repr := {};
    }

    /** Writing `x` through `*it` for a mutable cursor at position k (and so,
        for k == 0, through the reference top() returns): element k becomes x
        and nothing else changes. */
    method AssignThrough(it: Iterator<T>, ghost k: nat, x: T)
      requires Valid() && Cursor(it.nodePtr, k) && k < |elems|
      modifies this, Repr
      ensures Valid()
      ensures elems == old(elems)[k := x] && nodes == old(nodes) && Repr == old(Repr)
    {
      it.nodePtr.data := x;
      elems := elems[k := x];
    }

    /** begin: a cursor at the head, which is the end sentinel when empty. */
    method Begin() returns (it: Iterator<T>)
      requires Valid()
      ensures fresh(it) && Cursor(it.nodePtr, 0)
    {
      it := new Iterator(head);
    }

    /** end: the sentinel one past the oldest element. */
    method End() returns (it: Iterator<T>)
      requires Valid()
      ensures fresh(it) && Cursor(it.nodePtr, |elems|)
    {
      it := new Iterator(null);
    }

    /** cbegin: the read-only counterpart of begin. */
    method CBegin() returns (it: ConstIterator<T>)
      requires Valid()
      ensures fresh(it) && Cursor(it.nodePtr, 0)
    {
      it := new ConstIterator(head);
    }

    /** cend: the read-only counterpart of end. */
    method CEnd() returns (it: ConstIterator<T>)
      requires Valid()
      ensures fresh(it) && Cursor(it.nodePtr, |elems|)
    {
      it := new ConstIterator(null);
    }
  }

  /** A mutable bidirectional cursor; it does not own the node it names. */
  class Iterator<T> {
    var nodePtr: Node?<T>

    constructor (p: Node?<T>)
      ensures nodePtr == p
    {
      nodePtr := p;
    }

    /** `*it`: the value stored in the node. */
    function Deref(): (v: T)
      reads this, nodePtr
      requires nodePtr != null
    {
      nodePtr.data
    }

    /** `++it`: moves to the next (older) node. */
    method Increment()
      requires nodePtr != null
      modifies this
      ensures nodePtr == old(nodePtr.next)
    {
      nodePtr := nodePtr.next;
    }

    /** `--it`: moves to the previous (newer) node. */
    method Decrement()
      requires nodePtr != null
      modifies this
      ensures nodePtr == old(nodePtr.prev)
    {
      nodePtr := nodePtr.prev;
    }

    /** `it++`: moves to the next node and returns a cursor where it was. */
    method PostIncrement() returns (was: Iterator<T>)
      requires nodePtr != null
      modifies this
      ensures fresh(was) && was.nodePtr == old(nodePtr)
      ensures nodePtr == old(nodePtr.next)
    {
      was := new Iterator(nodePtr);
      nodePtr := nodePtr.next;
    }

    /** `it--`: moves to the previous node and returns a cursor where it was. */
    method PostDecrement() returns (was: Iterator<T>)
      requires nodePtr != null
      modifies this
      ensures fresh(was) && was.nodePtr == old(nodePtr)
      ensures nodePtr == old(nodePtr.prev)
    {
      was := new Iterator(nodePtr);
      nodePtr := nodePtr.prev;
    }

    /** `==`: both cursors name the same node. */
    predicate Equals(other: Iterator<T>)
      reads this, other
    {
      nodePtr == other.nodePtr
    }

    /** `!=`: the negation of `==`. */
    predicate NotEquals(other: Iterator<T>)
      reads this, other
    {
      !Equals(other)
    }
  }

  /** A read-only bidirectional cursor; it does not own the node it names. */
  class ConstIterator<T> {
    var nodePtr: Node?<T>

    constructor (p: Node?<T>)
      ensures nodePtr == p
    {
      nodePtr := p;
    }

    /** `*it`: the value stored in the node, for reading only. */
    function Deref(): (v: T)
      reads this, nodePtr
      requires nodePtr != null
    {
      nodePtr.data
    }

    /** `++it`: moves to the next (older) node. */
    method Increment()
      requires nodePtr != null
      modifies this
      ensures nodePtr == old(nodePtr.next)
    {
      nodePtr := nodePtr.next;
    }

    /** `--it`: moves to the previous (newer) node. */
    method Decrement()
      requires nodePtr != null
      modifies this
      ensures nodePtr == old(nodePtr.prev)
    {
      nodePtr := nodePtr.prev;
    }

    /** `it++`: moves to the next node and returns a cursor where it was. */
    method PostIncrement() returns (was: ConstIterator<T>)
      requires nodePtr != null
      modifies this
      ensures fresh(was) && was.nodePtr == old(nodePtr)
      ensures nodePtr == old(nodePtr.next)
    {
      was := new ConstIterator(nodePtr);
      nodePtr := nodePtr.next;
    }

    /** `it--`: moves to the previous node and returns a cursor where it was. */
    method PostDecrement() returns (was: ConstIterator<T>)
      requires nodePtr != null
      modifies this
      ensures fresh(was) && was.nodePtr == old(nodePtr)
      ensures nodePtr == old(nodePtr.prev)
    {
      was := new ConstIterator(nodePtr);
      nodePtr := nodePtr.prev;
    }

    /** `==`: both cursors name the same node. */
    predicate Equals(other: ConstIterator<T>)
      reads this, other
    {
      nodePtr == other.nodePtr
    }

    /** `!=`: the negation of `==`. */
    predicate NotEquals(other: ConstIterator<T>)
      reads this, other
    {
      !Equals(other)
    }
  }

  // Properties of the representation.

  /** Following `next` k times from the head reaches node k, or null at k == size. */
  lemma {:induction false} FollowFromHead<T>(s: Stack<T>, k: nat)
    requires s.Valid() && k <= |s.nodes|
    ensures s.Cursor(Follow(s.head, k), k)
  {
    if k > 0 {
      FollowFromHead(s, k - 1);
      FollowStep(s.head, k - 1);
    }
  }

  /** The count equals the number of nodes reachable from the head through
      `next` before the terminal null. */
  lemma SizeIsChainLength<T>(s: Stack<T>)
    requires s.Valid()
    ensures Follow(s.head, s.stackSize) == null
    ensures forall k: nat :: k < s.stackSize ==> Follow(s.head, k) != null
  {
    FollowFromHead(s, s.stackSize);
    forall k: nat | k < s.stackSize
      ensures Follow(s.head, k) != null
    {
      FollowFromHead(s, k);
    }
  }

  /** Within the chain, the `prev` links are exactly the inverse of the
      `next` links. */
  lemma PrevInvertsNext<T>(s: Stack<T>, i: nat, j: nat)
    requires s.Valid() && i < |s.nodes| && j < |s.nodes|
    ensures s.nodes[i].next == s.nodes[j] <==> s.nodes[j].prev == s.nodes[i]
  {
    if s.nodes[i].next == s.nodes[j] {
      assert i + 1 < |s.nodes|;
      assert s.nodes[i + 1] == s.nodes[j];
    }
    if s.nodes[j].prev == s.nodes[i] {
      assert 0 < j;
      assert s.nodes[j - 1] == s.nodes[i];
    }
  }

  /** Null is the head exactly when the stack is empty. */
  lemma HeadNullIffEmpty<T>(s: Stack<T>)
    requires s.Valid()
    ensures s.head == null <==> s.Empty()
  {
  }

  /** `++` on a cursor at position k moves it to position k+1 (the end
      sentinel after the oldest element). */
  lemma IncrementAdvances<T>(s: Stack<T>, p: Node?<T>, k: int)
    requires s.Valid() && s.Cursor(p, k) && k < |s.nodes|
    ensures p != null && s.Cursor(p.next, k + 1)
  {
  }

  /** `--` on a cursor at a node moves back to its `prev`: position k-1, or
      the null sentinel when leaving the head. */
  lemma DecrementRetreats<T>(s: Stack<T>, p: Node?<T>, k: int)
    requires s.Valid() && s.Cursor(p, k) && k < |s.nodes|
    ensures p != null
    ensures k > 0 ==> s.Cursor(p.prev, k - 1)
    ensures k == 0 ==> p.prev == null
  {
  }

  /** `*it` at position k reads element k. */
  lemma DerefReads<T>(s: Stack<T>, it: Iterator<T>, k: int)
    requires s.Valid() && s.Cursor(it.nodePtr, k) && k < |s.elems|
    ensures it.nodePtr != null && it.Deref() == s.elems[k]
  {
  }

  /** Cursor equality is node identity: two cursors into the same stack are
      equal exactly when they are at the same position, whatever the values. */
  lemma EqualityIsIdentity<T>(s: Stack<T>, it: Iterator<T>, other: Iterator<T>, i: int, j: int)
    requires s.Valid() && s.Cursor(it.nodePtr, i) && s.Cursor(other.nodePtr, j)
    ensures it.Equals(other) <==> i == j
    ensures it.NotEquals(other) <==> i != j
  {
  }

  /** `*it` on a read-only cursor at position k reads element k. */
  lemma ConstDerefReads<T>(s: Stack<T>, it: ConstIterator<T>, k: int)
    requires s.Valid() && s.Cursor(it.nodePtr, k) && k < |s.elems|
    ensures it.nodePtr != null && it.Deref() == s.elems[k]
  {
  }

  /** Read-only cursor equality is node identity as well: equal exactly when
      at the same position. */
  lemma ConstEqualityIsIdentity<T>(s: Stack<T>, it: ConstIterator<T>, other: ConstIterator<T>,
                                   i: int, j: int)
    requires s.Valid() && s.Cursor(it.nodePtr, i) && s.Cursor(other.nodePtr, j)
    ensures it.Equals(other) <==> i == j
    ensures it.NotEquals(other) <==> i != j
  {
  }
}
