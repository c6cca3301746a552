/** The nodes of the container and what it takes for a sequence of them to
    form a well-formed doubly-linked chain. */
module Chain {

  /** One link of the chain: a value and its two neighbours. */
  class Node<T> {
    var data: T
    var prev: Node?<T>
    var next: Node?<T>

    /** A node holding a copy of the value, not yet linked to anything. */
    constructor (value: T)
      ensures data == value && prev == null && next == null
    {
      data := value;
      prev := null;
      next := null;
    }
  }

  /** Consecutive nodes are linked both ways: `next` goes down, `prev` back up. */
  ghost predicate Linked<T>(ns: seq<Node<T>>)
    reads ns
  {
    forall i, j :: 0 <= i && j == i + 1 && j < |ns| ==> ns[i].next == ns[j] && ns[j].prev == ns[i]
  }

  /** No node occurs twice, so the chain has no cycle. */
  ghost predicate Distinct<T>(ns: seq<Node<T>>)
  {
    forall i, j :: 0 <= i < j < |ns| ==> ns[i] != ns[j]
  }

  /** `nodes` is the chain from `head`, linked both ways, ending in null at
      both ends, counted by `size`, holding `elems` in order, and owned
      through the footprint `repr`. */
  ghost predicate ChainOf<T>(head: Node?<T>, size: nat, elems: seq<T>, nodes: seq<Node<T>>,
                             repr: set<Node<T>>)
    reads repr
  {
    (forall i :: 0 <= i < |nodes| ==> nodes[i] in repr) &&
    |nodes| == |elems| && size == |nodes| &&
    (head == null <==> nodes == []) &&
    (nodes != [] ==>
      head == nodes[0] && nodes[0].prev == null && nodes[|nodes| - 1].next == null) &&
    Linked(nodes) && Distinct(nodes) &&
    (forall i :: 0 <= i < |nodes| ==> nodes[i].data == elems[i])
  }

  /** The node reached from `n` by following `next` k times (null once the
      chain has ended). */
  ghost function Follow<T>(n: Node?<T>, k: nat): (r: Node?<T>)
    reads *
  {
    if k == 0 || n == null then n else Follow(n.next, k - 1)
  }

  /** The nodes occurring in a sequence of nodes. */
  ghost function Members<T>(ns: seq<Node<T>>): (r: set<Node<T>>)
    ensures forall i :: 0 <= i < |ns| ==> ns[i] in r
    ensures forall n | n in r :: n in ns
  {
    if ns == [] then {} else {ns[0]} + Members(ns[1..])
  }

  /** One more node linked in front keeps a growing chain in step: the nodes
      added so far lie in front of the original chain, and the footprint is
      the original one plus exactly those nodes. */
  lemma ChainGrowsStep<T>(ns0: seq<Node<T>>, r0: set<Node<T>>, added: seq<Node<T>>,
                          ns: seq<Node<T>>, r: set<Node<T>>, ns': seq<Node<T>>, r': set<Node<T>>)
    requires ns == added + ns0 && r == r0 + Members(added)
    requires |ns'| > 0 && ns' == [ns'[0]] + ns && r' == r + {ns'[0]}
    ensures ns' == ([ns'[0]] + added) + ns0
    ensures r' == r0 + Members([ns'[0]] + added)
  {
    assert ([ns'[0]] + added)[1..] == added;
  }

  /** Following k+1 links is following k links and then one more. */
  lemma {:induction false} FollowStep<T>(n: Node?<T>, k: nat)
    requires Follow(n, k) != null
    ensures Follow(n, k + 1) == Follow(n, k).next
  {
    if k > 0 {
      FollowStep(n.next, k - 1);
    }
  }
}
