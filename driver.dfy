/** Clients of the container: the iteration idiom `for (it = begin(); it !=
    end(); ++it)` and the demonstration scenario, whose observations are
    stated as postconditions. */
module Driver {
  import opened StackSpec
  import opened LinkedStack

  /** Walks a mutable cursor from begin() with `++` until it equals end(),
      reading `*it` at each step: the elements come out top first. */
  method Collect<T>(s: Stack<T>) returns (out: seq<T>)
    requires s.Valid()
    ensures out == s.elems
  {
    var it := s.Begin();
    var stop := s.End();
    ghost var k := 0;
    out := [];
    while it.NotEquals(stop)
      invariant s.Cursor(it.nodePtr, k) && stop.nodePtr == null
      invariant out == s.elems[..k]
      decreases |s.elems| - k
    {
      out := out + [it.Deref()];
      it.Increment();
      k := k + 1;
    }
    assert s.elems[..k] == s.elems;
  }

  /** The same walk with read-only cursors from cbegin() to cend(), using the
      postfix `it++`. */
  method CollectConst<T>(s: Stack<T>) returns (out: seq<T>)
    requires s.Valid()
    ensures out == s.elems
  {
    var it := s.CBegin();
    var stop := s.CEnd();
    ghost var k := 0;
    out := [];
    while it.NotEquals(stop)
      invariant s.Cursor(it.nodePtr, k) && stop.nodePtr == null
      invariant out == s.elems[..k]
      decreases |s.elems| - k
    {
      var was := it.PostIncrement();
      out := out + [was.Deref()];
      k := k + 1;
    }
    assert s.elems[..k] == s.elems;
  }

  /** A push followed at once by a pop succeeds and restores the previous
      contents, so the previous top is back on top. */
  method PushThenPop<T>(s: Stack<T>, x: T) returns (r: Outcome)
    requires s.Valid()
    modifies s, s.Repr
    ensures s.Valid() && r == Pass && s.elems == old(s.elems)
  {
    s.Push(x);
    r := s.Pop();
  }

  /** Pushes the elements of `xs` one at a time, first element first. */
  method PushEach<T>(s: Stack<T>, xs: seq<T>)
    requires s.Valid()
    modifies s, s.Repr
    ensures s.Valid() && s.elems == PushAll(old(s.elems), xs)
    ensures old(s.Repr) <= s.Repr && fresh(s.Repr - old(s.Repr))
  {
    var i := 0;
    while i < |xs|
      invariant i <= |xs|
      invariant s.Valid()
      invariant PushAll(s.elems, xs[i..]) == PushAll(old(s.elems), xs)
      invariant old(s.Repr) <= s.Repr && fresh(s.Repr - old(s.Repr))
    {
      assert xs[i..][1..] == xs[i + 1..];
      s.Push(xs[i]);
      i := i + 1;
    }
  }

  /** Calls pop() n times; each call on an empty stack fails and changes
      nothing, so the result is PopN of the old contents. */
  method PopTimes<T>(s: Stack<T>, n: nat)
    requires s.Valid()
    modifies s, s.Repr
    ensures s.Valid() && s.elems == PopN(old(s.elems), n)
    ensures s.Repr <= old(s.Repr)
  {
    var i := 0;
    while i < n
      invariant i <= n
      invariant s.Valid()
      invariant PopN(s.elems, n - i) == PopN(old(s.elems), n)
      invariant s.Repr <= old(s.Repr)
    {
      var r := s.Pop();
      i := i + 1;
    }
  }

  /** n pushes followed by n pops on the object restore its contents (LIFO);
      from an empty stack they end empty. */
  method PushesThenPopsOnStack<T>(s: Stack<T>, xs: seq<T>)
    requires s.Valid()
    modifies s, s.Repr
    ensures s.Valid() && s.elems == old(s.elems)
  {
    PushEach(s, xs);
    PopTimes(s, |xs|);
    PushesThenPops(old(s.elems), xs);
  }

  /** The literal list of the demonstration, pushed one at a time. */
  lemma ReverseOneToFive()
    ensures Reverse([1, 2, 3, 4, 5]) == [5, 4, 3, 2, 1]
  {
  }

  /** main.cpp, first part: three pushes, a pop, then size and empty. */
  method PushPopPart() returns (s: Stack<int>, topAfterPushes: int, topAfterPop: int,
                                sizeAfterPop: nat, emptyAfterPop: bool)
    ensures fresh(s) && s.Valid() && s.elems == [20, 10]
    ensures topAfterPushes == 30 && topAfterPop == 20
    ensures sizeAfterPop == 2 && !emptyAfterPop
  {
    s := new Stack<int>();
    s.Push(10);
    s.Push(20);
    s.Push(30);
    topAfterPushes := s.Top().value;
    var popped := s.Pop();
    topAfterPop := s.Top().value;
    sizeAfterPop := s.Size();
    emptyAfterPop := s.Empty();
  }

  /** main.cpp, second part: a second stack of 100 and 200, swapped with `s`. */
  method SwapPart(s: Stack<int>) returns (s2: Stack<int>, topAfterSwap: int, otherTopAfterSwap: int)
    requires s.Valid() && s.elems == [20, 10]
    modifies s
    ensures fresh(s2) && s.Valid() && s.elems == [200, 100] && fresh(s.Repr)
    ensures topAfterSwap == 200 && otherTopAfterSwap == 20
  {
    s2 := new Stack<int>();
    s2.Push(100);
    s2.Push(200);
    s.Swap(s2);
    topAfterSwap, otherTopAfterSwap := s.Top().value, s2.Top().value;
  }

  /** main.cpp, third part: push_range of 1..5, then emplace of 99. */
  method BulkPart(s: Stack<int>) returns (topAfterRange: int, topAfterEmplace: int)
    requires s.Valid() && s.elems == [200, 100]
    modifies s, s.Repr
    ensures s.Valid() && s.elems == [99, 5, 4, 3, 2, 1, 200, 100]
    ensures topAfterRange == 5 && topAfterEmplace == 99
  {
    s.PushRange([1, 2, 3, 4, 5]);
    ReverseOneToFive();
    topAfterRange := s.Top().value;
    s.Emplace(99, (v: int) => v);
    topAfterEmplace := s.Top().value;
  }

  /** The demonstration program: every value it prints, in order. */
  method Scenario() returns (tops: seq<int>, sizes: seq<nat>, emptiness: seq<bool>,
                             walk: seq<int>, lastPop: Outcome)
    ensures tops == [30, 20, 200, 20, 5, 99]
    ensures sizes == [2, 0]
    ensures emptiness == [false, true]
    ensures walk == [99, 5, 4, 3, 2, 1, 200, 100]
    ensures lastPop == Fail(EmptyContainer)
  {
    var s, topAfterPushes, topAfterPop, sizeAfterPop, emptyAfterPop := PushPopPart();
    var s2, topAfterSwap, otherTopAfterSwap := SwapPart(s);
    var topAfterRange, topAfterEmplace := BulkPart(s);

    walk := Collect(s);

    s.Clear();
    var sizeAfterClear := s.Size();
    var emptyAfterClear := s.Empty();

    lastPop := s.Pop();

    tops := [topAfterPushes, topAfterPop, topAfterSwap, otherTopAfterSwap,
             topAfterRange, topAfterEmplace];
    sizes := [sizeAfterPop, sizeAfterClear];
    emptiness := [emptyAfterPop, emptyAfterClear];
  }
}
