/** Value-level vocabulary of the stack: the one error the container signals,
    the outcome types that carry it, and the abstract meaning of bulk insertion.
    A stack's contents are written top first: the head element is at index 0. */
module StackSpec {

  /** The single recoverable failure: an operation that needs an element was
      applied to an empty container (raised by pop and top). */
  datatype Error = EmptyContainer

  /** Outcome of an operation that returns nothing on success (pop). */
  datatype Outcome = Pass | Fail(error: Error)

  /** Outcome of an operation that yields a value on success (top). */
  datatype Result<T> = Success(value: T) | Failure(error: Error)

  /** The elements of `xs` in the opposite order. */
  function Reverse<T>(xs: seq<T>): (r: seq<T>)
    ensures |r| == |xs|
  {
    if xs == [] then [] else Reverse(xs[1..]) + [xs[0]]
  }

  /** Contents after pushing the elements of `xs` one at a time, first element
      first, onto a stack whose contents are `s`. */
  function PushAll<T>(s: seq<T>, xs: seq<T>): (r: seq<T>)
    ensures |r| == |s| + |xs|
    decreases |xs|
  {
    if xs == [] then s else PushAll([xs[0]] + s, xs[1..])
  }

  /** Contents after `n` successful pops from a stack whose contents are `s`;
      popping an empty stack fails and leaves it empty. */
  function PopN<T>(s: seq<T>, n: nat): (r: seq<T>)
    ensures n <= |s| ==> |r| == |s| - n
    ensures n >= |s| ==> r == []
  {
    if n == 0 || s == [] then s else PopN(s[1..], n - 1)
  }

  /** Reversal moves the last element of the input to the front. */
  lemma {:induction false} ReversePrepends<T>(xs: seq<T>, x: T)
    ensures Reverse(xs + [x]) == [x] + Reverse(xs)
  {
    if xs == [] {
      assert [x][1..] == [];
    } else {
      assert (xs + [x])[1..] == xs[1..] + [x];
      ReversePrepends(xs[1..], x);
    }
  }

  /** Reversing one more element of a prefix puts that element in front. */
  lemma ReversePrefixStep<T>(xs: seq<T>, i: nat)
    requires i < |xs|
    ensures Reverse(xs[..i + 1]) == [xs[i]] + Reverse(xs[..i])
  {
    assert xs[..i + 1] == xs[..i] + [xs[i]];
    ReversePrepends(xs[..i], xs[i]);
  }

  /** One more push keeps a bulk push in progress in step: the contents are
      the reversed prefix pushed so far above the original contents. */
  lemma PushRangeStep<T>(xs: seq<T>, i: nat, s: seq<T>, before: seq<T>, after: seq<T>)
    requires i < |xs|
    requires before == Reverse(xs[..i]) + s && after == [xs[i]] + before
    ensures after == Reverse(xs[..i + 1]) + s
  {
    ReversePrefixStep(xs, i);
  }

  /** Element k of the reversal is element |xs|-1-k of the input. */
  lemma {:induction false} ReverseAt<T>(xs: seq<T>, k: nat)
    requires k < |xs|
    ensures Reverse(xs)[k] == xs[|xs| - 1 - k]
  {
    if k < |xs| - 1 {
      ReverseAt(xs[1..], k);
    }
  }

  /** Pushing the elements one at a time leaves them reversed on top of the old
      contents: the last element pushed is the new top. */
  lemma {:induction false} PushAllIsReverse<T>(s: seq<T>, xs: seq<T>)
    ensures PushAll(s, xs) == Reverse(xs) + s
    decreases |xs|
  {
    if xs != [] {
      PushAllIsReverse([xs[0]] + s, xs[1..]);
      assert Reverse(xs[1..]) + ([xs[0]] + s) == (Reverse(xs[1..]) + [xs[0]]) + s;
    }
  }

  /** A bulk push of a non-empty list puts its last element on top and grows
      the stack by exactly the list's length, keeping the old contents below. */
  lemma PushAllTop<T>(s: seq<T>, xs: seq<T>)
    requires xs != []
    ensures |PushAll(s, xs)| == |s| + |xs|
    ensures PushAll(s, xs)[0] == xs[|xs| - 1]
    ensures PushAll(s, xs)[|xs|..] == s
  {
    PushAllIsReverse(s, xs);
    ReverseAt(xs, 0);
  }

  /** Popping `n` times removes exactly the first `n` elements while there are
      that many. */
  lemma {:induction false} PopNDrops<T>(s: seq<T>, n: nat)
    requires n <= |s|
    ensures PopN(s, n) == s[n..]
  {
    if n > 0 {
      PopNDrops(s[1..], n - 1);
      assert s[1..][n - 1..] == s[n..];
    }
  }

  /** n pushes followed by n pops restore the contents that were there before
      (LIFO); in particular they leave an initially empty stack empty. */
  lemma PushesThenPops<T>(s: seq<T>, xs: seq<T>)
    ensures PopN(PushAll(s, xs), |xs|) == s
  {
    PushAllIsReverse(s, xs);
    PopNDrops(Reverse(xs) + s, |xs|);
    assert (Reverse(xs) + s)[|xs|..] == s;
  }
}
