/**
 * The `map` helper: walk a vector front to back and hand each element to a handler.
 * The handler sees the element's position and the value, may replace the value, and
 * threads whatever it captured from the caller (`S`) from one call to the next.
 */
module Vectors {

  /** The effect of visiting the first `n` elements: the handler's final state and the new prefix. */
  function VisitPrefix<S, T>(xs: seq<T>, n: nat, start: S, handler: (S, nat, T) -> (S, T)): (r: (S, seq<T>))
    requires n <= |xs|
    decreases n
  {
    if n == 0 then (start, [])
    else
      var (st, done) := VisitPrefix(xs, n - 1, start, handler);
      var (st', y) := handler(st, n - 1, xs[n - 1]);
      (st', done + [y])
  }

  /** Runs `handler` on every element of `arr`, in increasing index order, updating it in place. */
  method Map<S, T>(arr: array<T>, start: S, handler: (S, nat, T) -> (S, T)) returns (final: S)
    modifies arr
    ensures (final, arr[..]) == VisitPrefix(old(arr[..]), arr.Length, start, handler)
  {
    ghost var orig := arr[..];
    final := start;
    var i := 0;
    while i < arr.Length
      invariant 0 <= i <= arr.Length
      invariant (final, arr[..i]) == VisitPrefix(orig, i, start, handler)
      invariant arr[i..] == orig[i..]
    {
      var (st, y) := handler(final, i, arr[i]);
      assert arr[i] == orig[i];
      arr[i] := y;
      final := st;
      assert arr[..i + 1] == arr[..i] + [y];
      i := i + 1;
    }
    assert arr[..] == arr[..arr.Length];
  }

  /** The walk keeps the vector's length. */
  lemma {:induction false} VisitKeepsLength<S, T>(xs: seq<T>, n: nat, start: S, handler: (S, nat, T) -> (S, T))
    requires n <= |xs|
    ensures |VisitPrefix(xs, n, start, handler).1| == n
    decreases n
  {
    if n > 0 {
      VisitKeepsLength(xs, n - 1, start, handler);
    }
  }

  /** The indices 0, 1, ..., n - 1 in increasing order. */
  function Indices(n: nat): (r: seq<nat>)
    ensures |r| == n
    ensures forall i :: 0 <= i < n ==> r[i] == i
  {
    if n == 0 then [] else Indices(n - 1) + [n - 1]
  }

  /** A handler that only records the positions it is shown. */
  function RecordIndex<T>(trace: seq<nat>, i: nat, x: T): (seq<nat>, T)
  {
    (trace + [i], x)
  }

  /**
   * Every index is visited exactly once and in increasing order: a handler that records the
   * positions it is shown ends with exactly 0, 1, ..., n - 1, and leaves the elements as they were.
   */
  lemma {:induction false} VisitsEachIndexInOrder<T>(xs: seq<T>, n: nat)
    requires n <= |xs|
    ensures VisitPrefix(xs, n, [], RecordIndex) == (Indices(n), xs[..n])
    decreases n
  {
    if n > 0 {
      VisitsEachIndexInOrder(xs, n - 1);
      assert xs[..n] == xs[..n - 1] + [xs[n - 1]];
    }
  }

  /** Element `i` of the result is what the handler made of element `i`, given the state the first `i` calls left. */
  lemma {:induction false} VisitAt<S, T>(xs: seq<T>, n: nat, start: S, handler: (S, nat, T) -> (S, T), i: nat)
    requires i < n <= |xs|
    ensures |VisitPrefix(xs, n, start, handler).1| == n
    ensures VisitPrefix(xs, n, start, handler).1[i]
            == handler(VisitPrefix(xs, i, start, handler).0, i, xs[i]).1
    decreases n
  {
    VisitKeepsLength(xs, n, start, handler);
    VisitKeepsLength(xs, n - 1, start, handler);
    if i < n - 1 {
      VisitAt(xs, n - 1, start, handler, i);
    }
  }
}
