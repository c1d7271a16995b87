/**
  Generic scans over sequences, as the analyzer uses them: `findIndex`, a
  `for` loop that stops at the first hit, a `forEach` loop that keeps
  the positions satisfying a test, in order, one that keeps the elements
  satisfying a test, in order, and one that appends what each element
  contributes, in order.
*/
module Scans {

  /** `xs.findIndex(p)`: the first index whose element satisfies `p`, or -1. */
  function FindIndex<T>(xs: seq<T>, p: T -> bool): (r: int)
    ensures -1 <= r < |xs|
    decreases |xs|
  {
    if |xs| == 0 then -1
    else if p(xs[0]) then 0
    else
      var r := FindIndex(xs[1..], p);
      if r == -1 then -1 else r + 1
  }

  /** The index found is the first satisfying `p`, and -1 means none does. */
  lemma {:induction false} FindIndexSpec<T>(xs: seq<T>, p: T -> bool)
    ensures var r := FindIndex(xs, p);
            && (r >= 0 ==> p(xs[r]) && forall k :: 0 <= k < r ==> !p(xs[k]))
            && (r == -1 <==> forall k :: 0 <= k < |xs| ==> !p(xs[k]))
    decreases |xs|
  {
    if |xs| > 0 && !p(xs[0]) {
      FindIndexSpec(xs[1..], p);
      assert forall k :: 1 <= k < |xs| ==> xs[k] == xs[1..][k - 1];
    }
  }

  /** The first index in `from..n` satisfying `p`, or -1: a loop that breaks at its first hit. */
  function FirstIndex(n: nat, p: nat -> bool, from: nat): (r: int)
    ensures r == -1 || (from <= r < n && p(r))
    ensures r >= 0 ==> forall j :: from <= j < r ==> !p(j)
    ensures r == -1 <==> forall j :: from <= j < n ==> !p(j)
    decreases n - from
  {
    if from >= n then -1
    else if p(from) then from
    else FirstIndex(n, p, from + 1)
  }

  /** The indices `i` in `from..|xs|` with `p(xs[i])`, in increasing order. */
  function IndicesWhere<T>(xs: seq<T>, p: T -> bool, from: nat): (r: seq<nat>)
    ensures forall k :: 0 <= k < |r| ==> from <= r[k] < |xs| && p(xs[r[k]])
    ensures forall i :: from <= i < |xs| && p(xs[i]) ==> i in r
    ensures forall k, k' :: 0 <= k < k' < |r| ==> r[k] < r[k']
    decreases |xs| - from
  {
    if from >= |xs| then []
    else
      var rest := IndicesWhere(xs, p, from + 1);
      if p(xs[from]) then [from] + rest else rest
  }

  /** The elements of `xs` satisfying `p`, in their order in `xs`. */
  function Filter<T>(xs: seq<T>, p: T -> bool): (r: seq<T>)
    ensures |r| <= |xs|
    ensures forall k :: 0 <= k < |r| ==> r[k] in xs && p(r[k])
    ensures forall x :: x in xs && p(x) ==> x in r
    decreases |xs|
  {
    if xs == [] then []
    else
      var rest := Filter(xs[1..], p);
      assert forall x :: x in xs && x != xs[0] ==> x in xs[1..];
      (if p(xs[0]) then [xs[0]] else []) + rest
  }

  /** Filtering keeps the order: it distributes over concatenation. */
  lemma {:induction false} FilterAppend<T>(a: seq<T>, b: seq<T>, p: T -> bool)
    ensures Filter(a + b, p) == Filter(a, p) + Filter(b, p)
    decreases |a|
  {
    if a == [] {
      assert a + b == b;
    } else {
      assert (a + b)[1..] == a[1..] + b;
      FilterAppend(a[1..], b, p);
    }
  }

  /** The lists `f` gives for the elements of `xs`, concatenated in order. */
  function FlatMap<T, U>(xs: seq<T>, f: T -> seq<U>): seq<U>
    decreases |xs|
  {
    if xs == [] then [] else f(xs[0]) + FlatMap(xs[1..], f)
  }

  /** Flat-mapping keeps the order: it distributes over concatenation. */
  lemma {:induction false} FlatMapAppend<T, U>(a: seq<T>, b: seq<T>, f: T -> seq<U>)
    ensures FlatMap(a + b, f) == FlatMap(a, f) + FlatMap(b, f)
    decreases |a|
  {
    if a == [] {
      assert a + b == b;
    } else {
      assert (a + b)[1..] == a[1..] + b;
      FlatMapAppend(a[1..], b, f);
    }
  }

  /** An element is in the result exactly when some element of `xs` contributes it. */
  lemma {:induction false} FlatMapMembership<T, U>(xs: seq<T>, f: T -> seq<U>, y: U)
    ensures y in FlatMap(xs, f) <==> exists k :: 0 <= k < |xs| && y in f(xs[k])
    decreases |xs|
  {
    if xs != [] {
      FlatMapMembership(xs[1..], f, y);
      assert forall k :: 1 <= k < |xs| ==> xs[k] == xs[1..][k - 1];
      if exists k :: 0 <= k < |xs| && y in f(xs[k]) {
        var k :| 0 <= k < |xs| && y in f(xs[k]);
        if k > 0 {
          assert y in f(xs[1..][k - 1]);
        }
      }
    }
  }
}
