/** Order-preserving selection from a sequence, the shape of a Python loop
    that appends each element passing a test to an initially empty list. */
module Seqs {

  /** The elements of `xs` that pass `keep`, in their original order. */
  function Filter<T(!new)>(keep: T -> bool, xs: seq<T>): (r: seq<T>)
    ensures |r| <= |xs|
  {
    if xs == [] then []
    else
      var rest := Filter(keep, xs[1..]);
      if keep(xs[0]) then [xs[0]] + rest else rest
  }

  /** `a` is what remains of `b` after deleting some of its elements. */
  ghost predicate Subsequence<T>(a: seq<T>, b: seq<T>)
    decreases |b|
  {
    if b == [] then a == []
    else (a != [] && a[0] == b[0] && Subsequence(a[1..], b[1..])) || Subsequence(a, b[1..])
  }

  /** Appending one element to the input appends it to the output exactly
      when it passes. */
  lemma {:induction false} FilterSnoc<T(!new)>(keep: T -> bool, xs: seq<T>, x: T)
    ensures Filter(keep, xs + [x]) == Filter(keep, xs) + (if keep(x) then [x] else [])
    decreases |xs|
  {
    if xs == [] {
      assert xs + [x] == [x];
    } else {
      assert (xs + [x])[0] == xs[0];
      assert (xs + [x])[1..] == xs[1..] + [x];
      FilterSnoc(keep, xs[1..], x);
    }
  }

  /** Selection distributes over concatenation. */
  lemma {:induction false} FilterConcat<T(!new)>(keep: T -> bool, a: seq<T>, b: seq<T>)
    ensures Filter(keep, a + b) == Filter(keep, a) + Filter(keep, b)
    decreases |a|
  {
    if a == [] {
      assert a + b == b;
    } else {
      assert (a + b)[0] == a[0];
      assert (a + b)[1..] == a[1..] + b;
      FilterConcat(keep, a[1..], b);
    }
  }

  lemma {:induction false} FilterSubsequence<T(!new)>(keep: T -> bool, xs: seq<T>)
    ensures Subsequence(Filter(keep, xs), xs)
    decreases |xs|
  {
    if xs != [] {
      FilterSubsequence(keep, xs[1..]);
    }
  }

  /** Selecting again from a selection changes nothing. */
  lemma {:induction false} FilterIdempotent<T(!new)>(keep: T -> bool, xs: seq<T>)
    ensures Filter(keep, Filter(keep, xs)) == Filter(keep, xs)
    decreases |xs|
  {
    if xs != [] {
      FilterIdempotent(keep, xs[1..]);
      var rest := Filter(keep, xs[1..]);
      if keep(xs[0]) {
        assert ([xs[0]] + rest)[0] == xs[0];
        assert ([xs[0]] + rest)[1..] == rest;
      }
    }
  }

  /** Each element occurs in the output as often as in the input when it
      passes, and not at all otherwise. */
  lemma {:induction false} FilterCount<T(!new)>(keep: T -> bool, xs: seq<T>, x: T)
    ensures multiset(Filter(keep, xs))[x] == if keep(x) then multiset(xs)[x] else 0
    decreases |xs|
  {
    if xs != [] {
      FilterCount(keep, xs[1..], x);
      assert xs == [xs[0]] + xs[1..];
    }
  }

  /** Two tests that agree on every element select the same elements. */
  lemma {:induction false} FilterAgree<T(!new)>(keep: T -> bool, keep': T -> bool, xs: seq<T>)
    requires forall i :: 0 <= i < |xs| ==> keep(xs[i]) == keep'(xs[i])
    ensures Filter(keep, xs) == Filter(keep', xs)
    decreases |xs|
  {
    if xs != [] {
      FilterAgree(keep, keep', xs[1..]);
    }
  }

  /** When no element passes, nothing is selected. */
  lemma {:induction false} FilterNone<T(!new)>(keep: T -> bool, xs: seq<T>)
    requires forall i :: 0 <= i < |xs| ==> !keep(xs[i])
    ensures Filter(keep, xs) == []
    decreases |xs|
  {
    if xs != [] {
      FilterNone(keep, xs[1..]);
    }
  }

  /** An element is selected exactly when it is in the input and passes. */
  lemma {:induction false} FilterMembers<T(!new)>(keep: T -> bool, xs: seq<T>, x: T)
    ensures x in Filter(keep, xs) <==> x in xs && keep(x)
    decreases |xs|
  {
    if xs != [] {
      FilterMembers(keep, xs[1..], x);
      assert xs == [xs[0]] + xs[1..];
    }
  }
}
