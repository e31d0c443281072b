/** The launcher sorts with std::sort, which promises an ordered permutation and nothing about
    the order of equivalent elements. InsertionSort below is one such ordering; what the rest of
    the model relies on is only its contract: sorted by the given total preorder, and a
    permutation of the input. */
module Sorting {

  /** `leq` is total and transitive. */
  ghost predicate TotalPreorder<T(!new)>(leq: (T, T) -> bool) {
    (forall a, b :: leq(a, b) || leq(b, a))
    && (forall a, b, c :: leq(a, b) && leq(b, c) ==> leq(a, c))
  }

  ghost predicate SortedBy<T>(xs: seq<T>, leq: (T, T) -> bool) {
    forall i, j :: 0 <= i < j < |xs| ==> leq(xs[i], xs[j])
  }

  function Insert<T>(x: T, xs: seq<T>, leq: (T, T) -> bool): seq<T> {
    if xs == [] || leq(x, xs[0]) then [x] + xs else [xs[0]] + Insert(x, xs[1..], leq)
  }

  lemma {:induction false} InsertPermutes<T>(x: T, xs: seq<T>, leq: (T, T) -> bool)
    ensures multiset(Insert(x, xs, leq)) == multiset(xs) + multiset{x}
    ensures |Insert(x, xs, leq)| == |xs| + 1
  {
    if xs != [] && !leq(x, xs[0]) {
      InsertPermutes(x, xs[1..], leq);
      assert xs == [xs[0]] + xs[1..];
    }
  }

  lemma {:induction false} InsertBound<T>(y: T, x: T, xs: seq<T>, leq: (T, T) -> bool)
    requires leq(y, x)
    requires forall k :: 0 <= k < |xs| ==> leq(y, xs[k])
    ensures forall k :: 0 <= k < |Insert(x, xs, leq)| ==> leq(y, Insert(x, xs, leq)[k])
  {
    if xs != [] && !leq(x, xs[0]) {
      InsertBound(y, x, xs[1..], leq);
    }
  }

  lemma SortedTail<T>(xs: seq<T>, leq: (T, T) -> bool)
    requires xs != [] && SortedBy(xs, leq)
    ensures SortedBy(xs[1..], leq)
  {
  }

  lemma {:induction false} InsertSorted<T(!new)>(x: T, xs: seq<T>, leq: (T, T) -> bool)
    requires TotalPreorder(leq)
    requires SortedBy(xs, leq)
    ensures SortedBy(Insert(x, xs, leq), leq)
  {
    if xs == [] {
    } else if leq(x, xs[0]) {
      var r := [x] + xs;
      assert Insert(x, xs, leq) == r;
      forall j | 1 < j < |r| ensures leq(x, r[j]) {
        assert leq(xs[0], xs[j - 1]);
      }
    } else {
      var tail := xs[1..];
      SortedTail(xs, leq);
      InsertSorted(x, tail, leq);
      assert leq(xs[0], x);
      InsertBound(xs[0], x, tail, leq);
      var rest := Insert(x, tail, leq);
      var r := [xs[0]] + rest;
      assert Insert(x, xs, leq) == r;
      forall i, j | 0 <= i < j < |r| ensures leq(r[i], r[j]) {
        if i > 0 {
          assert r[i] == rest[i - 1] && r[j] == rest[j - 1];
        } else {
          assert r[j] == rest[j - 1];
        }
      }
    }
  }

  /** A sorted permutation of `xs`. */
  function InsertionSort<T(!new)>(xs: seq<T>, leq: (T, T) -> bool): (r: seq<T>)
    requires TotalPreorder(leq)
    ensures multiset(r) == multiset(xs)
    ensures |r| == |xs|
    ensures SortedBy(r, leq)
  {
    if xs == [] then []
    else
      var rest := InsertionSort(xs[1..], leq);
      InsertPermutes(xs[0], rest, leq);
      InsertSorted(xs[0], rest, leq);
      assert xs == [xs[0]] + xs[1..];
      Insert(xs[0], rest, leq)
  }
}
