/** Occurrence counting over sequences: the arithmetic every aggregator of the
    dashboard is built from. */
module Counting {

  /** The set of elements of a sequence. */
  function Elems<T>(xs: seq<T>): set<T> {
    set x | x in xs
  }

  /** No element occurs twice. */
  predicate Distinct<T(==)>(xs: seq<T>) {
    forall i, j :: 0 <= i < j < |xs| ==> xs[i] != xs[j]
  }

  /** Number of occurrences of `x` in `xs`. */
  function Count<T(==)>(xs: seq<T>, x: T): (n: nat)
    ensures n <= |xs|
    ensures n > 0 <==> x in xs
  {
    if xs == [] then 0
    else (if xs[0] == x then 1 else 0) + Count(xs[1..], x)
  }

  lemma {:induction false} CountAppend<T>(a: seq<T>, b: seq<T>, x: T)
    ensures Count(a + b, x) == Count(a, x) + Count(b, x)
  {
    if a == [] {
      assert a + b == b;
    } else {
      assert (a + b)[1..] == a[1..] + b;
      CountAppend(a[1..], b, x);
    }
  }

  /** Number of elements of `xs` that lie in `s`. */
  function CountIn<T(==)>(xs: seq<T>, s: set<T>): (n: nat)
    ensures n <= |xs|
  {
    if xs == [] then 0
    else (if xs[0] in s then 1 else 0) + CountIn(xs[1..], s)
  }

  /** Counting over two disjoint sets adds up. */
  lemma {:induction false} CountInDisjointUnion<T>(xs: seq<T>, a: set<T>, b: set<T>)
    requires a !! b
    ensures CountIn(xs, a + b) == CountIn(xs, a) + CountIn(xs, b)
  {
    if xs != [] {
      CountInDisjointUnion(xs[1..], a, b);
    }
  }

  lemma {:induction false} CountInSingleton<T>(xs: seq<T>, x: T)
    ensures CountIn(xs, {x}) == Count(xs, x)
  {
    if xs != [] {
      CountInSingleton(xs[1..], x);
    }
  }

  lemma {:induction false} CountInEmpty<T>(xs: seq<T>)
    ensures CountIn(xs, {}) == 0
  {
    if xs != [] {
      CountInEmpty(xs[1..]);
    }
  }

  /** When every element lies in `s`, all of them are counted. */
  lemma {:induction false} CountInCovering<T>(xs: seq<T>, s: set<T>)
    requires forall x :: x in xs ==> x in s
    ensures CountIn(xs, s) == |xs|
  {
    if xs != [] {
      assert xs[0] in xs;
      forall x | x in xs[1..] ensures x in s {
        assert x in xs;
      }
      CountInCovering(xs[1..], s);
    }
  }

  /** Sum of a sequence of integers. */
  function Sum(ns: seq<int>): int {
    if ns == [] then 0 else ns[0] + Sum(ns[1..])
  }

  /** The occurrence count of each key, in the order of `keys`. */
  function Counts<T(==)>(keys: seq<T>, xs: seq<T>): (r: seq<nat>)
    ensures |r| == |keys|
    ensures forall i :: 0 <= i < |keys| ==> r[i] == Count(xs, keys[i])
  {
    if keys == [] then []
    else [Count(xs, keys[0])] + Counts(keys[1..], xs)
  }

  /** Summing the counts of distinct keys counts every element whose value
      is one of the keys exactly once. */
  lemma {:induction false} SumCountsOfDistinct<T>(keys: seq<T>, xs: seq<T>)
    requires Distinct(keys)
    ensures Sum(Counts(keys, xs)) == CountIn(xs, Elems(keys))
  {
    if keys == [] {
      assert Elems(keys) == {};
      CountInEmpty(xs);
    } else {
      var rest := keys[1..];
      assert Distinct(rest) by {
        forall i, j | 0 <= i < j < |rest| ensures rest[i] != rest[j] {
          assert rest[i] == keys[i + 1] && rest[j] == keys[j + 1];
        }
      }
      SumCountsOfDistinct(rest, xs);
      assert keys[0] !in Elems(rest);
      assert Elems(keys) == {keys[0]} + Elems(rest) by {
        assert keys == [keys[0]] + rest;
      }
      CountInDisjointUnion(xs, {keys[0]}, Elems(rest));
      CountInSingleton(xs, keys[0]);
      assert Counts(keys, xs) == [Count(xs, keys[0])] + Counts(rest, xs);
    }
  }

  /** The number of elements of `xs` that satisfy `p`. */
  function CountWhere<T>(xs: seq<T>, p: T -> bool): (n: nat)
    ensures n <= |xs|
  {
    if xs == [] then 0
    else (if p(xs[0]) then 1 else 0) + CountWhere(xs[1..], p)
  }
}
