/** Descending selection by a rank: the model of pandas' `nlargest` and of the
    descending order `value_counts` returns. */
module Sorting {
  import opened Counting

  /** A sort key of one or two integer columns, compared lexicographically:
      `major` first, `minor` only among equal `major`s. */
  datatype Rank = Rank(major: int, minor: int)

  predicate AtLeast(a: Rank, b: Rank) {
    a.major > b.major || (a.major == b.major && a.minor >= b.minor)
  }

  predicate SortedDesc<X>(xs: seq<X>, rank: X -> Rank) {
    forall i, j :: 0 <= i < j < |xs| ==> AtLeast(rank(xs[i]), rank(xs[j]))
  }

  /** Places `x` before the first element it ranks at least as high as, so
      that among equal ranks the earlier-inserted element comes first. */
  function Insert<X(==)>(x: X, xs: seq<X>, rank: X -> Rank): (r: seq<X>)
    ensures |r| == |xs| + 1
    ensures multiset(r) == multiset{x} + multiset(xs)
  {
    if xs == [] then [x]
    else if AtLeast(rank(x), rank(xs[0])) then [x] + xs
    else
      assert xs == [xs[0]] + xs[1..];
      [xs[0]] + Insert(x, xs[1..], rank)
  }

  lemma {:induction false} InsertSorted<X>(x: X, xs: seq<X>, rank: X -> Rank)
    requires SortedDesc(xs, rank)
    ensures SortedDesc(Insert(x, xs, rank), rank)
  {
    if xs != [] && !AtLeast(rank(x), rank(xs[0])) {
      var tail := Insert(x, xs[1..], rank);
      InsertSorted(x, xs[1..], rank);
      var r := [xs[0]] + tail;
      forall j | 0 <= j < |tail| ensures AtLeast(rank(xs[0]), rank(tail[j])) {
        assert tail[j] in multiset(tail);
        if tail[j] != x {
          assert tail[j] in xs[1..];
        }
      }
      forall i, j | 0 <= i < j < |r| ensures AtLeast(rank(r[i]), rank(r[j])) {
        if i == 0 {
          assert r[j] == tail[j - 1];
        } else {
          assert r[i] == tail[i - 1] && r[j] == tail[j - 1];
        }
      }
    }
  }

  /** Insertion sort, descending by `rank`; stable. */
  function Sort<X(==)>(xs: seq<X>, rank: X -> Rank): (r: seq<X>)
    ensures |r| == |xs|
    ensures multiset(r) == multiset(xs)
    ensures SortedDesc(r, rank)
  {
    if xs == [] then []
    else
      assert xs == [xs[0]] + xs[1..];
      InsertSorted(xs[0], Sort(xs[1..], rank), rank);
      Insert(xs[0], Sort(xs[1..], rank), rank)
  }

  lemma {:induction false} InsertDistinct<X>(x: X, xs: seq<X>, rank: X -> Rank)
    requires Distinct(xs) && x !in xs
    ensures Distinct(Insert(x, xs, rank))
  {
    if xs != [] && !AtLeast(rank(x), rank(xs[0])) {
      var tail := Insert(x, xs[1..], rank);
      assert Distinct(xs[1..]) by {
        forall i, j | 0 <= i < j < |xs[1..]| ensures xs[1..][i] != xs[1..][j] {
          assert xs[1..][i] == xs[i + 1] && xs[1..][j] == xs[j + 1];
        }
      }
      InsertDistinct(x, xs[1..], rank);
      assert xs[0] !in tail by {
        assert xs[0] !in multiset{x} + multiset(xs[1..]);
      }
      var r := [xs[0]] + tail;
      forall i, j | 0 <= i < j < |r| ensures r[i] != r[j] {
        if i == 0 {
          assert r[j] == tail[j - 1];
        } else {
          assert r[i] == tail[i - 1] && r[j] == tail[j - 1];
        }
      }
    }
  }

  lemma {:induction false} SortDistinct<X>(xs: seq<X>, rank: X -> Rank)
    requires Distinct(xs)
    ensures Distinct(Sort(xs, rank))
  {
    if xs != [] {
      var rest := xs[1..];
      assert Distinct(rest) by {
        forall i, j | 0 <= i < j < |rest| ensures rest[i] != rest[j] {
          assert rest[i] == xs[i + 1] && rest[j] == xs[j + 1];
        }
      }
      SortDistinct(rest, rank);
      assert xs[0] !in multiset(Sort(rest, rank));
      InsertDistinct(xs[0], Sort(rest, rank), rank);
    }
  }

  /** Everything cut off after the first `k` elements of a sorted sequence
      ranks no higher than the last element kept. */
  lemma CutOffRanksLower<X>(sorted: seq<X>, k: nat, rank: X -> Rank)
    requires SortedDesc(sorted, rank) && 0 < k <= |sorted|
    ensures forall y :: y in multiset(sorted) - multiset(sorted[..k]) ==> AtLeast(rank(sorted[k - 1]), rank(y))
  {
    assert sorted == sorted[..k] + sorted[k..];
    forall y | y in multiset(sorted) - multiset(sorted[..k])
      ensures AtLeast(rank(sorted[k - 1]), rank(y))
    {
      assert y in multiset(sorted[k..]);
      var j :| k <= j < |sorted| && sorted[j] == y;
    }
  }

  lemma PrefixOfSorted<X>(sorted: seq<X>, k: nat, rank: X -> Rank)
    requires SortedDesc(sorted, rank) && k <= |sorted|
    ensures multiset(sorted[..k]) <= multiset(sorted)
    ensures SortedDesc(sorted[..k], rank)
  {
    assert sorted == sorted[..k] + sorted[k..];
  }

  /** The elements of `xs` whose rank is `q`, in their order in `xs`. */
  function WithRank<X>(xs: seq<X>, rank: X -> Rank, q: Rank): seq<X> {
    if xs == [] then []
    else (if rank(xs[0]) == q then [xs[0]] else []) + WithRank(xs[1..], rank, q)
  }

  lemma {:induction false} WithRankAppend<X>(a: seq<X>, b: seq<X>, rank: X -> Rank, q: Rank)
    ensures WithRank(a + b, rank, q) == WithRank(a, rank, q) + WithRank(b, rank, q)
  {
    if a != [] {
      WithRankAppend(a[1..], b, rank, q);
      assert (a + b)[0] == a[0] && (a + b)[1..] == a[1..] + b;
    } else {
      assert a + b == b;
    }
  }

  /** `Insert` puts `x` after every element of its own rank, so each rank
      class of the result is that of `xs` with `x` in front, if `x` is in it. */
  lemma {:induction false} InsertWithRank<X>(x: X, xs: seq<X>, rank: X -> Rank, q: Rank)
    ensures WithRank(Insert(x, xs, rank), rank, q) == (if rank(x) == q then [x] else []) + WithRank(xs, rank, q)
  {
    if xs == [] {
    } else if AtLeast(rank(x), rank(xs[0])) {
      WithRankAppend([x], xs, rank, q);
    } else {
      var rest := xs[1..];
      assert xs == [xs[0]] + rest;
      assert rank(x) != rank(xs[0]);
      InsertWithRank(x, rest, rank, q);
      WithRankAppend([xs[0]], Insert(x, rest, rank), rank, q);
      WithRankAppend([xs[0]], rest, rank, q);
    }
  }

  /** The sort is stable: equally ranked elements keep their input order. */
  lemma {:induction false} SortIsStable<X>(xs: seq<X>, rank: X -> Rank, q: Rank)
    ensures WithRank(Sort(xs, rank), rank, q) == WithRank(xs, rank, q)
  {
    if xs != [] {
      SortIsStable(xs[1..], rank, q);
      InsertWithRank(xs[0], Sort(xs[1..], rank), rank, q);
    }
  }

  /** A prefix of the sorted sequence keeps, of each rank, the earliest
      elements of that rank in the input. */
  lemma SortedPrefixWithRank<X>(xs: seq<X>, k: nat, rank: X -> Rank, q: Rank)
    requires k <= |xs|
    ensures WithRank(Sort(xs, rank)[..k], rank, q) <= WithRank(xs, rank, q)
  {
    var sorted := Sort(xs, rank);
    assert sorted == sorted[..k] + sorted[k..];
    WithRankAppend(sorted[..k], sorted[k..], rank, q);
    SortIsStable(xs, rank, q);
  }

  /** `nlargest` with `keep='first'`: of each rank, the elements kept are the
      earliest ones of that rank in the input, in input order. */
  lemma LargestKeepsFirst<X>(xs: seq<X>, n: nat, rank: X -> Rank)
    ensures forall q :: WithRank(Largest(xs, n, rank), rank, q) <= WithRank(xs, rank, q)
  {
    var k := if n < |xs| then n else |xs|;
    assert Largest(xs, n, rank) == Sort(xs, rank)[..k];
    forall q ensures WithRank(Sort(xs, rank)[..k], rank, q) <= WithRank(xs, rank, q) {
      SortedPrefixWithRank(xs, k, rank, q);
    }
  }

  /** `x` ranks at least as high as every element of `rest`. */
  predicate OutranksAll<X>(x: X, rest: multiset<X>, rank: X -> Rank) {
    forall y :: y in rest ==> AtLeast(rank(x), rank(y))
  }

  /** A prefix of a sorted permutation of `xs` is a choice of highest-ranked
      elements of `xs`. */
  lemma PrefixIsLargest<X>(xs: seq<X>, sorted: seq<X>, k: nat, rank: X -> Rank, r: seq<X>)
    requires SortedDesc(sorted, rank) && multiset(sorted) == multiset(xs) && k <= |sorted|
    requires r == sorted[..k]
    ensures |r| == k
    ensures multiset(r) <= multiset(xs)
    ensures SortedDesc(r, rank)
    ensures 0 < |r| ==> OutranksAll(r[|r| - 1], multiset(xs) - multiset(r), rank)
  {
    PrefixOfSorted(sorted, k, rank);
    if 0 < k {
      CutOffRanksLower(sorted, k, rank);
    }
  }

  /** The `n` highest-ranked elements, highest first: pandas' `nlargest`. */
  function Largest<X(==)>(xs: seq<X>, n: nat, rank: X -> Rank): (r: seq<X>)
    ensures |r| == if n < |xs| then n else |xs|
    ensures multiset(r) <= multiset(xs)
    ensures SortedDesc(r, rank)
    ensures 0 < |r| ==> OutranksAll(r[|r| - 1], multiset(xs) - multiset(r), rank)
  {
    var sorted := Sort(xs, rank);
    var r := sorted[..if n < |xs| then n else |xs|];
    PrefixIsLargest(xs, sorted, |r|, rank, r);
    r
  }
}
