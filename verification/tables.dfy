/** Value-count tables: the model of pandas' `value_counts` (and of
    `value_counts().sort_index()` and `value_counts().head(n)`). */
module Tables {
  import opened Counting
  import opened Sorting

  /** (value, number of occurrences) pairs. */
  type Table<K> = seq<(K, nat)>

  function KeySet<K(==)>(t: Table<K>): set<K> {
    set p | p in t :: p.0
  }

  function KeysOf<K>(t: Table<K>): (ks: seq<K>)
    ensures |ks| == |t|
    ensures forall i :: 0 <= i < |t| ==> ks[i] == t[i].0
  {
    if t == [] then [] else [t[0].0] + KeysOf(t[1..])
  }

  predicate DistinctKeys<K(==)>(t: Table<K>) {
    forall i, j :: 0 <= i < j < |t| ==> t[i].0 != t[j].0
  }

  predicate CountsMatch<K(==)>(t: Table<K>, xs: seq<K>) {
    forall i :: 0 <= i < |t| ==> t[i].1 == Count(xs, t[i].0)
  }

  /** `t` lists every value of `xs` exactly once, with its number of
      occurrences: what `value_counts` returns, up to order. */
  predicate IsCountTable<K(==)>(t: Table<K>, xs: seq<K>) {
    && CountsMatch(t, xs)
    && DistinctKeys(t)
    && KeySet(t) == Elems(xs)
  }

  /** Sum of the counts of a table. */
  function Total<K>(t: Table<K>): nat {
    if t == [] then 0 else t[0].1 + Total(t[1..])
  }

  lemma KeySetCons<K>(p: (K, nat), t: Table<K>)
    ensures KeySet([p] + t) == {p.0} + KeySet(t)
  {
    assert forall q :: q in [p] + t <==> q == p || q in t;
  }

  lemma DistinctKeysCons<K>(p: (K, nat), t: Table<K>)
    requires p.0 !in KeySet(t) && DistinctKeys(t)
    ensures DistinctKeys([p] + t)
  {
    var r := [p] + t;
    forall i, j | 0 <= i < j < |r| ensures r[i].0 != r[j].0 {
      assert r[j] == t[j - 1];
      if i > 0 {
        assert r[i] == t[i - 1];
      } else {
        assert t[j - 1] in t;
      }
    }
  }

  lemma DistinctKeysTail<K>(t: Table<K>)
    requires DistinctKeys(t) && t != []
    ensures DistinctKeys(t[1..]) && t[0].0 !in KeySet(t[1..])
  {
    forall i, j | 0 <= i < j < |t[1..]| ensures t[1..][i].0 != t[1..][j].0 {
      assert t[1..][i] == t[i + 1] && t[1..][j] == t[j + 1];
    }
  }

  /** With distinct keys there are as many rows as keys. */
  lemma {:induction false} DistinctKeysCardinality<K>(t: Table<K>)
    requires DistinctKeys(t)
    ensures |KeySet(t)| == |t|
  {
    if t != [] {
      DistinctKeysTail(t);
      DistinctKeysCardinality(t[1..]);
      assert t == [t[0]] + t[1..];
      KeySetCons(t[0], t[1..]);
    }
  }

  lemma {:induction false} TotalIsSumOfCounts<K>(t: Table<K>, xs: seq<K>)
    requires CountsMatch(t, xs)
    ensures Total(t) == Sum(Counts(KeysOf(t), xs))
  {
    if t != [] {
      TotalIsSumOfCounts(t[1..], xs);
      assert KeysOf(t)[1..] == KeysOf(t[1..]);
    }
  }

  /** The counts of a count table add up to the number of values counted. */
  lemma CountTableTotal<K>(t: Table<K>, xs: seq<K>)
    requires IsCountTable(t, xs)
    ensures Total(t) == |xs|
  {
    TotalIsSumOfCounts(t, xs);
    var ks := KeysOf(t);
    SumCountsOfDistinct(ks, xs);
    assert Elems(ks) == KeySet(t) by {
      forall k | k in Elems(ks) ensures k in KeySet(t) {
        var i :| 0 <= i < |ks| && ks[i] == k;
        assert t[i] in t;
      }
      forall k | k in KeySet(t) ensures k in Elems(ks) {
        var p :| p in t && p.0 == k;
        var i :| 0 <= i < |t| && t[i] == p;
        assert ks[i] == k;
      }
    }
    CountInCovering(xs, Elems(xs));
  }

  lemma {:induction false} LengthAtMostTotal<K>(t: Table<K>)
    requires forall i :: 0 <= i < |t| ==> t[i].1 > 0
    ensures |t| <= Total(t)
  {
    if t != [] {
      assert forall i :: 0 <= i < |t[1..]| ==> t[1..][i] == t[i + 1];
      LengthAtMostTotal(t[1..]);
    }
  }

  /** A count table has no more rows than there are values counted. */
  lemma CountTableSize<K>(t: Table<K>, xs: seq<K>)
    requires IsCountTable(t, xs)
    ensures |t| <= |xs|
  {
    forall i | 0 <= i < |t| ensures t[i].1 > 0 {
      assert t[i] in t;
      assert t[i].0 in Elems(xs);
    }
    LengthAtMostTotal(t);
    CountTableTotal(t, xs);
  }

  /** Adds one occurrence of `x`: increments its row, or appends `(x, 1)`. */
  function Bump<K(==)>(t: Table<K>, x: K): Table<K> {
    if t == [] then [(x, 1)]
    else if t[0].0 == x then [(x, t[0].1 + 1)] + t[1..]
    else [t[0]] + Bump(t[1..], x)
  }

  lemma {:induction false} BumpKeys<K>(t: Table<K>, x: K)
    ensures KeySet(Bump(t, x)) == KeySet(t) + {x}
    ensures DistinctKeys(t) ==> DistinctKeys(Bump(t, x))
  {
    if t == [] {
      assert KeySet([(x, 1)]) == {x};
    } else if t[0].0 == x {
      KeySetCons((x, t[0].1 + 1), t[1..]);
      KeySetCons(t[0], t[1..]);
      assert t == [t[0]] + t[1..];
      if DistinctKeys(t) {
        DistinctKeysTail(t);
        DistinctKeysCons((x, t[0].1 + 1), t[1..]);
      }
    } else {
      BumpKeys(t[1..], x);
      KeySetCons(t[0], Bump(t[1..], x));
      KeySetCons(t[0], t[1..]);
      assert t == [t[0]] + t[1..];
      if DistinctKeys(t) {
        DistinctKeysTail(t);
        DistinctKeysCons(t[0], Bump(t[1..], x));
      }
    }
  }

  lemma {:induction false} BumpCounts<K>(t: Table<K>, xs: seq<K>, x: K)
    requires CountsMatch(t, xs) && DistinctKeys(t)
    requires x !in KeySet(t) ==> x !in xs
    ensures CountsMatch(Bump(t, x), xs + [x])
  {
    forall k ensures Count(xs + [x], k) == Count(xs, k) + (if k == x then 1 else 0) {
      CountAppend(xs, [x], k);
    }
    if t == [] {
    } else if t[0].0 == x {
      var r := Bump(t, x);
      DistinctKeysTail(t);
      forall i | 0 <= i < |r| ensures r[i].1 == Count(xs + [x], r[i].0) {
        if i > 0 {
          assert r[i] == t[i];
          assert t[i] in t[1..];
        }
      }
    } else {
      DistinctKeysTail(t);
      KeySetCons(t[0], t[1..]);
      assert t == [t[0]] + t[1..];
      BumpCounts(t[1..], xs, x);
    }
  }

  /** Value counts in order of first occurrence. */
  function Tally<K(==)>(xs: seq<K>): (t: Table<K>)
    ensures IsCountTable(t, xs)
  {
    if xs == [] then []
    else
      var init := xs[..|xs| - 1];
      var x := xs[|xs| - 1];
      var t0 := Tally(init);
      assert xs == init + [x];
      BumpCounts(t0, init, x);
      BumpKeys(t0, x);
      assert Elems(xs) == Elems(init) + {x};
      Bump(t0, x)
  }

  lemma DistinctKeysDistinct<K>(t: Table<K>)
    requires DistinctKeys(t)
    ensures Distinct(t)
  {
  }

  /** Reordering a count table without duplicating a row keeps it one. */
  lemma PermutedCountTable<K>(t: Table<K>, u: Table<K>, xs: seq<K>)
    requires IsCountTable(t, xs)
    requires multiset(u) == multiset(t) && Distinct(u)
    ensures IsCountTable(u, xs)
  {
    assert forall p :: p in u <==> p in t by {
      forall p ensures p in u <==> p in t {
        assert p in u <==> p in multiset(u);
        assert p in t <==> p in multiset(t);
      }
    }
    forall i | 0 <= i < |u| ensures u[i].1 == Count(xs, u[i].0) {
      assert u[i] in u;
      var j :| 0 <= j < |t| && t[j] == u[i];
    }
    assert KeySet(u) == KeySet(t);
  }

  function ByCount<K>(p: (K, nat)): Rank {
    Rank(p.1, 0)
  }

  function ByKeyAscending(p: (int, nat)): Rank {
    Rank(-p.0, 0)
  }

  /** `value_counts()`: every value with its count, most frequent first. */
  function ValueCounts<K(==)>(xs: seq<K>): (t: Table<K>)
    ensures IsCountTable(t, xs)
    ensures forall i, j :: 0 <= i < j < |t| ==> t[i].1 >= t[j].1
  {
    var tally := Tally(xs);
    DistinctKeysDistinct(tally);
    SortDistinct(tally, ByCount);
    PermutedCountTable(tally, Sort(tally, ByCount), xs);
    Sort(tally, ByCount)
  }

  /** `value_counts().sort_index()` over integer values: every value with its
      count, in strictly ascending order of value. */
  function CountsByKey(xs: seq<int>): (t: Table<int>)
    ensures IsCountTable(t, xs)
    ensures forall i, j :: 0 <= i < j < |t| ==> t[i].0 < t[j].0
  {
    var tally := Tally(xs);
    DistinctKeysDistinct(tally);
    SortDistinct(tally, ByKeyAscending);
    PermutedCountTable(tally, Sort(tally, ByKeyAscending), xs);
    Sort(tally, ByKeyAscending)
  }

  lemma PrefixOfCountTable<K>(all: Table<K>, xs: seq<K>, k: nat, t: Table<K>)
    requires IsCountTable(all, xs) && k <= |all|
    requires forall i, j :: 0 <= i < j < |all| ==> all[i].1 >= all[j].1
    requires t == all[..k]
    ensures |t| == k
    ensures CountsMatch(t, xs) && DistinctKeys(t)
    ensures KeySet(t) <= Elems(xs)
    ensures k == |all| ==> KeySet(t) == Elems(xs)
    ensures forall i, j :: 0 <= i < j < |t| ==> t[i].1 >= t[j].1
    ensures 0 < |t| ==> forall x :: x in xs && x !in KeySet(t) ==> Count(xs, x) <= t[|t| - 1].1
  {
    assert forall i :: 0 <= i < k ==> t[i] == all[i];
    assert KeySet(t) <= KeySet(all);
    if k == |all| {
      assert t == all;
    }
    forall x | 0 < k && x in xs && x !in KeySet(t) ensures Count(xs, x) <= t[k - 1].1 {
      assert x in KeySet(all);
      var p :| p in all && p.0 == x;
      var j :| 0 <= j < |all| && all[j] == p;
    }
  }

  /** `value_counts().head(n)`: the `n` most frequent values with their
      counts. Fewer than `n` rows come back only when every value is listed,
      and no value left out occurs more often than the last one listed. */
  function TopCounts<K(==)>(xs: seq<K>, n: nat): (t: Table<K>)
    ensures |t| <= n && |t| <= |xs|
    ensures CountsMatch(t, xs) && DistinctKeys(t)
    ensures KeySet(t) <= Elems(xs)
    ensures |t| < n ==> KeySet(t) == Elems(xs)
    ensures forall i, j :: 0 <= i < j < |t| ==> t[i].1 >= t[j].1
    ensures 0 < |t| ==> forall x :: x in xs && x !in KeySet(t) ==> Count(xs, x) <= t[|t| - 1].1
  {
    var all := ValueCounts(xs);
    CountTableSize(all, xs);
    var t := all[..if n < |all| then n else |all|];
    PrefixOfCountTable(all, xs, |t|, t);
    t
  }
}
