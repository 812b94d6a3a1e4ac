/** The summary artifacts the dashboard draws from the filtered set: the
    metric row, the month and hour histograms, the text-length distribution,
    the top-10 hashtags and mentions, the sentiment buckets, the top-10 rows
    by likes and by engagement, and the source distribution. */
module Aggregates {
  import opened Wrappers
  import opened Counting
  import opened Sorting
  import opened Tables
  import opened Records
  import opened Filtering
  import opened Columns

  /** The length of every top list the dashboard shows. */
  const TopN: nat := 10

  // ---------------------------------------------------------------- metrics

  /** Arithmetic mean of a non-empty column, taken exactly (the float
      rounding of pandas is not modelled). */
  function Mean(values: seq<int>): (m: real)
    requires |values| > 0
    ensures m * (|values| as real) == Sum(values) as real
  {
    (Sum(values) as real) / (|values| as real)
  }

  lemma MulSucc(n: int, x: int)
    ensures (n + 1) * x == n * x + x
  {
  }

  lemma {:induction false} SumWithinBounds(values: seq<int>, lo: int, hi: int)
    requires forall v :: v in values ==> lo <= v <= hi
    ensures |values| * lo <= Sum(values) <= |values| * hi
  {
    if values != [] {
      var rest := values[1..];
      assert values[0] in values;
      assert forall v :: v in rest ==> v in values;
      SumWithinBounds(rest, lo, hi);
      MulSucc(|rest|, lo);
      MulSucc(|rest|, hi);
    }
  }

  /** The mean lies between the smallest and the largest value. */
  lemma MeanWithinBounds(values: seq<int>, lo: int, hi: int)
    requires |values| > 0
    requires forall v :: v in values ==> lo <= v <= hi
    ensures lo as real <= Mean(values) <= hi as real
  {
    SumWithinBounds(values, lo, hi);
    var n := |values| as real;
    var m := Mean(values);
    assert m * n >= (lo as real) * n;
    assert m * n <= (hi as real) * n;
  }

  /** In a count table sorted by descending count, the first row is at least
      as frequent as any value counted. */
  lemma FirstIsMostFrequent<K>(t: Table<K>, xs: seq<K>)
    requires IsCountTable(t, xs) && |t| > 0
    requires forall i, j :: 0 <= i < j < |t| ==> t[i].1 >= t[j].1
    ensures t[0].0 in xs
    ensures forall x :: x in xs ==> Count(xs, x) <= Count(xs, t[0].0)
  {
    assert t[0] in t;
    assert t[0].0 in KeySet(t);
    assert t[0].0 in Elems(xs);
    forall x | x in xs ensures Count(xs, x) <= Count(xs, t[0].0) {
      assert x in KeySet(t);
      var p :| p in t && p.0 == x;
      var j :| 0 <= j < |t| && t[j] == p;
    }
  }

  /** `value_counts().idxmax()` of the hashtags, guarded by the row count:
      "N/A" for no rows; None where pandas raises, i.e. rows without any
      hashtag; otherwise a most frequent hashtag (which one among equals is
      not promised). */
  function TopHashtag(rows: seq<Record>): (top: Option<string>)
    ensures |rows| == 0 ==> top == Some("N/A")
    ensures |rows| > 0 ==> (top.None? <==> AllHashtags(rows) == [])
    ensures |rows| > 0 && top.Some? ==>
      && top.value in AllHashtags(rows)
      && forall t :: t in AllHashtags(rows) ==> Count(AllHashtags(rows), t) <= Count(AllHashtags(rows), top.value)
  {
    if |rows| == 0 then Some("N/A")
    else
      var tags := AllHashtags(rows);
      var counts := ValueCounts(tags);
      if counts == [] then
        assert Elems(tags) == {};
        None
      else
        FirstIsMostFrequent(counts, tags);
        Some(counts[0].0)
  }

  /** The four metrics shown above the charts. */
  datatype Summary = Summary(count: nat, avgRetweets: real, avgLikes: real, topHashtag: Option<string>)

  /** The metric row: the tweet count, the mean retweets and likes (0 when
      the set is empty, as the dashboard guards `mean()` by the count) and
      the top hashtag. */
  function Summarize(rows: seq<Record>): (s: Summary)
    ensures s.count == |rows|
    ensures |rows| == 0 ==> s.avgRetweets == 0.0 && s.avgLikes == 0.0 && s.topHashtag == Some("N/A")
    ensures |rows| > 0 ==> s.avgRetweets == Mean(RetweetCounts(rows)) && s.avgLikes == Mean(LikeCounts(rows))
    ensures s.topHashtag == TopHashtag(rows)
  {
    if |rows| > 0 then
      Summary(|rows|, Mean(RetweetCounts(rows)), Mean(LikeCounts(rows)), TopHashtag(rows))
    else
      Summary(0, 0.0, 0.0, TopHashtag(rows))
  }

  // ------------------------------------------------------------- histograms

  /** `month.value_counts().reindex(January..December, fill_value=0)`: twelve
      entries in calendar order, each the number of rows of that month. */
  function MonthHistogram(rows: seq<Record>): (h: seq<nat>)
    ensures |h| == 12
    ensures forall i :: 0 <= i < 12 ==> h[i] == Count(MonthColumn(rows), Some(MonthNames[i]))
  {
    var h := Counts(MonthNames, Months(rows));
    assert forall i :: 0 <= i < 12 ==> h[i] == Count(MonthColumn(rows), Some(MonthNames[i])) by {
      forall i | 0 <= i < 12 ensures h[i] == Count(MonthColumn(rows), Some(MonthNames[i])) {
        CountDefined(MonthColumn(rows), MonthNames[i]);
      }
    }
    h
  }

  /** Every month name present in preprocessed rows is one of the twelve, so
      the histogram accounts for every row with a month. */
  lemma MonthHistogramTotal(rows: seq<Record>)
    requires forall r :: r in rows ==> WellFormed(r)
    ensures Sum(MonthHistogram(rows)) == |Months(rows)|
  {
    var ms := Months(rows);
    MonthNamesDistinct();
    SumCountsOfDistinct(MonthNames, ms);
    forall v | v in ms ensures v in Elems(MonthNames) {
      assert Some(v) in MonthColumn(rows);
      var i :| 0 <= i < |rows| && MonthColumn(rows)[i] == Some(v);
      assert rows[i] in rows;
    }
    CountInCovering(ms, Elems(MonthNames));
    assert MonthHistogram(rows) == Counts(MonthNames, ms);
  }

  /** On a filtered set the twelve entries sum to the number of rows. */
  lemma MonthHistogramOfFiltered(all: seq<Record>, spec: FilterSpec)
    requires forall r :: r in all ==> WellFormed(r)
    ensures Sum(MonthHistogram(Filter(all, spec))) == |Filter(all, spec)|
  {
    var rows := Filter(all, spec);
    MonthHistogramTotal(rows);
    forall i | 0 <= i < |rows| ensures MonthColumn(rows)[i].Some? {
      assert rows[i] in rows;
    }
  }

  /** `hour.value_counts().sort_index()`: the hours that occur, strictly
      ascending, each with its positive count, the counts summing to the
      number of rows with an hour. */
  function HourHistogram(rows: seq<Record>): (h: Table<int>)
    ensures IsCountTable(h, Hours(rows))
    ensures forall i, j :: 0 <= i < j < |h| ==> h[i].0 < h[j].0
    ensures forall i :: 0 <= i < |h| ==> h[i].1 > 0
    ensures Total(h) == |Hours(rows)|
  {
    var h := CountsByKey(Hours(rows));
    CountTableTotal(h, Hours(rows));
    assert forall i :: 0 <= i < |h| ==> h[i].1 > 0 by {
      forall i | 0 <= i < |h| ensures h[i].1 > 0 {
        assert h[i] in h;
        assert h[i].0 in Elems(Hours(rows));
      }
    }
    h
  }

  /** On a filtered set every hour shown lies in the selected range and the
      counts sum to the number of rows. */
  lemma HourHistogramOfFiltered(all: seq<Record>, spec: FilterSpec)
    ensures var h := HourHistogram(Filter(all, spec));
      && Total(h) == |Filter(all, spec)|
      && forall i :: 0 <= i < |h| ==> spec.low <= h[i].0 <= spec.high
  {
    var rows := Filter(all, spec);
    var h := HourHistogram(rows);
    forall i | 0 <= i < |rows| ensures HourColumn(rows)[i].Some? {
      assert rows[i] in rows;
    }
    forall i | 0 <= i < |h| ensures spec.low <= h[i].0 <= spec.high {
      assert h[i] in h;
      assert h[i].0 in Elems(Hours(rows));
      assert Some(h[i].0) in HourColumn(rows);
      var k :| 0 <= k < |rows| && HourColumn(rows)[k] == Some(h[i].0);
      assert rows[k] in rows;
    }
  }

  /** `text_length.value_counts().sort_index()`. */
  function TextLengthHistogram(rows: seq<Record>): (h: Table<int>)
    ensures IsCountTable(h, TextLengths(rows))
    ensures forall i, j :: 0 <= i < j < |h| ==> h[i].0 < h[j].0
    ensures Total(h) == |rows|
  {
    var h := CountsByKey(TextLengths(rows));
    CountTableTotal(h, TextLengths(rows));
    h
  }

  // ------------------------------------------------------------ top lists

  /** `findall(r'#\w+').explode().value_counts().head(10)`. */
  function TopHashtags(rows: seq<Record>): (t: Table<string>)
    ensures |t| <= TopN && |t| <= |AllHashtags(rows)|
    ensures CountsMatch(t, AllHashtags(rows)) && DistinctKeys(t)
    ensures |t| < TopN ==> KeySet(t) == Elems(AllHashtags(rows))
    ensures forall i, j :: 0 <= i < j < |t| ==> t[i].1 >= t[j].1
    ensures 0 < |t| ==> forall x :: x in AllHashtags(rows) && x !in KeySet(t) ==> Count(AllHashtags(rows), x) <= t[|t| - 1].1
  {
    TopCounts(AllHashtags(rows), TopN)
  }

  /** `mention.explode().value_counts().head(10)`. */
  function TopMentions(rows: seq<Record>): (t: Table<string>)
    ensures |t| <= TopN && |t| <= |AllMentions(rows)|
    ensures CountsMatch(t, AllMentions(rows)) && DistinctKeys(t)
    ensures |t| < TopN ==> KeySet(t) == Elems(AllMentions(rows))
    ensures forall i, j :: 0 <= i < j < |t| ==> t[i].1 >= t[j].1
    ensures 0 < |t| ==> forall x :: x in AllMentions(rows) && x !in KeySet(t) ==> Count(AllMentions(rows), x) <= t[|t| - 1].1
  {
    TopCounts(AllMentions(rows), TopN)
  }

  function ByLikes(r: Record): Rank {
    Rank(r.likes, 0)
  }

  function ByEngagement(r: Record): Rank {
    Rank(r.retweets, r.likes)
  }

  /** `nlargest(10, 'favorite_count')`: at most ten rows of the set, by
      descending likes, none left out having more likes than the last shown. */
  function TopByLikes(rows: seq<Record>): (top: seq<Record>)
    ensures |top| == if |rows| < TopN then |rows| else TopN
    ensures multiset(top) <= multiset(rows)
    ensures forall i, j :: 0 <= i < j < |top| ==> top[i].likes >= top[j].likes
    ensures 0 < |top| ==> forall r :: r in multiset(rows) - multiset(top) ==> r.likes <= top[|top| - 1].likes
  {
    var top := Largest(rows, TopN, ByLikes);
    LikesOrder(top, rows);
    top
  }

  lemma LikesOrder(top: seq<Record>, rows: seq<Record>)
    requires SortedDesc(top, ByLikes)
    requires 0 < |top| ==> OutranksAll(top[|top| - 1], multiset(rows) - multiset(top), ByLikes)
    ensures forall i, j :: 0 <= i < j < |top| ==> top[i].likes >= top[j].likes
    ensures 0 < |top| ==> forall r :: r in multiset(rows) - multiset(top) ==> r.likes <= top[|top| - 1].likes
  {
    forall i, j | 0 <= i < j < |top| ensures top[i].likes >= top[j].likes {
      assert AtLeast(ByLikes(top[i]), ByLikes(top[j]));
    }
    if 0 < |top| {
      forall r | r in multiset(rows) - multiset(top) ensures r.likes <= top[|top| - 1].likes {
        assert AtLeast(ByLikes(top[|top| - 1]), ByLikes(r));
      }
    }
  }

  /** Among rows with equal likes, the earliest in the set are the ones
      shown, in set order. */
  lemma TopByLikesKeepsFirst(rows: seq<Record>)
    ensures forall q :: WithRank(TopByLikes(rows), ByLikes, q) <= WithRank(rows, ByLikes, q)
  {
    LargestKeepsFirst(rows, TopN, ByLikes);
  }

  /** `a` comes no later than `b` in the order of retweets, then likes. */
  predicate MoreEngaged(a: Record, b: Record) {
    a.retweets > b.retweets || (a.retweets == b.retweets && a.likes >= b.likes)
  }

  /** `nlargest(10, ['retweets_count', 'favorite_count'])`: the same, ordered
      by retweets and, among equal retweets, by likes. */
  function TopEngaged(rows: seq<Record>): (top: seq<Record>)
    ensures |top| == if |rows| < TopN then |rows| else TopN
    ensures multiset(top) <= multiset(rows)
    ensures forall i, j :: 0 <= i < j < |top| ==> MoreEngaged(top[i], top[j])
    ensures 0 < |top| ==> forall r :: r in multiset(rows) - multiset(top) ==> MoreEngaged(top[|top| - 1], r)
  {
    var top := Largest(rows, TopN, ByEngagement);
    EngagementOrder(top, rows);
    top
  }

  lemma EngagementOrder(top: seq<Record>, rows: seq<Record>)
    requires SortedDesc(top, ByEngagement)
    requires 0 < |top| ==> OutranksAll(top[|top| - 1], multiset(rows) - multiset(top), ByEngagement)
    ensures forall i, j :: 0 <= i < j < |top| ==> MoreEngaged(top[i], top[j])
    ensures 0 < |top| ==> forall r :: r in multiset(rows) - multiset(top) ==> MoreEngaged(top[|top| - 1], r)
  {
    forall i, j | 0 <= i < j < |top| ensures MoreEngaged(top[i], top[j]) {
      assert AtLeast(ByEngagement(top[i]), ByEngagement(top[j]));
    }
    if 0 < |top| {
      forall r | r in multiset(rows) - multiset(top) ensures MoreEngaged(top[|top| - 1], r) {
        assert AtLeast(ByEngagement(top[|top| - 1]), ByEngagement(r));
      }
    }
  }

  /** Among rows with equal retweets and likes, the earliest in the set are
      the ones shown, in set order. */
  lemma TopEngagedKeepsFirst(rows: seq<Record>)
    ensures forall q :: WithRank(TopEngaged(rows), ByEngagement, q) <= WithRank(rows, ByEngagement, q)
  {
    LargestKeepsFirst(rows, TopN, ByEngagement);
  }

  // -------------------------------------------------------------- sentiment

  datatype Sentiment = Positive | Negative | Neutral

  /** `'Positive' if x > 0 else 'Negative' if x < 0 else 'Neutral'`. */
  function Bucket(polarity: real): Sentiment {
    if polarity > 0.0 then Positive
    else if polarity < 0.0 then Negative
    else Neutral
  }

  function Labels(rows: seq<Record>): (ls: seq<Sentiment>)
    ensures |ls| == |rows| && forall i :: 0 <= i < |rows| ==> ls[i] == Bucket(rows[i].sentiment)
  {
    seq(|rows|, i requires 0 <= i < |rows| => Bucket(rows[i].sentiment))
  }

  predicate IsPositive(r: Record) { r.sentiment > 0.0 }
  predicate IsNegative(r: Record) { r.sentiment < 0.0 }
  predicate IsNeutral(r: Record) { r.sentiment == 0.0 }

  /** The three buckets count exactly the rows of positive, negative and zero
      polarity, so together they count every row once. */
  lemma {:induction false} SentimentPartition(rows: seq<Record>)
    ensures Count(Labels(rows), Positive) == CountWhere(rows, IsPositive)
    ensures Count(Labels(rows), Negative) == CountWhere(rows, IsNegative)
    ensures Count(Labels(rows), Neutral) == CountWhere(rows, IsNeutral)
    ensures CountWhere(rows, IsPositive) + CountWhere(rows, IsNegative) + CountWhere(rows, IsNeutral) == |rows|
  {
    if rows != [] {
      SentimentPartition(rows[1..]);
      assert Labels(rows) == [Bucket(rows[0].sentiment)] + Labels(rows[1..]);
    }
  }

  lemma AtMostThreeBuckets(s: set<Sentiment>)
    ensures |s| <= 3
  {
    var full := {Positive, Negative, Neutral};
    forall x | x in s ensures x in full {
      match x
      case Positive =>
      case Negative =>
      case Neutral =>
    }
    assert |full| == 3;
    assert full == s + (full - s);
  }

  /** `value_counts()` of the labels: only the buckets that occur, most
      frequent first, at most three, summing to the number of rows. */
  function SentimentCounts(rows: seq<Record>): (t: Table<Sentiment>)
    ensures IsCountTable(t, Labels(rows))
    ensures forall i, j :: 0 <= i < j < |t| ==> t[i].1 >= t[j].1
    ensures |t| <= 3
    ensures Total(t) == |rows|
  {
    var t := ValueCounts(Labels(rows));
    CountTableTotal(t, Labels(rows));
    DistinctKeysCardinality(t);
    AtMostThreeBuckets(KeySet(t));
    t
  }

  // ----------------------------------------------------------------- sources

  /** `source.value_counts()` over the whole table (not the filtered set). */
  function SourceDistribution(rows: seq<Record>): (t: Table<string>)
    ensures IsCountTable(t, Sources(rows))
    ensures forall i, j :: 0 <= i < j < |t| ==> t[i].1 >= t[j].1
    ensures Total(t) == |rows|
  {
    var t := ValueCounts(Sources(rows));
    CountTableTotal(t, Sources(rows));
    t
  }
}
