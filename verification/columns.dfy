/** Column extraction from the (filtered) table: the series the aggregators
    count. Null cells are dropped, as `value_counts` drops NaN. */
module Columns {
  import opened Wrappers
  import opened Counting
  import opened Records
  import Scanner

  /** The non-null values of a nullable column, in order (`dropna`). */
  function Defined<X(!new)>(xs: seq<Option<X>>): (vs: seq<X>)
    ensures |vs| <= |xs|
    ensures forall v :: v in vs <==> Some(v) in xs
    ensures (forall i :: 0 <= i < |xs| ==> xs[i].Some?) ==> |vs| == |xs|
  {
    if xs == [] then []
    else
      assert forall i :: 1 <= i < |xs| ==> xs[1..][i - 1] == xs[i];
      assert forall o :: o in xs <==> o == xs[0] || o in xs[1..];
      (if xs[0].Some? then [xs[0].value] else []) + Defined(xs[1..])
  }

  /** Dropping nulls keeps the count of every value. */
  lemma {:induction false} CountDefined<X(!new)>(xs: seq<Option<X>>, v: X)
    ensures Count(Defined(xs), v) == Count(xs, Some(v))
  {
    if xs != [] {
      CountDefined(xs[1..], v);
      CountAppend(if xs[0].Some? then [xs[0].value] else [], Defined(xs[1..]), v);
    }
  }

  /** All elements of all lists, in order (`explode` without the NaN of an
      empty list). */
  function Flatten<X(!new)>(xss: seq<seq<X>>): (vs: seq<X>)
    ensures forall v :: v in vs <==> exists i :: 0 <= i < |xss| && v in xss[i]
  {
    if xss == [] then []
    else
      assert forall i :: 1 <= i < |xss| ==> xss[1..][i - 1] == xss[i];
      xss[0] + Flatten(xss[1..])
  }

  function HourColumn(rows: seq<Record>): (c: seq<Option<int>>)
    ensures |c| == |rows| && forall i :: 0 <= i < |rows| ==> c[i] == rows[i].hour
  {
    seq(|rows|, i requires 0 <= i < |rows| => rows[i].hour)
  }

  function MonthColumn(rows: seq<Record>): (c: seq<Option<string>>)
    ensures |c| == |rows| && forall i :: 0 <= i < |rows| ==> c[i] == rows[i].month
  {
    seq(|rows|, i requires 0 <= i < |rows| => rows[i].month)
  }

  /** The non-null hours. */
  function Hours(rows: seq<Record>): seq<int> {
    Defined(HourColumn(rows))
  }

  /** The non-null month names. */
  function Months(rows: seq<Record>): seq<string> {
    Defined(MonthColumn(rows))
  }

  function TextLengths(rows: seq<Record>): (c: seq<int>)
    ensures |c| == |rows| && forall i :: 0 <= i < |rows| ==> c[i] == rows[i].textLength
  {
    seq(|rows|, i requires 0 <= i < |rows| => rows[i].textLength as int)
  }

  function Sources(rows: seq<Record>): (c: seq<string>)
    ensures |c| == |rows| && forall i :: 0 <= i < |rows| ==> c[i] == rows[i].source
  {
    seq(|rows|, i requires 0 <= i < |rows| => rows[i].source)
  }

  function RetweetCounts(rows: seq<Record>): (c: seq<int>)
    ensures |c| == |rows| && forall i :: 0 <= i < |rows| ==> c[i] == rows[i].retweets
  {
    seq(|rows|, i requires 0 <= i < |rows| => rows[i].retweets)
  }

  function LikeCounts(rows: seq<Record>): (c: seq<int>)
    ensures |c| == |rows| && forall i :: 0 <= i < |rows| ==> c[i] == rows[i].likes
  {
    seq(|rows|, i requires 0 <= i < |rows| => rows[i].likes)
  }

  /** `text.str.findall(r'#\w+').explode()`: every hashtag of every row. */
  function AllHashtags(rows: seq<Record>): seq<string> {
    Flatten(seq(|rows|, i requires 0 <= i < |rows| => Scanner.Hashtags(rows[i].text)))
  }

  /** `mention.explode()`: every mention of every row. */
  function AllMentions(rows: seq<Record>): seq<string> {
    Flatten(seq(|rows|, i requires 0 <= i < |rows| => rows[i].mentions))
  }
}
