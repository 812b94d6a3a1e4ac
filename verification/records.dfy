/** The rows of the tweet table and the per-row feature derivation run once
    after loading: year, month name and hour from the parsed `created_at`,
    text length, sentiment polarity and mentions. */
module Records {
  import opened Wrappers
  import opened Counting
  import Scanner

  type MonthNumber = m: int | 1 <= m <= 12 witness 1
  type Hour = h: int | 0 <= h <= 23 witness 0

  /** The parts of a parsed `created_at` the dashboard reads. */
  datatype Timestamp = Timestamp(year: int, month: MonthNumber, hour: Hour)

  /** One row of the CSV as loaded. */
  datatype RawRecord = RawRecord(
    id: int,
    createdAt: string,
    text: string,
    source: string,
    retweets: int,
    likes: int)

  /** One row after preprocessing. `createdAt` is the parse result (None for
      NaT); `year`, `month` and `hour` are the derived columns, None for NaN. */
  datatype Record = Record(
    id: int,
    createdAt: Option<Timestamp>,
    text: string,
    source: string,
    retweets: int,
    likes: int,
    year: Option<int>,
    month: Option<string>,
    hour: Option<int>,
    textLength: nat,
    sentiment: real,
    mentions: seq<string>)

  /** English month names in calendar order, as `dt.month_name()` spells them. */
  const MonthNames: seq<string> := [
    "January", "February", "March", "April", "May", "June",
    "July", "August", "September", "October", "November", "December"]

  function MonthName(m: MonthNumber): string {
    MonthNames[m - 1]
  }

  lemma MonthNamesDistinct()
    ensures Distinct(MonthNames)
  {
  }

  /** The invariant every preprocessed row satisfies: the three time columns
      are all null exactly when the parse failed and otherwise agree with the
      timestamp; text length and mentions are those of the text. */
  predicate WellFormed(r: Record) {
    && (match r.createdAt
        case None => r.year.None? && r.month.None? && r.hour.None?
        case Some(ts) =>
          && r.year == Some(ts.year)
          && r.month == Some(MonthName(ts.month))
          && r.hour == Some(ts.hour as int))
    && r.textLength == |r.text|
    && r.mentions == Scanner.Mentions(r.text)
  }

  /** Preprocessing of one row. The datetime parser and the polarity scorer
      are foreign code and are passed in. */
  function Derive(raw: RawRecord, parse: string -> Option<Timestamp>, polarity: string -> real): (r: Record)
    ensures WellFormed(r)
    ensures r.createdAt == parse(raw.createdAt)
    ensures r.id == raw.id && r.text == raw.text && r.source == raw.source
    ensures r.retweets == raw.retweets && r.likes == raw.likes
    ensures r.sentiment == polarity(raw.text)
  {
    var ts := parse(raw.createdAt);
    Record(
      raw.id, ts, raw.text, raw.source, raw.retweets, raw.likes,
      if ts.Some? then Some(ts.value.year) else None,
      if ts.Some? then Some(MonthName(ts.value.month)) else None,
      if ts.Some? then Some(ts.value.hour as int) else None,
      |raw.text|,
      polarity(raw.text),
      Scanner.Mentions(raw.text))
  }

  /** Preprocessing of the whole table: every row is kept, in order, including
      those whose timestamp does not parse. */
  function Enrich(raws: seq<RawRecord>, parse: string -> Option<Timestamp>, polarity: string -> real): (rows: seq<Record>)
    ensures |rows| == |raws|
    ensures forall i :: 0 <= i < |raws| ==> WellFormed(rows[i]) && rows[i].id == raws[i].id && rows[i].text == raws[i].text
    ensures forall i :: 0 <= i < |raws| ==> rows[i].createdAt == parse(raws[i].createdAt)
    ensures forall i :: 0 <= i < |raws| ==> rows[i] == Derive(raws[i], parse, polarity)
  {
    seq(|raws|, i requires 0 <= i < |raws| => Derive(raws[i], parse, polarity))
  }

  /** A row whose timestamp does not parse stays in the table with null year,
      month and hour; one that parses has an hour within 0..23 and a month
      name from the calendar. */
  lemma ParseFailureNullsTimeColumns(raws: seq<RawRecord>, parse: string -> Option<Timestamp>, polarity: string -> real, i: nat)
    requires i < |raws|
    ensures var r := Enrich(raws, parse, polarity)[i];
      && r.id == raws[i].id
      && (parse(raws[i].createdAt).None? <==> r.year.None? && r.month.None? && r.hour.None?)
      && (parse(raws[i].createdAt).Some? ==> 0 <= r.hour.value <= 23 && r.month.value in MonthNames)
  {
  }
}
