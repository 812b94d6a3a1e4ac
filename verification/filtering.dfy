/** The sidebar filter: year, source and an inclusive hour range, combined by
    logical and. */
module Filtering {
  import opened Wrappers
  import opened Records

  /** The viewer's selection. The slider keeps `0 <= low <= high <= 23`. */
  datatype FilterSpec = FilterSpec(year: int, source: string, low: int, high: int)

  /** `year == Y & source == S & hour.between(low, high)`; a null year or
      hour compares false. */
  predicate Matches(r: Record, spec: FilterSpec) {
    && r.year == Some(spec.year)
    && r.source == spec.source
    && r.hour.Some?
    && spec.low <= r.hour.value <= spec.high
  }

  /** The matching rows, in table order. */
  function Filter(rows: seq<Record>, spec: FilterSpec): (kept: seq<Record>)
    ensures |kept| <= |rows|
    ensures forall x :: x in kept <==> x in rows && Matches(x, spec)
  {
    if rows == [] then []
    else
      assert rows == [rows[0]] + rows[1..];
      (if Matches(rows[0], spec) then [rows[0]] else []) + Filter(rows[1..], spec)
  }

  /** A matching row is kept as often as it occurs; any other row never. */
  lemma {:induction false} FilterKeepsMultiplicity(rows: seq<Record>, spec: FilterSpec, x: Record)
    ensures multiset(Filter(rows, spec))[x] == if Matches(x, spec) then multiset(rows)[x] else 0
  {
    if rows != [] {
      FilterKeepsMultiplicity(rows[1..], spec, x);
      assert rows == [rows[0]] + rows[1..];
    }
  }

  /** The positions, in increasing order, of the rows at or after `from` that
      match. */
  function MatchingIndices(rows: seq<Record>, spec: FilterSpec, from: nat): (idx: seq<nat>)
    ensures forall k :: 0 <= k < |idx| ==> from <= idx[k] < |rows|
    ensures forall k, l :: 0 <= k < l < |idx| ==> idx[k] < idx[l]
    ensures forall i :: i in idx <==> from <= i < |rows| && Matches(rows[i], spec)
    decreases |rows| - from
  {
    if from >= |rows| then []
    else (if Matches(rows[from], spec) then [from] else []) + MatchingIndices(rows, spec, from + 1)
  }

  /** One step of both recursions at position `from`. */
  lemma FilterStep(rows: seq<Record>, spec: FilterSpec, from: nat)
    requires from < |rows|
    ensures Filter(rows[from..], spec)
      == (if Matches(rows[from], spec) then [rows[from]] else []) + Filter(rows[from + 1..], spec)
    ensures MatchingIndices(rows, spec, from)
      == (if Matches(rows[from], spec) then [from] else []) + MatchingIndices(rows, spec, from + 1)
  {
    assert rows[from..][1..] == rows[from + 1..];
  }

  /** Putting the row at `from` in front of a subsequence taken at positions
      `later` gives the subsequence taken at `[from] + later`. */
  lemma PrependAtIndex<X>(rows: seq<X>, from: nat, tail: seq<X>, later: seq<nat>)
    requires from < |rows| && |tail| == |later|
    requires forall k :: 0 <= k < |later| ==> later[k] < |rows| && tail[k] == rows[later[k]]
    ensures forall k :: 0 <= k < |later| + 1 ==> ([from] + later)[k] < |rows| && ([rows[from]] + tail)[k] == rows[([from] + later)[k]]
  {
  }

  lemma {:induction false} FilterSuffixAtIndices(rows: seq<Record>, spec: FilterSpec, from: nat)
    requires from <= |rows|
    ensures |Filter(rows[from..], spec)| == |MatchingIndices(rows, spec, from)|
    ensures forall k :: 0 <= k < |MatchingIndices(rows, spec, from)| ==>
      Filter(rows[from..], spec)[k] == rows[MatchingIndices(rows, spec, from)[k]]
    decreases |rows| - from
  {
    if from < |rows| {
      FilterSuffixAtIndices(rows, spec, from + 1);
      FilterStep(rows, spec, from);
      if Matches(rows[from], spec) {
        PrependAtIndex(rows, from, Filter(rows[from + 1..], spec), MatchingIndices(rows, spec, from + 1));
      }
    }
  }

  /** The filtered set is the order-preserving subsequence of exactly the
      matching rows: its k-th row is the row at the k-th matching position. */
  lemma FilterIsMatchingSubsequence(rows: seq<Record>, spec: FilterSpec)
    ensures var idx := MatchingIndices(rows, spec, 0);
      && |Filter(rows, spec)| == |idx|
      && (forall k :: 0 <= k < |idx| ==> Filter(rows, spec)[k] == rows[idx[k]])
      && (forall k, l :: 0 <= k < l < |idx| ==> idx[k] < idx[l])
      && (forall i :: i in idx <==> 0 <= i < |rows| && Matches(rows[i], spec))
  {
    assert rows[0..] == rows;
    FilterSuffixAtIndices(rows, spec, 0);
  }

  /** A table whose rows all match passes through unchanged. */
  lemma {:induction false} FilterKeepsMatchingTable(rows: seq<Record>, spec: FilterSpec)
    requires forall x :: x in rows ==> Matches(x, spec)
    ensures Filter(rows, spec) == rows
  {
    if rows != [] {
      assert rows[0] in rows;
      assert forall x :: x in rows[1..] ==> x in rows;
      FilterKeepsMatchingTable(rows[1..], spec);
      assert rows == [rows[0]] + rows[1..];
    }
  }

  /** Filtering a filtered set with the same selection changes nothing. */
  lemma FilterIdempotent(rows: seq<Record>, spec: FilterSpec)
    ensures Filter(Filter(rows, spec), spec) == Filter(rows, spec)
  {
    FilterKeepsMatchingTable(Filter(rows, spec), spec);
  }

  /** Every filtered row has a parsed timestamp, the selected year and source,
      and an hour inside the selected range; so a row of the preprocessed table
      whose timestamp failed to parse is never in a filtered set. */
  lemma FilteredRowsAreParsed(rows: seq<Record>, spec: FilterSpec)
    requires forall r :: r in rows ==> WellFormed(r)
    ensures forall r :: r in Filter(rows, spec) ==>
      && r.createdAt.Some? && r.year == Some(spec.year) && r.source == spec.source
      && r.hour.Some? && spec.low <= r.hour.value <= spec.high && r.month.Some?
  {
  }

  /** A raw row whose timestamp does not parse is kept by preprocessing but
      left out of every filtered set. */
  lemma UnparsedRowNeverFiltered(raws: seq<RawRecord>, parse: string -> Option<Timestamp>, polarity: string -> real,
                                 spec: FilterSpec, i: nat)
    requires i < |raws| && parse(raws[i].createdAt).None?
    ensures var rows := Enrich(raws, parse, polarity);
      rows[i] in rows && rows[i] !in Filter(rows, spec)
  {
  }
}
