/** `groupby(['hour', 'month']).size().unstack(fill_value=0)`: the hour by
    month count matrix behind the heatmap. Row labels are the hours that
    occur, ascending; column labels are the month names that occur, sorted
    as strings (so alphabetically, not in calendar order); missing
    combinations are filled with 0. */
module HourMonthGrid {
  import opened Wrappers
  import opened Counting
  import opened Records
  import opened Filtering
  import opened Columns

  // --------------------------------------------------------- string order

  /** Lexicographic order of strings by character code. */
  predicate StrLess(a: string, b: string) {
    if a == [] then b != []
    else if b == [] then false
    else if a[0] < b[0] then true
    else a[0] == b[0] && StrLess(a[1..], b[1..])
  }

  lemma {:induction false} StrLessIrreflexive(a: string)
    ensures !StrLess(a, a)
  {
    if a != [] {
      StrLessIrreflexive(a[1..]);
    }
  }

  lemma {:induction false} StrLessTransitive(a: string, b: string, c: string)
    requires StrLess(a, b) && StrLess(b, c)
    ensures StrLess(a, c)
  {
    if a != [] && b != [] && c != [] && a[0] == b[0] && b[0] == c[0] {
      StrLessTransitive(a[1..], b[1..], c[1..]);
    }
  }

  /** The twelve month names in string order. */
  const AlphabeticalMonths: seq<string> := [
    "April", "August", "December", "February", "January", "July",
    "June", "March", "May", "November", "October", "September"]

  lemma AlphabeticalMonthsAdjacent()
    ensures forall i :: 0 <= i < 11 ==> StrLess(AlphabeticalMonths[i], AlphabeticalMonths[i + 1])
  {
    assert StrLess("April", "August");
    assert StrLess("August", "December");
    assert StrLess("December", "February");
    assert StrLess("February", "January");
    assert StrLess("January", "July");
    assert StrLess("July", "June");
    assert StrLess("June", "March");
    assert StrLess("March", "May");
    assert StrLess("May", "November");
    assert StrLess("November", "October");
    assert StrLess("October", "September");
  }

  lemma {:induction false} AlphabeticalMonthsSortedFrom(i: nat, j: nat)
    requires i < j < 12
    ensures StrLess(AlphabeticalMonths[i], AlphabeticalMonths[j])
    decreases j - i
  {
    AlphabeticalMonthsAdjacent();
    if i + 1 < j {
      AlphabeticalMonthsSortedFrom(i + 1, j);
      StrLessTransitive(AlphabeticalMonths[i], AlphabeticalMonths[i + 1], AlphabeticalMonths[j]);
    }
  }

  lemma AlphabeticalMonthsSorted()
    ensures forall i, j :: 0 <= i < j < 12 ==> StrLess(AlphabeticalMonths[i], AlphabeticalMonths[j])
  {
    forall i, j | 0 <= i < j < 12 ensures StrLess(AlphabeticalMonths[i], AlphabeticalMonths[j]) {
      AlphabeticalMonthsSortedFrom(i, j);
    }
  }

  lemma AlphabeticalMonthsAreMonthNames()
    ensures forall m :: m in MonthNames ==> m in AlphabeticalMonths
  {
    assert MonthNames[0] == AlphabeticalMonths[4];
    assert MonthNames[1] == AlphabeticalMonths[3];
    assert MonthNames[2] == AlphabeticalMonths[7];
    assert MonthNames[3] == AlphabeticalMonths[0];
    assert MonthNames[4] == AlphabeticalMonths[8];
    assert MonthNames[5] == AlphabeticalMonths[6];
    assert MonthNames[6] == AlphabeticalMonths[5];
    assert MonthNames[7] == AlphabeticalMonths[1];
    assert MonthNames[8] == AlphabeticalMonths[11];
    assert MonthNames[9] == AlphabeticalMonths[10];
    assert MonthNames[10] == AlphabeticalMonths[9];
    assert MonthNames[11] == AlphabeticalMonths[2];
  }

  /** The hours of a day, ascending. */
  const DayHours: seq<int> := [0, 1, 2, 3, 4, 5, 6, 7, 8, 9, 10, 11, 12, 13, 14, 15, 16, 17, 18, 19, 20, 21, 22, 23]

  lemma DayHoursSorted()
    ensures forall i, j :: 0 <= i < j < |DayHours| ==> IntLess(DayHours[i], DayHours[j])
  {
    assert forall i :: 0 <= i < |DayHours| ==> DayHours[i] == i;
  }

  // ------------------------------------------------------------ labels

  /** The elements of `universe` that occur in `values`, in universe order:
      the sorted labels of the groups that are not empty. */
  function Present<X(==,!new)>(universe: seq<X>, values: seq<X>): (r: seq<X>)
    ensures forall x :: x in r <==> x in universe && x in values
  {
    if universe == [] then []
    else
      assert forall x :: x in universe <==> x == universe[0] || x in universe[1..];
      (if universe[0] in values then [universe[0]] else []) + Present(universe[1..], values)
  }

  /** Keeping some elements of an ordered universe keeps them ordered. */
  lemma {:induction false} PresentKeepsOrder<X(!new)>(universe: seq<X>, values: seq<X>, before: (X, X) -> bool)
    requires forall i, j :: 0 <= i < j < |universe| ==> before(universe[i], universe[j])
    ensures forall i, j :: 0 <= i < j < |Present(universe, values)| ==>
      before(Present(universe, values)[i], Present(universe, values)[j])
  {
    if universe != [] {
      var rest := universe[1..];
      var tail := Present(rest, values);
      PresentKeepsOrder(rest, values, before);
      var r := Present(universe, values);
      if universe[0] in values {
        assert r == [universe[0]] + tail;
        forall x | x in tail ensures before(universe[0], x) {
          var k :| 0 <= k < |rest| && rest[k] == x;
          assert universe[k + 1] == x;
        }
        forall i, j | 0 <= i < j < |r| ensures before(r[i], r[j]) {
          assert r[j] == tail[j - 1];
          if i > 0 {
            assert r[i] == tail[i - 1];
          } else {
            assert tail[j - 1] in tail;
          }
        }
      } else {
        assert r == tail;
      }
    }
  }

  predicate IntLess(a: int, b: int) { a < b }

  // ------------------------------------------------------------ the grid

  /** The (hour, month) key of a row, or None when either is null (such
      rows fall out of the groupby). */
  function PairColumn(rows: seq<Record>): (c: seq<Option<(int, string)>>)
    ensures |c| == |rows|
    ensures forall i :: 0 <= i < |rows| ==>
      c[i] == if rows[i].hour.Some? && rows[i].month.Some? then Some((rows[i].hour.value, rows[i].month.value)) else None
  {
    seq(|rows|, i requires 0 <= i < |rows| =>
      if rows[i].hour.Some? && rows[i].month.Some? then Some((rows[i].hour.value, rows[i].month.value)) else None)
  }

  function Pairs(rows: seq<Record>): seq<(int, string)> {
    Defined(PairColumn(rows))
  }

  function FirstOf(pairs: seq<(int, string)>): (hs: seq<int>)
    ensures forall h :: h in hs <==> exists k :: 0 <= k < |pairs| && pairs[k].0 == h
  {
    var firsts := seq(|pairs|, k requires 0 <= k < |pairs| => pairs[k].0);
    assert forall k :: 0 <= k < |pairs| ==> firsts[k] == pairs[k].0;
    assert forall h :: h in firsts ==> exists k :: 0 <= k < |pairs| && pairs[k].0 == h by {
      forall h | h in firsts ensures exists k :: 0 <= k < |pairs| && pairs[k].0 == h {
        var k :| 0 <= k < |firsts| && firsts[k] == h;
      }
    }
    firsts
  }

  function SecondOf(pairs: seq<(int, string)>): (ms: seq<string>)
    ensures forall m :: m in ms <==> exists k :: 0 <= k < |pairs| && pairs[k].1 == m
  {
    var seconds := seq(|pairs|, k requires 0 <= k < |pairs| => pairs[k].1);
    assert forall k :: 0 <= k < |pairs| ==> seconds[k] == pairs[k].1;
    assert forall m :: m in seconds ==> exists k :: 0 <= k < |pairs| && pairs[k].1 == m by {
      forall m | m in seconds ensures exists k :: 0 <= k < |pairs| && pairs[k].1 == m {
        var k :| 0 <= k < |seconds| && seconds[k] == m;
      }
    }
    seconds
  }

  /** The keys of one matrix row. */
  function RowKeys(h: int, months: seq<string>): (ks: seq<(int, string)>)
    ensures |ks| == |months| && forall j :: 0 <= j < |months| ==> ks[j] == (h, months[j])
  {
    seq(|months|, j requires 0 <= j < |months| => (h, months[j]))
  }

  /** One row of counts per hour label. */
  function GridRows(hours: seq<int>, months: seq<string>, pairs: seq<(int, string)>): (cells: seq<seq<nat>>)
    ensures |cells| == |hours|
    ensures forall i :: 0 <= i < |hours| ==> cells[i] == Counts(RowKeys(hours[i], months), pairs)
  {
    if hours == [] then []
    else [Counts(RowKeys(hours[0], months), pairs)] + GridRows(hours[1..], months, pairs)
  }

  /** Both label lists come out in their universe's order. */
  lemma HourLabelsInOrder(pairs: seq<(int, string)>, hours: seq<int>)
    requires hours == Present(DayHours, FirstOf(pairs))
    ensures forall i, j :: 0 <= i < j < |hours| ==> hours[i] < hours[j]
  {
    DayHoursSorted();
    PresentKeepsOrder(DayHours, FirstOf(pairs), IntLess);
  }

  lemma MonthLabelsInOrder(pairs: seq<(int, string)>, months: seq<string>)
    requires months == Present(AlphabeticalMonths, SecondOf(pairs))
    ensures forall i, j :: 0 <= i < j < |months| ==> StrLess(months[i], months[j])
  {
    AlphabeticalMonthsSorted();
    PresentKeepsOrder(AlphabeticalMonths, SecondOf(pairs), StrLess);
  }

  datatype Grid = Grid(hours: seq<int>, months: seq<string>, cells: seq<seq<nat>>)

  /** The count matrix: one row per hour label, one column per month label,
      each cell the number of rows with that hour and month. */
  function HourMonthMatrix(rows: seq<Record>): (g: Grid)
    ensures |g.cells| == |g.hours|
    ensures forall i :: 0 <= i < |g.hours| ==> |g.cells[i]| == |g.months|
    ensures forall i, j :: 0 <= i < |g.hours| && 0 <= j < |g.months| ==>
      g.cells[i][j] == Count(Pairs(rows), (g.hours[i], g.months[j]))
  {
    var pairs := Pairs(rows);
    var hours := Present(DayHours, FirstOf(pairs));
    var months := Present(AlphabeticalMonths, SecondOf(pairs));
    Grid(hours, months, GridRows(hours, months, pairs))
  }

  /** The row labels are the hours that occur, ascending; the column labels
      are the month names that occur, in string order. */
  lemma MatrixLabels(rows: seq<Record>)
    ensures var g := HourMonthMatrix(rows);
      && (forall h :: h in g.hours <==> h in DayHours && h in FirstOf(Pairs(rows)))
      && (forall m :: m in g.months <==> m in AlphabeticalMonths && m in SecondOf(Pairs(rows)))
      && (forall i, j :: 0 <= i < j < |g.hours| ==> g.hours[i] < g.hours[j])
      && (forall i, j :: 0 <= i < j < |g.months| ==> StrLess(g.months[i], g.months[j]))
  {
    var g := HourMonthMatrix(rows);
    HourLabelsInOrder(Pairs(rows), g.hours);
    MonthLabelsInOrder(Pairs(rows), g.months);
  }

  // ------------------------------------------------------------ totals

  /** Sum of every cell of the matrix. */
  function GridSum(cells: seq<seq<nat>>): int {
    if cells == [] then 0 else Sum(cells[0]) + GridSum(cells[1..])
  }

  /** The (hour, month) keys a matrix with these labels has a cell for. */
  function Product(hours: seq<int>, months: seq<string>): set<(int, string)> {
    set h, m | h in hours && m in months :: (h, m)
  }

  /** A matrix whose labels are distinct counts each pair that falls on one
      of its cells exactly once. */
  lemma {:induction false} GridRowsSum(hours: seq<int>, months: seq<string>, pairs: seq<(int, string)>)
    requires Distinct(hours) && Distinct(months)
    ensures GridSum(GridRows(hours, months, pairs)) == CountIn(pairs, Product(hours, months))
  {
    if hours == [] {
      assert Product(hours, months) == {};
      CountInEmpty(pairs);
    } else {
      var keys := RowKeys(hours[0], months);
      var rest := hours[1..];
      assert Distinct(keys);
      SumCountsOfDistinct(keys, pairs);
      assert Distinct(rest);
      GridRowsSum(rest, months, pairs);
      assert GridRows(hours, months, pairs)[1..] == GridRows(rest, months, pairs);
      assert Elems(keys) !! Product(rest, months);
      assert Product(hours, months) == Elems(keys) + Product(rest, months) by {
        forall p | p in Product(hours, months) ensures p in Elems(keys) + Product(rest, months) {
          if p.0 == hours[0] {
            var j :| 0 <= j < |months| && months[j] == p.1;
            assert keys[j] == p;
          }
        }
      }
      CountInDisjointUnion(pairs, Elems(keys), Product(rest, months));
    }
  }

  /** A row whose `created_at` parsed. */
  predicate Dated(r: Record) {
    r.createdAt.Some?
  }

  /** Among preprocessed rows, exactly the dated ones have an (hour, month)
      key. */
  lemma {:induction false} PairsOfDatedRows(rows: seq<Record>)
    requires forall i :: 0 <= i < |rows| ==> WellFormed(rows[i])
    ensures |Pairs(rows)| == CountWhere(rows, Dated)
  {
    if rows != [] {
      PairsOfDatedRows(rows[1..]);
      assert PairColumn(rows)[1..] == PairColumn(rows[1..]);
    }
  }

  /** The hour and month of a preprocessed row are among the labels. */
  lemma RowLabels(r: Record)
    requires WellFormed(r) && r.hour.Some? && r.month.Some?
    ensures r.hour.value in DayHours && r.month.value in AlphabeticalMonths
  {
    var ts := r.createdAt.value;
    assert DayHours[ts.hour] == r.hour.value;
    AlphabeticalMonthsAreMonthNames();
    assert MonthNames[ts.month - 1] == r.month.value;
  }

  /** Every key of a preprocessed row has a cell in the matrix. */
  lemma KeysHaveCells(rows: seq<Record>)
    requires forall i :: 0 <= i < |rows| ==> WellFormed(rows[i])
    ensures var g := HourMonthMatrix(rows);
      forall p :: p in Pairs(rows) ==> p in Product(g.hours, g.months)
  {
    var pairs := Pairs(rows);
    var g := HourMonthMatrix(rows);
    MatrixLabels(rows);
    forall p | p in pairs ensures p.0 in g.hours && p.1 in g.months {
      var c := PairColumn(rows);
      var i :| 0 <= i < |c| && c[i] == Some(p);
      RowLabels(rows[i]);
      var k :| 0 <= k < |pairs| && pairs[k] == p;
      assert p.0 in FirstOf(pairs) && p.1 in SecondOf(pairs);
    }
  }

  /** Over preprocessed rows the labels are exactly the hours and the month
      names that occur: no key falls outside the fixed label universes. */
  lemma MatrixLabelsOfPreprocessed(rows: seq<Record>)
    requires forall i :: 0 <= i < |rows| ==> WellFormed(rows[i])
    ensures var g := HourMonthMatrix(rows);
      && (forall h :: h in g.hours <==> h in FirstOf(Pairs(rows)))
      && (forall m :: m in g.months <==> m in SecondOf(Pairs(rows)))
  {
    var pairs := Pairs(rows);
    var g := HourMonthMatrix(rows);
    MatrixLabels(rows);
    forall k | 0 <= k < |pairs| ensures pairs[k].0 in DayHours && pairs[k].1 in AlphabeticalMonths {
      var c := PairColumn(rows);
      assert pairs[k] in Defined(c);
      var i :| 0 <= i < |c| && c[i] == Some(pairs[k]);
      RowLabels(rows[i]);
    }
  }

  /** The heatmap accounts for every dated tweet of the table, once. */
  lemma GridTotal(rows: seq<Record>)
    requires forall i :: 0 <= i < |rows| ==> WellFormed(rows[i])
    ensures GridSum(HourMonthMatrix(rows).cells) == CountWhere(rows, Dated)
  {
    var pairs := Pairs(rows);
    var g := HourMonthMatrix(rows);
    MatrixLabels(rows);
    forall i, j | 0 <= i < j < |g.months| ensures g.months[i] != g.months[j] {
      StrLessIrreflexive(g.months[i]);
    }
    GridRowsSum(g.hours, g.months, pairs);
    KeysHaveCells(rows);
    CountInCovering(pairs, Product(g.hours, g.months));
    PairsOfDatedRows(rows);
  }

  /** On the filtered table every row is dated, so the heatmap's cells add up
      to the number of filtered tweets. */
  lemma GridTotalOfFiltered(rows: seq<Record>, spec: FilterSpec)
    requires forall i :: 0 <= i < |rows| ==> WellFormed(rows[i])
    ensures GridSum(HourMonthMatrix(Filter(rows, spec)).cells) == |Filter(rows, spec)|
  {
    var kept := Filter(rows, spec);
    forall i | 0 <= i < |kept| ensures WellFormed(kept[i]) && kept[i].createdAt.Some? {
      assert kept[i] in rows;
    }
    GridTotal(kept);
    assert Pairs(kept) == Defined(PairColumn(kept));
    PairsOfDatedRows(kept);
  }
}
