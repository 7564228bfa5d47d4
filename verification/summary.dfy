/**
  generateSummary: for every column of the first row, the number of present
  cells (not null, undefined or ""), the number of distinct present cells,
  the number of missing ones and, when some present cell is a number under
  Number(), the min, max, average and sum of those numbers.
*/
module Summary {
  import opened Wrappers
  import opened Cells
  import opened Aggregates
  import opened Seqs

  datatype Stats = Stats(min: real, max: real, avg: real, sum: real)

  datatype ColumnSummary = ColumnSummary(count: nat, unique: nat, nullCount: int, stats: Option<Stats>)

  /** `data.map(row => row[col])`. */
  function Column(t: Table, column: string): seq<Cell> {
    seq(|t|, i requires 0 <= i < |t| => Get(t[i], column))
  }

  /** The cells that are not null, undefined or "", in order. */
  function Present(cells: seq<Cell>): (r: seq<Cell>)
    ensures |r| <= |cells|
    ensures forall c :: c in r <==> c in cells && !IsMissing(c)
  {
    if cells == [] then []
    else if IsMissing(cells[0]) then Present(cells[1..])
    else [cells[0]] + Present(cells[1..])
  }

  /**
    Present is the filter: a subsequence of the column that keeps each present
    value exactly as often as the column holds it, and no missing one.
  */
  lemma {:induction false} PresentIsFilter(cells: seq<Cell>)
    ensures IsSubsequence(Present(cells), cells)
    ensures forall c :: multiset(Present(cells))[c] == if IsMissing(c) then 0 else multiset(cells)[c]
  {
    if cells != [] {
      PresentIsFilter(cells[1..]);
      var rest := Present(cells[1..]);
      assert cells == [cells[0]] + cells[1..];
      if !IsMissing(cells[0]) {
        assert ([cells[0]] + rest)[1..] == rest;
      }
    }
  }

  /** The number of cells that are null, undefined or "". */
  function MissingCount(cells: seq<Cell>): nat {
    if cells == [] then 0
    else (if IsMissing(cells[0]) then 1 else 0) + MissingCount(cells[1..])
  }

  /** The values Number() gives for the cells it does not read as NaN, in order. */
  function Numbers(cells: seq<Cell>): (r: seq<real>)
    ensures |r| <= |cells|
    ensures r == [] <==> forall k :: 0 <= k < |cells| ==> ToNumber(cells[k]).None?
    ensures forall k :: 0 <= k < |cells| && ToNumber(cells[k]).Some? ==> ToNumber(cells[k]).value in r
  {
    if cells == [] then []
    else
      var rest := Numbers(cells[1..]);
      assert forall k :: 1 <= k < |cells| ==> cells[k] == cells[1..][k - 1];
      match ToNumber(cells[0])
      case Some(x) => [x] + rest
      case None => rest
  }

  /** Every entry of the number list is Number() of some cell. */
  lemma {:induction false} NumbersOnlyFromCells(cells: seq<Cell>)
    ensures forall x :: x in Numbers(cells) ==> exists k :: 0 <= k < |cells| && ToNumber(cells[k]) == Some(x)
  {
    if cells != [] {
      NumbersOnlyFromCells(cells[1..]);
      forall x | x in Numbers(cells[1..])
        ensures exists k :: 0 <= k < |cells| && ToNumber(cells[k]) == Some(x)
      {
        var k :| 0 <= k < |cells| - 1 && ToNumber(cells[1..][k]) == Some(x);
        assert cells[1..][k] == cells[k + 1];
      }
    }
  }

  /** A present cell that Number() reads as a number. */
  predicate NumericPresent(c: Cell) {
    !IsMissing(c) && ToNumber(c).Some?
  }

  /** The numbers of the present numeric cells, in column order, in one pass. */
  function NumericValues(cells: seq<Cell>): seq<real> {
    if cells == [] then []
    else (if NumericPresent(cells[0]) then [ToNumber(cells[0]).value] else []) + NumericValues(cells[1..])
  }

  /** Dropping the missing cells and then the NaNs is taking the present numeric cells. */
  lemma {:induction false} NumbersOfPresentAreNumericValues(cells: seq<Cell>)
    ensures Numbers(Present(cells)) == NumericValues(cells)
  {
    if cells != [] {
      NumbersOfPresentAreNumericValues(cells[1..]);
      var rest := Present(cells[1..]);
      if !IsMissing(cells[0]) {
        assert ([cells[0]] + rest)[1..] == rest;
      }
    }
  }

  /** The summary of one column. */
  function SummarizeColumn(t: Table, column: string): ColumnSummary {
    var values := Present(Column(t, column));
    var nums := Numbers(values);
    ColumnSummary(
      |values|,
      |set c | c in values|,
      |t| - |values|,
      if nums == [] then None else Some(Stats(Min(nums), Max(nums), Average(nums), Sum(nums))))
  }

  /** generateSummary: an empty table has an empty summary; otherwise one entry per column of the first row. */
  function GenerateSummary(t: Table): (r: map<string, ColumnSummary>)
    ensures t == [] ==> r == map[]
    ensures t != [] ==> r.Keys == t[0].Keys
  {
    if t == [] then map[]
    else map column | column in t[0] :: SummarizeColumn(t, column)
  }

  /** Every cell is either present or missing. */
  lemma {:induction false} PresentPlusMissing(cells: seq<Cell>)
    ensures |Present(cells)| + MissingCount(cells) == |cells|
  {
    if cells != [] {
      PresentPlusMissing(cells[1..]);
    }
  }

  /** A sequence has no more distinct elements than entries. */
  lemma {:induction false} DistinctAtMostLength<T>(s: seq<T>)
    ensures |set x | x in s| <= |s|
  {
    if s != [] {
      DistinctAtMostLength(s[1..]);
      assert (set x | x in s) == (set x | x in s[1..]) + {s[0]};
    }
  }

  /** A non-empty sequence has at least one distinct element. */
  lemma DistinctAtLeastOne<T>(s: seq<T>)
    requires s != []
    ensures |set x | x in s| >= 1
  {
    var distinct := set x | x in s;
    assert distinct == {s[0]} + (distinct - {s[0]});
  }

  /**
    For every column of the first row: nullCount is the number of rows whose
    cell is missing, so count + nullCount is the number of rows, and unique is
    at most count (and at least 1 when count is not 0).
  */
  lemma SummaryCounts(t: Table, column: string)
    requires t != [] && column in t[0]
    ensures var s := GenerateSummary(t)[column];
      && s.nullCount == MissingCount(Column(t, column))
      && s.count + s.nullCount == |t|
      && s.unique <= s.count
      && (s.count > 0 ==> s.unique >= 1)
  {
    var values := Present(Column(t, column));
    PresentPlusMissing(Column(t, column));
    DistinctAtMostLength(values);
    if values != [] {
      DistinctAtLeastOne(values);
    }
  }

  /** The entry for a column of the first row is that column's summary. */
  lemma SummaryEntry(t: Table, column: string)
    requires t != [] && column in t[0]
    ensures GenerateSummary(t)[column] == SummarizeColumn(t, column)
  {
  }

  /** The number of a present numeric cell is in the column's number list. */
  lemma NumericCellInNumbers(cells: seq<Cell>, i: nat)
    requires i < |cells| && NumericPresent(cells[i])
    ensures ToNumber(cells[i]).value in Numbers(Present(cells))
  {
    var values := Present(cells);
    assert cells[i] in values;
    var k :| 0 <= k < |values| && values[k] == cells[i];
  }

  /** Some present cell is a number exactly when the list of numbers is not empty. */
  lemma NumbersOfPresent(cells: seq<Cell>)
    ensures Numbers(Present(cells)) != [] <==> exists i :: 0 <= i < |cells| && NumericPresent(cells[i])
  {
    var values := Present(cells);
    if i :| 0 <= i < |cells| && NumericPresent(cells[i]) {
      assert cells[i] in values;
    }
    if Numbers(values) != [] {
      var k :| 0 <= k < |values| && ToNumber(values[k]).Some?;
      assert values[k] in cells;
    }
  }

  /** The statistics are there exactly when some present cell of the column is a number. */
  lemma SummaryStatsPresent(t: Table, column: string)
    requires t != [] && column in t[0]
    ensures GenerateSummary(t)[column].stats.Some? <==>
      exists i :: 0 <= i < |t| && NumericPresent(Get(t[i], column))
  {
    var cells := Column(t, column);
    SummaryEntry(t, column);
    NumbersOfPresent(cells);
    if i :| 0 <= i < |t| && NumericPresent(Get(t[i], column)) {
      assert NumericPresent(cells[i]);
    }
  }

  /** When there are statistics, min and max bound every number in the column. */
  lemma SummaryStatsBounds(t: Table, column: string)
    requires t != [] && column in t[0]
    requires GenerateSummary(t)[column].stats.Some?
    ensures var st := GenerateSummary(t)[column].stats.value;
      forall i :: 0 <= i < |t| && NumericPresent(Get(t[i], column)) ==>
        st.min <= ToNumber(Get(t[i], column)).value <= st.max
  {
    var cells := Column(t, column);
    var values := Present(cells);
    var nums := Numbers(values);
    assert GenerateSummary(t)[column].stats.value == Stats(Min(nums), Max(nums), Average(nums), Sum(nums));
    forall i | 0 <= i < |t| && NumericPresent(Get(t[i], column))
      ensures Min(nums) <= ToNumber(Get(t[i], column)).value <= Max(nums)
    {
      assert cells[i] == Get(t[i], column);
      NumericCellInNumbers(cells, i);
      var j :| 0 <= j < |nums| && nums[j] == ToNumber(cells[i]).value;
    }
  }

  /** Every number in the one-pass list comes from a present numeric cell. */
  lemma {:induction false} NumericValueFromCell(cells: seq<Cell>, x: real)
    requires x in NumericValues(cells)
    ensures exists i :: 0 <= i < |cells| && NumericPresent(cells[i]) && ToNumber(cells[i]).value == x
  {
    if !(NumericPresent(cells[0]) && ToNumber(cells[0]).value == x) {
      NumericValueFromCell(cells[1..], x);
      var i :| 0 <= i < |cells| - 1 && NumericPresent(cells[1..][i]) && ToNumber(cells[1..][i]).value == x;
      assert cells[1..][i] == cells[i + 1];
    }
  }

  /** A number some cell of the column gives is a number some row's cell gives. */
  lemma AttainedInColumn(t: Table, column: string, x: real)
    requires exists i :: 0 <= i < |t| && NumericPresent(Column(t, column)[i]) && ToNumber(Column(t, column)[i]).value == x
    ensures exists i :: 0 <= i < |t| && NumericPresent(Get(t[i], column)) && ToNumber(Get(t[i], column)).value == x
  {
    var i :| 0 <= i < |t| && NumericPresent(Column(t, column)[i]) && ToNumber(Column(t, column)[i]).value == x;
    assert Column(t, column)[i] == Get(t[i], column);
  }

  /** When there are statistics, min and max are each the number of some present numeric cell. */
  lemma SummaryMinMaxAttained(t: Table, column: string)
    requires t != [] && column in t[0]
    requires GenerateSummary(t)[column].stats.Some?
    ensures var st := GenerateSummary(t)[column].stats.value;
      && (exists i :: 0 <= i < |t| && NumericPresent(Get(t[i], column)) && ToNumber(Get(t[i], column)).value == st.min)
      && (exists i :: 0 <= i < |t| && NumericPresent(Get(t[i], column)) && ToNumber(Get(t[i], column)).value == st.max)
  {
    var cells := Column(t, column);
    var nums := Numbers(Present(cells));
    assert GenerateSummary(t)[column].stats.value == Stats(Min(nums), Max(nums), Average(nums), Sum(nums));
    assert Min(nums) in nums && Max(nums) in nums;
    NumbersOfPresentAreNumericValues(cells);
    NumericValueFromCell(cells, Min(nums));
    AttainedInColumn(t, column, Min(nums));
    NumericValueFromCell(cells, Max(nums));
    AttainedInColumn(t, column, Max(nums));
  }

  /**
    When there are statistics, sum adds up the numbers of the present numeric
    cells in column order, and avg is that sum divided by how many there are.
  */
  lemma SummarySumAndAverage(t: Table, column: string)
    requires t != [] && column in t[0]
    requires GenerateSummary(t)[column].stats.Some?
    ensures var st := GenerateSummary(t)[column].stats.value;
      var nums := NumericValues(Column(t, column));
      && nums != []
      && st.sum == Sum(nums)
      && st.avg == Sum(nums) / |nums| as real
  {
    SummaryEntry(t, column);
    NumbersOfPresentAreNumericValues(Column(t, column));
  }

  /** When there are statistics, the average lies between min and max. */
  lemma SummaryAverageBetween(t: Table, column: string)
    requires t != [] && column in t[0]
    requires GenerateSummary(t)[column].stats.Some?
    ensures var st := GenerateSummary(t)[column].stats.value;
      st.min <= st.avg <= st.max
  {
    SummaryEntry(t, column);
    AverageBetween(Numbers(Present(Column(t, column))));
  }
}
