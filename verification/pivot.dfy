/**
  generatePivotTable: each row goes into the bucket named by its row key (the
  `rows` cells joined with '|') and its column key (the `columns` cells joined
  the same way) and contributes one number per name in `values`, namely
  `Number(row[val]) || 0`. Every bucket is then replaced by its aggregate; an
  aggregation the switch does not know falls back to the count.
*/
module Pivot {
  import opened Wrappers
  import opened Cells
  import opened Aggregates
  import opened Counting

  type Buckets = map<string, map<string, seq<real>>>

  /**
    How rows are bucketed: the row key, the column key and the numbers each row
    contributes. The bucket theory below depends on nothing else, so it takes
    these as functions; `Layout` gives the ones the source computes.
  */
  datatype Bucketing = Bucketing(rowKeyOf: Row -> string, colKeyOf: Row -> string, numbersOf: Row -> seq<real>)

  /** The numbers one row contributes to its bucket, one per name in `values`. */
  function RowNumbers(row: Row, values: seq<string>): seq<real> {
    seq(|values|, k requires 0 <= k < |values| => NumberOrZero(Get(row, values[k])))
  }

  /** The bucketing of generatePivotTable for the given configuration. */
  function Layout(rows: seq<string>, columns: seq<string>, values: seq<string>): (b: Bucketing)
    ensures forall row :: |b.numbersOf(row)| == |values|
  {
    Bucketing(KeyFunction(rows), KeyFunction(columns), row => RowNumbers(row, values))
  }

  /** The buckets with `nums` appended to bucket (rowKey, colKey), creating it and its row as needed. */
  function AddToBucket(pivot: Buckets, rowKey: string, colKey: string, nums: seq<real>): Buckets {
    var inner := if rowKey in pivot then pivot[rowKey] else map[];
    var bucket := if colKey in inner then inner[colKey] else [];
    pivot[rowKey := inner[colKey := bucket + nums]]
  }

  /** The buckets after the rows of `t`, taken in order. */
  function FillAll(t: Table, b: Bucketing): Buckets {
    if t == [] then map[]
    else
      var row := t[|t| - 1];
      AddToBucket(FillAll(t[..|t| - 1], b), b.rowKeyOf(row), b.colKeyOf(row), b.numbersOf(row))
  }

  /** The numbers of the rows of `t` whose keys are (rowKey, colKey), in row order. */
  function BucketOf(t: Table, b: Bucketing, rowKey: string, colKey: string): seq<real> {
    if t == [] then []
    else
      var row := t[|t| - 1];
      BucketOf(t[..|t| - 1], b, rowKey, colKey)
        + if b.rowKeyOf(row) == rowKey && b.colKeyOf(row) == colKey then b.numbersOf(row) else []
  }

  /** Some row of `t` has row key `rowKey`. */
  predicate HasRowKey(t: Table, b: Bucketing, rowKey: string) {
    exists i :: 0 <= i < |t| && b.rowKeyOf(t[i]) == rowKey
  }

  /** Some row of `t` has keys (rowKey, colKey). */
  predicate HasKeys(t: Table, b: Bucketing, rowKey: string, colKey: string) {
    exists i :: 0 <= i < |t| && b.rowKeyOf(t[i]) == rowKey && b.colKeyOf(t[i]) == colKey
  }

  /** Rows with other keys contribute nothing to a bucket. */
  lemma {:induction false} BucketOfAbsent(t: Table, b: Bucketing, rowKey: string, colKey: string)
    requires !HasKeys(t, b, rowKey, colKey)
    ensures BucketOf(t, b, rowKey, colKey) == []
  {
    if t != [] {
      var p := t[..|t| - 1];
      assert forall i :: 0 <= i < |p| ==> p[i] == t[i];
      BucketOfAbsent(p, b, rowKey, colKey);
    }
  }

  /** There is a row entry for exactly the row keys that occur. */
  lemma {:induction false} FillAllRowKeys(t: Table, b: Bucketing)
    ensures forall rowKey :: rowKey in FillAll(t, b) <==> HasRowKey(t, b, rowKey)
  {
    if t != [] {
      var p := t[..|t| - 1];
      FillAllRowKeys(p, b);
      assert forall i :: 0 <= i < |p| ==> p[i] == t[i];
      var rk := b.rowKeyOf(t[|t| - 1]);
      forall rowKey ensures rowKey in FillAll(t, b) <==> HasRowKey(t, b, rowKey) {
        if rowKey != rk && HasRowKey(t, b, rowKey) {
          var i :| 0 <= i < |t| && b.rowKeyOf(t[i]) == rowKey;
          assert i < |p| && b.rowKeyOf(p[i]) == rowKey;
        }
      }
    }
  }

  /** Within a row entry there is a bucket for exactly the key pairs that occur. */
  lemma {:induction false} FillAllColKeys(t: Table, b: Bucketing)
    ensures forall rowKey, colKey :: rowKey in FillAll(t, b) ==>
      (colKey in FillAll(t, b)[rowKey] <==> HasKeys(t, b, rowKey, colKey))
  {
    if t != [] {
      var p := t[..|t| - 1];
      FillAllColKeys(p, b);
      FillAllRowKeys(p, b);
      assert forall i :: 0 <= i < |p| ==> p[i] == t[i];
      var row := t[|t| - 1];
      var rk, ck := b.rowKeyOf(row), b.colKeyOf(row);
      assert FillAll(t, b) == AddToBucket(FillAll(p, b), rk, ck, b.numbersOf(row));
      forall rowKey, colKey | rowKey in FillAll(t, b)
        ensures colKey in FillAll(t, b)[rowKey] <==> HasKeys(t, b, rowKey, colKey)
      {
        if rowKey == rk && colKey == ck {
          assert b.rowKeyOf(t[|t| - 1]) == rk && b.colKeyOf(t[|t| - 1]) == ck;
        } else if HasKeys(t, b, rowKey, colKey) {
          var i :| 0 <= i < |t| && b.rowKeyOf(t[i]) == rowKey && b.colKeyOf(t[i]) == colKey;
          assert i < |p| && b.rowKeyOf(p[i]) == rowKey && b.colKeyOf(p[i]) == colKey;
        }
      }
    }
  }

  /** Each bucket holds the numbers of exactly the rows with its keys, in row order. */
  lemma {:induction false} FillAllBuckets(t: Table, b: Bucketing)
    ensures forall rowKey, colKey :: rowKey in FillAll(t, b) && colKey in FillAll(t, b)[rowKey] ==>
      FillAll(t, b)[rowKey][colKey] == BucketOf(t, b, rowKey, colKey)
  {
    if t != [] {
      var p := t[..|t| - 1];
      var row := t[|t| - 1];
      FillAllBuckets(p, b);
      var before := FillAll(p, b);
      var rk, ck := b.rowKeyOf(row), b.colKeyOf(row);
      assert FillAll(t, b) == AddToBucket(before, rk, ck, b.numbersOf(row));
      if !(rk in before && ck in before[rk]) {
        FillAllRowKeys(p, b);
        FillAllColKeys(p, b);
        BucketOfAbsent(p, b, rk, ck);
      }
      forall rowKey, colKey | rowKey in FillAll(t, b) && colKey in FillAll(t, b)[rowKey]
        ensures FillAll(t, b)[rowKey][colKey] == BucketOf(t, b, rowKey, colKey)
      {
        if rowKey != rk || colKey != ck {
          assert BucketOf(t, b, rowKey, colKey) == BucketOf(p, b, rowKey, colKey) + [];
        }
      }
    }
  }

  /**
    There is a row entry for exactly the row keys that occur, a bucket for
    exactly the key pairs that occur, and each bucket holds the numbers of
    exactly the rows with its keys, in row order.
  */
  lemma FillAllIsBucketOf(t: Table, b: Bucketing)
    ensures forall rowKey :: rowKey in FillAll(t, b) <==> HasRowKey(t, b, rowKey)
    ensures forall rowKey, colKey :: rowKey in FillAll(t, b) ==>
      (colKey in FillAll(t, b)[rowKey] <==> HasKeys(t, b, rowKey, colKey))
    ensures forall rowKey, colKey :: rowKey in FillAll(t, b) && colKey in FillAll(t, b)[rowKey] ==>
      FillAll(t, b)[rowKey][colKey] == BucketOf(t, b, rowKey, colKey)
  {
    FillAllRowKeys(t, b);
    FillAllColKeys(t, b);
    FillAllBuckets(t, b);
  }

  /** The number of entries of every bucket, summed per row key. */
  ghost function RowTotals(pivot: Buckets): (r: map<string, real>)
    ensures r.Keys == pivot.Keys
  {
    map rowKey | rowKey in pivot :: MapSum(Sizes(pivot[rowKey]))
  }

  /** Adding `nums` to one bucket adds |nums| to the total. */
  lemma AddToBucketTotal(pivot: Buckets, rowKey: string, colKey: string, nums: seq<real>)
    ensures MapSum(RowTotals(AddToBucket(pivot, rowKey, colKey, nums))) == MapSum(RowTotals(pivot)) + |nums| as real
  {
    var inner := if rowKey in pivot then pivot[rowKey] else map[];
    var bucket := if colKey in inner then inner[colKey] else [];
    var inner' := inner[colKey := bucket + nums];
    assert Sizes(inner') == Sizes(inner)[colKey := |bucket + nums| as real];
    MapSumUpdate(Sizes(inner), colKey, |bucket + nums| as real);
    assert MapSum(Sizes(inner')) == MapSum(Sizes(inner)) + |nums| as real;
    assert RowTotals(AddToBucket(pivot, rowKey, colKey, nums)) == RowTotals(pivot)[rowKey := MapSum(Sizes(inner'))];
    MapSumUpdate(RowTotals(pivot), rowKey, MapSum(Sizes(inner')));
    if rowKey !in pivot {
      assert Sizes(inner) == map[];
    }
  }

  lemma ProductStep(n: nat, w: nat)
    ensures ((n + 1) * w) as real == (n * w) as real + w as real
  {
  }

  /** When every row contributes `width` numbers, the buckets hold |t| * width numbers in all. */
  lemma {:induction false} BucketSizesSum(t: Table, b: Bucketing, width: nat)
    requires forall row :: |b.numbersOf(row)| == width
    ensures MapSum(RowTotals(FillAll(t, b))) == (|t| * width) as real
  {
    if t != [] {
      var p := t[..|t| - 1];
      var row := t[|t| - 1];
      BucketSizesSum(p, b, width);
      var before, nums := FillAll(p, b), b.numbersOf(row);
      assert FillAll(t, b) == AddToBucket(before, b.rowKeyOf(row), b.colKeyOf(row), nums);
      AddToBucketTotal(before, b.rowKeyOf(row), b.colKeyOf(row), nums);
      assert |nums| == width;
      ProductStep(|p|, width);
    }
  }

  /** The value a bucket is replaced with: the switch, where an unknown aggregation counts. */
  function PivotAggregate(aggregation: string, vals: seq<real>): (r: JsNumber)
    ensures !KnownAggregation(aggregation) ==> r == Finite(|vals| as real)
    ensures KnownAggregation(aggregation) ==> Some(r) == Aggregate(aggregation, vals)
  {
    match Aggregate(aggregation, vals)
    case Some(x) => x
    case None => Finite(|vals| as real)
  }

  /** One row of the pivot with every bucket aggregated. */
  function AggregateRow(inner: map<string, seq<real>>, aggregation: string): (r: map<string, JsNumber>)
    ensures r.Keys == inner.Keys
  {
    map colKey | colKey in inner :: PivotAggregate(aggregation, inner[colKey])
  }

  /** Every bucket of `pivot` aggregated. */
  function AggregateAll(pivot: Buckets, aggregation: string): (r: map<string, map<string, JsNumber>>)
    ensures r.Keys == pivot.Keys
  {
    map rowKey | rowKey in pivot :: AggregateRow(pivot[rowKey], aggregation)
  }

  /** The result of generatePivotTable. */
  function PivotTable(t: Table, rows: seq<string>, columns: seq<string>, values: seq<string>, aggregation: string)
    : map<string, map<string, JsNumber>>
  {
    AggregateAll(FillAll(t, Layout(rows, columns, values)), aggregation)
  }

  /** The sum of the finite cells of a pivot, row by row. */
  ghost function PivotTotal(pivot: map<string, map<string, JsNumber>>): real {
    MapSum(map rowKey | rowKey in pivot :: MapSum(FiniteValues(pivot[rowKey])))
  }

  /**
    Under "count", or an aggregation the switch does not know, the cells of
    the pivot add up to the number of rows times the number of value columns.
  */
  lemma PivotCountsSumToCells(t: Table, rows: seq<string>, columns: seq<string>, values: seq<string>, aggregation: string)
    requires aggregation == "count" || !KnownAggregation(aggregation)
    ensures PivotTotal(PivotTable(t, rows, columns, values, aggregation)) == (|t| * |values|) as real
  {
    var b := Layout(rows, columns, values);
    var pivot := FillAll(t, b);
    var result := AggregateAll(pivot, aggregation);
    forall rowKey | rowKey in pivot ensures FiniteValues(result[rowKey]) == Sizes(pivot[rowKey]) {
      assert FiniteValues(result[rowKey]).Keys == Sizes(pivot[rowKey]).Keys;
    }
    assert (map rowKey | rowKey in result :: MapSum(FiniteValues(result[rowKey]))) == RowTotals(pivot);
    BucketSizesSum(t, b, |values|);
  }

  /** The pivot has a bucket for exactly the (row key, column key) pairs of the input rows. */
  lemma PivotCells(t: Table, rows: seq<string>, columns: seq<string>, values: seq<string>, aggregation: string)
    ensures var r := PivotTable(t, rows, columns, values, aggregation);
      && (forall rowKey :: rowKey in r <==> exists i :: 0 <= i < |t| && Key(t[i], rows) == rowKey)
      && (forall rowKey, colKey :: rowKey in r ==>
            (colKey in r[rowKey] <==> exists i :: 0 <= i < |t| && Key(t[i], rows) == rowKey && Key(t[i], columns) == colKey))
  {
    var b := Layout(rows, columns, values);
    FillAllRowKeys(t, b);
    FillAllColKeys(t, b);
    assert forall i :: 0 <= i < |t| ==> b.rowKeyOf(t[i]) == Key(t[i], rows) && b.colKeyOf(t[i]) == Key(t[i], columns);
  }

  /** Each pivot cell is the aggregate of the numbers of exactly the rows with its keys. */
  lemma PivotCellValues(t: Table, rows: seq<string>, columns: seq<string>, values: seq<string>, aggregation: string)
    ensures var r := PivotTable(t, rows, columns, values, aggregation);
      forall rowKey, colKey :: rowKey in r && colKey in r[rowKey] ==>
        r[rowKey][colKey] == PivotAggregate(aggregation, BucketOf(t, Layout(rows, columns, values), rowKey, colKey))
  {
    FillAllIsBucketOf(t, Layout(rows, columns, values));
  }

  /**
    One step of the first pass, for a row with keys (rowKey, colKey): creates
    the pivot row and the bucket if needed, then pushes the row's numbers.
  */
  method AddRow(pivot: Buckets, rowKey: string, colKey: string, row: Row, values: seq<string>)
    returns (pivot': Buckets)
    ensures pivot' == AddToBucket(pivot, rowKey, colKey, RowNumbers(row, values))
  {
    ghost var nums := RowNumbers(row, values);
    ghost var inner := if rowKey in pivot then pivot[rowKey] else map[];
    ghost var start := if colKey in inner then inner[colKey] else [];
    pivot' := pivot;
    if rowKey !in pivot' {
      pivot' := pivot'[rowKey := map[]];
    }
    assert pivot'[rowKey] == inner;
    if colKey !in pivot'[rowKey] {
      pivot' := pivot'[rowKey := pivot'[rowKey][colKey := []]];
    }
    assert pivot'[rowKey] == inner[colKey := start];
    assert pivot' == pivot[rowKey := inner[colKey := start]];
    assert start + nums[..0] == start;
    var k := 0;
    while k < |values|
      invariant 0 <= k <= |values|
      invariant pivot' == pivot[rowKey := inner[colKey := start + nums[..k]]]
    {
      var bucket := pivot'[rowKey][colKey] + [NumberOrZero(Get(row, values[k]))];
      assert start + nums[..k + 1] == start + nums[..k] + [NumberOrZero(Get(row, values[k]))];
      assert inner[colKey := start + nums[..k]][colKey := bucket] == inner[colKey := bucket];
      pivot' := pivot'[rowKey := pivot'[rowKey][colKey := bucket]];
      k := k + 1;
    }
    assert nums[..k] == nums;
  }

  /** The first pass of generatePivotTable. */
  method FillBuckets(data: Table, rows: seq<string>, columns: seq<string>, values: seq<string>) returns (pivot: Buckets)
    ensures pivot == FillAll(data, Layout(rows, columns, values))
  {
    ghost var b := Layout(rows, columns, values);
    pivot := map[];
    var i := 0;
    while i < |data|
      invariant 0 <= i <= |data|
      invariant pivot == FillAll(data[..i], b)
    {
      assert data[..i + 1][..i] == data[..i];
      var rowKey := Key(data[i], rows);
      var colKey := Key(data[i], columns);
      pivot := AddRow(pivot, rowKey, colKey, data[i], values);
      i := i + 1;
    }
    assert data[..i] == data;
  }

  /** Replaces every bucket of one pivot row by its aggregate. */
  method AggregateBuckets(inner: map<string, seq<real>>, aggregation: string) returns (result: map<string, JsNumber>)
    ensures result == AggregateRow(inner, aggregation)
  {
    result := map[];
    var pending := inner.Keys;
    while pending != {}
      invariant pending <= inner.Keys
      invariant result == map colKey | colKey in inner && colKey !in pending :: PivotAggregate(aggregation, inner[colKey])
      decreases |pending|
    {
      var colKey :| colKey in pending;
      result := result[colKey := PivotAggregate(aggregation, inner[colKey])];
      pending := pending - {colKey};
    }
  }

  /** The second pass of generatePivotTable: every row of buckets aggregated. */
  method AggregatePivot(pivot: Buckets, aggregation: string) returns (result: map<string, map<string, JsNumber>>)
    ensures result == AggregateAll(pivot, aggregation)
  {
    result := map[];
    var pending := pivot.Keys;
    while pending != {}
      invariant pending <= pivot.Keys
      invariant result == map rowKey | rowKey in pivot && rowKey !in pending :: AggregateRow(pivot[rowKey], aggregation)
      decreases |pending|
    {
      var rowKey :| rowKey in pending;
      var aggregated := AggregateBuckets(pivot[rowKey], aggregation);
      result := result[rowKey := aggregated];
      pending := pending - {rowKey};
    }
  }

  /** generatePivotTable, as the source runs it: fill the buckets, then aggregate them. */
  method GeneratePivotTable(data: Table, rows: seq<string>, columns: seq<string>, values: seq<string>, aggregation: string)
    returns (result: map<string, map<string, JsNumber>>)
    ensures result == PivotTable(data, rows, columns, values, aggregation)
  {
    var pivot := FillBuckets(data, rows, columns, values);
    result := AggregatePivot(pivot, aggregation);
  }
}
