/**
  A pivot with one row field, no column field and one value field buckets
  the rows the same way groupByAnalysis groups them, as long as the group
  column holds no null and no missing cell. Such a cell is where the two
  disagree: the pivot's key is written by join('|'), which gives "", while
  groupBy's key is the property key String(cell), which gives "null" or
  "undefined".
*/
module Agreement {
  import opened Cells
  import opened Aggregates
  import Pivot
  import GroupBy

  /** No row of `t` has null or undefined (a missing cell) in `column`. */
  predicate NoNullCells(t: Table, column: string) {
    forall i :: 0 <= i < |t| ==> Get(t[i], column) != Null && Get(t[i], column) != Undefined
  }

  /** Each group of `groups` as a pivot row whose only column key is "". */
  function AsPivotRows<T>(groups: map<string, T>): (r: map<string, map<string, T>>)
    ensures r.Keys == groups.Keys
  {
    map k | k in groups :: map["" := groups[k]]
  }

  /** On a present, non-null cell the pivot's row key and groupBy's key coincide. */
  lemma RowKeyIsGroupKey(row: Row, g: string)
    requires Get(row, g) != Null && Get(row, g) != Undefined
    ensures Key(row, [g]) == GroupBy.GroupKey(row, g)
  {
    assert KeyParts(row, [g]) == [JoinPart(Get(row, g))];
  }

  /** With one row field and no column field, a row's pivot keys are its group key and "". */
  lemma OneFieldLayout(row: Row, g: string, v: string)
    requires Get(row, g) != Null && Get(row, g) != Undefined
    ensures var b := Pivot.Layout([g], [], [v]);
      && b.rowKeyOf(row) == GroupBy.GroupKey(row, g)
      && b.colKeyOf(row) == ""
      && b.numbersOf(row) == [GroupBy.GroupValue(row, v)]
  {
    RowKeyIsGroupKey(row, g);
    KeyOfNoColumns(row);
  }

  /** Pushing one value into the bucket (k, "") is appending it to group k. */
  lemma AddToGroupBucket(groups: map<string, seq<real>>, k: string, x: real)
    ensures Pivot.AddToBucket(AsPivotRows(groups), k, "", [x])
      == AsPivotRows(groups[k := (if k in groups then groups[k] else []) + [x]])
  {
    var before := AsPivotRows(groups);
    var prior := if k in groups then groups[k] else [];
    assert (if k in before then before[k] else map[]) == (if k in groups then map["" := prior] else map[]);
    assert map["" := prior]["" := prior + [x]] == map["" := prior + [x]];
    assert Pivot.AddToBucket(before, k, "", [x]) == before[k := map["" := prior + [x]]];
  }

  /** With one row field and no column field, each pivot bucket is the group of the same key. */
  lemma {:induction false} BucketsAreGroups(t: Table, g: string, v: string)
    requires NoNullCells(t, g)
    ensures Pivot.FillAll(t, Pivot.Layout([g], [], [v])) == AsPivotRows(GroupBy.Groups(t, g, v))
  {
    if t != [] {
      var p := t[..|t| - 1];
      var row := t[|t| - 1];
      assert NoNullCells(p, g) by {
        assert forall i :: 0 <= i < |p| ==> p[i] == t[i];
      }
      BucketsAreGroups(p, g, v);
      OneFieldLayout(row, g, v);
      AddToGroupBucket(GroupBy.Groups(p, g, v), GroupBy.GroupKey(row, g), GroupBy.GroupValue(row, v));
    }
  }

  /** A pivot row with the one column key "" aggregates to that key's aggregate. */
  lemma AggregateSingleRow(vals: seq<real>, aggregation: string)
    requires KnownAggregation(aggregation)
    ensures Pivot.AggregateRow(map["" := vals], aggregation) == map["" := Aggregate(aggregation, vals).value]
  {
    var r := Pivot.AggregateRow(map["" := vals], aggregation);
    assert r.Keys == {""};
    assert r[""] == Pivot.PivotAggregate(aggregation, vals);
  }

  /** Aggregating groups laid out as pivot rows is laying out the aggregated groups. */
  lemma AggregateAsPivotRows(groups: map<string, seq<real>>, aggregation: string)
    requires KnownAggregation(aggregation)
    ensures Pivot.AggregateAll(AsPivotRows(groups), aggregation)
      == AsPivotRows(map k | k in groups :: Aggregate(aggregation, groups[k]).value)
  {
    var rows := AsPivotRows(groups);
    var aggregated := map k | k in groups :: Aggregate(aggregation, groups[k]).value;
    var lhs := Pivot.AggregateAll(rows, aggregation);
    var rhs := AsPivotRows(aggregated);
    assert lhs.Keys == rhs.Keys;
    forall k | k in lhs ensures lhs[k] == rhs[k] {
      AggregateSingleRow(groups[k], aggregation);
    }
  }

  /**
    A pivot on row field `g`, no column field and value field `v` holds, under
    the single column key "", exactly what groupByAnalysis gives for group
    column `g` and aggregate column `v`, for every aggregation both know.
  */
  lemma PivotMatchesGroupBy(t: Table, g: string, v: string, aggregation: string)
    requires NoNullCells(t, g)
    requires KnownAggregation(aggregation)
    ensures Pivot.PivotTable(t, [g], [], [v], aggregation) == AsPivotRows(GroupBy.GroupBy(t, g, v, aggregation))
  {
    var groups := GroupBy.Groups(t, g, v);
    BucketsAreGroups(t, g, v);
    assert Pivot.PivotTable(t, [g], [], [v], aggregation) == Pivot.AggregateAll(AsPivotRows(groups), aggregation);
    AggregateAsPivotRows(groups, aggregation);
    assert GroupBy.GroupBy(t, g, v, aggregation) == map k | k in groups :: Aggregate(aggregation, groups[k]).value;
  }

  /**
    A row without the group column: the pivot files it under the row key "",
    groupByAnalysis under "undefined".
  */
  lemma MissingGroupCellDiverges()
    ensures var t := [map["n" := Num(5)]];
      && Pivot.PivotTable(t, ["g"], [], ["n"], "sum").Keys == {""}
      && GroupBy.GroupBy(t, "g", "n", "sum").Keys == {"undefined"}
  {
    var t := [map["n" := Num(5)]];
    assert t[..0] == [];
    assert Key(t[0], ["g"]) == "" by {
      assert KeyParts(t[0], ["g"]) == [""];
    }
    assert GroupBy.GroupKey(t[0], "g") == "undefined";
    assert Pivot.FillAll(t, Pivot.Layout(["g"], [], ["n"])).Keys == {""};
    assert GroupBy.Groups(t, "g", "n").Keys == {"undefined"};
  }
}
