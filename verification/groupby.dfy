/**
  groupByAnalysis: puts `Number(row[aggregateColumn]) || 0` of every row into
  the group named by `row[groupColumn]`, then reduces each group with the
  chosen operation. The groups live in a plain object, so the group name is
  the property key String(row[groupColumn]).
*/
module GroupBy {
  import opened Wrappers
  import opened Cells
  import opened Aggregates
  import opened Counting

  /** The property key a row is grouped under. */
  function GroupKey(row: Row, groupColumn: string): string {
    JsString(Get(row, groupColumn))
  }

  /** The number a row contributes: `Number(row[aggregateColumn]) || 0`. */
  function GroupValue(row: Row, aggregateColumn: string): real {
    NumberOrZero(Get(row, aggregateColumn))
  }

  /** The groups after the rows of `t`, taken in order: each row's value is appended to its key's list. */
  function Groups(t: Table, groupColumn: string, aggregateColumn: string): map<string, seq<real>> {
    if t == [] then map[]
    else
      var groups := Groups(t[..|t| - 1], groupColumn, aggregateColumn);
      var row := t[|t| - 1];
      var k := GroupKey(row, groupColumn);
      groups[k := (if k in groups then groups[k] else []) + [GroupValue(row, aggregateColumn)]]
  }

  /** The values of the rows of `t` whose key is `k`, in row order. */
  function ValuesWithKey(t: Table, groupColumn: string, aggregateColumn: string, k: string): seq<real> {
    if t == [] then []
    else
      var row := t[|t| - 1];
      ValuesWithKey(t[..|t| - 1], groupColumn, aggregateColumn, k)
        + if GroupKey(row, groupColumn) == k then [GroupValue(row, aggregateColumn)] else []
  }

  /** The result of groupByAnalysis: every group reduced by `operation`; nothing for an unknown operation. */
  function GroupBy(t: Table, groupColumn: string, aggregateColumn: string, operation: string): (r: map<string, JsNumber>)
    ensures !KnownAggregation(operation) ==> r == map[]
    ensures KnownAggregation(operation) ==> r.Keys == Groups(t, groupColumn, aggregateColumn).Keys
  {
    var groups := Groups(t, groupColumn, aggregateColumn);
    map k | k in groups && KnownAggregation(operation) :: Aggregate(operation, groups[k]).value
  }

  /**
    Each group holds exactly the values of the rows with its key, in row order,
    and there is a group for exactly the keys that occur: every row is in one
    group and in no other.
  */
  lemma {:induction false} GroupsAreRowsWithKey(t: Table, groupColumn: string, aggregateColumn: string)
    ensures forall k :: k in Groups(t, groupColumn, aggregateColumn) <==>
      exists i :: 0 <= i < |t| && GroupKey(t[i], groupColumn) == k
    ensures forall k :: k in Groups(t, groupColumn, aggregateColumn) ==>
      Groups(t, groupColumn, aggregateColumn)[k] == ValuesWithKey(t, groupColumn, aggregateColumn, k)
  {
    if t != [] {
      var p := t[..|t| - 1];
      GroupsAreRowsWithKey(p, groupColumn, aggregateColumn);
      assert forall i :: 0 <= i < |p| ==> p[i] == t[i];
      forall k | k !in Groups(p, groupColumn, aggregateColumn)
        ensures ValuesWithKey(p, groupColumn, aggregateColumn, k) == []
      {
        ValuesWithoutKey(p, groupColumn, aggregateColumn, k);
      }
    }
  }

  /** A key no row has collects no values. */
  lemma {:induction false} ValuesWithoutKey(t: Table, groupColumn: string, aggregateColumn: string, k: string)
    requires forall i :: 0 <= i < |t| ==> GroupKey(t[i], groupColumn) != k
    ensures ValuesWithKey(t, groupColumn, aggregateColumn, k) == []
  {
    if t != [] {
      var p := t[..|t| - 1];
      assert forall i :: 0 <= i < |p| ==> p[i] == t[i];
      ValuesWithoutKey(p, groupColumn, aggregateColumn, k);
    }
  }

  /** The group sizes add up to the number of rows. */
  lemma {:induction false} GroupSizesSumToRows(t: Table, groupColumn: string, aggregateColumn: string)
    ensures MapSum(Sizes(Groups(t, groupColumn, aggregateColumn))) == |t| as real
  {
    if t != [] {
      var p := t[..|t| - 1];
      GroupSizesSumToRows(p, groupColumn, aggregateColumn);
      var groups := Groups(p, groupColumn, aggregateColumn);
      var k := GroupKey(t[|t| - 1], groupColumn);
      var s := (if k in groups then groups[k] else []) + [GroupValue(t[|t| - 1], aggregateColumn)];
      assert Sizes(groups[k := s]) == Sizes(groups)[k := |s| as real];
      MapSumUpdate(Sizes(groups), k, |s| as real);
    }
  }

  /** Under "count" the group counts add up to the number of rows. */
  lemma GroupCountsSumToRows(t: Table, groupColumn: string, aggregateColumn: string)
    ensures MapSum(FiniteValues(GroupBy(t, groupColumn, aggregateColumn, "count"))) == |t| as real
  {
    GroupSizesSumToRows(t, groupColumn, aggregateColumn);
    assert FiniteValues(GroupBy(t, groupColumn, aggregateColumn, "count")) == Sizes(Groups(t, groupColumn, aggregateColumn));
  }

  /** The first pass of groupByAnalysis: appends each row's value to its group. */
  method FillGroups(data: Table, groupColumn: string, aggregateColumn: string)
    returns (groups: map<string, seq<real>>)
    ensures groups == Groups(data, groupColumn, aggregateColumn)
  {
    groups := map[];
    var i := 0;
    while i < |data|
      invariant 0 <= i <= |data|
      invariant groups == Groups(data[..i], groupColumn, aggregateColumn)
    {
      assert data[..i + 1][..i] == data[..i];
      var groupKey := GroupKey(data[i], groupColumn);
      if groupKey !in groups {
        groups := groups[groupKey := []];
      }
      groups := groups[groupKey := groups[groupKey] + [GroupValue(data[i], aggregateColumn)]];
      i := i + 1;
    }
    assert data[..i] == data;
  }

  /** The second pass: assigns each group's aggregate; an unknown operation assigns nothing. */
  method ReduceGroups(groups: map<string, seq<real>>, operation: string) returns (result: map<string, JsNumber>)
    ensures result == map k | k in groups && KnownAggregation(operation) :: Aggregate(operation, groups[k]).value
  {
    result := map[];
    var pending := groups.Keys;
    while pending != {}
      invariant pending <= groups.Keys
      invariant result == map k | k in groups && k !in pending && KnownAggregation(operation) :: Aggregate(operation, groups[k]).value
      decreases |pending|
    {
      var key :| key in pending;
      var value := Aggregate(operation, groups[key]);
      if value.Some? {
        result := result[key := value.value];
      }
      pending := pending - {key};
    }
  }

  /** groupByAnalysis, as the source runs it: a pass that fills the groups, then a pass over their keys. */
  method GroupByAnalysis(data: Table, groupColumn: string, aggregateColumn: string, operation: string)
    returns (result: map<string, JsNumber>)
    ensures result == GroupBy(data, groupColumn, aggregateColumn, operation)
  {
    var groups := FillGroups(data, groupColumn, aggregateColumn);
    result := ReduceGroups(groups, operation);
  }

  // ---------------------------------------------------------------- inherited property names

  /**
    The property names a plain object inherits from Object.prototype. Reading
    one of them from an empty object gives a function, or Object.prototype
    itself for "__proto__": a truthy value that has no `push`.
  */
  const InheritedNames: set<string> := {
    "constructor", "__defineGetter__", "__defineSetter__", "hasOwnProperty",
    "__lookupGetter__", "__lookupSetter__", "isPrototypeOf", "propertyIsEnumerable",
    "toString", "valueOf", "__proto__", "toLocaleString"}

  /**
    The grouping pass as written, on a plain object. A key the object owns
    gets the value appended; a missing key that is an inherited name passes
    the `!groups[groupKey]` test, so no list is created and `push` throws a
    TypeError, which the route turns into a 500 response.
  */
  function GroupsAsWritten(t: Table, groupColumn: string, aggregateColumn: string): Result<map<string, seq<real>>, string> {
    if t == [] then Success(map[])
    else
      match GroupsAsWritten(t[..|t| - 1], groupColumn, aggregateColumn)
      case Failure(e) => Failure(e)
      case Success(groups) =>
        var row := t[|t| - 1];
        var k := GroupKey(row, groupColumn);
        if k in groups then Success(groups[k := groups[k] + [GroupValue(row, aggregateColumn)]])
        else if k in InheritedNames then Failure("TypeError: groups[groupKey].push is not a function")
        else Success(groups[k := [GroupValue(row, aggregateColumn)]])
  }

  /** The analysis as written: it fails whenever grouping fails. */
  function GroupByAsWritten(t: Table, groupColumn: string, aggregateColumn: string, operation: string): Result<map<string, JsNumber>, string> {
    match GroupsAsWritten(t, groupColumn, aggregateColumn)
    case Failure(e) => Failure(e)
    case Success(groups) =>
      Success(map k | k in groups && KnownAggregation(operation) :: Aggregate(operation, groups[k]).value)
  }

  /** The grouping pass as written fails exactly when some row's key is an inherited name, and otherwise agrees with Groups. */
  lemma {:induction false} GroupsAsWrittenFailsOnInheritedKeys(t: Table, groupColumn: string, aggregateColumn: string)
    ensures GroupsAsWritten(t, groupColumn, aggregateColumn).Failure? <==>
      exists i :: 0 <= i < |t| && GroupKey(t[i], groupColumn) in InheritedNames
    ensures GroupsAsWritten(t, groupColumn, aggregateColumn).Success? ==>
      GroupsAsWritten(t, groupColumn, aggregateColumn).value == Groups(t, groupColumn, aggregateColumn)
  {
    if t != [] {
      var p := t[..|t| - 1];
      GroupsAsWrittenFailsOnInheritedKeys(p, groupColumn, aggregateColumn);
      assert forall i :: 0 <= i < |p| ==> p[i] == t[i];
      if GroupsAsWritten(p, groupColumn, aggregateColumn).Success? {
        GroupsAreRowsWithKey(p, groupColumn, aggregateColumn);
        var groups := GroupsAsWritten(p, groupColumn, aggregateColumn).value;
        assert groups == Groups(p, groupColumn, aggregateColumn);
        var row := t[|t| - 1];
        var k := GroupKey(row, groupColumn);
        if k in groups {
          assert k !in InheritedNames;
          assert GroupsAsWritten(t, groupColumn, aggregateColumn) == Success(groups[k := groups[k] + [GroupValue(row, aggregateColumn)]]);
        } else if k !in InheritedNames {
          var v := GroupValue(row, aggregateColumn);
          assert [] + [v] == [v];
          assert GroupsAsWritten(t, groupColumn, aggregateColumn) == Success(groups[k := [v]]);
        }
      }
    }
  }

  /** The analysis as written agrees with GroupBy except where a key is an inherited name. */
  lemma GroupByAsWrittenAgrees(t: Table, groupColumn: string, aggregateColumn: string, operation: string)
    ensures GroupByAsWritten(t, groupColumn, aggregateColumn, operation).Failure? <==>
      exists i :: 0 <= i < |t| && GroupKey(t[i], groupColumn) in InheritedNames
    ensures GroupByAsWritten(t, groupColumn, aggregateColumn, operation).Success? ==>
      GroupByAsWritten(t, groupColumn, aggregateColumn, operation).value == GroupBy(t, groupColumn, aggregateColumn, operation)
  {
    GroupsAsWrittenFailsOnInheritedKeys(t, groupColumn, aggregateColumn);
  }

  /** A single row whose group column holds "constructor": the code as written throws, GroupBy counts one row. */
  lemma InheritedKeyCounterexample()
    ensures var t := [map["city" := Str("constructor")]];
      && GroupByAsWritten(t, "city", "n", "count").Failure?
      && GroupBy(t, "city", "n", "count") == map["constructor" := Finite(1.0)]
  {
    var t := [map["city" := Str("constructor")]];
    assert t[..0] == [];
    assert GroupKey(t[0], "city") == "constructor";
    assert GroupValue(t[0], "n") == 0.0;
    assert Groups(t[..0], "city", "n") == map[];
    assert Groups(t, "city", "n") == map[]["constructor" := [] + [0.0]];
    assert [] + [0.0] == [0.0];
    assert Groups(t, "city", "n") == map["constructor" := [0.0]];
  }
}
