/**
  The operation loop of the process route: each operation of the list is
  dispatched on its `type` and replaces the table with the operator's output,
  in list order. A `type` that matches no case leaves the table as it is.
*/
module Pipeline {
  import opened Cells
  import Seqs
  import Transforms
  import Dedupe
  import Sorting

  /**
    One entry of the operation list. Every operation carries all the fields;
    each operator reads only its own.
  */
  datatype Operation = Operation(
    kind: string,
    columns: seq<string>,
    caseType: string,
    column: string,
    find: string,
    replace: string,
    value: string,
    operator: string,
    direction: string)

  /** The `type` strings the loop dispatches on. */
  predicate Recognised(kind: string) {
    kind in {"removeDuplicates", "trimSpaces", "changeCase", "findReplace", "filterData", "sortData"}
  }

  /**
    What applying `op` to `before` may give. Every operator but the sort is a
    function of the table; the sort may give any permutation, sorted whenever
    its column is comparable. The sortedness describes an engine whose sort
    acts only on the sign of the comparator, as Node's does; JavaScript itself
    promises only the permutation, because the comparator never answers 0.
  */
  ghost predicate Applied(op: Operation, before: Table, after: Table) {
    match op.kind
    case "removeDuplicates" => after == Dedupe.Dedupe(before, op.columns)
    case "trimSpaces" => after == Transforms.TrimSpaces(before, op.columns)
    case "changeCase" => after == Transforms.ChangeCase(before, op.columns, op.caseType)
    case "findReplace" => after == Transforms.FindReplace(before, op.column, op.find, op.replace)
    case "filterData" => after == Transforms.FilterData(before, op.column, op.value, op.operator)
    case "sortData" =>
      && multiset(after) == multiset(before)
      && (Sorting.ComparableColumn(before, op.column) ==> Sorting.Sorted(after, op.column, op.direction))
    case _ => after == before
  }

  /** `trace[k + 1]` is the result of applying `ops[k]` to `trace[k]`, for every k. */
  ghost predicate IsRun(ops: seq<Operation>, trace: seq<Table>) {
    && |trace| == |ops| + 1
    && forall k :: 0 <= k < |ops| ==> Applied(ops[k], trace[k], trace[k + 1])
  }

  /** One pass of the switch. */
  method ApplyOperation(data: Table, op: Operation) returns (result: Table)
    ensures Applied(op, data, result)
  {
    match op.kind
    case "removeDuplicates" =>
      result := Dedupe.RemoveDuplicates(data, op.columns);
    case "trimSpaces" =>
      result := Transforms.TrimSpaces(data, op.columns);
    case "changeCase" =>
      result := Transforms.ChangeCase(data, op.columns, op.caseType);
    case "findReplace" =>
      result := Transforms.FindReplace(data, op.column, op.find, op.replace);
    case "filterData" =>
      result := Transforms.FilterData(data, op.column, op.value, op.operator);
    case "sortData" =>
      var a := new Row[|data|](i requires 0 <= i < |data| => data[i]);
      assert a[..] == data;
      Sorting.SortData(a, op.column, op.direction);
      result := a[..];
    case _ =>
      result := data;
  }

  /**
    The loop over the operation list. `trace` holds the table before the first
    operation and after each one: the operations run in list order, each on
    the output of the one before.
  */
  method ProcessOperations(data: Table, ops: seq<Operation>) returns (result: Table, ghost trace: seq<Table>)
    ensures IsRun(ops, trace)
    ensures trace[0] == data && trace[|ops|] == result
    ensures |result| <= |data|
    ensures (forall k :: 0 <= k < |ops| ==> !Recognised(ops[k].kind)) ==> result == data
  {
    result := data;
    trace := [data];
    var i := 0;
    while i < |ops|
      invariant 0 <= i <= |ops|
      invariant IsRun(ops[..i], trace)
      invariant trace[0] == data && trace[i] == result
    {
      var next := ApplyOperation(result, ops[i]);
      trace := trace + [next];
      result := next;
      i := i + 1;
    }
    assert ops[..i] == ops;
    RunShrinks(ops, trace);
    if forall k :: 0 <= k < |ops| ==> !Recognised(ops[k].kind) {
      UnrecognisedRunIsIdentity(ops, trace);
    }
  }

  /** An operation never adds rows. */
  lemma AppliedShrinks(op: Operation, before: Table, after: Table)
    requires Applied(op, before, after)
    ensures |after| <= |before|
  {
    match op.kind
    case "removeDuplicates" =>
      Seqs.SubsequenceBounds(after, before);
    case "filterData" =>
      Transforms.FilterShrinks(before, op.column, op.value, op.operator);
    case "sortData" =>
      assert |multiset(after)| == |multiset(before)|;
    case _ =>
  }

  /** Operations other than removeDuplicates and filterData keep the row count. */
  lemma AppliedKeepsCount(op: Operation, before: Table, after: Table)
    requires Applied(op, before, after)
    requires op.kind != "removeDuplicates" && op.kind != "filterData"
    ensures |after| == |before|
  {
    if op.kind == "sortData" {
      assert |multiset(after)| == |multiset(before)|;
    }
  }

  /** The table only ever shrinks along a run: the route never reports more rows than were read. */
  lemma {:induction false} RunShrinks(ops: seq<Operation>, trace: seq<Table>)
    requires IsRun(ops, trace)
    ensures |trace[|ops|]| <= |trace[0]|
  {
    if ops != [] {
      var n := |ops| - 1;
      assert IsRun(ops[..n], trace[..n + 1]);
      RunShrinks(ops[..n], trace[..n + 1]);
      AppliedShrinks(ops[n], trace[n], trace[n + 1]);
    }
  }

  /** Without removeDuplicates and filterData in the list, the row count is unchanged. */
  lemma {:induction false} RunKeepsCount(ops: seq<Operation>, trace: seq<Table>)
    requires IsRun(ops, trace)
    requires forall k :: 0 <= k < |ops| ==> ops[k].kind != "removeDuplicates" && ops[k].kind != "filterData"
    ensures |trace[|ops|]| == |trace[0]|
  {
    if ops != [] {
      var n := |ops| - 1;
      assert IsRun(ops[..n], trace[..n + 1]);
      RunKeepsCount(ops[..n], trace[..n + 1]);
      AppliedKeepsCount(ops[n], trace[n], trace[n + 1]);
    }
  }

  /** An operation whose type is not recognised leaves the table unchanged. */
  lemma UnrecognisedIsIdentity(op: Operation, before: Table, after: Table)
    requires !Recognised(op.kind)
    ensures Applied(op, before, after) <==> after == before
  {
  }

  /** A run of unrecognised operations leaves the table unchanged. */
  lemma {:induction false} UnrecognisedRunIsIdentity(ops: seq<Operation>, trace: seq<Table>)
    requires IsRun(ops, trace)
    requires forall k :: 0 <= k < |ops| ==> !Recognised(ops[k].kind)
    ensures trace[|ops|] == trace[0]
  {
    if ops != [] {
      var n := |ops| - 1;
      assert IsRun(ops[..n], trace[..n + 1]);
      UnrecognisedRunIsIdentity(ops[..n], trace[..n + 1]);
      UnrecognisedIsIdentity(ops[n], trace[n], trace[n + 1]);
    }
  }
}
