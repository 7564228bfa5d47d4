/**
  The reductions shared by generateSummary, generatePivotTable and
  groupByAnalysis: `reduce((a, b) => a + b, 0)`, its quotient by the length,
  the length, Math.min(...values) and Math.max(...values). The inputs are the
  numbers `Number(x) || 0` produces, so they are never NaN; the results can
  still be NaN (0 / 0) or an infinity (Math.min and Math.max of no values).
*/
module Aggregates {
  import opened Wrappers

  /** A JavaScript number as the aggregations can produce it. */
  datatype JsNumber = Finite(value: real) | NaN | PosInfinity | NegInfinity

  /** `s.reduce((a, b) => a + b, 0)`, adding from the left. */
  function Sum(s: seq<real>): real {
    if s == [] then 0.0 else Sum(s[..|s| - 1]) + s[|s| - 1]
  }

  /** Math.min(...s) for a non-empty `s`. */
  function Min(s: seq<real>): (m: real)
    requires s != []
    ensures exists i :: 0 <= i < |s| && s[i] == m
    ensures forall i :: 0 <= i < |s| ==> m <= s[i]
  {
    if |s| == 1 then s[0]
    else
      var p := Min(s[..|s| - 1]);
      assert forall i :: 0 <= i < |s| - 1 ==> s[..|s| - 1][i] == s[i];
      if s[|s| - 1] < p then s[|s| - 1] else p
  }

  /** Math.max(...s) for a non-empty `s`. */
  function Max(s: seq<real>): (m: real)
    requires s != []
    ensures exists i :: 0 <= i < |s| && s[i] == m
    ensures forall i :: 0 <= i < |s| ==> s[i] <= m
  {
    if |s| == 1 then s[0]
    else
      var p := Max(s[..|s| - 1]);
      assert forall i :: 0 <= i < |s| - 1 ==> s[..|s| - 1][i] == s[i];
      if s[|s| - 1] > p then s[|s| - 1] else p
  }

  /** A list whose values are all at least `lo` sums to at least its length times `lo`. */
  lemma {:induction false} SumAtLeast(s: seq<real>, lo: real)
    requires forall i :: 0 <= i < |s| ==> lo <= s[i]
    ensures |s| as real * lo <= Sum(s)
  {
    if s != [] {
      var p := s[..|s| - 1];
      assert forall i :: 0 <= i < |p| ==> p[i] == s[i];
      SumAtLeast(p, lo);
      assert |s| as real * lo == |p| as real * lo + lo;
    }
  }

  /** A list whose values are all at most `hi` sums to at most its length times `hi`. */
  lemma {:induction false} SumAtMost(s: seq<real>, hi: real)
    requires forall i :: 0 <= i < |s| ==> s[i] <= hi
    ensures Sum(s) <= |s| as real * hi
  {
    if s != [] {
      var p := s[..|s| - 1];
      assert forall i :: 0 <= i < |p| ==> p[i] == s[i];
      SumAtMost(p, hi);
      assert |s| as real * hi == |p| as real * hi + hi;
    }
  }

  lemma DivideBounds(x: real, n: real, lo: real, hi: real)
    requires n > 0.0 && n * lo <= x <= n * hi
    ensures lo <= x / n <= hi
  {
    assert x / n - lo == (x - n * lo) / n;
    assert hi - x / n == (n * hi - x) / n;
  }

  /** The sum divided by the length. */
  function Average(s: seq<real>): real
    requires s != []
  {
    Sum(s) / |s| as real
  }

  /** The average of a non-empty list lies between its minimum and its maximum. */
  lemma AverageBetween(s: seq<real>)
    requires s != []
    ensures Min(s) <= Average(s) <= Max(s)
  {
    var lo, hi, n, x := Min(s), Max(s), |s| as real, Sum(s);
    SumAtLeast(s, lo);
    SumAtMost(s, hi);
    DivideBounds(x, n, lo, hi);
  }

  /** The operations both analyses know. */
  predicate KnownAggregation(operation: string) {
    operation in {"sum", "avg", "count", "min", "max"}
  }

  /**
    The value a known operation assigns for a list of values; an unknown
    operation assigns nothing.
  */
  function Aggregate(operation: string, vals: seq<real>): (r: Option<JsNumber>)
    ensures r.Some? <==> KnownAggregation(operation)
    ensures operation == "count" ==> r == Some(Finite(|vals| as real))
    ensures operation == "avg" ==> (r == Some(NaN) <==> vals == [])
    ensures operation == "min" && vals != [] ==>
      r.Some? && r.value.Finite? && forall i :: 0 <= i < |vals| ==> r.value.value <= vals[i]
    ensures operation == "max" && vals != [] ==>
      r.Some? && r.value.Finite? && forall i :: 0 <= i < |vals| ==> vals[i] <= r.value.value
  {
    match operation
    case "sum" => Some(Finite(Sum(vals)))
    case "avg" => Some(if vals == [] then NaN else Finite(Average(vals)))
    case "count" => Some(Finite(|vals| as real))
    case "min" => Some(if vals == [] then PosInfinity else Finite(Min(vals)))
    case "max" => Some(if vals == [] then NegInfinity else Finite(Max(vals)))
    case _ => None
  }

  /** The average, times the length, gives back the sum. */
  lemma AverageTimesLength(s: seq<real>)
    requires s != []
    ensures Average(s) * |s| as real == Sum(s)
  {
    var n, x := |s| as real, Sum(s);
    assert x / n * n == x;
  }

  /** For a non-empty list, the "avg" result times the length is the "sum" result. */
  lemma AverageTimesCountIsSum(vals: seq<real>)
    requires vals != []
    ensures Aggregate("avg", vals).value.value * |vals| as real == Aggregate("sum", vals).value.value
  {
    AverageTimesLength(vals);
  }

  /** For a non-empty list, the "avg" result lies between the "min" and "max" results. */
  lemma AverageWithinMinMax(vals: seq<real>)
    requires vals != []
    ensures Aggregate("min", vals).value.value <= Aggregate("avg", vals).value.value <= Aggregate("max", vals).value.value
  {
    AverageBetween(vals);
  }

  /** The finite entries of a result map as reals; NaN and the infinities count as 0. */
  function FiniteValues<K>(m: map<K, JsNumber>): map<K, real> {
    map k | k in m :: if m[k].Finite? then m[k].value else 0.0
  }
}
