/**
  sortData: Array.prototype.sort on the table itself, in place, with the
  comparator `(a, b) => aVal > bVal ? 1 : -1` for "asc" and
  `aVal < bVal ? 1 : -1` for any other direction.

  The comparator never answers 0, not even for (a, a), so by the ECMAScript
  definition it is not a consistent comparator on any column, and the language
  leaves the resulting order to the engine everywhere. The one guarantee
  JavaScript gives is that the result is a permutation of the rows. The model
  is a sort that, like Node's, looks only at the sign of the comparator and
  never swaps a pair it reports in order; for such a sort, when the column
  holds only strings, or only non-string values that are numbers, the rows
  come out sorted. Nothing is claimed about the order of rows with equal keys.
*/
module Sorting {
  import opened Cells

  /** The comparator returns 1 for (a, b): `a` must come after `b`. */
  predicate OutOfOrder(a: Row, b: Row, column: string, direction: string) {
    if direction == "asc" then Greater(Get(a, column), Get(b, column))
    else Greater(Get(b, column), Get(a, column))
  }

  /** No row is out of order with a row after it. */
  predicate Sorted(s: seq<Row>, column: string, direction: string) {
    forall p, q :: 0 <= p < q < |s| ==> !OutOfOrder(s[p], s[q], column, direction)
  }

  /** The sort column holds only strings, or only non-string values that Number() reads as numbers. */
  predicate ComparableColumn(s: seq<Row>, column: string) {
    || (forall k :: 0 <= k < |s| ==> Get(s[k], column).Str?)
    || (forall k :: 0 <= k < |s| ==> !Get(s[k], column).Str? && ToNumber(Get(s[k], column)).Some?)
  }

  lemma OutOfOrderAsymmetric(x: Row, y: Row, column: string, direction: string)
    requires OutOfOrder(x, y, column, direction)
    ensures !OutOfOrder(y, x, column, direction)
  {
    if direction == "asc" {
      GreaterAsymmetric(Get(x, column), Get(y, column));
    } else {
      GreaterAsymmetric(Get(y, column), Get(x, column));
    }
  }

  /** On a comparable column, "in order" is transitive. */
  lemma InOrderTransitive(s: seq<Row>, column: string, direction: string, p: nat, q: nat, r: nat)
    requires ComparableColumn(s, column)
    requires p < |s| && q < |s| && r < |s|
    requires !OutOfOrder(s[p], s[q], column, direction) && !OutOfOrder(s[q], s[r], column, direction)
    ensures !OutOfOrder(s[p], s[r], column, direction)
  {
    var x, y, z := Get(s[p], column), Get(s[q], column), Get(s[r], column);
    if direction == "asc" {
      NotGreaterTransitive(x, y, z);
    } else {
      NotGreaterTransitive(z, y, x);
    }
  }

  /** `after` never holds both ways round. */
  ghost predicate Asymmetric<T(!new)>(after: (T, T) -> bool) {
    forall x, y :: after(x, y) ==> !after(y, x)
  }

  /** "Not after" is transitive on the elements of `s`. */
  ghost predicate TransitiveOn<T>(s: seq<T>, after: (T, T) -> bool) {
    forall x, y, z :: x in s && y in s && z in s && !after(x, y) && !after(y, z) ==> !after(x, z)
  }

  /** No element comes after a later one. */
  ghost predicate SortedBy<T>(s: seq<T>, after: (T, T) -> bool) {
    forall p, q :: 0 <= p < q < |s| ==> !after(s[p], s[q])
  }

  method Swap<T>(a: array<T>, i: int, j: int)
    requires 0 <= i < a.Length && 0 <= j < a.Length
    modifies a
    ensures a[..] == old(a[..])[i := old(a[j])][j := old(a[i])]
    ensures multiset(a[..]) == multiset(old(a[..]))
  {
    a[i], a[j] := a[j], a[i];
  }

  /** Rearranging the elements keeps "not after" transitive on them. */
  lemma TransitivePermutation<T>(s: seq<T>, t: seq<T>, after: (T, T) -> bool)
    requires multiset(s) == multiset(t)
    requires TransitiveOn(s, after)
    ensures TransitiveOn(t, after)
  {
    forall x | x in t ensures x in s {
      assert x in multiset(t);
    }
  }

  /**
    Halfway through inserting `s[j]` into the sorted prefix: the parts left and
    right of `j` within `s[..i + 1]` are sorted, and nothing left of `j` comes
    after anything right of it.
  */
  ghost predicate Inserting<T>(s: seq<T>, j: int, i: int, after: (T, T) -> bool)
    requires 0 <= j <= i < |s|
  {
    && (forall p, q :: 0 <= p < q < j ==> !after(s[p], s[q]))
    && (forall p, q :: j < p < q <= i ==> !after(s[p], s[q]))
    && (forall p, q :: 0 <= p < j < q <= i ==> !after(s[p], s[q]))
  }

  /** Every element right of `j`, up to `i`, comes after `s[j]`. */
  ghost predicate BeforeAllRight<T>(s: seq<T>, j: int, i: int, after: (T, T) -> bool)
    requires 0 <= j <= i < |s|
  {
    forall q :: j < q <= i ==> after(s[q], s[j])
  }

  /** One swap of the inserted element with the one before it. */
  lemma SwapStep<T>(s: seq<T>, j: int, i: int, after: (T, T) -> bool)
    requires 0 < j <= i < |s|
    requires after(s[j - 1], s[j])
    requires BeforeAllRight(s, j, i, after)
    ensures BeforeAllRight(s[j - 1 := s[j]][j := s[j - 1]], j - 1, i, after)
    ensures Inserting(s, j, i, after) ==> Inserting(s[j - 1 := s[j]][j := s[j - 1]], j - 1, i, after)
  {
  }

  /** The insertion is finished once the element before `s[j]` need not move past it. */
  lemma InsertDone<T(!new)>(s: seq<T>, j: int, i: int, after: (T, T) -> bool)
    requires 0 <= j <= i < |s|
    requires Asymmetric(after) && TransitiveOn(s, after)
    requires Inserting(s, j, i, after) && BeforeAllRight(s, j, i, after)
    requires j == 0 || !after(s[j - 1], s[j])
    ensures SortedBy(s[..i + 1], after)
  {
    forall p, q | 0 <= p < q <= i ensures !after(s[p], s[q]) {
      if q == j && p < j - 1 {
        assert s[p] in s && s[j - 1] in s && s[j] in s;
      }
    }
  }

  /**
    Moves `a[i]` left past every element it must come before, one swap at a
    time. When the prefix `a[..i]` was sorted and "not after" is transitive,
    the prefix `a[..i + 1]` is sorted afterwards.
  */
  method InsertLast<T(!new)>(a: array<T>, i: int, after: (T, T) -> bool, ghost transitive: bool)
    requires 0 <= i < a.Length
    requires Asymmetric(after)
    requires transitive ==> TransitiveOn(a[..], after)
    requires transitive ==> SortedBy(a[..i], after)
    modifies a
    ensures multiset(a[..]) == multiset(old(a[..]))
    ensures transitive ==> SortedBy(a[..i + 1], after)
    ensures a[i + 1..] == old(a[i + 1..])
  {
    var j := i;
    assert transitive ==> Inserting(a[..], j, i, after) by {
      if transitive {
        assert forall p :: 0 <= p < i ==> a[..i][p] == a[p];
      }
    }
    while j > 0 && after(a[j - 1], a[j])
      invariant 0 <= j <= i
      invariant multiset(a[..]) == multiset(old(a[..]))
      invariant transitive ==> Inserting(a[..], j, i, after)
      invariant BeforeAllRight(a[..], j, i, after)
      invariant a[i + 1..] == old(a[i + 1..])
    {
      SwapStep(a[..], j, i, after);
      Swap(a, j - 1, j);
      j := j - 1;
    }
    if transitive {
      TransitivePermutation(old(a[..]), a[..], after);
      InsertDone(a[..], j, i, after);
    }
  }

  /**
    Array.prototype.sort with a comparator, where `after(x, y)` means the
    comparator returns a positive number for (x, y). The result is always a
    permutation; it is sorted when "not after" is transitive on the elements.
  */
  method SortInPlace<T(!new)>(a: array<T>, after: (T, T) -> bool)
    requires Asymmetric(after)
    modifies a
    ensures multiset(a[..]) == multiset(old(a[..]))
    ensures TransitiveOn(old(a[..]), after) ==> SortedBy(a[..], after)
  {
    ghost var transitive := TransitiveOn(a[..], after);
    var i := 0;
    while i < a.Length
      invariant 0 <= i <= a.Length
      invariant multiset(a[..]) == multiset(old(a[..]))
      invariant transitive ==> TransitiveOn(a[..], after)
      invariant transitive ==> SortedBy(a[..i], after)
    {
      ghost var before := a[..];
      InsertLast(a, i, after, transitive);
      if transitive {
        TransitivePermutation(before, a[..], after);
      }
      i := i + 1;
    }
    assert a[..] == a[..a.Length];
  }

  /**
    sortData: sorts `a` in place by `column`. The result is a permutation of
    the input, which is all JavaScript promises. On a comparable column a sort
    that acts only on the comparator's sign, as Node's does, leaves it
    ascending for "asc" and descending for every other direction.
  */
  method SortData(a: array<Row>, column: string, direction: string)
    modifies a
    ensures multiset(a[..]) == multiset(old(a[..]))
    ensures ComparableColumn(old(a[..]), column) ==> Sorted(a[..], column, direction)
  {
    var after := (x: Row, y: Row) => OutOfOrder(x, y, column, direction);
    forall x: Row, y: Row | after(x, y) ensures !after(y, x) {
      OutOfOrderAsymmetric(x, y, column, direction);
    }
    if ComparableColumn(a[..], column) {
      forall x, y, z | x in a[..] && y in a[..] && z in a[..] && !after(x, y) && !after(y, z)
        ensures !after(x, z)
      {
        var p :| 0 <= p < a.Length && a[p] == x;
        var q :| 0 <= q < a.Length && a[q] == y;
        var r :| 0 <= r < a.Length && a[r] == z;
        InOrderTransitive(a[..], column, direction, p, q, r);
      }
    }
    SortInPlace(a, after);
  }
}
