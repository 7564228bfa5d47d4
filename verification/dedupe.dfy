/**
  removeDuplicates: keeps the first row for each composite key, the key being
  the named cells joined with '|'. The source walks the rows once, keeping a
  mutable set of the keys it has seen.

  The selection itself depends only on which key each row has, so the
  specification functions and their lemmas take the key function `keyOf` as a
  parameter; `KeyFunction(columns)` is the one removeDuplicates uses.
*/
module Dedupe {
  import opened Cells
  import opened Seqs

  /** The keys of all rows of `t`. */
  function KeysOf(t: Table, keyOf: Row -> string): (keys: set<string>)
    ensures forall i :: 0 <= i < |t| ==> keyOf(t[i]) in keys
    ensures forall k :: k in keys ==> exists i :: 0 <= i < |t| && keyOf(t[i]) == k
  {
    if t == [] then {}
    else
      var rest := KeysOf(t[1..], keyOf);
      assert forall i :: 1 <= i < |t| ==> t[i] == t[1..][i - 1];
      assert forall k :: k in rest ==> exists i :: 0 <= i < |t| && keyOf(t[i]) == k by {
        forall k | k in rest ensures exists i :: 0 <= i < |t| && keyOf(t[i]) == k {
          var i :| 0 <= i < |t| - 1 && keyOf(t[1..][i]) == k;
          assert keyOf(t[i + 1]) == k;
        }
      }
      {keyOf(t[0])} + rest
  }

  /** Appending a row adds its key. */
  lemma {:induction false} KeysOfSnoc(t: Table, row: Row, keyOf: Row -> string)
    ensures KeysOf(t + [row], keyOf) == KeysOf(t, keyOf) + {keyOf(row)}
  {
    if t != [] {
      assert (t + [row])[1..] == t[1..] + [row];
      KeysOfSnoc(t[1..], row, keyOf);
    }
  }

  /** No two rows of `t` share a key. */
  predicate DistinctKeys(t: Table, keyOf: Row -> string) {
    forall j, k :: 0 <= j < k < |t| ==> keyOf(t[j]) != keyOf(t[k])
  }

  /**
    The rows of `t` whose key is neither in `seen` nor the key of an earlier row
    of `t`: what the filter keeps when it starts with `seen` already filled.
  */
  function KeepFirst(t: Table, keyOf: Row -> string, seen: set<string>): (r: Table)
    ensures IsSubsequence(r, t)
    ensures forall k :: 0 <= k < |r| ==> keyOf(r[k]) !in seen
    ensures DistinctKeys(r, keyOf)
  {
    if t == [] then []
    else
      var k := keyOf(t[0]);
      if k in seen then KeepFirst(t[1..], keyOf, seen)
      else [t[0]] + KeepFirst(t[1..], keyOf, seen + {k})
  }

  /** The table removeDuplicates returns. */
  function Dedupe(t: Table, columns: seq<string>): Table {
    KeepFirst(t, KeyFunction(columns), {})
  }

  /** The first row of `t` with key `k`. */
  function FirstWithKey(t: Table, keyOf: Row -> string, k: string): (row: Row)
    requires k in KeysOf(t, keyOf)
    ensures keyOf(row) == k
    ensures row in t
  {
    if keyOf(t[0]) == k then t[0] else FirstWithKey(t[1..], keyOf, k)
  }

  /**
    The filter of removeDuplicates for any key function: one pass with a set
    of seen keys selects the rows no earlier row shares a key with.
  */
  method KeepFirstPass(data: Table, keyOf: Row -> string) returns (result: Table)
    ensures result == FirstOccurrences(data, keyOf, 0)
  {
    var seen: set<string> := {};
    result := [];
    var i := 0;
    while i < |data|
      invariant 0 <= i <= |data|
      invariant SeenBefore(data, keyOf, i, seen)
      invariant result + FirstOccurrences(data, keyOf, i) == FirstOccurrences(data, keyOf, 0)
    {
      var k := keyOf(data[i]);
      ghost var rest := FirstOccurrences(data, keyOf, i + 1);
      FirstOccurrencesStep(data, keyOf, i, seen);
      if k !in seen {
        assert result + ([data[i]] + rest) == (result + [data[i]]) + rest;
        result := result + [data[i]];
      }
      seen := seen + {k};
      i := i + 1;
    }
  }

  /** removeDuplicates: the first row for each composite key, in input order. */
  method RemoveDuplicates(data: Table, columns: seq<string>) returns (result: Table)
    ensures result == Dedupe(data, columns)
    ensures IsSubsequence(result, data) && DistinctKeys(result, KeyFunction(columns))
  {
    result := KeepFirstPass(data, KeyFunction(columns));
    DedupeIsFirstOccurrences(data, columns);
  }

  /** One step of the pass: the row at `i` is kept exactly when its key is new. */
  lemma KeepFirstStep(t: Table, i: nat, keyOf: Row -> string, seen: set<string>)
    requires i < |t|
    ensures var k := keyOf(t[i]);
      KeepFirst(t[i..], keyOf, seen) ==
        if k in seen then KeepFirst(t[i + 1..], keyOf, seen)
        else [t[i]] + KeepFirst(t[i + 1..], keyOf, seen + {k})
  {
    assert t[i..][1..] == t[i + 1..];
  }

  /** Every key of the input still has a row in the output, unless `seen` already held it. */
  lemma {:induction false} KeepFirstKeys(t: Table, keyOf: Row -> string, seen: set<string>)
    ensures KeysOf(KeepFirst(t, keyOf, seen), keyOf) == KeysOf(t, keyOf) - seen
  {
    if t != [] {
      var k := keyOf(t[0]);
      if k in seen {
        KeepFirstKeys(t[1..], keyOf, seen);
      } else {
        KeepFirstKeys(t[1..], keyOf, seen + {k});
        var rest := KeepFirst(t[1..], keyOf, seen + {k});
        assert ([t[0]] + rest)[1..] == rest;
      }
    }
  }

  /** Each row removeDuplicates keeps is the first input row with its key. */
  lemma {:induction false} KeepFirstIsFirst(t: Table, keyOf: Row -> string, seen: set<string>)
    ensures forall j :: 0 <= j < |KeepFirst(t, keyOf, seen)| ==>
      var row := KeepFirst(t, keyOf, seen)[j];
      keyOf(row) in KeysOf(t, keyOf) && row == FirstWithKey(t, keyOf, keyOf(row))
  {
    if t != [] {
      var k := keyOf(t[0]);
      if k in seen {
        KeepFirstIsFirst(t[1..], keyOf, seen);
      } else {
        KeepFirstIsFirst(t[1..], keyOf, seen + {k});
      }
    }
  }

  /** Rows whose keys are distinct and unseen all survive. */
  lemma {:induction false} KeepFirstOfDistinct(t: Table, keyOf: Row -> string, seen: set<string>)
    requires DistinctKeys(t, keyOf)
    requires forall j :: 0 <= j < |t| ==> keyOf(t[j]) !in seen
    ensures KeepFirst(t, keyOf, seen) == t
  {
    if t != [] {
      var k := keyOf(t[0]);
      forall j | 0 <= j < |t| - 1 ensures keyOf(t[1..][j]) !in seen + {k} {
        assert t[1..][j] == t[j + 1];
      }
      KeepFirstOfDistinct(t[1..], keyOf, seen + {k});
    }
  }

  /** removeDuplicates is idempotent. */
  lemma DedupeIdempotent(t: Table, columns: seq<string>)
    ensures Dedupe(Dedupe(t, columns), columns) == Dedupe(t, columns)
  {
    KeepFirstOfDistinct(Dedupe(t, columns), KeyFunction(columns), {});
  }

  /** A table with distinct keys has as many keys as rows. */
  lemma {:induction false} DistinctKeysCount(t: Table, keyOf: Row -> string)
    requires DistinctKeys(t, keyOf)
    ensures |KeysOf(t, keyOf)| == |t|
  {
    if t != [] {
      assert DistinctKeys(t[1..], keyOf) by {
        forall j, k | 0 <= j < k < |t| - 1 ensures keyOf(t[1..][j]) != keyOf(t[1..][k]) {
          assert t[1..][j] == t[j + 1] && t[1..][k] == t[k + 1];
        }
      }
      DistinctKeysCount(t[1..], keyOf);
      assert keyOf(t[0]) !in KeysOf(t[1..], keyOf) by {
        forall i | 0 <= i < |t| - 1 ensures keyOf(t[1..][i]) != keyOf(t[0]) {
          assert t[1..][i] == t[i + 1];
        }
      }
    }
  }

  /**
    removeDuplicates keeps exactly one row per key of the input, and that row
    is the first input row with the key.
  */
  lemma DedupeOneRowPerKey(t: Table, columns: seq<string>)
    ensures var keyOf := KeyFunction(columns);
      && KeysOf(Dedupe(t, columns), keyOf) == KeysOf(t, keyOf)
      && |Dedupe(t, columns)| == |KeysOf(t, keyOf)|
      && forall j :: 0 <= j < |Dedupe(t, columns)| ==>
           Dedupe(t, columns)[j] == FirstWithKey(t, keyOf, keyOf(Dedupe(t, columns)[j]))
  {
    var keyOf := KeyFunction(columns);
    KeepFirstKeys(t, keyOf, {});
    DistinctKeysCount(Dedupe(t, columns), keyOf);
    KeepFirstIsFirst(t, keyOf, {});
  }

  /** When every key is already seen, nothing is kept. */
  lemma {:induction false} NothingNewKept(t: Table, keyOf: Row -> string, seen: set<string>)
    requires forall j :: 0 <= j < |t| ==> keyOf(t[j]) in seen
    ensures KeepFirst(t, keyOf, seen) == []
  {
    if t != [] {
      NothingNewKept(t[1..], keyOf, seen);
    }
  }

  /** No row before `t[i]` has its key. */
  predicate FirstOfItsKey(t: Table, keyOf: Row -> string, i: nat)
    requires i < |t|
  {
    forall j :: 0 <= j < i ==> keyOf(t[j]) != keyOf(t[i])
  }

  /** The rows `t[i]`, `i >= from`, that no earlier row shares a key with, in index order. */
  function FirstOccurrences(t: Table, keyOf: Row -> string, from: nat): Table
    requires from <= |t|
    decreases |t| - from
  {
    if from == |t| then []
    else (if FirstOfItsKey(t, keyOf, from) then [t[from]] else []) + FirstOccurrences(t, keyOf, from + 1)
  }

  /** `seen` holds exactly the keys of the rows before `t[i]`. */
  ghost predicate SeenBefore(t: Table, keyOf: Row -> string, i: nat, seen: set<string>)
    requires i <= |t|
  {
    forall k :: k in seen <==> exists j :: 0 <= j < i && keyOf(t[j]) == k
  }

  /** One row on: the seen set grows by the row's key, and the row is selected exactly when the key is new. */
  lemma FirstOccurrencesStep(t: Table, keyOf: Row -> string, i: nat, seen: set<string>)
    requires i < |t| && SeenBefore(t, keyOf, i, seen)
    ensures SeenBefore(t, keyOf, i + 1, seen + {keyOf(t[i])})
    ensures FirstOccurrences(t, keyOf, i) ==
      if keyOf(t[i]) in seen then FirstOccurrences(t, keyOf, i + 1)
      else [t[i]] + FirstOccurrences(t, keyOf, i + 1)
  {
    var k := keyOf(t[i]);
    assert k in seen <==> !FirstOfItsKey(t, keyOf, i);
    forall x ensures x in seen + {k} <==> exists j :: 0 <= j < i + 1 && keyOf(t[j]) == x {
      if x == k {
        assert keyOf(t[i]) == x;
      }
    }
    assert [] + FirstOccurrences(t, keyOf, i + 1) == FirstOccurrences(t, keyOf, i + 1);
  }

  /** From any row on, the pass with the keys seen so far selects the first occurrences. */
  lemma {:induction false} KeepFirstIsFirstOccurrences(t: Table, keyOf: Row -> string, i: nat, seen: set<string>)
    requires i <= |t| && SeenBefore(t, keyOf, i, seen)
    ensures KeepFirst(t[i..], keyOf, seen) == FirstOccurrences(t, keyOf, i)
    decreases |t| - i
  {
    if i == |t| {
      assert t[i..] == [];
    } else {
      var k := keyOf(t[i]);
      KeepFirstStep(t, i, keyOf, seen);
      FirstOccurrencesStep(t, keyOf, i, seen);
      if k in seen {
        assert seen + {k} == seen;
        KeepFirstIsFirstOccurrences(t, keyOf, i + 1, seen);
      } else {
        KeepFirstIsFirstOccurrences(t, keyOf, i + 1, seen + {k});
      }
    }
  }

  /** removeDuplicates keeps exactly the rows no earlier row shares a key with, in input order. */
  lemma DedupeIsFirstOccurrences(t: Table, columns: seq<string>)
    ensures Dedupe(t, columns) == FirstOccurrences(t, KeyFunction(columns), 0)
  {
    KeepFirstIsFirstOccurrences(t, KeyFunction(columns), 0, {});
    assert t[0..] == t;
  }

  /** With no key columns every key is "", so at most the first row is kept. */
  lemma DedupeNoColumns(t: Table)
    ensures Dedupe(t, []) == t[..if t == [] then 0 else 1]
  {
    if t != [] {
      var keyOf := KeyFunction([]);
      forall j | 0 <= j < |t| - 1 ensures keyOf(t[1..][j]) in {""} {
        KeyOfNoColumns(t[1..][j]);
      }
      KeyOfNoColumns(t[0]);
      NothingNewKept(t[1..], keyOf, {""});
    }
  }
}
