/**
  The row operators that build a fresh table from the old one without any
  mutable state: trimSpaces, changeCase, findReplace (each copies every row
  and rewrites string cells of the named columns) and filterData.
*/
module Transforms {
  import opened JsText
  import opened Cells
  import opened Seqs

  /**
    The frame of the copying operators: `r` has the rows of `t` in the same
    order with the same columns, a string cell of a named column holds `f` of
    its old text, and every other cell is unchanged.
  */
  ghost predicate RewritesStringCells(t: Table, r: Table, columns: seq<string>, f: string -> string) {
    && |r| == |t|
    && forall i :: 0 <= i < |t| ==>
         && r[i].Keys == t[i].Keys
         && forall c :: c in t[i] ==>
              r[i][c] == if c in columns && t[i][c].Str? then Str(f(t[i][c].s)) else t[i][c]
  }

  /** `{ ...row }` followed by rewriting the string cells of `columns` with `f`. */
  function RewriteRow(row: Row, columns: seq<string>, f: string -> string): Row {
    map c | c in row :: if c in columns && row[c].Str? then Str(f(row[c].s)) else row[c]
  }

  function RewriteTable(t: Table, columns: seq<string>, f: string -> string): (r: Table)
    ensures RewritesStringCells(t, r, columns, f)
  {
    seq(|t|, i requires 0 <= i < |t| => RewriteRow(t[i], columns, f))
  }

  /** trimSpaces: trims the string cells of the named columns. */
  function TrimSpaces(t: Table, columns: seq<string>): (r: Table)
    ensures RewritesStringCells(t, r, columns, Trim)
  {
    RewriteTable(t, columns, Trim)
  }

  /** The case function changeCase uses: "upper" upper-cases, any other case type lower-cases. */
  function CaseFunction(caseType: string): string -> string {
    if caseType == "upper" then ToUpper else ToLower
  }

  /** changeCase: upper- or lower-cases the string cells of the named columns. */
  function ChangeCase(t: Table, columns: seq<string>, caseType: string): (r: Table)
    ensures RewritesStringCells(t, r, columns, CaseFunction(caseType))
  {
    RewriteTable(t, columns, CaseFunction(caseType))
  }

  /** findReplace: replaces every occurrence of `find` in the string cells of one column. */
  function FindReplace(t: Table, column: string, find: string, replace: string): (r: Table)
    ensures RewritesStringCells(t, r, [column], s => ReplaceAll(s, find, replace))
  {
    RewriteTable(t, [column], s => ReplaceAll(s, find, replace))
  }

  /** Rewriting twice with an idempotent text function is the same as rewriting once. */
  lemma RewriteTwice(t: Table, columns: seq<string>, f: string -> string)
    requires forall s :: f(f(s)) == f(s)
    ensures RewriteTable(RewriteTable(t, columns, f), columns, f) == RewriteTable(t, columns, f)
  {
    var once := RewriteTable(t, columns, f);
    var twice := RewriteTable(once, columns, f);
    forall i | 0 <= i < |t| ensures twice[i] == once[i] {
      assert twice[i].Keys == once[i].Keys;
      forall c | c in once[i] ensures twice[i][c] == once[i][c] {
        if c in columns && t[i][c].Str? {
          assert f(f(t[i][c].s)) == f(t[i][c].s);
        }
      }
    }
  }

  /** trimSpaces is idempotent. */
  lemma TrimSpacesIdempotent(t: Table, columns: seq<string>)
    ensures TrimSpaces(TrimSpaces(t, columns), columns) == TrimSpaces(t, columns)
  {
    forall s ensures Trim(Trim(s)) == Trim(s) {
      TrimIdempotent(s);
    }
    RewriteTwice(t, columns, Trim);
  }

  /** changeCase is idempotent for every case type. */
  lemma ChangeCaseIdempotent(t: Table, columns: seq<string>, caseType: string)
    ensures ChangeCase(ChangeCase(t, columns, caseType), columns, caseType) == ChangeCase(t, columns, caseType)
  {
    var f := CaseFunction(caseType);
    forall s ensures f(f(s)) == f(s) {
      if caseType == "upper" {
        ToUpperIdempotent(s);
      } else {
        ToLowerIdempotent(s);
      }
    }
    RewriteTwice(t, columns, f);
  }

  /** Any case type other than "upper" behaves exactly like "lower". */
  lemma ChangeCaseOtherIsLower(t: Table, columns: seq<string>, caseType: string)
    requires caseType != "upper"
    ensures ChangeCase(t, columns, caseType) == ChangeCase(t, columns, "lower")
  {
  }

  /** findReplace leaves the table as it is when no cell of the column contains the pattern. */
  lemma FindReplaceNoMatch(t: Table, column: string, find: string, replace: string)
    requires find != []
    requires forall i :: 0 <= i < |t| && column in t[i] && t[i][column].Str? ==> !Includes(t[i][column].s, find)
    ensures FindReplace(t, column, find, replace) == t
  {
    var r := FindReplace(t, column, find, replace);
    forall i | 0 <= i < |t| ensures r[i] == t[i] {
      assert r[i].Keys == t[i].Keys;
    }
  }

  // ---------------------------------------------------------------- filterData

  /** The row predicate of filterData; an unknown operator keeps every row. */
  predicate Matches(row: Row, column: string, value: string, operator: string) {
    var cell := Get(row, column);
    if operator == "equals" then LooseEquals(cell, value)
    else if operator == "contains" then Includes(JsString(cell), value)
    else if operator == "greater" then
      ToNumber(cell).Some? && ParseNumber(value).Some? && ToNumber(cell).value > ParseNumber(value).value
    else if operator == "less" then
      ToNumber(cell).Some? && ParseNumber(value).Some? && ToNumber(cell).value < ParseNumber(value).value
    else true
  }

  predicate KnownOperator(operator: string) {
    operator == "equals" || operator == "contains" || operator == "greater" || operator == "less"
  }

  /**
    filterData: the rows that match, in their original order, each as many
    times as it occurs in the input.
  */
  function FilterData(t: Table, column: string, value: string, operator: string): (r: Table)
    ensures IsSubsequence(r, t)
    ensures forall k :: 0 <= k < |r| ==> Matches(r[k], column, value, operator)
    ensures forall row :: multiset(r)[row] == if Matches(row, column, value, operator) then multiset(t)[row] else 0
  {
    if t == [] then []
    else
      var rest := FilterData(t[1..], column, value, operator);
      assert t == [t[0]] + t[1..];
      if Matches(t[0], column, value, operator) then [t[0]] + rest else rest
  }

  /** An operator filterData does not know keeps the whole table. */
  lemma {:induction false} FilterUnknownOperatorKeepsAll(t: Table, column: string, value: string, operator: string)
    requires !KnownOperator(operator)
    ensures FilterData(t, column, value, operator) == t
  {
    if t != [] {
      FilterUnknownOperatorKeepsAll(t[1..], column, value, operator);
    }
  }

  /** For "greater" and "less", a row whose cell is NaN under Number() is dropped. */
  lemma FilterDropsNaN(t: Table, column: string, value: string, operator: string)
    requires operator == "greater" || operator == "less"
    ensures forall k :: 0 <= k < |FilterData(t, column, value, operator)| ==>
      ToNumber(Get(FilterData(t, column, value, operator)[k], column)).Some?
  {
  }

  /** Filtering never adds rows and never reorders them. */
  lemma FilterShrinks(t: Table, column: string, value: string, operator: string)
    ensures |FilterData(t, column, value, operator)| <= |t|
  {
    SubsequenceBounds(FilterData(t, column, value, operator), t);
  }
}
