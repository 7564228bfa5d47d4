/**
  The table model: a table is a sequence of rows, a row maps column names to
  cells, and a cell is one of the JavaScript values a parsed CSV or spreadsheet
  produces. The coercions the engine relies on (Number(), String(), the
  `join('|')` form of a value, loose `==` against a string and the relational
  `>`) are each written out once here.
*/
module Cells {
  import opened Wrappers
  import opened JsText

  /** A cell. Numbers are integers; `Undefined` is what reading a missing column gives. */
  datatype Cell = Str(s: string) | Num(n: int) | Bool(b: bool) | Null | Undefined

  type Row = map<string, Cell>

  type Table = seq<Row>

  /** `row[column]`: a column the row does not have reads as undefined. */
  function Get(row: Row, column: string): Cell {
    if column in row then row[column] else Undefined
  }

  /** null, undefined and "": the values the summary leaves out of its counts. */
  predicate IsMissing(c: Cell) {
    c == Null || c == Undefined || c == Str("")
  }

  // ---------------------------------------------------------------- Number()

  predicate AllDigits(s: string) {
    forall k :: 0 <= k < |s| ==> IsDigit(s[k])
  }

  function Pow10(n: nat): (r: real)
    ensures r >= 1.0
  {
    if n == 0 then 1.0 else 10.0 * Pow10(n - 1)
  }

  /** The index of the first `c` in `s`, or |s| when there is none. */
  function FindChar(s: string, c: char): (k: nat)
    ensures k <= |s|
    ensures k < |s| ==> s[k] == c
    ensures forall j :: 0 <= j < k ==> s[j] != c
  {
    if s == [] then 0
    else if s[0] == c then 0
    else 1 + FindChar(s[1..], c)
  }

  /**
    An unsigned decimal literal: digits, optionally one '.' and more digits, with
    at least one digit in all. Anything else is not a number.
  */
  function ParseUnsigned(u: string): (r: Option<real>)
    ensures r.Some? ==> r.value >= 0.0
    ensures AllDigits(u) && u != [] ==> r == Some(DigitsValue(u) as real)
  {
    var k := FindChar(u, '.');
    var whole := u[..k];
    var frac := if k < |u| then u[k + 1..] else [];
    assert AllDigits(u) ==> k == |u| && whole == u;
    if AllDigits(whole) && AllDigits(frac) && |whole| + |frac| > 0 then
      Some(DigitsValue(whole) as real + DigitsValue(frac) as real / Pow10(|frac|))
    else
      None
  }

  /**
    Number(s) for a string: surrounding white space is ignored, a blank string is
    0, otherwise an optionally signed decimal literal; None stands for NaN.
  */
  function ParseNumber(s: string): (r: Option<real>)
    ensures Trim(s) == [] ==> r == Some(0.0)
  {
    var t := Trim(s);
    if t == [] then Some(0.0)
    else if t[0] == '-' then
      match ParseUnsigned(t[1..])
      case Some(x) => Some(-x)
      case None => None
    else if t[0] == '+' then ParseUnsigned(t[1..])
    else ParseUnsigned(t)
  }

  /** Number(c); None stands for NaN. */
  function ToNumber(c: Cell): Option<real> {
    match c
    case Str(s) => ParseNumber(s)
    case Num(n) => Some(n as real)
    case Bool(b) => Some(if b then 1.0 else 0.0)
    case Null => Some(0.0)
    case Undefined => None
  }

  /** `Number(c) || 0`: NaN becomes 0. */
  function NumberOrZero(c: Cell): real {
    ToNumber(c).GetOr(0.0)
  }

  // ---------------------------------------------------------------- String()

  /** String(c). */
  function JsString(c: Cell): string {
    match c
    case Str(s) => s
    case Num(n) => IntToString(n)
    case Bool(b) => if b then "true" else "false"
    case Null => "null"
    case Undefined => "undefined"
  }

  /** How Array.prototype.join writes one element: null and undefined become "". */
  function JoinPart(c: Cell): string {
    if c == Null || c == Undefined then "" else JsString(c)
  }

  lemma NoSpaceTrimmed(s: string)
    requires s != [] && !IsSpace(s[0]) && !IsSpace(s[|s| - 1])
    ensures Trim(s) == s
  {
  }

  /** The text of a negative integer reads back as that integer. */
  lemma NegativeTextParses(n: int)
    requires n < 0
    ensures ParseNumber(IntToString(n)) == Some(n as real)
  {
    var t := IntToString(n);
    var d := NatToString(-n);
    assert t == "-" + d && t[1..] == d;
    NoSpaceTrimmed(t);
    assert ParseUnsigned(d) == Some((-n) as real);
  }

  /** The text of a non-negative integer reads back as that integer. */
  lemma NonNegativeTextParses(n: int)
    requires n >= 0
    ensures ParseNumber(IntToString(n)) == Some(n as real)
  {
    var t := IntToString(n);
    NoSpaceTrimmed(t);
    assert AllDigits(t);
    assert !IsDigit('-') && !IsDigit('+');
    assert t[0] != '-' && t[0] != '+';
  }

  /** A number and its decimal text coerce to the same value under Number(). */
  lemma NumberTextRoundTrip(n: int)
    ensures ToNumber(Str(JsString(Num(n)))) == ToNumber(Num(n))
  {
    if n < 0 {
      NegativeTextParses(n);
    } else {
      NonNegativeTextParses(n);
    }
  }

  // ---------------------------------------------------------------- comparisons

  /** Loose equality `c == value` against a string: strings compare as text, numbers and booleans through Number(). */
  predicate LooseEquals(c: Cell, value: string) {
    match c
    case Str(s) => s == value
    case Num(_) => ToNumber(c).Some? && ToNumber(c) == ParseNumber(value)
    case Bool(_) => ToNumber(c).Some? && ToNumber(c) == ParseNumber(value)
    case Null => false
    case Undefined => false
  }

  /** A number is loosely equal to its own decimal text. */
  lemma LooseEqualsOwnText(n: int)
    ensures LooseEquals(Num(n), JsString(Num(n)))
  {
    NumberTextRoundTrip(n);
  }

  /**
    The relational `x > y`: two strings compare as text; otherwise both sides go
    through Number() and a NaN on either side makes it false.
  */
  predicate Greater(x: Cell, y: Cell) {
    if x.Str? && y.Str? then StrLess(y.s, x.s)
    else ToNumber(x).Some? && ToNumber(y).Some? && ToNumber(x).value > ToNumber(y).value
  }

  lemma GreaterAsymmetric(x: Cell, y: Cell)
    requires Greater(x, y)
    ensures !Greater(y, x)
  {
    if x.Str? && y.Str? {
      StrLessAsymmetric(y.s, x.s);
    }
  }

  /**
    Cells on which "not greater" is transitive: two strings, or two values that
    are not strings and are not NaN under Number().
  */
  predicate SameKind(x: Cell, y: Cell) {
    (x.Str? && y.Str?) || (!x.Str? && !y.Str? && ToNumber(x).Some? && ToNumber(y).Some?)
  }

  lemma {:induction false} NotGreaterTransitive(x: Cell, y: Cell, z: Cell)
    requires SameKind(x, y) && SameKind(y, z)
    requires !Greater(x, y) && !Greater(y, z)
    ensures !Greater(x, z)
  {
    if x.Str? {
      StrNotLessTransitive(x.s, y.s, z.s);
    }
  }

  // ---------------------------------------------------------------- composite keys

  /** The cells of `columns`, each written as join('|') writes it. */
  function KeyParts(row: Row, columns: seq<string>): (parts: seq<string>)
    ensures |parts| == |columns|
    ensures forall k :: 0 <= k < |columns| ==> parts[k] == JoinPart(Get(row, columns[k]))
  {
    if columns == [] then [] else [JoinPart(Get(row, columns[0]))] + KeyParts(row, columns[1..])
  }

  /** `columns.map(col => row[col]).join('|')`. */
  function Key(row: Row, columns: seq<string>): string {
    Join(KeyParts(row, columns), "|")
  }

  /** Key as a function of the row alone, for the operators that only care which key each row has. */
  function KeyFunction(columns: seq<string>): Row -> string {
    row => Key(row, columns)
  }

  /** Key(row, []) is "" for every row: with no columns, all rows share one key. */
  lemma KeyOfNoColumns(row: Row)
    ensures Key(row, []) == ""
  {
  }

  /** A missing cell, a null and an empty string all give the same key. */
  lemma KeyMissingIsEmpty(row: Row, columns: seq<string>, column: string)
    ensures Key(row - {column}, columns) == Key(row[column := Str("")], columns)
    ensures Key(row[column := Null], columns) == Key(row[column := Str("")], columns)
  {
    assert KeyParts(row - {column}, columns) == KeyParts(row[column := Str("")], columns);
    assert KeyParts(row[column := Null], columns) == KeyParts(row[column := Str("")], columns);
  }

  /** The separator is not escaped: "a|b","c" and "a","b|c" collide. */
  lemma KeyCollision()
    ensures var r1 := map["x" := Str("a|b"), "y" := Str("c")];
            var r2 := map["x" := Str("a"), "y" := Str("b|c")];
            r1 != r2 && Key(r1, ["x", "y"]) == Key(r2, ["x", "y"]) == "a|b|c"
  {
    var r1 := map["x" := Str("a|b"), "y" := Str("c")];
    var r2 := map["x" := Str("a"), "y" := Str("b|c")];
    assert r1["x"] != r2["x"];
    assert KeyParts(r1, ["x", "y"]) == ["a|b", "c"];
    assert KeyParts(r2, ["x", "y"]) == ["a", "b|c"];
  }
}
