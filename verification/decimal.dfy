/**
  The decimal text `String(n)` writes for an integer has no superfluous leading
  zero, and such text is unique: the contracts of NatToString and IntToString
  therefore fix the text completely.
*/
module DecimalText {
  import opened JsText

  /** Digit text without a superfluous leading zero. */
  predicate Canonical(s: string) {
    s != [] && (forall k :: 0 <= k < |s| ==> IsDigit(s[k])) && (s[0] == '0' ==> s == "0")
  }

  /**
    The text of an integer has no superfluous leading zero: the digits of a
    non-negative number are canonical, and a '-' is followed by a non-zero digit.
  */
  lemma IntToStringCanonical(n: int)
    ensures n >= 0 ==> Canonical(IntToString(n))
    ensures n < 0 ==> Canonical(IntToString(n)[1..]) && IntToString(n)[1] != '0'
  {
    if n < 0 {
      var d := NatToString(-n);
      assert IntToString(n)[1..] == d;
    }
  }

  /** Digit text that starts with a non-zero digit has a non-zero value. */
  lemma {:induction false} LeadingDigitPositive(s: string)
    requires s != [] && (forall k :: 0 <= k < |s| ==> IsDigit(s[k])) && s[0] != '0'
    ensures DigitsValue(s) >= 1
  {
    if |s| > 1 {
      LeadingDigitPositive(s[..|s| - 1]);
    }
  }

  /** The canonical text of a number is unique: it is the one NatToString writes. */
  lemma {:induction false} CanonicalIsNatToString(s: string)
    requires Canonical(s)
    ensures s == NatToString(DigitsValue(s))
  {
    var n := DigitsValue(s);
    if |s| == 1 {
      assert s[..0] == [];
    } else {
      var prefix := s[..|s| - 1];
      var d := s[|s| - 1] as int - '0' as int;
      LeadingDigitPositive(prefix);
      assert n == DigitsValue(prefix) * 10 + d && 0 <= d < 10;
      assert n / 10 == DigitsValue(prefix) && n % 10 == d;
      CanonicalIsNatToString(prefix);
      assert s == prefix + [s[|s| - 1]];
    }
  }
}
