/** The decimal text Go's `fmt.Sprint` gives an integer (`int32` or `int64`):
    an optional minus sign followed by the digits of the magnitude, without
    leading zeros. `ParseDecimal` is its inverse on canonical decimal strings. */
module Decimal {
  import opened Outcomes

  predicate IsDigit(c: char) {
    '0' <= c <= '9'
  }

  predicate AllDigits(s: string) {
    forall i :: 0 <= i < |s| ==> IsDigit(s[i])
  }

  /** A non-empty digit string with no leading zero (other than "0" itself). */
  predicate IsCanonicalDigits(s: string) {
    |s| >= 1 && AllDigits(s) && (s[0] == '0' ==> |s| == 1)
  }

  function DigitChar(d: nat): (c: char)
    requires d < 10
    ensures IsDigit(c) && c as int - '0' as int == d
  {
    ('0' as int + d) as char
  }

  function DigitValue(c: char): (d: nat)
    requires IsDigit(c)
    ensures d < 10 && DigitChar(d) == c
  {
    c as int - '0' as int
  }

  /** The digits of a natural number, most significant first. */
  function Digits(n: nat): (s: string)
    ensures IsCanonicalDigits(s)
    ensures s[0] == '0' <==> n == 0
  {
    if n < 10 then [DigitChar(n)]
    else
      var prefix := Digits(n / 10);
      var s := prefix + [DigitChar(n % 10)];
      assert s[0] == prefix[0];
      assert forall i :: 0 <= i < |prefix| ==> s[i] == prefix[i];
      s
  }

  /** The text `fmt.Sprint` gives the integer `n`. */
  function DecimalText(n: int): (s: string)
    ensures |s| >= 1
    ensures s[0] == '-' <==> n < 0
  {
    if n < 0 then "-" + Digits(-n) else Digits(n)
  }

  /** The value of a digit string, read most significant digit first. */
  function ParseDigits(s: string): nat
    requires AllDigits(s)
  {
    if s == [] then 0
    else 10 * ParseDigits(s[..|s| - 1]) + DigitValue(s[|s| - 1])
  }

  /** Reads back a canonical decimal integer; `None` for anything else
      (empty text, stray characters, leading zeros, "-0"). */
  function ParseDecimal(s: string): Option<int> {
    if |s| >= 1 && s[0] == '-' then
      if IsCanonicalDigits(s[1..]) && s[1..] != "0" then Some(0 - ParseDigits(s[1..]) as int) else None
    else if IsCanonicalDigits(s) then Some(ParseDigits(s))
    else None
  }

  lemma {:induction false} ParseDigitsOfDigits(n: nat)
    ensures ParseDigits(Digits(n)) == n
  {
    if n >= 10 {
      var s := Digits(n);
      assert s[..|s| - 1] == Digits(n / 10);
      ParseDigitsOfDigits(n / 10);
    }
  }

  /** The leading digit bounds the value from below. */
  lemma {:induction false} ParseDigitsAtLeastLead(s: string)
    requires |s| >= 1 && AllDigits(s)
    ensures ParseDigits(s) >= DigitValue(s[0])
  {
    if |s| > 1 {
      var prefix := s[..|s| - 1];
      assert prefix[0] == s[0];
      ParseDigitsAtLeastLead(prefix);
    }
  }

  lemma {:induction false} DigitsOfParseDigits(s: string)
    requires IsCanonicalDigits(s)
    ensures Digits(ParseDigits(s)) == s
  {
    if |s| > 1 {
      var prefix := s[..|s| - 1];
      assert prefix[0] == s[0];
      assert IsCanonicalDigits(prefix);
      ParseDigitsAtLeastLead(prefix);
      DigitsOfParseDigits(prefix);
      var n := ParseDigits(s);
      assert n / 10 == ParseDigits(prefix) && n % 10 == DigitValue(s[|s| - 1]);
      assert s == prefix + [s[|s| - 1]];
    }
  }

  /** Printing an integer and reading it back gives the integer. */
  lemma DecimalTextRoundTrip(n: int)
    ensures ParseDecimal(DecimalText(n)) == Some(n)
  {
    var s := DecimalText(n);
    if n < 0 {
      assert s[1..] == Digits(-n);
      ParseDigitsOfDigits(-n);
    } else {
      ParseDigitsOfDigits(n);
    }
  }

  /** Every text `ParseDecimal` accepts is the printed form of its value. */
  lemma ParseDecimalRoundTrip(s: string)
    requires ParseDecimal(s).Some?
    ensures DecimalText(ParseDecimal(s).value) == s
  {
    if |s| >= 1 && s[0] == '-' {
      DigitsOfParseDigits(s[1..]);
      assert s == "-" + s[1..];
    } else {
      DigitsOfParseDigits(s);
    }
  }

  /** Distinct integers print differently. */
  lemma DecimalTextInjective(m: int, n: int)
    requires DecimalText(m) == DecimalText(n)
    ensures m == n
  {
    DecimalTextRoundTrip(m);
    DecimalTextRoundTrip(n);
  }
}
