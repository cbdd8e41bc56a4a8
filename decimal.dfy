/**
 Year numbers as text. Records carry `str(year)`; the forecaster reads the
 year-count keys back with `int(y)`. `YearText` is `str` on integers and
 `ParseYear` accepts exactly the texts `str` can produce.
 */
module Decimal {
  import opened Wrappers

  predicate IsDigit(c: char)
  {
    '0' <= c <= '9'
  }

  function DigitChar(d: nat): (c: char)
    requires d < 10
    ensures IsDigit(c)
  {
    ('0' as int + d) as char
  }

  function DigitValue(c: char): (d: nat)
    requires IsDigit(c)
    ensures d < 10 && DigitChar(d) == c
  {
    c as int - '0' as int
  }

  predicate AllDigits(s: string)
  {
    forall i :: 0 <= i < |s| ==> IsDigit(s[i])
  }

  /** Decimal digits, most significant first, with no leading zero except for "0" itself. */
  predicate IsCanonical(s: string)
  {
    |s| > 0 && AllDigits(s) && (s[0] != '0' || |s| == 1)
  }

  /** `str(n)` for a natural number. */
  function NatText(n: nat): (s: string)
    ensures IsCanonical(s)
    ensures (s == "0") == (n == 0)
    decreases n
  {
    if n < 10 then [DigitChar(n)] else NatText(n / 10) + [DigitChar(n % 10)]
  }

  /** The number a string of decimal digits denotes. */
  function DigitsValue(s: string): nat
    requires AllDigits(s)
  {
    if s == [] then 0 else DigitsValue(s[..|s| - 1]) * 10 + DigitValue(s[|s| - 1])
  }

  /** `str(y)`: a minus sign for negative years, then the digits. */
  function YearText(y: int): (s: string)
    ensures |s| > 0
  {
    if y < 0 then "-" + NatText(-y) else NatText(y)
  }

  /** `int(s)` on the texts `str` produces; anything else is `None`. */
  function ParseYear(s: string): Option<int>
  {
    if |s| > 0 && s[0] == '-' then
      if IsCanonical(s[1..]) && s[1..] != "0" then Some(0 - DigitsValue(s[1..]) as int) else None
    else if IsCanonical(s) then Some(DigitsValue(s))
    else None
  }

  lemma {:induction false} NatTextValue(n: nat)
    ensures DigitsValue(NatText(n)) == n
    decreases n
  {
    if n >= 10 {
      NatTextValue(n / 10);
      var s := NatText(n);
      assert s[..|s| - 1] == NatText(n / 10);
    }
  }

  /** A digit string that does not start with zero denotes a positive number. */
  lemma {:induction false} LeadingDigitPositive(s: string)
    requires |s| > 0 && AllDigits(s) && s[0] != '0'
    ensures DigitsValue(s) > 0
    decreases |s|
  {
    if |s| > 1 {
      LeadingDigitPositive(s[..|s| - 1]);
    }
  }

  lemma {:induction false} ValueNatText(s: string)
    requires IsCanonical(s)
    ensures NatText(DigitsValue(s)) == s
    decreases |s|
  {
    var v := DigitsValue(s);
    var last := s[|s| - 1];
    if |s| == 1 {
      assert s == [last];
    } else {
      var init := s[..|s| - 1];
      LeadingDigitPositive(init);
      ValueNatText(init);
      assert v / 10 == DigitsValue(init) && v % 10 == DigitValue(last);
      assert s == init + [last];
    }
  }

  /** Reading back what `str` wrote gives the year. */
  lemma ParseYearText(y: int)
    ensures ParseYear(YearText(y)) == Some(y)
  {
    if y < 0 {
      var t := NatText(-y);
      var s := "-" + t;
      assert YearText(y) == s && s[0] == '-' && s[1..] == t;
      assert IsCanonical(t) && t != "0";
      NatTextValue(-y);
    } else {
      NatTextValue(y);
    }
  }

  /** Whatever `ParseYear` accepts is exactly the text `str` writes for its value. */
  lemma TextParseYear(s: string)
    requires ParseYear(s).Some?
    ensures YearText(ParseYear(s).value) == s
  {
    if |s| > 0 && s[0] == '-' {
      var r := s[1..];
      assert r[0] != '0';
      LeadingDigitPositive(r);
      ValueNatText(r);
      assert s == "-" + r;
    } else {
      ValueNatText(s);
    }
  }

  /** Distinct years have distinct texts. */
  lemma YearTextInjective(x: int, y: int)
    requires YearText(x) == YearText(y)
    ensures x == y
  {
    ParseYearText(x);
    ParseYearText(y);
  }

}
