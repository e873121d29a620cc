/** Decimal rendering of a millisecond timestamp, as `Date.now().toString()`
    produces it, and the parse that inverts it. */
module Decimal {

  predicate IsDigit(c: char)
  {
    '0' <= c <= '9'
  }

  predicate AllDigits(s: string)
  {
    forall k :: 0 <= k < |s| ==> IsDigit(s[k])
  }

  /** A digit string the way a non-negative integer prints: at least one digit,
      and no leading zero unless the number is zero itself. */
  predicate Canonical(s: string)
  {
    |s| >= 1 && AllDigits(s) && (s[0] == '0' ==> |s| == 1)
  }

  function DigitValue(c: char): (d: nat)
    requires IsDigit(c)
    ensures d < 10
  {
    c as int - '0' as int
  }

  function DigitChar(d: nat): (c: char)
    requires d < 10
    ensures IsDigit(c) && DigitValue(c) == d
    ensures c == '0' <==> d == 0
  {
    ('0' as int + d) as char
  }

  /** The decimal representation of `n`, most significant digit first. */
  function ToDecimal(n: nat): (s: string)
    ensures Canonical(s)
    ensures s[0] == '0' <==> n == 0
    decreases n
  {
    if n < 10 then [DigitChar(n)] else ToDecimal(n / 10) + [DigitChar(n % 10)]
  }

  /** The number a digit string denotes. */
  function ParseDecimal(s: string): nat
    requires AllDigits(s)
  {
    if s == [] then 0 else ParseDecimal(s[..|s| - 1]) * 10 + DigitValue(s[|s| - 1])
  }

  lemma {:induction false} ParseToDecimal(n: nat)
    ensures ParseDecimal(ToDecimal(n)) == n
    decreases n
  {
    if n >= 10 {
      var s := ToDecimal(n);
      assert s[..|s| - 1] == ToDecimal(n / 10);
      ParseToDecimal(n / 10);
    }
  }

  /** A non-empty digit string is worth at least its leading digit. */
  lemma {:induction false} ParseAtLeastLeading(s: string)
    requires |s| >= 1 && AllDigits(s)
    ensures ParseDecimal(s) >= DigitValue(s[0])
    decreases |s|
  {
    if |s| > 1 {
      ParseAtLeastLeading(s[..|s| - 1]);
    }
  }

  lemma {:induction false} ToDecimalOfParse(s: string)
    requires Canonical(s)
    ensures ToDecimal(ParseDecimal(s)) == s
    decreases |s|
  {
    if |s| > 1 {
      var front := s[..|s| - 1];
      assert Canonical(front);
      ToDecimalOfParse(front);
      ParseAtLeastLeading(front);
      var n := ParseDecimal(s);
      assert n / 10 == ParseDecimal(front) && n % 10 == DigitValue(s[|s| - 1]);
      assert s == front + [s[|s| - 1]];
    }
  }

  /** Distinct timestamps never render to the same id. */
  lemma ToDecimalInjective(a: nat, b: nat)
    ensures ToDecimal(a) == ToDecimal(b) <==> a == b
  {
    ParseToDecimal(a);
    ParseToDecimal(b);
  }
}
