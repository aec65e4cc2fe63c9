/**
 * The decimal text of an integral workload, as JavaScript's `Number.prototype.toString()`
 * writes a safe integer (magnitude below 2^53): an optional minus sign followed by digits
 * without leading zeros. Beyond that range `toString` rounds the digits or switches to
 * exponent form, which this module does not model.
 * The parser is the partner that shows no information is lost.
 */
module Decimal {
  import opened Wrappers

  /** 2^53: integers of smaller magnitude are exact JavaScript numbers and print all digits. */
  const SafeBound: int := 0x20000000000000

  predicate IsSafe(n: int) {
    -SafeBound < n < SafeBound
  }

  predicate IsDigit(c: char) {
    '0' <= c <= '9'
  }

  function DigitChar(d: nat): (c: char)
    requires d < 10
    ensures IsDigit(c) && DigitValue(c) == d
  {
    (('0' as int) + d) as char
  }

  function DigitValue(c: char): nat
    requires IsDigit(c)
  {
    (c as int) - ('0' as int)
  }

  predicate AllDigits(s: string) {
    forall k :: 0 <= k < |s| ==> IsDigit(s[k])
  }

  /** Decimal digits of `n`, most significant first. */
  function NatText(n: nat): (r: string)
    ensures |r| > 0 && AllDigits(r)
    ensures |r| > 1 ==> r[0] != '0'
    decreases n
  {
    if n < 10 then [DigitChar(n)] else NatText(n / 10) + [DigitChar(n % 10)]
  }

  /** The text `Number.prototype.toString()` gives for the integer `n`. */
  function IntText(n: int): (r: string)
    requires IsSafe(n)
    ensures |r| > 0
    ensures n < 0 <==> r[0] == '-'
    ensures n >= 0 ==> AllDigits(r) && (|r| == 1 || r[0] != '0')
    ensures n < 0 ==> |r| > 1 && AllDigits(r[1..]) && r[1] != '0'
  {
    if n < 0 then "-" + NatText(-n) else NatText(n)
  }

  /** Value of a non-empty digit string. */
  function ParseNat(s: string): nat
    requires |s| > 0 && AllDigits(s)
  {
    if |s| == 1 then DigitValue(s[0])
    else ParseNat(s[..|s| - 1]) * 10 + DigitValue(s[|s| - 1])
  }

  /** Reads an optional minus sign and digits; anything else is `None`. */
  function ParseInt(s: string): Option<int> {
    if |s| > 0 && AllDigits(s) then Some(ParseNat(s))
    else if |s| > 1 && s[0] == '-' && AllDigits(s[1..]) then Some(0 - ParseNat(s[1..]) as int)
    else None
  }

  lemma {:induction false} NatTextRoundTrip(n: nat)
    ensures ParseNat(NatText(n)) == n
    decreases n
  {
    if n >= 10 {
      var s := NatText(n);
      assert s[..|s| - 1] == NatText(n / 10);
      NatTextRoundTrip(n / 10);
    }
  }

  /** The workload text always reads back as the number it was made from. */
  lemma IntTextRoundTrip(n: int)
    requires IsSafe(n)
    ensures ParseInt(IntText(n)) == Some(n)
  {
    var s := IntText(n);
    if n < 0 {
      var digits := NatText(-n);
      assert s == "-" + digits;
      assert s[1..] == digits;
      assert !IsDigit(s[0]);
      NatTextRoundTrip(-n);
      assert ParseInt(s) == Some(0 - ParseNat(digits) as int);
    } else {
      assert s == NatText(n);
      NatTextRoundTrip(n);
    }
  }
}
