/**
 * Decimal strings: the textual form in which the codec receives the number to
 * encode and returns the number it decoded.
 */
module Decimal {
  import opened Positional

  predicate IsDigitChar(c: char) {
    '0' <= c <= '9'
  }

  /** Every character of s is one of the ASCII digits 0-9. */
  predicate IsDecimal(s: string) {
    forall i :: 0 <= i < |s| ==> IsDigitChar(s[i])
  }

  /** The decimal form the codec returns: digits only, at least one of them, and
      no leading zero except in "0" itself. */
  predicate IsCanonicalDecimal(s: string) {
    |s| > 0 && IsDecimal(s) && (s[0] == '0' ==> |s| == 1)
  }

  /** The digit values of the characters of s. */
  function DigitValues(s: string): (ds: seq<nat>)
    requires IsDecimal(s)
    ensures |ds| == |s| && AreDigits(ds, 10)
    ensures forall i :: 0 <= i < |s| ==> (ds[i] == 0 <==> s[i] == '0')
  {
    seq(|s|, i requires 0 <= i < |s| => (s[i] as int - '0' as int) as nat)
  }

  /** The characters that spell the digit values ds. */
  function DigitChars(ds: seq<nat>): (s: string)
    requires AreDigits(ds, 10)
    ensures |s| == |ds| && IsDecimal(s) && DigitValues(s) == ds
    ensures forall i :: 0 <= i < |ds| ==> (s[i] == '0' <==> ds[i] == 0)
  {
    seq(|ds|, i requires 0 <= i < |ds| => ('0' as int + ds[i]) as char)
  }

  /** The number a decimal string denotes; leading zeros do not change it. */
  function Value(s: string): nat
    requires IsDecimal(s)
  {
    FromDigits(DigitValues(s), 10)
  }

  /** The canonical decimal form of n. */
  function Print(n: nat): (s: string)
    ensures IsCanonicalDecimal(s)
    ensures Value(s) == n
  {
    var ds := ToDigits(n, 10);
    FromToDigits(n, 10);
    DigitChars(ds)
  }

  /** A canonical decimal string is the printed form of its own value. */
  lemma PrintValue(s: string)
    requires IsCanonicalDecimal(s)
    ensures Print(Value(s)) == s
  {
    var ds := DigitValues(s);
    assert IsCanonical(ds, 10);
    ToFromDigits(ds, 10);
    assert DigitChars(ds) == s;
  }

  /** A string of k digits denotes a number below 10^k. */
  lemma ValueBound(s: string)
    requires IsDecimal(s)
    ensures Value(s) < Pow(10, |s|)
  {
    FromDigitsBound(DigitValues(s), 10);
  }
}
