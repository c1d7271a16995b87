/**
  Decimal rendering of natural numbers, as a JavaScript template literal
  renders an integer count (`${n}`), and the reading that inverts it.
*/
module Decimal {

  predicate IsDigit(c: char) {
    '0' <= c <= '9'
  }

  predicate AllDigits(s: string) {
    forall k :: 0 <= k < |s| ==> IsDigit(s[k])
  }

  function DigitChar(d: nat): (c: char)
    requires d < 10
    ensures IsDigit(c) && c as int - '0' as int == d
  {
    ('0' as int + d) as char
  }

  function DigitValue(c: char): (d: nat)
    requires IsDigit(c)
    ensures d < 10
  {
    c as int - '0' as int
  }

  /** The decimal digits of `n`, most significant first, without leading zeros. */
  function NatToString(n: nat): (r: string)
    ensures |r| >= 1 && AllDigits(r)
    ensures r[0] == '0' ==> n == 0
    decreases n
  {
    if n < 10 then [DigitChar(n)] else NatToString(n / 10) + [DigitChar(n % 10)]
  }

  /** The number a string of decimal digits denotes. */
  function ParseDecimal(s: string): nat
    requires AllDigits(s)
    decreases |s|
  {
    if s == [] then 0 else 10 * ParseDecimal(s[..|s| - 1]) + DigitValue(s[|s| - 1])
  }

  /** Reading back the rendering of a number gives the number. */
  lemma {:induction false} ParseNatToString(n: nat)
    ensures ParseDecimal(NatToString(n)) == n
    decreases n
  {
    var r := NatToString(n);
    if n >= 10 {
      ParseNatToString(n / 10);
      assert r[..|r| - 1] == NatToString(n / 10);
    }
  }

  /** Distinct numbers have distinct renderings. */
  lemma NatToStringInjective(m: nat, n: nat)
    requires NatToString(m) == NatToString(n)
    ensures m == n
  {
    ParseNatToString(m);
    ParseNatToString(n);
  }

  /** The longest prefix of `s` made of digits. */
  function LeadingDigits(s: string): (r: string)
    ensures |r| <= |s| && r == s[..|r|] && AllDigits(r)
    ensures |r| == |s| || !IsDigit(s[|r|])
    decreases |s|
  {
    if |s| > 0 && IsDigit(s[0]) then [s[0]] + LeadingDigits(s[1..]) else ""
  }

  /** A rendered number followed by a non-digit is read back as that number. */
  lemma ReadLeadingNumber(n: nat, tail: string)
    requires tail == [] || !IsDigit(tail[0])
    ensures LeadingDigits(NatToString(n) + tail) == NatToString(n)
    ensures ParseDecimal(LeadingDigits(NatToString(n) + tail)) == n
  {
    var r := NatToString(n);
    var s := r + tail;
    var d := LeadingDigits(s);
    assert s[..|r|] == r;
    assert forall k :: 0 <= k < |r| ==> IsDigit(s[k]) by {
      forall k | 0 <= k < |r| ensures IsDigit(s[k]) {
        assert s[k] == r[k];
      }
    }
    assert |r| < |s| ==> s[|r|] == tail[0];
    assert |d| == |r|;
    ParseNatToString(n);
  }
}
