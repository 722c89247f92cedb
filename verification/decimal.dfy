/**
 Decimal rendering of non-negative integers as Python's `{n:0Wd}` format produces it: the
 plain digits, left-padded with '0' up to a minimum width (longer numbers are never cut),
 together with the reading-back direction used to show that no information is lost.
 */
module Decimal {

  predicate IsDigit(c: char)
  {
    '0' <= c <= '9'
  }

  predicate AllDigits(s: string)
  {
    forall i :: 0 <= i < |s| ==> IsDigit(s[i])
  }

  function DigitChar(d: nat): (c: char)
    requires d < 10
    ensures IsDigit(c) && (c as int) - ('0' as int) == d
  {
    ['0', '1', '2', '3', '4', '5', '6', '7', '8', '9'][d]
  }

  function DigitValue(c: char): (d: nat)
    requires IsDigit(c)
    ensures d < 10
  {
    (c as int) - ('0' as int)
  }

  /** The shortest decimal spelling of n (no leading zeros; "0" for zero). */
  function Digits(n: nat): (s: string)
    ensures 1 <= |s| && AllDigits(s)
    ensures n < 10 <==> |s| == 1
  {
    if n < 10 then [DigitChar(n)] else Digits(n / 10) + [DigitChar(n % 10)]
  }

  /** The value of a string of digits, most significant first; the empty string reads as 0. */
  function Parse(s: string): nat
    requires AllDigits(s)
  {
    if s == [] then 0 else 10 * Parse(s[..|s| - 1]) + DigitValue(s[|s| - 1])
  }

  /** `{n:0Wd}`: the digits of n, left-padded with zeros to at least `width` characters. */
  function Pad(n: nat, width: nat): (s: string)
    ensures AllDigits(s)
  {
    var d := Digits(n);
    if |d| >= width then d else Zeros(width - |d|) + d
  }

  function Zeros(k: nat): (z: string)
    ensures |z| == k && AllDigits(z)
    ensures forall i :: 0 <= i < k ==> z[i] == '0'
  {
    seq(k, _ => '0')
  }

  lemma {:induction false} ParseDigits(n: nat)
    ensures Parse(Digits(n)) == n
  {
    if n >= 10 {
      var d := Digits(n);
      assert d[..|d| - 1] == Digits(n / 10);
      ParseDigits(n / 10);
    }
  }

  /** A leading zero never changes the value read. */
  lemma {:induction false} ParseLeadingZero(s: string)
    requires AllDigits(s)
    ensures Parse(['0'] + s) == Parse(s)
    decreases |s|
  {
    if s != [] {
      var t := ['0'] + s;
      assert t[..|t| - 1] == ['0'] + s[..|s| - 1];
      ParseLeadingZero(s[..|s| - 1]);
    }
  }

  lemma {:induction false} ParseZeros(k: nat, s: string)
    requires AllDigits(s)
    ensures Parse(Zeros(k) + s) == Parse(s)
  {
    if k > 0 {
      assert Zeros(k) == ['0'] + Zeros(k - 1);
      assert Zeros(k) + s == ['0'] + (Zeros(k - 1) + s);
      ParseLeadingZero(Zeros(k - 1) + s);
      ParseZeros(k - 1, s);
    } else {
      assert Zeros(k) + s == s;
    }
  }

  /** Padding is exactly as wide as asked unless the number needs more room. */
  lemma {:induction false} PadLength(n: nat, width: nat)
    ensures |Pad(n, width)| == if |Digits(n)| >= width then |Digits(n)| else width
  {
  }

  /** Reading a padded number back gives the number: zero padding loses nothing. */
  lemma {:induction false} PadRoundTrip(n: nat, width: nat)
    ensures Parse(Pad(n, width)) == n
  {
    var d := Digits(n);
    ParseDigits(n);
    if |d| < width {
      PadZeros(n, width);
    }
  }

  lemma {:induction false} PadZeros(n: nat, width: nat)
    requires |Digits(n)| < width
    ensures Parse(Pad(n, width)) == Parse(Digits(n))
  {
    var d := Digits(n);
    var z := Zeros(width - |d|);
    var p := Pad(n, width);
    assert p == z + d;
    ParseZeros(width - |d|, d);
  }

  /** Numbers below 10^k have at most k digits. */
  lemma {:induction false} DigitsBound(n: nat, k: nat)
    requires n < Pow10(k)
    ensures |Digits(n)| <= k || (n == 0 && k == 0)
  {
    if n >= 10 {
      assert k >= 2 by {
        assert Pow10(0) == 1 && Pow10(1) == 10;
      }
      assert n / 10 < Pow10(k - 1);
      DigitsBound(n / 10, k - 1);
    }
  }

  function Pow10(k: nat): (p: nat)
    ensures p >= 1
  {
    if k == 0 then 1 else 10 * Pow10(k - 1)
  }

  /** A number that fits in the width is written with exactly that many characters. */
  lemma {:induction false} PadExactWidth(n: nat, width: nat)
    requires 1 <= width && n < Pow10(width)
    ensures |Pad(n, width)| == width
  {
    DigitsBound(n, width);
  }

  /** Every frame index below one million is written with exactly six characters. */
  lemma {:induction false} PadSixWidth(n: nat)
    requires n < 1000000
    ensures |Pad(n, 6)| == 6
  {
    assert Pow10(6) == 1000000;
    PadExactWidth(n, 6);
  }
}
