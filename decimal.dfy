/**
 * Decimal numerals: the value `strconv.ParseInt(s, 10, 0)` reads from a string of
 * ASCII digits, and the text `fmt.Sprintf("%03d", n)` writes for a non-negative n.
 */
module Decimal {
  import opened Chars

  function DigitValue(c: char): (d: nat)
    requires IsDigit(c)
    ensures d < 10
  {
    (c as int) - ('0' as int)
  }

  function DigitChar(d: nat): (c: char)
    requires d < 10
    ensures IsDigit(c) && DigitValue(c) == d
  {
    ((('0' as int) + d) as char)
  }

  /** The value of a string of digits, most significant first; leading zeros are allowed. */
  function DecimalValue(s: string): (v: nat)
    requires AllDigits(s)
  {
    if s == [] then 0 else 10 * DecimalValue(s[..|s| - 1]) + DigitValue(s[|s| - 1])
  }

  /** The shortest decimal numeral of n (what `%d` prints). */
  function DecimalString(n: nat): (s: string)
    ensures s != [] && AllDigits(s)
    ensures DecimalValue(s) == n
    ensures |s| > 1 ==> s[0] != '0'
  {
    if n < 10 then [DigitChar(n)]
    else
      var high := DecimalString(n / 10);
      var s := high + [DigitChar(n % 10)];
      assert s[..|s| - 1] == high;
      s
  }

  function Zeros(k: nat): (z: string)
    ensures |z| == k && AllDigits(z)
    ensures forall i :: 0 <= i < k ==> z[i] == '0'
  {
    seq(k, _ => '0')
  }

  /** `%03d` for a non-negative value: the numeral, padded on the left with zeros to three digits. */
  function Pad3(n: nat): (s: string)
    ensures AllDigits(s) && DecimalValue(s) == n
    ensures |s| == if |DecimalString(n)| < 3 then 3 else |DecimalString(n)|
    ensures |s| > 3 ==> s[0] != '0'
  {
    var d := DecimalString(n);
    if |d| < 3 then
      LeadingZerosDoNotCount(3 - |d|, d);
      Zeros(3 - |d|) + d
    else d
  }

  lemma {:induction false} ZerosValue(k: nat)
    ensures DecimalValue(Zeros(k)) == 0
  {
    if k > 0 {
      assert Zeros(k)[..k - 1] == Zeros(k - 1);
      ZerosValue(k - 1);
    }
  }

  /** Leading zeros do not change the value read back: "005" reads as 5. */
  lemma {:induction false} LeadingZerosDoNotCount(k: nat, s: string)
    requires AllDigits(s)
    ensures AllDigits(Zeros(k) + s) && DecimalValue(Zeros(k) + s) == DecimalValue(s)
    decreases |s|
  {
    var z := Zeros(k) + s;
    if s == [] {
      assert z == Zeros(k);
      ZerosValue(k);
    } else {
      assert z[..|z| - 1] == Zeros(k) + s[..|s| - 1];
      assert z[|z| - 1] == s[|s| - 1];
      LeadingZerosDoNotCount(k, s[..|s| - 1]);
    }
  }

  /** `%03d` of 5, 77 and 1234. */
  lemma Pad3Examples()
    ensures Pad3(5) == "005"
    ensures Pad3(77) == "077"
    ensures Pad3(1234) == "1234"
  {
    Pad3OneDigit(5);
    Pad3TwoDigits(77);
    assert DecimalString(1234) == "1234";
  }

  lemma Pad3OneDigit(n: nat)
    requires n < 10
    ensures Pad3(n) == ['0', '0', DigitChar(n)]
  {
    assert Zeros(2) == ['0', '0'];
  }

  lemma Pad3TwoDigits(n: nat)
    requires 10 <= n < 100
    ensures Pad3(n) == ['0', DigitChar(n / 10), DigitChar(n % 10)]
  {
    assert DecimalString(n) == [DigitChar(n / 10), DigitChar(n % 10)];
    assert Zeros(1) == ['0'];
  }
}
