/** The .NET standard numeric format "D<k>" for non-negative integers:
    the decimal digits of the value, padded on the left with '0' to at
    least k digits ("D3" turns 7 into "007" and 1234 into "1234"). */
module NumberFormat {

  predicate IsDigit(ch: char) {
    '0' <= ch <= '9'
  }

  predicate AllDigits(s: string) {
    forall k :: 0 <= k < |s| ==> IsDigit(s[k])
  }

  function DigitChar(d: nat): (ch: char)
    requires d < 10
    ensures IsDigit(ch)
  {
    ('0' as int + d) as char
  }

  function DigitValue(ch: char): (d: nat)
    requires IsDigit(ch)
    ensures d < 10
  {
    ch as int - '0' as int
  }

  /** The shortest decimal representation of `n` ("0" for zero). */
  function Decimal(n: nat): (s: string)
    ensures 0 < |s| && AllDigits(s)
    ensures |s| == 1 || s[0] != '0'
    decreases n
  {
    if n < 10 then [DigitChar(n)] else Decimal(n / 10) + [DigitChar(n % 10)]
  }

  function Zeros(k: nat): (s: string)
    ensures |s| == k && forall i :: 0 <= i < k ==> s[i] == '0'
  {
    seq(k, _ => '0')
  }

  /** "D<minDigits>" formatting of `n`. */
  function FormatD(n: nat, minDigits: nat): (s: string)
    ensures AllDigits(s)
    ensures |s| == if |Decimal(n)| < minDigits then minDigits else |Decimal(n)|
  {
    var digits := Decimal(n);
    if |digits| < minDigits then Zeros(minDigits - |digits|) + digits else digits
  }

  /** "D3", the format of the generated file numbers. */
  function D3(n: nat): (s: string)
    ensures 3 <= |s| && AllDigits(s)
  {
    FormatD(n, 3)
  }

  /** The value a string of decimal digits denotes, leading zeros allowed:
      an independent reading of the formatted text. */
  function DigitsValue(s: string): nat
    requires AllDigits(s)
  {
    if s == [] then 0 else 10 * DigitsValue(s[..|s| - 1]) + DigitValue(s[|s| - 1])
  }

  lemma {:induction false} DecimalValue(n: nat)
    ensures DigitsValue(Decimal(n)) == n
    decreases n
  {
    if n >= 10 {
      var s := Decimal(n);
      assert s[..|s| - 1] == Decimal(n / 10);
      DecimalValue(n / 10);
    }
  }

  /** Leading zeros do not change the value of a digit string. */
  lemma {:induction false} LeadingZerosValue(k: nat, s: string)
    requires AllDigits(s)
    ensures AllDigits(Zeros(k) + s) && DigitsValue(Zeros(k) + s) == DigitsValue(s)
    decreases |s|
  {
    var t := Zeros(k) + s;
    if s == [] {
      assert t == Zeros(k);
      ZerosValue(k);
    } else {
      assert t[..|t| - 1] == Zeros(k) + s[..|s| - 1];
      LeadingZerosValue(k, s[..|s| - 1]);
    }
  }

  lemma {:induction false} ZerosValue(k: nat)
    ensures DigitsValue(Zeros(k)) == 0
  {
    if k > 0 {
      assert Zeros(k)[..k - 1] == Zeros(k - 1);
      ZerosValue(k - 1);
    }
  }

  /** Reading back a "D<k>" string gives the number that was formatted. */
  lemma FormatDValue(n: nat, minDigits: nat)
    ensures DigitsValue(FormatD(n, minDigits)) == n
  {
    DecimalValue(n);
    var digits := Decimal(n);
    if |digits| < minDigits {
      LeadingZerosValue(minDigits - |digits|, digits);
    }
  }

  /** Distinct numbers have distinct "D3" strings. */
  lemma D3Injective(a: nat, b: nat)
    ensures D3(a) == D3(b) <==> a == b
  {
    FormatDValue(a, 3);
    FormatDValue(b, 3);
  }

  /** Below 1000 the "D3" string has exactly three digits and they are the
      hundreds, tens and units of the number. */
  lemma D3ThreeDigits(n: nat)
    requires n < 1000
    ensures D3(n) == [DigitChar(n / 100), DigitChar(n / 10 % 10), DigitChar(n % 10)]
  {
    if n < 10 {
      assert Decimal(n) == [DigitChar(n)];
      assert DigitChar(0) == '0';
      assert D3(n) == Zeros(2) + [DigitChar(n)];
    } else if n < 100 {
      assert Decimal(n / 10) == [DigitChar(n / 10)];
      assert Decimal(n) == [DigitChar(n / 10), DigitChar(n % 10)];
      assert DigitChar(0) == '0';
      assert D3(n) == Zeros(1) + Decimal(n);
    } else {
      assert Decimal(n / 100) == [DigitChar(n / 100)];
      assert Decimal(n / 10) == [DigitChar(n / 100), DigitChar(n / 10 % 10)];
    }
  }

  /** The numbers of the first and fifth generated files. */
  lemma D3Examples()
    ensures D3(1) == "001" && D3(5) == "005"
  {
    D3ThreeDigits(1);
    D3ThreeDigits(5);
    assert DigitChar(0) == '0' && DigitChar(1) == '1' && DigitChar(5) == '5';
  }
}
