/**
 How the countdown renders one field: the decimal representation of a
 non-negative integer (what JavaScript's `Number.prototype.toString` gives for
 a non-negative integer below 10^21), left-padded with '0' to at least two
 characters (`String.prototype.padStart(2, "0")`).
 */
module NumberFormat {

  predicate IsDigit(c: char) {
    '0' <= c <= '9'
  }

  predicate AllDigits(s: string) {
    forall i :: 0 <= i < |s| ==> IsDigit(s[i])
  }

  function DigitChar(d: int): (c: char)
    requires 0 <= d < 10
    ensures IsDigit(c) && DigitValue(c) == d
  {
    ('0' as int + d) as char
  }

  function DigitValue(c: char): int
    requires IsDigit(c)
  {
    c as int - '0' as int
  }

  /** The decimal representation of `n`: at least one digit, and no leading
      zero unless `n` itself is zero. */
  function ToDecimal(n: nat): (s: string)
    ensures |s| >= 1 && AllDigits(s)
    ensures s[0] == '0' <==> n == 0
    decreases n
  {
    if n < 10 then [DigitChar(n)] else ToDecimal(n / 10) + [DigitChar(n % 10)]
  }

  /** The value of a string of decimal digits, leading zeros allowed; the
      empty string reads as zero. */
  function ParseDecimal(s: string): nat
    requires AllDigits(s)
  {
    if s == [] then 0 else ParseDecimal(s[..|s| - 1]) * 10 + DigitValue(s[|s| - 1])
  }

  function Repeat(c: char, k: nat): (r: string)
    ensures |r| == k && forall i :: 0 <= i < k ==> r[i] == c
  {
    if k == 0 then [] else [c] + Repeat(c, k - 1)
  }

  function Max(a: int, b: int): int {
    if a < b then b else a
  }

  /** `s` left-padded with `fill` to at least `width` characters; a string
      already that long is returned as it is. */
  function PadStart(s: string, width: nat, fill: char): (r: string)
    ensures |r| == Max(width, |s|)
    ensures r[|r| - |s|..] == s
    ensures forall i :: 0 <= i < |r| - |s| ==> r[i] == fill
  {
    if |s| >= width then s else Repeat(fill, width - |s|) + s
  }

  /** A countdown field as displayed: its decimal digits, padded to two. */
  function FormatNumber(n: nat): (r: string)
    ensures AllDigits(r)
    ensures |r| == Max(2, |ToDecimal(n)|)
  {
    PadStart(ToDecimal(n), 2, '0')
  }

  /** Reading back the decimal representation gives the number. */
  lemma {:induction false} ParseToDecimal(n: nat)
    ensures ParseDecimal(ToDecimal(n)) == n
    decreases n
  {
    var s := ToDecimal(n);
    if n >= 10 {
      var prefix := ToDecimal(n / 10);
      assert s[..|s| - 1] == prefix;
      ParseToDecimal(n / 10);
    }
  }

  /** Leading zeros do not change the value read. */
  lemma {:induction false} LeadingZeros(k: nat, s: string)
    requires AllDigits(s)
    ensures AllDigits(Repeat('0', k) + s)
    ensures ParseDecimal(Repeat('0', k) + s) == ParseDecimal(s)
    decreases |s|
  {
    var z := Repeat('0', k);
    if s == [] {
      assert z + s == z;
      AllZeros(k);
    } else {
      var init := s[..|s| - 1];
      assert (z + s)[..|z + s| - 1] == z + init;
      LeadingZeros(k, init);
    }
  }

  /** A run of zeros reads as zero. */
  lemma {:induction false} AllZeros(k: nat)
    ensures ParseDecimal(Repeat('0', k)) == 0
  {
    if k > 0 {
      var z := Repeat('0', k);
      assert z[..k - 1] == Repeat('0', k - 1);
      AllZeros(k - 1);
    }
  }

  /** The number of decimal digits: one below ten, two below a hundred,
      more from a hundred on. */
  lemma DecimalLength(n: nat)
    ensures n < 10 <==> |ToDecimal(n)| == 1
    ensures 10 <= n < 100 ==> |ToDecimal(n)| == 2
    ensures 100 <= n <==> |ToDecimal(n)| >= 3
  {
  }

  /** The displayed field reads back as the field's value. */
  lemma FormatNumberRoundTrip(n: nat)
    ensures ParseDecimal(FormatNumber(n)) == n
  {
    var s := ToDecimal(n);
    ParseToDecimal(n);
    if |s| < 2 {
      LeadingZeros(2 - |s|, s);
    }
  }

  /** Values below a hundred are shown as exactly two characters, with a
      leading '0' exactly when the value is below ten. */
  lemma FormatNumberTwoDigits(n: nat)
    requires n < 100
    ensures |FormatNumber(n)| == 2
    ensures FormatNumber(n)[0] == '0' <==> n < 10
  {
    DecimalLength(n);
  }

  /** From a hundred on nothing is added and nothing is cut: the display is
      the plain decimal representation. */
  lemma FormatNumberWide(n: nat)
    requires n >= 100
    ensures FormatNumber(n) == ToDecimal(n)
  {
  }
}
