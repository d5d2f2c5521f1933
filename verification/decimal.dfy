/** Decimal rendering of integers with ASCII digits, as Java's Formatter does
    for the `%d` conversion, together with its inverse (`Value`) so that every
    rendering can be read back. */
module Decimal {

  predicate IsDigit(c: char) {
    '0' <= c <= '9'
  }

  predicate IsDigits(s: string) {
    forall i :: 0 <= i < |s| ==> IsDigit(s[i])
  }

  function DigitValue(c: char): (d: nat)
    requires IsDigit(c)
    ensures d < 10
  {
    (c as int) - ('0' as int)
  }

  function DigitChar(d: nat): (c: char)
    requires d < 10
    ensures IsDigit(c) && DigitValue(c) == d
  {
    ((d + '0' as int) as char)
  }

  /** The number a digit string denotes, most significant digit first; the
      empty string denotes 0. */
  function Value(s: string): nat
    requires IsDigits(s)
  {
    if |s| == 0 then 0 else Value(s[..|s| - 1]) * 10 + DigitValue(s[|s| - 1])
  }

  /** Shortest decimal rendering of n: at least one digit and no leading
      zero, except that zero itself is "0". */
  function Digits(n: nat): (s: string)
    ensures |s| >= 1 && IsDigits(s)
    ensures s[0] == '0' <==> n == 0
    ensures n == 0 ==> s == "0"
    ensures |s| == 1 <==> n < 10
    decreases n
  {
    if n < 10 then [DigitChar(n)] else Digits(n / 10) + [DigitChar(n % 10)]
  }

  /** Reading a rendering back gives the number rendered. */
  lemma {:induction false} ValueOfDigits(n: nat)
    ensures Value(Digits(n)) == n
    decreases n
  {
    if n >= 10 {
      var s := Digits(n);
      assert s[..|s| - 1] == Digits(n / 10);
      ValueOfDigits(n / 10);
    }
  }

  /** Two-digit numbers render in at most two characters. */
  lemma {:induction false} DigitsOfTwoDigitNumber(n: nat)
    requires n < 100
    ensures |Digits(n)| <= 2
  {
    if n >= 10 {
      assert |Digits(n / 10)| == 1;
    }
  }

  /** A run of k zero digits. */
  function Zeros(k: nat): (z: string)
    ensures |z| == k
    ensures forall i :: 0 <= i < k ==> z[i] == '0'
  {
    if k == 0 then [] else ['0'] + Zeros(k - 1)
  }

  /** Left-pads s with '0' to at least `width` characters; the zero flag of
      Java's Formatter applied to a digit string. */
  function ZeroPad(s: string, width: nat): (r: string)
    ensures |r| == if |s| >= width then |s| else width
    ensures r[|r| - |s|..] == s
    ensures forall i :: 0 <= i < |r| - |s| ==> r[i] == '0'
  {
    if |s| >= width then s else Zeros(width - |s|) + s
  }

  /** A leading zero does not change the value of a digit string. */
  lemma {:induction false} ValueOfLeadingZero(s: string)
    requires IsDigits(s)
    ensures IsDigits(['0'] + s) && Value(['0'] + s) == Value(s)
    decreases |s|
  {
    var t := ['0'] + s;
    if |s| > 0 {
      assert t[..|t| - 1] == ['0'] + s[..|s| - 1];
      ValueOfLeadingZero(s[..|s| - 1]);
    }
  }

  /** Padding keeps a digit string a digit string of the same value. */
  lemma {:induction false} ValueOfZeroPad(s: string, width: nat)
    requires IsDigits(s)
    ensures IsDigits(ZeroPad(s, width)) && Value(ZeroPad(s, width)) == Value(s)
  {
    if |s| < width {
      ValueOfZeros(width - |s|, s);
    }
  }

  /** Leading zeros do not change the value of a digit string. */
  lemma {:induction false} ValueOfZeros(k: nat, s: string)
    requires IsDigits(s)
    ensures IsDigits(Zeros(k) + s) && Value(Zeros(k) + s) == Value(s)
  {
    if k > 0 {
      ValueOfZeros(k - 1, s);
      ValueOfLeadingZero(Zeros(k - 1) + s);
      assert Zeros(k) + s == ['0'] + (Zeros(k - 1) + s);
    } else {
      assert Zeros(k) + s == s;
    }
  }

  /** Appending a digit to the rendering of a positive number renders the
      number with that digit appended. */
  lemma DigitsAppend(n: nat, d: nat)
    requires 1 <= n && d < 10
    ensures Digits(n * 10 + d) == Digits(n) + [DigitChar(d)]
  {
    assert (n * 10 + d) / 10 == n;
    assert (n * 10 + d) % 10 == d;
  }

  /** Java's `%0<width>d` conversion with ASCII digits: an optional '-',
      then the magnitude padded with zeros after the sign so that the whole
      field is at least `width` characters wide. */
  function FormatInt(n: int, width: nat): (r: string)
    ensures |r| >= width
    ensures |r| >= 1
    ensures n >= 0 ==> |r| == Max(width, |Digits(n)|)
    ensures n < 0 ==> |r| == Max(width, |Digits(-n)| + 1) && r[0] == '-'
  {
    if n < 0 then "-" + ZeroPad(Digits(-n), if width > 0 then width - 1 else 0)
    else ZeroPad(Digits(n), width)
  }

  function Max(a: nat, b: nat): nat {
    if a >= b then a else b
  }

  /** A field `%0<width>d` can print for a non-negative int: at least one
      digit and at least `width` of them, and a leading '0' only inside the
      padding or for zero itself. */
  predicate IsPaddedField(s: string, width: nat) {
    && IsDigits(s) && |s| >= 1 && |s| >= width
    && (|s| > width && |s| > 1 ==> s[0] != '0')
  }

  /** The field of a non-negative number is one `%0<width>d` can print:
      padding stops at the width, and it is all zeros. */
  lemma FormatIntIsPaddedField(n: nat, width: nat)
    ensures IsPaddedField(FormatInt(n, width), width)
    ensures var r := FormatInt(n, width);
      forall i :: 0 <= i < |r| - |Digits(n)| ==> r[i] == '0'
  {
    ValueOfFormatInt(n, width);
  }

  /** Every field `%0<width>d` can print is the field of the number it
      denotes: with FormatIntIsPaddedField and ValueOfFormatInt, FormatInt
      and Value are inverse bijections between the naturals and such
      fields. */
  lemma FormatIntOfPaddedField(s: string, width: nat)
    requires IsPaddedField(s, width)
    ensures FormatInt(Value(s), width) == s
  {
    var t := StripZeros(s);
    var k := |s| - |t|;
    ValueOfZeros(k, t);
    DigitsOfCanonical(t);
    if k > 0 {
      assert s[0] == Zeros(k)[0] == '0';
    }
    ZeroPadOfStripped(s, t, k, width);
  }

  /** Padding the digits left after the leading zeros of a field gives the
      field back. */
  lemma ZeroPadOfStripped(s: string, t: string, k: nat, width: nat)
    requires s == Zeros(k) + t && |s| >= width
    requires k > 0 ==> |s| == width
    ensures ZeroPad(t, width) == s
  {
    if k == 0 {
      assert s == t;
    }
  }

  /** The digits of s after its leading zeros, keeping at least one. */
  function StripZeros(s: string): (t: string)
    requires IsDigits(s) && |s| >= 1
    ensures IsDigits(t) && 1 <= |t| <= |s|
    ensures |t| > 1 ==> t[0] != '0'
    ensures s == Zeros(|s| - |t|) + t
    decreases |s|
  {
    if |s| > 1 && s[0] == '0' then
      var t := StripZeros(s[1..]);
      assert Zeros(|s| - |t|) == ['0'] + Zeros(|s| - 1 - |t|);
      assert s == ['0'] + s[1..];
      t
    else
      assert Zeros(0) + s == s;
      s
  }

  /** A digit string without a leading zero (other than "0") is the
      rendering of its own value. */
  lemma {:induction false} DigitsOfCanonical(s: string)
    requires IsDigits(s) && |s| >= 1
    requires |s| > 1 ==> s[0] != '0'
    ensures Digits(Value(s)) == s
    decreases |s|
  {
    var last := s[|s| - 1];
    if |s| == 1 {
      assert s == [DigitChar(DigitValue(last))];
    } else {
      var p := s[..|s| - 1];
      assert p[0] == s[0];
      DigitsOfCanonical(p);
      assert Value(p) != 0;
      DigitsAppend(Value(p), DigitValue(last));
      assert s == p + [DigitChar(DigitValue(last))];
    }
  }

  /** The field of a non-negative number is digits only and reads back as
      the number. */
  lemma ValueOfFormatInt(n: nat, width: nat)
    ensures IsDigits(FormatInt(n, width)) && Value(FormatInt(n, width)) == n
  {
    ValueOfDigits(n);
    ValueOfZeroPad(Digits(n), width);
  }

  /** The field of a negative number is a '-' followed by digits that read
      back as the magnitude. */
  lemma ValueOfFormatNegative(n: int, width: nat)
    requires n < 0
    ensures |FormatInt(n, width)| >= 2 && FormatInt(n, width)[0] == '-'
    ensures IsDigits(FormatInt(n, width)[1..]) && Value(FormatInt(n, width)[1..]) == -n
  {
    var w := if width > 0 then width - 1 else 0;
    ValueOfPaddedDigits(-n, w);
    SignedField(n, width, ZeroPad(Digits(-n), w));
  }

  /** A padded rendering is a non-empty digit string of the number's value. */
  lemma ValueOfPaddedDigits(n: nat, width: nat)
    ensures var p := ZeroPad(Digits(n), width);
      |p| >= 1 && IsDigits(p) && Value(p) == n
  {
    ValueOfDigits(n);
    ValueOfZeroPad(Digits(n), width);
  }

  /** The part of a negative field after its '-' is the padded magnitude. */
  lemma SignedField(n: int, width: nat, p: string)
    requires n < 0 && p == ZeroPad(Digits(-n), if width > 0 then width - 1 else 0)
    requires |p| >= 1 && IsDigits(p) && Value(p) == -n
    ensures |FormatInt(n, width)| >= 2 && FormatInt(n, width)[0] == '-'
    ensures IsDigits(FormatInt(n, width)[1..]) && Value(FormatInt(n, width)[1..]) == -n
  {
    var r := FormatInt(n, width);
    assert r == "-" + p;
    assert r[1..] == p;
  }

  /** One more digit at the end of a known rendering: lets a rendering be
      built digit by digit instead of by unfolding Digits. */
  lemma DigitsStep(n: nat, s: string, d: nat)
    requires 1 <= n && d < 10 && Digits(n) == s
    ensures Digits(n * 10 + d) == s + [DigitChar(d)]
  {
    DigitsAppend(n, d);
  }

  /** A rendering at least as wide as the field is used unpadded. */
  lemma FormatWide(n: nat, width: nat, s: string)
    requires Digits(n) == s && |s| >= width
    ensures FormatInt(n, width) == s
  {
  }

  /** A negative number wide enough for its field is '-' and its magnitude's
      rendering. */
  lemma FormatNegativeWide(n: nat, width: nat, s: string)
    requires n > 0 && Digits(n) == s && |s| + 1 >= width
    ensures FormatInt(-(n as int), width) == "-" + s
  {
  }

  /** A non-negative number below 100 fills a two-character field exactly. */
  lemma TwoDigitField(n: nat)
    requires n < 100
    ensures |FormatInt(n, 2)| == 2
  {
    DigitsOfTwoDigitNumber(n);
  }
}
