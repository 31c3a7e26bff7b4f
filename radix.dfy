/**
 * Number <-> text conversions the page uses: `parseInt` on a run of decimal digits,
 * `Number.prototype.toString(16)`, `slice(-2)`, and the decimal form in which a
 * browser reports a colour channel.
 */
module Radix {
  import opened Text

  function DigitValue(c: char): (d: nat)
    requires IsDigit(c)
    ensures d < 10
  {
    c as int - '0' as int
  }

  /**
   * `parseInt(x)` for a string `x` of decimal digits, as the regex captures are. A
   * string without leading zeros is the decimal text of its value.
   */
  function ParseDecimal(s: string): (n: nat)
    requires AllDigits(s)
    ensures s != [] && (|s| == 1 || s[0] != '0') ==> Decimal(n) == s
    decreases |s|
  {
    if s == [] then 0
    else
      var p, d := s[..|s| - 1], s[|s| - 1];
      var m := ParseDecimal(p);
      assert s == p + [d];
      if p == [] then
        DecimalOfDigit(d);
        m * 10 + DigitValue(d)
      else if s[0] != '0' then
        DecimalAppend(p, d, m);
        m * 10 + DigitValue(d)
      else
        m * 10 + DigitValue(d)
  }

  /** A single digit is the decimal text of its value. */
  lemma DecimalOfDigit(d: char)
    requires IsDigit(d)
    ensures Decimal(DigitValue(d)) == [d]
  {
    assert DecimalDigit(DigitValue(d)) == d;
  }

  /** Appending a digit to the decimal text of a positive number multiplies it by ten and adds the digit. */
  lemma DecimalAppend(p: string, d: char, m: nat)
    requires IsDigit(d) && p != [] && p[0] != '0' && Decimal(m) == p
    ensures Decimal(m * 10 + DigitValue(d)) == p + [d]
  {
    assert Decimal(0) == ['0'];
    var n := m * 10 + DigitValue(d);
    assert n / 10 == m && n % 10 == DigitValue(d);
    assert DecimalDigit(DigitValue(d)) == d;
  }

  function DecimalDigit(d: nat): (c: char)
    requires d < 10
    ensures IsDigit(c) && DigitValue(c) == d
  {
    ('0' as int + d) as char
  }

  /** The decimal text of a non-negative integer, without leading zeros. */
  function Decimal(n: nat): (s: string)
    ensures |s| > 0 && AllDigits(s)
    ensures |s| > 1 ==> s[0] != '0'
  {
    if n < 10 then [DecimalDigit(n)] else Decimal(n / 10) + [DecimalDigit(n % 10)]
  }

  /** Reading back the decimal text of `n` gives `n`. */
  lemma {:induction false} DecimalRoundTrip(n: nat)
    ensures ParseDecimal(Decimal(n)) == n
  {
    if n >= 10 {
      var s := Decimal(n);
      assert s[..|s| - 1] == Decimal(n / 10);
      DecimalRoundTrip(n / 10);
    }
  }

  /** Digit `d` in the lower-case alphabet that `toString(16)` writes. */
  function LowerHexDigit(d: nat): (c: char)
    requires d < 16
    ensures IsLowerHexDigit(c)
  {
    "0123456789abcdef"[d]
  }

  /** Digit `d` in the upper-case alphabet. */
  function UpperHexDigit(d: nat): (c: char)
    requires d < 16
    ensures IsUpperHexDigit(c)
  {
    "0123456789ABCDEF"[d]
  }

  /** The value of one hex digit of either case. */
  function HexDigitValue(c: char): (d: nat)
    requires IsHexDigit(c)
    ensures d < 16
  {
    if IsDigit(c) then DigitValue(c)
    else if 'a' <= c <= 'f' then c as int - 'a' as int + 10
    else c as int - 'A' as int + 10
  }

  /** Upper-casing a lower-case hex digit gives the same digit in the upper-case alphabet. */
  lemma UpperOfLowerHexDigit(d: nat)
    requires d < 16
    ensures UpperChar(LowerHexDigit(d)) == UpperHexDigit(d)
  {
  }

  /** Formatting the value of a hex digit gives that digit back, in the chosen case. */
  lemma HexDigitRoundTrip(c: char)
    requires IsHexDigit(c)
    ensures UpperHexDigit(HexDigitValue(c)) == UpperChar(c)
    ensures LowerHexDigit(HexDigitValue(c)) == LowerChar(c)
  {
  }

  /** Reading a formatted hex digit gives its value back. */
  lemma LowerHexDigitValue(d: nat)
    requires d < 16
    ensures HexDigitValue(LowerHexDigit(d)) == d
  {
  }

  /** `n.toString(16)` for a non-negative integer `n`: lower-case digits, no leading zero. */
  function ToHex(n: nat): (s: string)
    ensures |s| > 0 && forall i :: 0 <= i < |s| ==> IsLowerHexDigit(s[i])
    ensures |s| > 1 ==> s[0] != '0'
  {
    if n < 16 then [LowerHexDigit(n)] else ToHex(n / 16) + [LowerHexDigit(n % 16)]
  }

  /** The value of a hex string, most significant digit first. */
  function HexValue(s: string): nat
    requires forall i :: 0 <= i < |s| ==> IsHexDigit(s[i])
    decreases |s|
  {
    if s == [] then 0 else HexValue(s[..|s| - 1]) * 16 + HexDigitValue(s[|s| - 1])
  }

  /** Reading back the hex text of `n` gives `n`. */
  lemma {:induction false} ToHexRoundTrip(n: nat)
    ensures HexValue(ToHex(n)) == n
  {
    if n < 16 {
      LowerHexDigitValue(n);
    } else {
      var s, p := ToHex(n), ToHex(n / 16);
      assert s == p + [LowerHexDigit(n % 16)];
      assert s[..|s| - 1] == p;
      LowerHexDigitValue(n % 16);
      ToHexRoundTrip(n / 16);
      assert HexValue(s) == HexValue(p) * 16 + HexDigitValue(s[|s| - 1]);
    }
  }

  /** `s.slice(-2)`: the last two characters, or all of `s` when it is shorter. */
  function SliceLast2(s: string): (r: string)
    ensures |s| >= 2 ==> |r| == 2 && r == s[|s| - 2..]
    ensures |s| < 2 ==> r == s
  {
    if |s| <= 2 then s else s[|s| - 2..]
  }

  /**
   * The helper `hex(x)` of `rgb2hex`: `("0" + parseInt(x).toString(16)).slice(-2)`, two
   * lower-case hex digits whose value is the channel modulo 256.
   */
  function Hex(x: string): (r: string)
    requires AllDigits(x)
    ensures |r| == 2 && IsLowerHexDigit(r[0]) && IsLowerHexDigit(r[1])
    ensures HexValue(r) == ParseDecimal(x) % 256
  {
    var v := ParseDecimal(x);
    PaddedHexIsLowerByte(v);
    LowerByteValue(v);
    SliceLast2("0" + ToHex(v))
  }

  /** The two lower-case digits of a byte read back as that byte. */
  lemma LowerByteValue(v: nat)
    ensures IsLowerHexDigit(LowerByte(v)[0]) && IsLowerHexDigit(LowerByte(v)[1])
    ensures HexValue(LowerByte(v)) == v % 256
  {
    var hi, lo := v % 256 / 16, v % 16;
    LowerHexDigitValue(hi);
    LowerHexDigitValue(lo);
    TwoDigitValue(LowerHexDigit(hi), LowerHexDigit(lo));
    ByteSplit(v);
  }

  /** A two-digit hex string is worth 16 times its first digit plus its second. */
  lemma TwoDigitValue(a: char, b: char)
    requires IsHexDigit(a) && IsHexDigit(b)
    ensures HexValue([a, b]) == 16 * HexDigitValue(a) + HexDigitValue(b)
  {
    var s, t := [a, b], [a];
    assert s[..|s| - 1] == t && t[..|t| - 1] == [];
    assert HexValue(t) == HexValue([]) * 16 + HexDigitValue(a);
    assert HexValue(s) == HexValue(t) * 16 + HexDigitValue(b);
  }

  lemma ByteSplit(v: nat)
    ensures v % 256 / 16 * 16 + v % 16 == v % 256
  {
    var q, b := v / 256, v % 256;
    var t, r := b / 16, b % 16;
    assert b == 16 * t + r && 0 <= r < 16;
    assert v == 16 * (16 * q + t) + r;
    assert v % 16 == r;
  }

  /** The two digits of `v % 256`, most significant first, in the lower-case alphabet. */
  function LowerByte(v: nat): (r: string)
    ensures |r| == 2
  {
    [LowerHexDigit(v % 256 / 16), LowerHexDigit(v % 16)]
  }

  /** The two digits of `v % 256`, most significant first, in the upper-case alphabet. */
  function UpperByte(v: nat): (r: string)
    ensures |r| == 2
  {
    [UpperHexDigit(v % 256 / 16), UpperHexDigit(v % 16)]
  }

  lemma SecondHexDigit(v: nat)
    ensures v / 16 % 16 == v % 256 / 16
  {
    var q, r := v / 256, v % 256;
    assert v == 256 * q + r;
    assert v / 16 == 16 * q + r / 16;
  }

  /** The last digit `toString(16)` writes is the value modulo 16. */
  lemma ToHexLast(n: nat)
    ensures ToHex(n)[|ToHex(n)| - 1] == LowerHexDigit(n % 16)
  {
  }

  /** The last two digits `toString(16)` writes for a number of at least two digits. */
  lemma ToHexLastTwo(n: nat)
    requires n >= 16
    ensures |ToHex(n)| >= 2
    ensures ToHex(n)[|ToHex(n)| - 2..] == [LowerHexDigit(n / 16 % 16), LowerHexDigit(n % 16)]
  {
    var m, d := n / 16, n % 16;
    var p := ToHex(m);
    assert ToHex(n) == p + [LowerHexDigit(d)];
    ToHexLast(m);
    assert ToHex(n)[|ToHex(n)| - 2..] == [p[|p| - 1], LowerHexDigit(d)];
  }

  /** Prefixing "0" and keeping the last two digits writes `v % 256` in two digits. */
  lemma PaddedHexIsLowerByte(v: nat)
    ensures SliceLast2("0" + ToHex(v)) == LowerByte(v)
  {
    var h := "0" + ToHex(v);
    if v >= 16 {
      ToHexLastTwo(v);
      SecondHexDigit(v);
      assert h[|h| - 2..] == ToHex(v)[|ToHex(v)| - 2..];
    } else {
      assert h == ['0', LowerHexDigit(v)];
      assert v % 256 / 16 == 0 && v % 16 == v;
    }
  }

  /** `hex(x)` keeps the channel modulo 256, written as two lower-case digits. */
  lemma HexIsLowerByte(x: string)
    requires AllDigits(x)
    ensures Hex(x) == LowerByte(ParseDecimal(x))
  {
    PaddedHexIsLowerByte(ParseDecimal(x));
  }

  /** Upper-casing `hex(x)` gives the channel modulo 256 in two upper-case digits. */
  lemma UpperHexIsUpperByte(x: string)
    requires AllDigits(x)
    ensures ToUpperCase(Hex(x)) == UpperByte(ParseDecimal(x))
  {
    var v := ParseDecimal(x);
    HexIsLowerByte(x);
    UpperOfLowerHexDigit(v % 256 / 16);
    UpperOfLowerHexDigit(v % 16);
  }
}
