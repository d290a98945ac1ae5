/** Decimal text of integers as Go's `strconv` and `fmt` produce and read
    it: `strconv.FormatInt(i, 10)` (also `%d`), `%0<w>d`, and
    `strconv.ParseInt(s, 10, 64)` / `strconv.Atoi`, with 64-bit ranges. */
module Decimal {
  import opened Wrappers

  const MaxInt64: int := 0x7fff_ffff_ffff_ffff
  const MinInt64: int := -0x8000_0000_0000_0000
  const TwoTo64: int := 0x1_0000_0000_0000_0000

  predicate IsInt64(i: int) { MinInt64 <= i <= MaxInt64 }

  /** Two's-complement wrap-around of Go's int64 arithmetic. */
  function Wrap64(i: int): (r: int)
    ensures IsInt64(r)
    ensures (r - i) % TwoTo64 == 0
    ensures IsInt64(i) ==> r == i
  {
    var m := i % TwoTo64;
    if m > MaxInt64 then m - TwoTo64 else m
  }

  predicate IsDigit(c: char) { '0' <= c <= '9' }

  predicate AllDigits(s: string) { forall i :: 0 <= i < |s| ==> IsDigit(s[i]) }

  function DigitChar(d: nat): (c: char)
    requires d < 10
    ensures IsDigit(c) && c as int - '0' as int == d
  {
    ('0' as int + d) as char
  }

  /** The value of a string of decimal digits (leading zeros allowed). */
  function ValueOf(s: string): nat
    requires AllDigits(s)
  {
    if s == [] then 0
    else ValueOf(s[..|s| - 1]) * 10 + (s[|s| - 1] as int - '0' as int)
  }

  /** The shortest decimal digits of `n`. */
  function NatToString(n: nat): string
    decreases n
  {
    if n < 10 then [DigitChar(n)] else NatToString(n / 10) + [DigitChar(n % 10)]
  }

  function Pow10(k: nat): (r: nat)
    ensures r >= 1
  {
    if k == 0 then 1 else 10 * Pow10(k - 1)
  }

  function Zeros(k: nat): (z: string)
    ensures |z| == k && AllDigits(z) && forall i :: 0 <= i < k ==> z[i] == '0'
  {
    if k == 0 then "" else Zeros(k - 1) + "0"
  }

  /** Left-pads digits with zeros up to `width`, as `fmt` does for `%0<w>d`. */
  function ZeroPad(s: string, width: nat): (r: string)
    ensures |r| == if |s| >= width then |s| else width
  {
    if |s| >= width then s else Zeros(width - |s|) + s
  }

  /** `strconv.FormatInt(i, 10)`, which is also what `%d` prints. */
  function FormatInt(i: int): string
  {
    if i < 0 then "-" + NatToString(-i) else NatToString(i)
  }

  /** `fmt.Sprintf("%0<width>d", i)`: the sign counts towards the width and
      the zeros go after it. */
  function FormatPadded(i: int, width: nat): string
  {
    if i < 0 then "-" + ZeroPad(NatToString(-i), if width > 0 then width - 1 else 0)
    else ZeroPad(NatToString(i), width)
  }

  /** The two ways `strconv.ParseInt` fails. */
  datatype NumErrorKind = SyntaxKind | RangeKind

  /** What `strconv.ParseInt` returns: a value and maybe an error. On a range
      error the value is the nearest int64; on a syntax error it is 0. */
  datatype ParsedInt = ParsedInt(value: int, err: Option<NumErrorKind>)

  /** `strconv.ParseInt(s, 10, 64)` (and `strconv.Atoi`): an optional sign
      followed by at least one decimal digit, within the int64 range. */
  function ParseInt(s: string): (r: ParsedInt)
    ensures r.err.None? ==> IsInt64(r.value)
    ensures r.err == Some(SyntaxKind) ==> r.value == 0
    ensures r.err == Some(RangeKind) ==> r.value == MaxInt64 || r.value == MinInt64
  {
    if s == [] then ParsedInt(0, Some(SyntaxKind))
    else
      var neg := s[0] == '-';
      var digits := if s[0] == '-' || s[0] == '+' then s[1..] else s;
      if digits == [] || !AllDigits(digits) then ParsedInt(0, Some(SyntaxKind))
      else
        var u: int := ValueOf(digits);
        if !neg && u > MaxInt64 then ParsedInt(MaxInt64, Some(RangeKind))
        else if neg && u > -MinInt64 then ParsedInt(MinInt64, Some(RangeKind))
        else ParsedInt(if neg then -u else u, None)
  }

  lemma {:induction false} NatToStringDigits(n: nat)
    ensures |NatToString(n)| > 0 && AllDigits(NatToString(n))
    ensures ValueOf(NatToString(n)) == n
    decreases n
  {
    if n >= 10 {
      NatToStringDigits(n / 10);
      var s := NatToString(n);
      assert s[..|s| - 1] == NatToString(n / 10);
    }
  }

  /** Leading zeros do not change the value of a digit string. */
  lemma {:induction false} ValueOfLeadingZeros(k: nat, s: string)
    requires AllDigits(s)
    ensures AllDigits(Zeros(k) + s) && ValueOf(Zeros(k) + s) == ValueOf(s)
    decreases |s|
  {
    var t := Zeros(k) + s;
    if s == [] {
      assert t == Zeros(k);
      ZerosValue(k);
    } else {
      assert t[..|t| - 1] == Zeros(k) + s[..|s| - 1];
      ValueOfLeadingZeros(k, s[..|s| - 1]);
    }
  }

  lemma {:induction false} ZerosValue(k: nat)
    ensures ValueOf(Zeros(k)) == 0
  {
    if k > 0 {
      assert Zeros(k)[..k - 1] == Zeros(k - 1);
      ZerosValue(k - 1);
    }
  }

  /** A number below 10^k has at most k digits. */
  lemma {:induction false} NatToStringLength(n: nat, k: nat)
    requires k >= 1 && n < Pow10(k)
    ensures |NatToString(n)| <= k
    decreases n
  {
    if n >= 10 {
      assert Pow10(1) == 10;
      NatToStringLength(n / 10, k - 1);
    }
  }

  /** A number of at least 10^(k-1) has at least k digits. */
  lemma {:induction false} NatToStringLengthAtLeast(n: nat, k: nat)
    requires k >= 1 && n >= Pow10(k - 1)
    ensures |NatToString(n)| >= k
    decreases n
  {
    if k >= 2 {
      assert n >= 10;
      NatToStringLengthAtLeast(n / 10, k - 1);
    }
  }

  /** Parsing the decimal text of an int64 gives it back. */
  lemma ParseFormatInt(i: int)
    requires IsInt64(i)
    ensures ParseInt(FormatInt(i)) == ParsedInt(i, None)
  {
    var n: nat := if i < 0 then -i else i;
    NatToStringDigits(n);
    var s := FormatInt(i);
    if i < 0 {
      assert s[1..] == NatToString(n);
    } else {
      assert s[0] != '-' && s[0] != '+';
    }
  }

  /** Parsing the zero-padded text of a non-negative int64 gives it back. */
  lemma ParseFormatPadded(i: int, width: nat)
    requires 0 <= i <= MaxInt64
    ensures ParseInt(FormatPadded(i, width)) == ParsedInt(i, None)
    ensures AllDigits(FormatPadded(i, width))
  {
    NatToStringDigits(i);
    var d := NatToString(i);
    if |d| < width {
      ValueOfLeadingZeros(width - |d|, d);
    }
    var s := FormatPadded(i, width);
    assert s[0] != '-' && s[0] != '+' by {
      if |d| >= width { assert s[0] == d[0]; } else { assert s[0] == '0'; }
    }
  }

  /** The padded text of a value below 10^width is exactly width characters. */
  lemma FormatPaddedWidth(i: int, width: nat)
    requires width >= 1 && 0 <= i < Pow10(width)
    ensures |FormatPadded(i, width)| == width
  {
    NatToStringLength(i, width);
  }
}
