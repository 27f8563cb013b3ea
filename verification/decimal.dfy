/**
 * Decimal rendering of integers as Java's `String.format("%d", x)` produces it
 * for a `long` or an `int` under a format locale whose zero digit is the ASCII
 * '0': no padding, no grouping, and a leading `-` for negative values.
 *
 * The reader `ReadInt` accepts exactly the renderings: it rejects leading
 * zeros and "-0", so rendering and reading are inverse to each other.
 */
module Decimal {
  import opened Wrappers

  predicate IsDigit(c: char) {
    '0' <= c <= '9'
  }

  predicate AllDigits(s: string) {
    forall i :: 0 <= i < |s| ==> IsDigit(s[i])
  }

  function DigitValue(c: char): (d: nat)
    requires IsDigit(c)
    ensures d < 10
  {
    (c as int) - ('0' as int)
  }

  function DigitChar(d: nat): (c: char)
    requires d < 10
    ensures IsDigit(c) && DigitValue(c) == d
  {
    (('0' as int) + d) as char
  }

  /** The number a string of decimal digits denotes, most significant digit first. */
  function DigitsValue(s: string): nat
    requires AllDigits(s)
  {
    if |s| == 0 then 0 else DigitsValue(s[..|s| - 1]) * 10 + DigitValue(s[|s| - 1])
  }

  /** The unpadded decimal digits of a natural number. */
  function NatToDecimal(n: nat): (s: string)
    ensures 1 <= |s| && AllDigits(s)
    ensures s[0] != '0' || s == "0"
    ensures DigitsValue(s) == n
  {
    if n < 10 then [DigitChar(n)]
    else
      var prefix := NatToDecimal(n / 10);
      var s := prefix + [DigitChar(n % 10)];
      assert s[..|s| - 1] == prefix;
      s
  }

  /** `%d`: a leading `-` for negative numbers, then the digits of the magnitude. */
  function IntToDecimal(n: int): (s: string)
    ensures 1 <= |s|
    ensures s[0] == '-' <==> n < 0
    ensures n < 0 ==> AllDigits(s[1..]) && DigitsValue(s[1..]) == -n
    ensures n >= 0 ==> AllDigits(s) && DigitsValue(s) == n
    ensures n < 0 ==> s[1] != '0'
    ensures n >= 0 ==> s[0] != '0' || s == "0"
  {
    if n < 0 then "-" + NatToDecimal(-n) else NatToDecimal(n)
  }

  /** Length of the longest prefix of `s` made of decimal digits. */
  function DigitRun(s: string): (k: nat)
    ensures k <= |s| && AllDigits(s[..k])
    ensures k < |s| ==> !IsDigit(s[k])
  {
    if |s| == 0 || !IsDigit(s[0]) then 0
    else
      var k := 1 + DigitRun(s[1..]);
      assert forall i :: 1 <= i < k ==> s[..k][i] == s[1..][..k - 1][i - 1];
      k
  }

  /** A digit string as `%d` writes a natural number: non-empty, and no leading zero unless it is "0". */
  predicate Canonical(d: string) {
    1 <= |d| && AllDigits(d) && (d[0] != '0' || |d| == 1)
  }

  /**
   * Reads the run of decimal digits at the front of `s`, returning its value
   * and the unread rest; None when there is no digit or the run is zero-padded.
   */
  function ReadNat(s: string): Option<(int, string)> {
    var k := DigitRun(s);
    if Canonical(s[..k]) then Some((DigitsValue(s[..k]) as int, s[k..])) else None
  }

  /**
   * Reads an optionally negative decimal integer from the front of `s` and
   * returns it with the unread rest, or None when `s` does not start with one.
   */
  function ReadInt(s: string): Option<(int, string)> {
    if |s| > 0 && s[0] == '-' then
      match ReadNat(s[1..])
      case None => None
      case Some((magnitude, rest)) => if magnitude == 0 then None else Some((-magnitude, rest))
    else ReadNat(s)
  }

  /** The digit run of `digits + rest` is exactly `digits` when `rest` does not continue it. */
  lemma {:induction false} DigitRunStopsAtNonDigit(digits: string, rest: string)
    requires AllDigits(digits)
    requires rest == [] || !IsDigit(rest[0])
    ensures DigitRun(digits + rest) == |digits|
  {
    if |digits| > 0 {
      assert (digits + rest)[1..] == digits[1..] + rest;
      DigitRunStopsAtNonDigit(digits[1..], rest);
    }
  }

  /** Reading back a digit string yields its value and the untouched rest. */
  lemma ReadNatOfDigits(digits: string, rest: string)
    requires Canonical(digits)
    requires rest == [] || !IsDigit(rest[0])
    ensures ReadNat(digits + rest) == Some((DigitsValue(digits) as int, rest))
  {
    var body := digits + rest;
    DigitRunStopsAtNonDigit(digits, rest);
    assert body[..|digits|] == digits;
    assert body[|digits|..] == rest;
  }

  /** Reading back a rendered integer yields the integer and leaves the rest untouched. */
  lemma ReadIntToDecimal(n: int, rest: string)
    requires rest == [] || !IsDigit(rest[0])
    ensures ReadInt(IntToDecimal(n) + rest) == Some((n, rest))
  {
    if n < 0 {
      var digits := NatToDecimal(-n);
      var s := "-" + (digits + rest);
      assert IntToDecimal(n) + rest == s;
      assert s[1..] == digits + rest;
      ReadNatOfDigits(digits, rest);
    } else {
      var digits := NatToDecimal(n);
      assert (digits + rest)[0] == digits[0];
      ReadNatOfDigits(digits, rest);
    }
  }

  /** A digit string with a non-zero leading digit denotes a positive number. */
  lemma {:induction false} LeadingNonZeroIsPositive(d: string)
    requires 1 <= |d| && AllDigits(d) && d[0] != '0'
    ensures DigitsValue(d) > 0
  {
    if |d| > 1 {
      var prefix := d[..|d| - 1];
      assert prefix[0] == d[0];
      LeadingNonZeroIsPositive(prefix);
    }
  }

  /** A canonical digit string is the rendering of the number it denotes: the decimal form is unique. */
  lemma {:induction false} CanonicalIsRendering(d: string)
    requires Canonical(d)
    ensures NatToDecimal(DigitsValue(d)) == d
  {
    if |d| > 1 {
      var prefix := d[..|d| - 1];
      var last := DigitValue(d[|d| - 1]);
      assert prefix[0] == d[0];
      LeadingNonZeroIsPositive(prefix);
      CanonicalIsRendering(prefix);
      var n := DigitsValue(d);
      assert n == DigitsValue(prefix) * 10 + last;
      assert n / 10 == DigitsValue(prefix) && n % 10 == last;
      assert d == prefix + [d[|d| - 1]];
    }
  }

  /** Whatever `ReadNat` accepts is a rendering followed by a rest that does not continue it. */
  lemma ReadNatIsRendering(s: string)
    requires ReadNat(s).Some?
    ensures var (v, rest) := ReadNat(s).value;
            v >= 0 && s == NatToDecimal(v) + rest && (rest == [] || !IsDigit(rest[0]))
  {
    var k := DigitRun(s);
    CanonicalIsRendering(s[..k]);
    assert s == s[..k] + s[k..];
  }

  /** Whatever `ReadInt` accepts is the rendering of the integer it returns, followed by the rest. */
  lemma ReadIntIsRendering(s: string)
    requires ReadInt(s).Some?
    ensures var (v, rest) := ReadInt(s).value;
            s == IntToDecimal(v) + rest && (rest == [] || !IsDigit(rest[0]))
  {
    if |s| > 0 && s[0] == '-' {
      ReadNatIsRendering(s[1..]);
      assert s == "-" + s[1..];
    } else {
      ReadNatIsRendering(s);
    }
  }
}
