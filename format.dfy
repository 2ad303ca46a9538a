/**
 * Text formatting and parsing used by the updater: the printf conversions
 * %016x, %08x and %u/%llu, and the base-16 reading of std::stoull.
 */
module Format {

  function Pow16(n: nat): (r: nat)
    ensures r > 0
  {
    if n == 0 then 1 else 16 * Pow16(n - 1)
  }

  function HexDigit(d: nat): (c: char)
    requires d < 16
  {
    "0123456789abcdef"[d]
  }

  predicate IsHexChar(c: char) {
    '0' <= c <= '9' || 'a' <= c <= 'f' || 'A' <= c <= 'F'
  }

  function HexValueOf(c: char): (d: nat)
    requires IsHexChar(c)
    ensures d < 16
  {
    if '0' <= c <= '9' then c as int - '0' as int
    else if 'a' <= c <= 'f' then c as int - 'a' as int + 10
    else c as int - 'A' as int + 10
  }

  predicate IsHexString(s: string) {
    forall i :: 0 <= i < |s| ==> IsHexChar(s[i])
  }

  /** "%0<n>x": the low n hex digits of x, most significant first, zero padded. */
  function HexFixed(x: nat, n: nat): (s: string)
    ensures |s| == n
    ensures IsHexString(s)
  {
    if n == 0 then [] else HexFixed(x / 16, n - 1) + [HexDigit(x % 16)]
  }

  /** The value of a string of hex digits (std::stoull with base 16). */
  function ParseHex(s: string): (v: nat)
    requires IsHexString(s)
    ensures v < Pow16(|s|)
  {
    if s == [] then 0 else ParseHex(s[..|s| - 1]) * 16 + HexValueOf(s[|s| - 1])
  }

  lemma Pow16Widths()
    ensures Pow16(8) == 0x1_0000_0000
    ensures Pow16(16) == 0x1_0000_0000_0000_0000
  {
    assert Pow16(4) == 0x1_0000 by {
      assert Pow16(1) == 16;
      assert Pow16(2) == 256;
      assert Pow16(3) == 4096;
    }
    assert Pow16(8) == 0x1_0000_0000 by {
      assert Pow16(5) == 0x10_0000;
      assert Pow16(6) == 0x100_0000;
      assert Pow16(7) == 0x1000_0000;
    }
    assert Pow16(12) == 0x1_0000_0000_0000 by {
      assert Pow16(9) == 0x10_0000_0000;
      assert Pow16(10) == 0x100_0000_0000;
      assert Pow16(11) == 0x1000_0000_0000;
    }
    assert Pow16(13) == 0x10_0000_0000_0000;
    assert Pow16(14) == 0x100_0000_0000_0000;
    assert Pow16(15) == 0x1000_0000_0000_0000;
  }

  lemma HexDigitValue(d: nat)
    requires d < 16
    ensures IsHexChar(HexDigit(d)) && HexValueOf(HexDigit(d)) == d
  {
  }

  /** Reading back a zero-padded hex rendering gives the value. */
  lemma {:induction false} HexRoundTrip(x: nat, n: nat)
    requires x < Pow16(n)
    ensures ParseHex(HexFixed(x, n)) == x
  {
    if n > 0 {
      var s := HexFixed(x, n);
      assert s[..|s| - 1] == HexFixed(x / 16, n - 1);
      HexRoundTrip(x / 16, n - 1);
      HexDigitValue(x % 16);
    }
  }

  /** The n-digit rendering is one-to-one on values below 16^n. */
  lemma HexFixedInjective(x: nat, y: nat, n: nat)
    requires x < Pow16(n) && y < Pow16(n)
    requires HexFixed(x, n) == HexFixed(y, n)
    ensures x == y
  {
    HexRoundTrip(x, n);
    HexRoundTrip(y, n);
  }

  /** "%016x" of a 64-bit title id. */
  function Hex16(x: nat): (s: string)
    requires x < 0x1_0000_0000_0000_0000
    ensures |s| == 16 && IsHexString(s) && ParseHex(s) == x
  {
    Pow16Widths();
    HexRoundTrip(x, 16);
    HexFixed(x, 16)
  }

  /** "%08x" of a 32-bit content id. */
  function Hex8(x: nat): (s: string)
    requires x < 0x1_0000_0000
    ensures |s| == 8 && IsHexString(s) && ParseHex(s) == x
  {
    Pow16Widths();
    HexRoundTrip(x, 8);
    HexFixed(x, 8)
  }

  predicate IsDecimalString(s: string) {
    forall i :: 0 <= i < |s| ==> '0' <= s[i] <= '9'
  }

  /** "%u" / "%llu": decimal without padding or sign. */
  function Decimal(x: nat): (s: string)
    ensures |s| > 0 && IsDecimalString(s)
  {
    if x < 10 then ["0123456789"[x]] else Decimal(x / 10) + ["0123456789"[x % 10]]
  }

  function ParseDecimal(s: string): (v: nat)
    requires IsDecimalString(s)
  {
    if s == [] then 0 else ParseDecimal(s[..|s| - 1]) * 10 + (s[|s| - 1] as int - '0' as int)
  }

  lemma {:induction false} DecimalRoundTrip(x: nat)
    ensures ParseDecimal(Decimal(x)) == x
  {
    if x >= 10 {
      var s := Decimal(x);
      assert s[..|s| - 1] == Decimal(x / 10);
      DecimalRoundTrip(x / 10);
    }
  }

  /** A decimal rendering has one more digit than that of the value divided by ten. */
  lemma {:induction false} DecimalLength(x: nat, n: nat)
    requires n > 0
    ensures |Decimal(x)| == n <==> (n == 1 || Pow10(n - 1) <= x) && x < Pow10(n)
  {
    if x >= 10 {
      assert |Decimal(x)| == |Decimal(x / 10)| + 1;
      if n > 1 {
        DecimalLength(x / 10, n - 1);
        DivTen(x, Pow10(n - 2));
        DivTen(x, Pow10(n - 1));
      } else {
        DecimalLength(x / 10, 1);
      }
    }
  }

  /** Bounds on a value divided by ten, stated on the value itself. */
  lemma DivTen(x: nat, p: nat)
    ensures p <= x / 10 <==> 10 * p <= x
    ensures x / 10 < p <==> x < 10 * p
  {
  }

  function Pow10(n: nat): (r: nat)
    ensures r > 0
  {
    if n == 0 then 1 else 10 * Pow10(n - 1)
  }
}
