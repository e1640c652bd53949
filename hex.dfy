/** Python's `hex()` on a non-negative integer: `0x` followed by lower-case hexadecimal digits without
    leading zeros (`0x0` for zero). */
module Hex {
  function DigitChar(d: nat): (c: char)
    requires d < 16
    ensures IsHexDigit(c) && DigitValue(c) == d
  {
    if d < 10 then ('0' as int + d) as char else ('a' as int + d - 10) as char
  }

  /** The lower-case hexadecimal digits `hex()` writes. */
  predicate IsHexDigit(c: char)
  {
    ('0' <= c <= '9') || ('a' <= c <= 'f')
  }

  function DigitValue(c: char): nat
    requires IsHexDigit(c)
  {
    if '0' <= c <= '9' then c as int - '0' as int else c as int - 'a' as int + 10
  }

  /** The digits of `n` in base 16, most significant first. */
  function HexDigits(n: nat): (s: string)
    ensures |s| >= 1
    ensures forall i :: 0 <= i < |s| ==> IsHexDigit(s[i])
    ensures n > 0 ==> s[0] != '0'
    ensures n == 0 ==> s == "0"
    decreases n
  {
    if n < 16 then [DigitChar(n)] else HexDigits(n / 16) + [DigitChar(n % 16)]
  }

  /** `hex(n)`. */
  function PyHex(n: nat): string
  {
    "0x" + HexDigits(n)
  }

  /** The value of a string of hexadecimal digits. */
  function ParseHex(s: string): nat
    requires forall i :: 0 <= i < |s| ==> IsHexDigit(s[i])
  {
    if s == [] then 0 else ParseHex(s[..|s| - 1]) * 16 + DigitValue(s[|s| - 1])
  }

  /** The digits read back give the number: the rendering loses nothing. */
  lemma {:induction false} HexDigitsRoundTrip(n: nat)
    ensures ParseHex(HexDigits(n)) == n
    decreases n
  {
    var s := HexDigits(n);
    if n >= 16 {
      HexDigitsRoundTrip(n / 16);
      assert s[..|s| - 1] == HexDigits(n / 16);
    }
  }

  /** The shape of `hex(n)`: `0x`, then at least one lower-case digit, with no leading zero unless the
      number is zero; and the digits after `0x` read back as `n`. */
  lemma PyHexShape(n: nat)
    ensures var h := PyHex(n);
      && |h| >= 3 && h[..2] == "0x"
      && (forall i :: 2 <= i < |h| ==> IsHexDigit(h[i]))
      && (h[2] == '0' <==> n == 0)
      && ParseHex(h[2..]) == n
  {
    var h := PyHex(n);
    assert h[2..] == HexDigits(n);
    HexDigitsRoundTrip(n);
  }

  /** Different numbers render differently. */
  lemma PyHexInjective(m: nat, n: nat)
    requires PyHex(m) == PyHex(n)
    ensures m == n
  {
    PyHexShape(m);
    PyHexShape(n);
  }

  lemma PyHexExamples()
    ensures PyHex(0) == "0x0"
    ensures PyHex(255) == "0xff"
  {
    assert HexDigits(255) == HexDigits(15) + [DigitChar(15)];
  }

  /** The rendering of the CRC-32 check value. */
  lemma PyHexCheckValue()
    ensures PyHex(0xCBF43926) == "0xcbf43926"
  {
    assert HexDigits(0xC) == "c";
    HexAppend(0xCB, "c", 'b');
    HexAppend(0xCBF, "cb", 'f');
    HexAppend(0xCBF4, "cbf", '4');
    HexAppend(0xCBF43, "cbf4", '3');
    HexAppend(0xCBF439, "cbf43", '9');
    HexAppend(0xCBF4392, "cbf439", '2');
    HexAppend(0xCBF43926, "cbf4392", '6');
  }

  /** One more digit: the digits of `n / 16` followed by the digit of `n % 16`. */
  lemma HexAppend(n: nat, prefix: string, c: char)
    requires n >= 16 && HexDigits(n / 16) == prefix && DigitChar(n % 16) == c
    ensures HexDigits(n) == prefix + [c]
  {
  }
}
