/** The parts of `core::fmt` the serial programs rely on: the bytes of an
    ASCII string literal, the decimal rendering of an unsigned integer
    (`{}` on a `u8` or an integer literal), and the UTF-8 encoding of
    `byte as char` (`{}` on a `char`). */
module Fmt {
  import opened Ints

  const NEWLINE: u8 := 0x0A
  const ZERO: u8 := 0x30

  /** `s.bytes()` of a string literal made of ASCII characters only. */
  function Ascii(s: string): (r: seq<u8>)
    requires forall i :: 0 <= i < |s| ==> s[i] as int < 0x80
    ensures |r| == |s|
    ensures forall i :: 0 <= i < |s| ==> r[i] == s[i] as int
  {
    seq(|s|, i requires 0 <= i < |s| => s[i] as int)
  }

  predicate IsDigit(c: u8) {
    ZERO <= c <= 0x39
  }

  function Digit(d: nat): (c: u8)
    requires d < 10
    ensures IsDigit(c) && c - ZERO == d
  {
    0x30 + d
  }

  /** Decimal rendering of `n` as `Display` writes it: no sign, no leading zeros. */
  function Decimal(n: nat): (r: seq<u8>)
    ensures 1 <= |r|
    ensures forall i :: 0 <= i < |r| ==> IsDigit(r[i])
    ensures |r| > 1 ==> r[0] != ZERO
    ensures n < 10 <==> |r| == 1
  {
    if n < 10 then [Digit(n)] else Decimal(n / 10) + [Digit(n % 10)]
  }

  /** Value of one decimal digit. */
  function DigitValue(c: u8): (d: nat)
    requires IsDigit(c)
    ensures d < 10 && Digit(d) == c
  {
    c - ZERO
  }

  /** Value of a string of decimal digits, most significant first. */
  function ParseDecimal(s: seq<u8>): nat
    requires forall i :: 0 <= i < |s| ==> IsDigit(s[i])
  {
    if s == [] then 0
    else ParseDecimal(s[..|s| - 1]) * 10 + DigitValue(s[|s| - 1])
  }

  /** Reading back the digits of `Decimal(n)` gives `n`. */
  lemma {:induction false} ParseDecimalOfDecimal(n: nat)
    ensures ParseDecimal(Decimal(n)) == n
  {
    if n >= 10 {
      var d := Decimal(n);
      assert d[..|d| - 1] == Decimal(n / 10);
      ParseDecimalOfDecimal(n / 10);
    }
  }

  /** A `u8` prints as one to three digits. */
  lemma {:induction false} DecimalOfByte(b: u8)
    ensures |Decimal(b)| <= 3
  {
    if b >= 100 {
      assert |Decimal(b / 10)| == 2 by {
        assert (b / 10) / 10 < 10;
      }
    }
  }

  /** UTF-8 encoding of the character U+0000..U+00FF that `byte as char` denotes:
      one byte below 0x80, otherwise the lead byte `110000xx` carrying the top
      two bits and the continuation byte `10xxxxxx` carrying the low six. */
  function EncodeChar(b: u8): (r: seq<u8>)
    ensures b < 0x80 ==> r == [b]
    ensures b >= 0x80 ==> |r| == 2 && 0xC2 <= r[0] <= 0xC3 && 0x80 <= r[1] <= 0xBF
  {
    if b < 0x80 then [b]
    else if b < 0xC0 then [0xC2, b]
    else [0xC3, b - 0x40]
  }

  /** Code point of a one- or two-byte UTF-8 sequence: the payload bits of
      the lead byte, then those of the continuation byte. */
  function DecodeChar(r: seq<u8>): int
    requires 1 <= |r| <= 2
  {
    if |r| == 1 then r[0]
    else (r[0] as int - 0xC0) * 64 + (r[1] as int - 0x80)
  }

  /** Decoding the encoding of `byte as char` gives back the byte. */
  lemma EncodeCharRoundTrip(b: u8)
    ensures 1 <= |EncodeChar(b)| <= 2
    ensures DecodeChar(EncodeChar(b)) == b
  {
  }
}
