/**
  Decimal and hexadecimal numerals as the IPv4 text parsers read them: one Java `char`
  at a time into a 32-bit `int` accumulator that wraps on overflow (`val * 10 + (ch - '0')`,
  `val * 16 + (ch - 87)`), together with the rendering of a 32-bit value as a numeral,
  so that reading is proved to invert rendering.
 */
module Numerals {
  /** '0'..'9'. */
  predicate IsDigit(c: char) { '0' <= c <= '9' }

  /** 'a'..'f', the only hexadecimal letters the nginx grammar knows. */
  predicate IsHexLetter(c: char) { 'a' <= c <= 'f' }

  /** The value of a Java `int` read as the unsigned pattern of its 32 bits. */
  type Word = x: int | 0 <= x < 0x1_0000_0000

  /** Java `int` arithmetic keeps the low 32 bits of the exact result. */
  function Wrap(x: int): Word {
    x % 0x1_0000_0000
  }

  /** The Java `int` whose 32 bits are `w`, in two's complement. */
  function ToInt(w: Word): (i: int)
    ensures -0x8000_0000 <= i < 0x8000_0000 && Wrap(i) == w
  {
    if w < 0x8000_0000 then w else w - 0x1_0000_0000
  }

  /** `ch - '0'` on a digit. */
  function Digit(c: char): (d: nat)
    requires IsDigit(c)
    ensures d < 10
  {
    c as int - '0' as int
  }

  /** `ch - 87` on a letter a..f: 'a' is 97, so the letters weigh 10..15. */
  function HexLetter(c: char): (d: nat)
    requires IsHexLetter(c)
    ensures 10 <= d < 16
  {
    c as int - 87
  }

  /** The char of a decimal digit. */
  function DigitChar(d: nat): (c: char)
    requires d < 10
    ensures IsDigit(c) && Digit(c) == d
  {
    ('0' as int + d) as char
  }

  /** The weight of a hexadecimal digit or letter. */
  function HexWeight(c: char): (d: nat)
    requires IsDigit(c) || IsHexLetter(c)
    ensures d < 16
  {
    if IsDigit(c) then Digit(c) else HexLetter(c)
  }

  /** The char of a hexadecimal digit, lower case. */
  function HexChar(d: nat): (c: char)
    requires d < 16
    ensures d < 10 ==> IsDigit(c) && Digit(c) == d
    ensures d >= 10 ==> !IsDigit(c) && IsHexLetter(c) && HexLetter(c) == d
    ensures (IsDigit(c) || IsHexLetter(c)) && HexWeight(c) == d
  {
    if d < 10 then DigitChar(d) else (87 + d) as char
  }

  /** The decimal numeral of `v`, most significant digit first, without leading zeros. */
  function Decimal(v: nat): (s: seq<char>)
    ensures s != [] && forall k :: 0 <= k < |s| ==> IsDigit(s[k])
  {
    if v < 10 then [DigitChar(v)] else Decimal(v / 10) + [DigitChar(v % 10)]
  }

  /** The hexadecimal numeral of `v` in lower case, most significant digit first. */
  function Hex(v: nat): (s: seq<char>)
    ensures s != [] && forall k :: 0 <= k < |s| ==> IsDigit(s[k]) || IsHexLetter(s[k])
  {
    if v < 16 then [HexChar(v)] else Hex(v / 16) + [HexChar(v % 16)]
  }

  /**
    The accumulator `b` of `inet_aton` after reading `s` from zero: each digit gives
    `b * 10 + (ch - '0')` in 32-bit arithmetic; every other char is skipped.
   */
  function DecimalValue(s: seq<char>): Word {
    if s == [] then 0
    else
      var c := s[|s| - 1];
      if IsDigit(c) then Wrap(DecimalValue(s[..|s| - 1]) * 10 + Digit(c)) else DecimalValue(s[..|s| - 1])
  }

  /** Reading the decimal numeral of a 32-bit value gives back the value. */
  lemma {:induction false} DecimalRoundTrip(v: Word)
    ensures DecimalValue(Decimal(v)) == v
  {
    var s := Decimal(v);
    if v >= 10 {
      DecimalRoundTrip(v / 10);
      assert s[..|s| - 1] == Decimal(v / 10);
      assert Digit(s[|s| - 1]) == v % 10;
      assert DecimalValue(s) == Wrap(DecimalValue(s[..|s| - 1]) * 10 + Digit(s[|s| - 1]));
      Step10(DecimalValue(Decimal(v / 10)), v);
    } else {
      assert s[..0] == [] && Digit(s[0]) == v;
      Step10(0, v);
    }
  }

  /**
    The accumulator of the nginx value field after reading `s` from zero: each digit
    or letter a..f gives `val * 16 + weight` in 32-bit arithmetic.
   */
  function HexValue(s: seq<char>): Word
    requires forall k :: 0 <= k < |s| ==> IsDigit(s[k]) || IsHexLetter(s[k])
  {
    if s == [] then 0
    else
      var c := s[|s| - 1];
      Wrap(HexValue(s[..|s| - 1]) * 16 + HexWeight(c))
  }

  /** Reading the hexadecimal numeral of a 32-bit value gives back the value. */
  lemma {:induction false} HexRoundTrip(v: Word)
    ensures HexValue(Hex(v)) == v
  {
    var s := Hex(v);
    if v >= 16 {
      HexRoundTrip(v / 16);
      assert s[..|s| - 1] == Hex(v / 16);
      assert HexWeight(s[|s| - 1]) == v % 16;
      assert HexValue(s) == Wrap(HexValue(s[..|s| - 1]) * 16 + HexWeight(s[|s| - 1]));
      Step16(HexValue(Hex(v / 16)), v);
    } else {
      assert s[..0] == [] && HexWeight(s[0]) == v;
      Step16(0, v);
    }
  }

  lemma Step10(x: int, v: Word)
    requires x == v / 10
    ensures Wrap(x * 10 + v % 10) == v
  {
  }

  lemma Step16(x: int, v: Word)
    requires x == v / 16
    ensures Wrap(x * 16 + v % 16) == v
  {
  }
}
