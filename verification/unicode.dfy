/**
  Reference definitions of the two Unicode encoding forms the codec converts between:
  UTF-8 as defined by sections 3 and 4 of RFC 3629, and UTF-16 as defined by section 2
  of RFC 2781. Nothing here follows the Java code; the codec modules are proved against
  these definitions.
 */
module Unicode {
  import opened Results

  type Byte = bv8
  /** One UTF-16 code unit: a Java `char`. */
  type CodeUnit = bv16
  type CodePoint = bv32

  /** Unicode scalar values: every code point except the surrogates D800..DFFF. */
  predicate IsScalar(cp: CodePoint) {
    cp < 0xD800 || (0xE000 <= cp && cp <= 0x10FFFF)
  }

  predicate IsHighSurrogate(u: CodeUnit) { 0xD800 <= u < 0xDC00 }
  predicate IsLowSurrogate(u: CodeUnit) { 0xDC00 <= u < 0xE000 }

  predicate AllScalars(cps: seq<CodePoint>) {
    forall i :: 0 <= i < |cps| ==> IsScalar(cps[i])
  }

  /** A trailing byte of a multi-byte UTF-8 sequence, 80..BF. */
  predicate IsTrail(b: Byte) { 0x80 <= b <= 0xBF }

  /* ---------------- UTF-8, RFC 3629 ---------------- */

  /** The UTF-8 encoding of one scalar value (section 3 of RFC 3629). */
  function EncodeScalar(cp: CodePoint): (r: seq<Byte>)
    requires IsScalar(cp)
    ensures 1 <= |r| <= 4
    ensures |r| == 1 <==> cp < 0x80
    ensures |r| == 4 <==> cp >= 0x10000
  {
    if cp < 0x80 then
      [cp as Byte]
    else if cp < 0x800 then
      [(0xC0 | (cp >> 6)) as Byte, (0x80 | (cp & 0x3F)) as Byte]
    else if cp < 0x10000 then
      [(0xE0 | (cp >> 12)) as Byte, (0x80 | ((cp >> 6) & 0x3F)) as Byte,
       (0x80 | (cp & 0x3F)) as Byte]
    else
      [(0xF0 | (cp >> 18)) as Byte, (0x80 | ((cp >> 12) & 0x3F)) as Byte,
       (0x80 | ((cp >> 6) & 0x3F)) as Byte, (0x80 | (cp & 0x3F)) as Byte]
  }

  /** The UTF-8 encoding of a sequence of scalar values. */
  function EncodeScalars(cps: seq<CodePoint>): seq<Byte>
    requires AllScalars(cps)
  {
    if cps == [] then [] else EncodeScalar(cps[0]) + EncodeScalars(cps[1..])
  }

  /**
    The first scalar value of a byte string and the length of its encoding, read off
    the table of well-formed byte sequences in section 4 of RFC 3629; None when the
    string does not start with a well-formed sequence.
   */
  function FirstScalar(b: seq<Byte>): (r: Option<(CodePoint, nat)>)
    requires |b| > 0
    ensures r.Some? ==> 1 <= r.value.1 <= |b| && r.value.1 <= 4
  {
    if b[0] <= 0x7F then Some((b[0] as CodePoint, 1))
    else if 0xC2 <= b[0] <= 0xDF then Lead2(b)
    else if 0xE0 <= b[0] <= 0xEF then Lead3(b)
    else if 0xF0 <= b[0] <= 0xF4 then Lead4(b)
    else None
  }

  /** Rows C2..DF of the table: one trailing byte. */
  function Lead2(b: seq<Byte>): (r: Option<(CodePoint, nat)>)
    requires |b| > 0
    ensures r.Some? ==> r.value.1 == 2 <= |b|
  {
    if |b| >= 2 && IsTrail(b[1]) then
      Some((Value2(b[0], b[1]), 2))
    else None
  }

  /** Rows E0..EF of the table: two trailing bytes, the first restricted by `Second3`. */
  function Lead3(b: seq<Byte>): (r: Option<(CodePoint, nat)>)
    requires |b| > 0
    ensures r.Some? ==> r.value.1 == 3 <= |b|
  {
    if |b| >= 3 && Second3(b[0], b[1]) && IsTrail(b[2]) then
      Some((Value3(b[0], b[1], b[2]), 3))
    else None
  }

  /** Rows F0..F4 of the table: three trailing bytes, the first restricted by `Second4`. */
  function Lead4(b: seq<Byte>): (r: Option<(CodePoint, nat)>)
    requires |b| > 0
    ensures r.Some? ==> r.value.1 == 4 <= |b|
  {
    if |b| >= 4 && Second4(b[0], b[1]) && IsTrail(b[2]) && IsTrail(b[3]) then
      Some((Value4(b[0], b[1], b[2], b[3]), 4))
    else None
  }

  /** The second byte after lead E0..EF: E0 needs A0..BF and ED needs 80..9F. */
  predicate Second3(b0: Byte, b1: Byte) {
    (if b0 == 0xE0 then 0xA0 else 0x80) <= b1 <= (if b0 == 0xED then 0x9F else 0xBF)
  }

  /** The second byte after lead F0..F4: F0 needs 90..BF and F4 needs 80..8F. */
  predicate Second4(b0: Byte, b1: Byte) {
    (if b0 == 0xF0 then 0x90 else 0x80) <= b1 <= (if b0 == 0xF4 then 0x8F else 0xBF)
  }

  /** The bits a two-, three- or four-byte sequence carries, joined into one value. */
  function Value2(b0: Byte, b1: Byte): CodePoint {
    (((b0 & 0x1F) as CodePoint) << 6) | (b1 & 0x3F) as CodePoint
  }

  function Value3(b0: Byte, b1: Byte, b2: Byte): CodePoint {
    (((b0 & 0x0F) as CodePoint) << 12) | (((b1 & 0x3F) as CodePoint) << 6) | (b2 & 0x3F) as CodePoint
  }

  function Value4(b0: Byte, b1: Byte, b2: Byte, b3: Byte): CodePoint {
    (((b0 & 0x07) as CodePoint) << 18) | (((b1 & 0x3F) as CodePoint) << 12)
    | (((b2 & 0x3F) as CodePoint) << 6) | (b3 & 0x3F) as CodePoint
  }

  /** The scalar values a well-formed UTF-8 string encodes; None when it is ill-formed. */
  function DecodeScalars(b: seq<Byte>): Option<seq<CodePoint>>
    decreases |b|
  {
    if b == [] then Some([])
    else match FirstScalar(b)
      case None => None
      case Some((cp, n)) =>
        match DecodeScalars(b[n..])
        case None => None
        case Some(rest) => Some([cp] + rest)
  }

  /* ---------------- UTF-16, RFC 2781 ---------------- */

  /** The UTF-16 encoding of one scalar value (section 2.1 of RFC 2781). */
  function EncodeUtf16(cp: CodePoint): (r: seq<CodeUnit>)
    requires IsScalar(cp)
    ensures |r| == 1 <==> cp < 0x10000
    ensures |r| == 1 || |r| == 2
  {
    if cp < 0x10000 then
      [cp as CodeUnit]
    else
      var u := cp - 0x10000;
      [(0xD800 | (u >> 10)) as CodeUnit, (0xDC00 | (u & 0x3FF)) as CodeUnit]
  }

  function EncodeUtf16All(cps: seq<CodePoint>): seq<CodeUnit>
    requires AllScalars(cps)
  {
    if cps == [] then [] else EncodeUtf16(cps[0]) + EncodeUtf16All(cps[1..])
  }

  /** The scalar value of a surrogate pair (section 2.2 of RFC 2781). */
  function PairValue(hi: CodeUnit, lo: CodeUnit): CodePoint
  {
    ((((hi & 0x3FF) as CodePoint) << 10) | (lo & 0x3FF) as CodePoint) + 0x10000
  }

  /** The scalar values of well-formed UTF-16 (section 2.2 of RFC 2781); None on an unpaired surrogate. */
  function DecodeUtf16(s: seq<CodeUnit>): Option<seq<CodePoint>>
    decreases |s|
  {
    if s == [] then Some([])
    else if IsHighSurrogate(s[0]) then
      if |s| >= 2 && IsLowSurrogate(s[1]) then
        match DecodeUtf16(s[2..])
        case None => None
        case Some(rest) => Some([PairValue(s[0], s[1])] + rest)
      else None
    else if IsLowSurrogate(s[0]) then None
    else
      match DecodeUtf16(s[1..])
      case None => None
      case Some(rest) => Some([s[0] as CodePoint] + rest)
  }

  /* ---------------- Lemmas ---------------- */

  /** Reading the table back from an encoded scalar gives that scalar and its length. */
  lemma FirstScalarOfEncoding(cp: CodePoint, rest: seq<Byte>)
    requires IsScalar(cp)
    ensures FirstScalar(EncodeScalar(cp) + rest) == Some((cp, |EncodeScalar(cp)|))
  {
    if cp < 0x80 {
      assert (EncodeScalar(cp) + rest)[0] == cp as Byte;
    } else if cp < 0x800 {
      ReadTwo(cp, rest);
    } else if cp < 0x10000 {
      ReadThree(cp, rest);
    } else {
      ReadFour(cp, rest);
    }
  }

  lemma ReadTwo(cp: CodePoint, rest: seq<Byte>)
    requires 0x80 <= cp < 0x800
    ensures FirstScalar(EncodeScalar(cp) + rest) == Some((cp, 2))
  {
    var e := EncodeScalar(cp);
    var b := e + rest;
    TwoByteBits(cp);
    assert b[0] == e[0] && b[1] == e[1];
    assert Lead2(b) == Some((cp, 2));
  }

  lemma ReadThree(cp: CodePoint, rest: seq<Byte>)
    requires 0x800 <= cp < 0x10000 && IsScalar(cp)
    ensures FirstScalar(EncodeScalar(cp) + rest) == Some((cp, 3))
  {
    var x0 := (0xE0 | (cp >> 12)) as Byte;
    var x1 := (0x80 | ((cp >> 6) & 0x3F)) as Byte;
    var x2 := (0x80 | (cp & 0x3F)) as Byte;
    assert EncodeScalar(cp) == [x0, x1, x2];
    ThreeByteBits(cp, x0, x1, x2);
    Lead3Of([x0, x1, x2] + rest, x0, x1, x2, cp);
  }

  lemma Lead3Of(b: seq<Byte>, x0: Byte, x1: Byte, x2: Byte, cp: CodePoint)
    requires |b| >= 3 && b[0] == x0 && b[1] == x1 && b[2] == x2
    requires 0xE0 <= x0 <= 0xEF && IsTrail(x2)
    requires Second3(x0, x1)
    requires cp == Value3(x0, x1, x2)
    ensures FirstScalar(b) == Some((cp, 3))
  {
    assert Lead3(b) == Some((cp, 3));
  }

  lemma ReadFour(cp: CodePoint, rest: seq<Byte>)
    requires 0x10000 <= cp <= 0x10FFFF
    ensures FirstScalar(EncodeScalar(cp) + rest) == Some((cp, 4))
  {
    var x0 := (0xF0 | (cp >> 18)) as Byte;
    var x1 := (0x80 | ((cp >> 12) & 0x3F)) as Byte;
    var x2 := (0x80 | ((cp >> 6) & 0x3F)) as Byte;
    var x3 := (0x80 | (cp & 0x3F)) as Byte;
    assert EncodeScalar(cp) == [x0, x1, x2, x3];
    FourByteLeadBits(cp, x0, x1);
    FourByteValueBits(cp, x0, x1, x2, x3);
    Lead4Of([x0, x1, x2, x3] + rest, x0, x1, x2, x3, cp);
  }

  lemma FourByteLeadBits(cp: CodePoint, x0: Byte, x1: Byte)
    requires 0x10000 <= cp <= 0x10FFFF
    requires x0 == (0xF0 | (cp >> 18)) as Byte
    requires x1 == (0x80 | ((cp >> 12) & 0x3F)) as Byte
    ensures 0xF0 <= x0 <= 0xF4
    ensures Second4(x0, x1)
  {
    FourByteRanges(cp);
  }

  lemma FourByteValueBits(cp: CodePoint, x0: Byte, x1: Byte, x2: Byte, x3: Byte)
    requires 0x10000 <= cp <= 0x10FFFF
    requires x0 == (0xF0 | (cp >> 18)) as Byte
    requires x1 == (0x80 | ((cp >> 12) & 0x3F)) as Byte
    requires x2 == (0x80 | ((cp >> 6) & 0x3F)) as Byte
    requires x3 == (0x80 | (cp & 0x3F)) as Byte
    ensures IsTrail(x2) && IsTrail(x3)
    ensures cp == Value4(x0, x1, x2, x3)
  {
    FourByteJoin(cp);
  }

  lemma Lead4Of(b: seq<Byte>, x0: Byte, x1: Byte, x2: Byte, x3: Byte, cp: CodePoint)
    requires |b| >= 4 && b[0] == x0 && b[1] == x1 && b[2] == x2 && b[3] == x3
    requires 0xF0 <= x0 <= 0xF4 && IsTrail(x2) && IsTrail(x3)
    requires Second4(x0, x1)
    requires cp == Value4(x0, x1, x2, x3)
    ensures FirstScalar(b) == Some((cp, 4))
  {
    assert Lead4(b) == Some((cp, 4));
  }

  lemma TwoByteBits(cp: CodePoint)
    requires 0x80 <= cp < 0x800
    ensures var b0 := (0xC0 | (cp >> 6)) as Byte; var b1 := (0x80 | (cp & 0x3F)) as Byte;
      0xC2 <= b0 <= 0xDF && IsTrail(b1)
      && (Value2(b0, b1)) == cp
  {
  }

  lemma ThreeByteBits(cp: CodePoint, b0: Byte, b1: Byte, b2: Byte)
    requires 0x800 <= cp < 0x10000 && IsScalar(cp)
    requires b0 == (0xE0 | (cp >> 12)) as Byte
    requires b1 == (0x80 | ((cp >> 6) & 0x3F)) as Byte
    requires b2 == (0x80 | (cp & 0x3F)) as Byte
    ensures 0xE0 <= b0 <= 0xEF && IsTrail(b2)
    ensures Second3(b0, b1)
    ensures cp == Value3(b0, b1, b2)
  {
    ThreeByteLead(cp, b0, b2);
    ThreeByteSecond(cp, b0, b1);
    ThreeByteJoin(cp, b0, b1, b2);
  }

  lemma ThreeByteLead(cp: CodePoint, b0: Byte, b2: Byte)
    requires 0x800 <= cp < 0x10000
    requires b0 == (0xE0 | (cp >> 12)) as Byte
    requires b2 == (0x80 | (cp & 0x3F)) as Byte
    ensures 0xE0 <= b0 <= 0xEF && IsTrail(b2)
  {
  }

  lemma ThreeByteSecond(cp: CodePoint, b0: Byte, b1: Byte)
    requires 0x800 <= cp < 0x10000 && IsScalar(cp)
    requires b0 == (0xE0 | (cp >> 12)) as Byte
    requires b1 == (0x80 | ((cp >> 6) & 0x3F)) as Byte
    ensures Second3(b0, b1)
  {
  }

  lemma ThreeByteJoin(cp: CodePoint, b0: Byte, b1: Byte, b2: Byte)
    requires 0x800 <= cp < 0x10000
    requires b0 == (0xE0 | (cp >> 12)) as Byte
    requires b1 == (0x80 | ((cp >> 6) & 0x3F)) as Byte
    requires b2 == (0x80 | (cp & 0x3F)) as Byte
    ensures cp == Value3(b0, b1, b2)
  {
  }

  lemma FourByteRanges(cp: CodePoint)
    requires 0x10000 <= cp <= 0x10FFFF
    ensures var b0 := (0xF0 | (cp >> 18)) as Byte; var b1 := (0x80 | ((cp >> 12) & 0x3F)) as Byte;
      0xF0 <= b0 <= 0xF4
      && Second4(b0, b1)
  {
  }

  lemma FourByteJoin(cp: CodePoint)
    requires 0x10000 <= cp <= 0x10FFFF
    ensures var b0 := (0xF0 | (cp >> 18)) as Byte; var b1 := (0x80 | ((cp >> 12) & 0x3F)) as Byte;
      var b2 := (0x80 | ((cp >> 6) & 0x3F)) as Byte; var b3 := (0x80 | (cp & 0x3F)) as Byte;
      IsTrail(b2) && IsTrail(b3)
      && cp == Value4(b0, b1, b2, b3)
  {
  }

  /** Whatever the table accepts is the encoding of a scalar value. */
  lemma FirstScalarIsEncoding(b: seq<Byte>)
    requires |b| > 0 && FirstScalar(b).Some?
    ensures IsScalar(FirstScalar(b).value.0)
    ensures b[..FirstScalar(b).value.1] == EncodeScalar(FirstScalar(b).value.0)
  {
    if b[0] <= 0x7F {
      assert b[..1] == [b[0]];
    } else if b[0] <= 0xDF {
      WriteTwo(b);
    } else if b[0] <= 0xEF {
      WriteThree(b);
    } else {
      WriteFour(b);
    }
  }

  lemma WriteTwo(b: seq<Byte>)
    requires |b| > 0 && 0xC2 <= b[0] <= 0xDF && Lead2(b).Some?
    ensures IsScalar(Lead2(b).value.0) && b[..2] == EncodeScalar(Lead2(b).value.0)
  {
    TwoByteValue(b[0], b[1]);
    assert b[..2] == [b[0], b[1]];
  }

  lemma WriteThree(b: seq<Byte>)
    requires |b| > 0 && 0xE0 <= b[0] <= 0xEF && Lead3(b).Some?
    ensures IsScalar(Lead3(b).value.0) && b[..3] == EncodeScalar(Lead3(b).value.0)
  {
    ThreeByteValue(b[0], b[1], b[2]);
    assert b[..3] == [b[0], b[1], b[2]];
  }

  lemma WriteFour(b: seq<Byte>)
    requires |b| > 0 && 0xF0 <= b[0] <= 0xF4 && Lead4(b).Some?
    ensures IsScalar(Lead4(b).value.0) && b[..4] == EncodeScalar(Lead4(b).value.0)
  {
    FourByteValue(b[0], b[1], b[2], b[3]);
    assert b[..4] == [b[0], b[1], b[2], b[3]];
  }

  lemma TwoByteValue(b0: Byte, b1: Byte)
    requires 0xC2 <= b0 <= 0xDF && IsTrail(b1)
    ensures var cp := Value2(b0, b1);
      0x80 <= cp < 0x800 && (0xC0 | (cp >> 6)) as Byte == b0 && (0x80 | (cp & 0x3F)) as Byte == b1
  {
  }

  lemma ThreeByteValue(b0: Byte, b1: Byte, b2: Byte)
    requires 0xE0 <= b0 <= 0xEF && IsTrail(b2)
    requires Second3(b0, b1)
    ensures var cp := Value3(b0, b1, b2);
      0x800 <= cp < 0x10000 && IsScalar(cp)
      && (0xE0 | (cp >> 12)) as Byte == b0 && (0x80 | ((cp >> 6) & 0x3F)) as Byte == b1
      && (0x80 | (cp & 0x3F)) as Byte == b2
  {
  }

  lemma FourByteValue(b0: Byte, b1: Byte, b2: Byte, b3: Byte)
    requires 0xF0 <= b0 <= 0xF4 && IsTrail(b2) && IsTrail(b3)
    requires Second4(b0, b1)
    ensures var cp := Value4(b0, b1, b2, b3);
      0x10000 <= cp <= 0x10FFFF
      && (0xF0 | (cp >> 18)) as Byte == b0 && (0x80 | ((cp >> 12) & 0x3F)) as Byte == b1
      && (0x80 | ((cp >> 6) & 0x3F)) as Byte == b2 && (0x80 | (cp & 0x3F)) as Byte == b3
  {
  }

  /** Decoding the UTF-8 encoding of scalar values gives them back. */
  lemma {:induction false} DecodeEncodedScalars(cps: seq<CodePoint>)
    requires AllScalars(cps)
    ensures DecodeScalars(EncodeScalars(cps)) == Some(cps)
  {
    if cps != [] {
      var e := EncodeScalar(cps[0]);
      var rest := EncodeScalars(cps[1..]);
      FirstScalarOfEncoding(cps[0], rest);
      assert (e + rest)[|e|..] == rest;
      DecodeEncodedScalars(cps[1..]);
      assert [cps[0]] + cps[1..] == cps;
    }
  }

  /** A byte string that decodes is exactly the UTF-8 encoding of what it decodes to. */
  lemma {:induction false} DecodedScalarsEncode(b: seq<Byte>)
    requires DecodeScalars(b).Some?
    ensures AllScalars(DecodeScalars(b).value)
    ensures EncodeScalars(DecodeScalars(b).value) == b
    decreases |b|
  {
    if b != [] {
      var cp, n := DecodeScalarsCons(b);
      DecodedScalarsEncode(b[n..]);
      var cps := DecodeScalars(b).value;
      assert cps[1..] == DecodeScalars(b[n..]).value;
      assert b == b[..n] + b[n..];
    }
  }

  /** A decodable non-empty input is its first sequence followed by a decodable rest. */
  lemma DecodeScalarsCons(b: seq<Byte>) returns (cp: CodePoint, n: nat)
    requires b != [] && DecodeScalars(b).Some?
    ensures 1 <= n <= |b| && IsScalar(cp) && b[..n] == EncodeScalar(cp)
    ensures DecodeScalars(b[n..]).Some?
    ensures DecodeScalars(b).value == [cp] + DecodeScalars(b[n..]).value
  {
    cp, n := FirstScalar(b).value.0, FirstScalar(b).value.1;
    FirstScalarIsEncoding(b);
  }

  /** UTF-8 well-formedness is exactly being the encoding of some scalar values. */
  lemma WellFormedIffEncoding(b: seq<Byte>, cps: seq<CodePoint>)
    ensures (AllScalars(cps) && EncodeScalars(cps) == b) <==> DecodeScalars(b) == Some(cps)
  {
    if AllScalars(cps) && EncodeScalars(cps) == b {
      DecodeEncodedScalars(cps);
    }
    if DecodeScalars(b) == Some(cps) {
      DecodedScalarsEncode(b);
    }
  }

  lemma PairBits(cp: CodePoint, hi: CodeUnit, lo: CodeUnit)
    requires 0x10000 <= cp <= 0x10FFFF
    requires hi == (0xD800 | ((cp - 0x10000) >> 10)) as CodeUnit
    requires lo == (0xDC00 | ((cp - 0x10000) & 0x3FF)) as CodeUnit
    ensures IsHighSurrogate(hi) && IsLowSurrogate(lo) && PairValue(hi, lo) == cp
  {
  }

  lemma PairScalar(hi: CodeUnit, lo: CodeUnit)
    requires IsHighSurrogate(hi) && IsLowSurrogate(lo)
    ensures 0x10000 <= PairValue(hi, lo) <= 0x10FFFF
    ensures EncodeUtf16(PairValue(hi, lo)) == [hi, lo]
  {
    var cp := PairValue(hi, lo);
    PairSplit(hi, lo, cp);
    EncodeUtf16Pair(cp);
  }

  lemma EncodeUtf16Pair(cp: CodePoint)
    requires 0x10000 <= cp <= 0x10FFFF
    ensures EncodeUtf16(cp) == [(0xD800 | ((cp - 0x10000) >> 10)) as CodeUnit,
                                (0xDC00 | ((cp - 0x10000) & 0x3FF)) as CodeUnit]
  {
  }

  lemma PairSplit(hi: CodeUnit, lo: CodeUnit, cp: CodePoint)
    requires IsHighSurrogate(hi) && IsLowSurrogate(lo) && cp == PairValue(hi, lo)
    ensures 0x10000 <= cp <= 0x10FFFF
    ensures (0xD800 | ((cp - 0x10000) >> 10)) as CodeUnit == hi
    ensures (0xDC00 | ((cp - 0x10000) & 0x3FF)) as CodeUnit == lo
  {
  }

  /** Prepends a scalar value to a decoding result. */
  function Cons(cp: CodePoint, r: Option<seq<CodePoint>>): Option<seq<CodePoint>>
  {
    match r
    case None => None
    case Some(rest) => Some([cp] + rest)
  }

  lemma Utf16HeadBmp(cp: CodePoint, rest: seq<CodeUnit>)
    requires IsScalar(cp) && cp < 0x10000
    ensures DecodeUtf16(EncodeUtf16(cp) + rest) == Cons(cp, DecodeUtf16(rest))
  {
    var u := cp as CodeUnit;
    assert EncodeUtf16(cp) == [u];
    BmpUnit(cp, u);
    var s := [u] + rest;
    assert s[0] == u && s[1..] == rest;
  }

  lemma BmpUnit(cp: CodePoint, u: CodeUnit)
    requires IsScalar(cp) && cp < 0x10000 && u == cp as CodeUnit
    ensures !IsHighSurrogate(u) && !IsLowSurrogate(u) && u as CodePoint == cp
  {
    BmpWiden(cp, u);
  }

  lemma BmpWiden(cp: CodePoint, u: CodeUnit)
    requires cp < 0x10000 && u == cp as CodeUnit
    ensures u as CodePoint == cp
  {
  }

  lemma Utf16HeadPair(cp: CodePoint, rest: seq<CodeUnit>)
    requires 0x10000 <= cp <= 0x10FFFF
    ensures DecodeUtf16(EncodeUtf16(cp) + rest) == Cons(cp, DecodeUtf16(rest))
  {
    var h := (0xD800 | ((cp - 0x10000) >> 10)) as CodeUnit;
    var l := (0xDC00 | ((cp - 0x10000) & 0x3FF)) as CodeUnit;
    EncodeUtf16Pair(cp);
    PairBits(cp, h, l);
    var s := [h, l] + rest;
    assert s[2..] == rest;
    assert s[0] == h && s[1] == l;
  }

  /** Decoding the UTF-16 encoding of scalar values gives them back. */
  lemma {:induction false} DecodeUtf16OfEncoding(cps: seq<CodePoint>)
    requires AllScalars(cps)
    ensures DecodeUtf16(EncodeUtf16All(cps)) == Some(cps)
  {
    if cps != [] {
      var cp := cps[0];
      var rest := EncodeUtf16All(cps[1..]);
      DecodeUtf16OfEncoding(cps[1..]);
      if cp < 0x10000 {
        Utf16HeadBmp(cp, rest);
      } else {
        Utf16HeadPair(cp, rest);
      }
      assert [cps[0]] + cps[1..] == cps;
    }
  }

  /** UTF-16 that decodes is exactly the encoding of what it decodes to. */
  lemma {:induction false} DecodedUtf16Encodes(s: seq<CodeUnit>)
    requires DecodeUtf16(s).Some?
    ensures AllScalars(DecodeUtf16(s).value)
    ensures EncodeUtf16All(DecodeUtf16(s).value) == s
    decreases |s|
  {
    if s != [] {
      var cps := DecodeUtf16(s).value;
      if IsHighSurrogate(s[0]) {
        PairScalar(s[0], s[1]);
        DecodedUtf16Encodes(s[2..]);
        assert cps == [PairValue(s[0], s[1])] + DecodeUtf16(s[2..]).value;
        assert cps[1..] == DecodeUtf16(s[2..]).value;
        assert s == [s[0], s[1]] + s[2..];
      } else {
        assert !IsLowSurrogate(s[0]);
        var cp := s[0] as CodePoint;
        assert IsScalar(cp) && cp < 0x10000 && EncodeUtf16(cp) == [s[0]];
        DecodedUtf16Encodes(s[1..]);
        assert cps == [cp] + DecodeUtf16(s[1..]).value;
        assert cps[1..] == DecodeUtf16(s[1..]).value;
        assert s == [s[0]] + s[1..];
      }
    }
  }
}
