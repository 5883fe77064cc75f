/**
  The UTF-16 to UTF-8 direction of the codec, `encodeUTF8Internal` (Utf8Utils.java): the
  branches it takes on each code unit, the bytes it stores and the index it returns,
  proved against the reference encodings of module Unicode.

  Java `char` is modelled as `CodeUnit` (bv16) and Java `int` as bv32, so the pair
  arithmetic `(c << 10) + d + 0xfca02400` wraps exactly as in the source, and every
  `(byte)` cast keeps the low eight bits.
 */
module Utf8Encoder {
  import opened Results
  import opened Unicode

  /** The Java `(byte)` cast of an `int`: the low eight bits. */
  function Low8(x: bv32): Byte {
    (x & 0xFF) as Byte
  }

  predicate IsSurrogateUnit(c: CodeUnit) { 0xD800 <= c < 0xE000 }

  /** The `int` the source computes for a surrogate pair, wrapping at 32 bits. */
  function PairCode(c: CodeUnit, d: CodeUnit): bv32 {
    ((c as bv32) << 10) + (d as bv32) + 0xfca02400
  }

  /** The one, two or three bytes stored for a code unit outside the surrogate range. */
  function BmpBytes(c: CodeUnit): (r: seq<Byte>)
    ensures 1 <= |r| <= 3
  {
    var x := c as bv32;
    if c < 0x80 then
      [Low8(x)]
    else if c < 0x800 then
      [Low8(0xC0 | (x >> 6)), Low8(0x80 | (x & 0x3F))]
    else
      [Low8(0xE0 | (x >> 12)), Low8(0x80 | ((x >> 6) & 0x3F)), Low8(0x80 | (x & 0x3F))]
  }

  /**
    The four bytes stored for `uc` on the surrogate path. The source shifts with `>>`,
    which agrees with the logical shift here because `uc` is never negative on that path.
   */
  function FourBytes(uc: bv32): (r: seq<Byte>)
    ensures |r| == 4
  {
    [Low8(0xF0 | (uc >> 18)), Low8(0x80 | ((uc >> 12) & 0x3F)),
     Low8(0x80 | ((uc >> 6) & 0x3F)), Low8(0x80 | (uc & 0x3F))]
  }

  /** What one iteration of the source's loop does with the code unit at the front of `s`. */
  datatype Lead =
    | Bmp(bytes: seq<Byte>)      // stores `bytes`, consumes one char
    | Pair(bytes: seq<Byte>)     // a high surrogate and its low half: stores `bytes`, consumes two chars
    | TrailingHigh               // a high surrogate as the last char: stores '?' and returns
    | Mispaired                  // a high surrogate followed by anything else: throws
    | LoneLow                    // a low surrogate with no high surrogate before it

  const QuestionMark: Byte := 0x3F

  /** The branch the source takes on the first code unit of `s`, with the bytes it stores. */
  function Classify(s: seq<CodeUnit>): (r: Lead)
    requires |s| > 0
    ensures r.Bmp? <==> !IsSurrogateUnit(s[0])
    ensures r.Pair? ==> |s| >= 2
  {
    var c := s[0];
    if !IsSurrogateUnit(c) then Bmp(BmpBytes(c))
    else if c < 0xDC00 then
      if |s| == 1 then TrailingHigh
      else if 0xDC00 <= s[1] < 0xE000 then Pair(FourBytes(PairCode(c, s[1])))
      else Mispaired
    else LoneLow
  }

  /** `bytes` stored before whatever the rest of the input gives. */
  function Prepend(bytes: seq<Byte>, rest: Result<seq<Byte>>): Result<seq<Byte>>
  {
    match rest
    case Err(e) => Err(e)
    case Ok(r) => Ok(bytes + r)
  }

  /**
    The bytes `encodeUTF8Internal` stores for `s`, or the exception it throws, with a
    lone low surrogate rejected as malformed (see `EncodeAsWritten` for what the source
    does with one).
   */
  function Encode(s: seq<CodeUnit>): Result<seq<Byte>>
    decreases |s|
  {
    if s == [] then Ok([])
    else match Classify(s)
      case Bmp(b) => Prepend(b, Encode(s[1..]))
      case Pair(b) => Prepend(b, Encode(s[2..]))
      case TrailingHigh => Ok([QuestionMark])
      case Mispaired => Err(MalformedInput)
      case LoneLow => Err(MalformedInput)
  }

  /**
    The source as written: a lone low surrogate `c` goes down the surrogate path with
    `uc = c`, stores the four bytes of `uc` and skips the char after it.
   */
  function EncodeAsWritten(s: seq<CodeUnit>): Result<seq<Byte>>
    decreases |s|
  {
    if s == [] then Ok([])
    else match Classify(s)
      case Bmp(b) => Prepend(b, EncodeAsWritten(s[1..]))
      case Pair(b) => Prepend(b, EncodeAsWritten(s[2..]))
      case TrailingHigh => Ok([QuestionMark])
      case Mispaired => Err(MalformedInput)
      case LoneLow => Prepend(FourBytes(s[0] as bv32), EncodeAsWritten(if |s| >= 2 then s[2..] else []))
  }

  /* ---------------- Bytes of one code unit ---------------- */

  lemma Low8Fits(y: bv32)
    requires y < 0x100
    ensures Low8(y) == y as Byte
  {
  }

  lemma OneByte(c: CodeUnit)
    requires c < 0x80
    ensures IsScalar(c as CodePoint) && BmpBytes(c) == EncodeScalar(c as CodePoint)
  {
    Low8Fits(c as bv32);
  }

  lemma TwoBytes(c: CodeUnit, x: bv32)
    requires 0x80 <= c < 0x800 && x == c as bv32
    ensures IsScalar(x) && BmpBytes(c) == EncodeScalar(x)
  {
    assert 0xC0 | (x >> 6) < 0x100;
    Low8Fits(0xC0 | (x >> 6));
    Low8Fits(0x80 | (x & 0x3F));
  }

  lemma ThreeBytes(c: CodeUnit, x: bv32)
    requires 0x800 <= c && !IsSurrogateUnit(c) && x == c as bv32
    ensures IsScalar(x) && x < 0x10000 && BmpBytes(c) == EncodeScalar(x)
  {
    ThreeByteRange(c, x);
    ThreeByteLow8(x);
    Low8Fits(0x80 | ((x >> 6) & 0x3F));
    Low8Fits(0x80 | (x & 0x3F));
  }

  lemma ThreeByteRange(c: CodeUnit, x: bv32)
    requires 0x800 <= c && !IsSurrogateUnit(c) && x == c as bv32
    ensures 0x800 <= x < 0x10000 && IsScalar(x)
  {
  }

  lemma ThreeByteLow8(x: bv32)
    requires x < 0x10000
    ensures Low8(0xE0 | (x >> 12)) == (0xE0 | (x >> 12)) as Byte
  {
    assert 0xE0 | (x >> 12) < 0x100;
    Low8Fits(0xE0 | (x >> 12));
  }

  /** A code unit outside the surrogate range is stored as the UTF-8 encoding of its value. */
  lemma BmpBytesEncode(c: CodeUnit)
    requires !IsSurrogateUnit(c)
    ensures IsScalar(c as CodePoint) && BmpBytes(c) == EncodeScalar(c as CodePoint)
  {
    if c < 0x80 {
      OneByte(c);
    } else if c < 0x800 {
      TwoBytes(c, c as bv32);
    } else {
      ThreeBytes(c, c as bv32);
    }
  }

  /** ... and its UTF-16 encoding is the code unit itself. */
  lemma BmpUtf16(c: CodeUnit)
    requires !IsSurrogateUnit(c)
    ensures IsScalar(c as CodePoint) && EncodeUtf16(c as CodePoint) == [c]
  {
    assert (c as CodePoint) as CodeUnit == c;
  }

  /** The wrapping `int` sum of the source is the scalar value of the pair. */
  lemma PairCodeValue(c: CodeUnit, d: CodeUnit)
    requires IsHighSurrogate(c) && IsLowSurrogate(d)
    ensures PairCode(c, d) == PairValue(c, d)
  {
  }

  /** A supplementary scalar value is stored as its UTF-8 encoding. */
  lemma FourBytesEncode(uc: CodePoint)
    requires 0x10000 <= uc <= 0x10FFFF
    ensures FourBytes(uc) == EncodeScalar(uc)
  {
    assert 0xF0 | (uc >> 18) < 0x100;
    Low8Fits(0xF0 | (uc >> 18));
    Low8Fits(0x80 | ((uc >> 12) & 0x3F));
    Low8Fits(0x80 | ((uc >> 6) & 0x3F));
    Low8Fits(0x80 | (uc & 0x3F));
  }

  /** A surrogate pair is stored as the UTF-8 encoding of the scalar value it stands for. */
  lemma PairBytesEncode(c: CodeUnit, d: CodeUnit)
    requires IsHighSurrogate(c) && IsLowSurrogate(d)
    ensures IsScalar(PairValue(c, d))
    ensures FourBytes(PairCode(c, d)) == EncodeScalar(PairValue(c, d))
  {
    PairCodeValue(c, d);
    PairScalar(c, d);
    FourBytesEncode(PairValue(c, d));
  }

  /* ---------------- The whole string ---------------- */

  /** `s` is well-formed UTF-16 except for one high surrogate at its very end. */
  ghost predicate EndsInLoneHigh(s: seq<CodeUnit>)
  {
    |s| > 0 && IsHighSurrogate(s[|s| - 1]) && DecodeUtf16(s[..|s| - 1]).Some?
  }

  lemma LoneHighAfterBmp(s: seq<CodeUnit>)
    requires |s| >= 1 && !IsSurrogateUnit(s[0])
    ensures EndsInLoneHigh(s) <==> EndsInLoneHigh(s[1..])
  {
    if |s| >= 2 {
      var p := s[..|s| - 1];
      assert p[0] == s[0] && p[1..] == s[1..][..|s[1..]| - 1];
      assert s[1..][|s[1..]| - 1] == s[|s| - 1];
    }
  }

  lemma LoneHighAfterPair(s: seq<CodeUnit>)
    requires |s| >= 2 && IsHighSurrogate(s[0]) && IsLowSurrogate(s[1])
    ensures EndsInLoneHigh(s) <==> EndsInLoneHigh(s[2..])
  {
    if |s| >= 3 {
      var p := s[..|s| - 1];
      assert p[0] == s[0] && p[1] == s[1] && p[2..] == s[2..][..|s[2..]| - 1];
      assert s[2..][|s[2..]| - 1] == s[|s| - 1];
    }
  }

  lemma NoLoneHighAfterBad(s: seq<CodeUnit>)
    requires |s| >= 1 && IsSurrogateUnit(s[0])
    requires IsLowSurrogate(s[0]) || (|s| >= 2 && !IsLowSurrogate(s[1]))
    ensures !EndsInLoneHigh(s)
  {
    if |s| >= 2 {
      var p := s[..|s| - 1];
      assert p[0] == s[0];
      if |s| >= 3 {
        assert p[1] == s[1];
      }
    }
  }

  lemma EncodeScalarsCons(cp: CodePoint, rest: seq<CodePoint>)
    requires IsScalar(cp) && AllScalars(rest)
    ensures AllScalars([cp] + rest)
    ensures EncodeScalars([cp] + rest) == EncodeScalar(cp) + EncodeScalars(rest)
  {
    assert ([cp] + rest)[1..] == rest;
  }

  lemma EncodeScalarsSnoc(cps: seq<CodePoint>, cp: CodePoint)
    requires AllScalars(cps) && IsScalar(cp)
    ensures AllScalars(cps + [cp])
    ensures EncodeScalars(cps + [cp]) == EncodeScalars(cps) + EncodeScalar(cp)
    decreases |cps|
  {
    if cps != [] {
      assert (cps + [cp])[1..] == cps[1..] + [cp];
      EncodeScalarsSnoc(cps[1..], cp);
    }
  }

  /**
    What the encoder should store for a whole string, from the reference encodings alone:
    the UTF-8 encoding of its scalar values when it is well-formed UTF-16, that encoding
    followed by '?' when it is well-formed UTF-16 and one trailing high surrogate, and a
    malformed-input error otherwise.
   */
  ghost function Expected(s: seq<CodeUnit>): Result<seq<Byte>>
  {
    if DecodeUtf16(s).Some? then
      DecodedUtf16Encodes(s);
      Ok(EncodeScalars(DecodeUtf16(s).value))
    else if EndsInLoneHigh(s) then
      DecodedUtf16Encodes(s[..|s| - 1]);
      Ok(EncodeScalars(DecodeUtf16(s[..|s| - 1]).value) + [QuestionMark])
    else Err(MalformedInput)
  }

  /** The part of `Expected` for a well-formed prefix `p` that starts with `cp`. */
  lemma ExpectedHead(p: seq<CodeUnit>, k: nat, cp: CodePoint)
    requires 0 < k <= |p| && IsScalar(cp)
    requires DecodeUtf16(p) == Cons(cp, DecodeUtf16(p[k..]))
    ensures DecodeUtf16(p).Some? <==> DecodeUtf16(p[k..]).Some?
    ensures DecodeUtf16(p).Some? ==>
      AllScalars(DecodeUtf16(p).value) && AllScalars(DecodeUtf16(p[k..]).value)
      && EncodeScalars(DecodeUtf16(p).value) == EncodeScalar(cp) + EncodeScalars(DecodeUtf16(p[k..]).value)
  {
    if DecodeUtf16(p).Some? {
      DecodedUtf16Encodes(p[k..]);
      DecodedUtf16Encodes(p);
      EncodeScalarsCons(cp, DecodeUtf16(p[k..]).value);
    }
  }

  /** `Expected` for a string that starts with a scalar value spelled by `k` code units. */
  lemma ExpectedStep(s: seq<CodeUnit>, k: nat, cp: CodePoint)
    requires 0 < k <= |s| && IsScalar(cp)
    requires DecodeUtf16(s) == Cons(cp, DecodeUtf16(s[k..]))
    requires k < |s| ==> DecodeUtf16(s[..|s| - 1]) == Cons(cp, DecodeUtf16(s[k..][..|s[k..]| - 1]))
    requires !IsHighSurrogate(s[k - 1])
    ensures Expected(s) == Prepend(EncodeScalar(cp), Expected(s[k..]))
  {
    var t := s[k..];
    ExpectedHead(s, k, cp);
    if k < |s| {
      var p := s[..|s| - 1];
      assert t[|t| - 1] == s[|s| - 1];
      assert p[k..] == t[..|t| - 1];
      ExpectedHead(p, k, cp);
      if !DecodeUtf16(s).Some? && EndsInLoneHigh(s) {
        assert EndsInLoneHigh(t);
        var before := EncodeScalars(DecodeUtf16(p[k..]).value);
        assert EncodeScalar(cp) + before + [QuestionMark] == EncodeScalar(cp) + (before + [QuestionMark]);
      }
    }
  }

  lemma ExpectedBmp(s: seq<CodeUnit>)
    requires |s| >= 1 && !IsSurrogateUnit(s[0])
    ensures IsScalar(s[0] as CodePoint)
    ensures Expected(s) == Prepend(EncodeScalar(s[0] as CodePoint), Expected(s[1..]))
  {
    BmpUtf16(s[0]);
    BmpHead(s, s[0] as CodePoint);
    ExpectedStep(s, 1, s[0] as CodePoint);
  }

  /** The facts `ExpectedStep` needs about a first code unit outside the surrogate range. */
  lemma BmpHead(s: seq<CodeUnit>, cp: CodePoint)
    requires |s| >= 1 && !IsSurrogateUnit(s[0]) && cp == s[0] as CodePoint
    ensures DecodeUtf16(s) == Cons(cp, DecodeUtf16(s[1..]))
    ensures 1 < |s| ==> DecodeUtf16(s[..|s| - 1]) == Cons(cp, DecodeUtf16(s[1..][..|s[1..]| - 1]))
    ensures !IsHighSurrogate(s[0])
  {
    Utf16Bmp(s);
    if 1 < |s| {
      Utf16BmpLast(s);
    }
  }

  lemma Utf16BmpLast(s: seq<CodeUnit>)
    requires |s| >= 2 && !IsSurrogateUnit(s[0])
    ensures DecodeUtf16(s[..|s| - 1]) == Cons(s[0] as CodePoint, DecodeUtf16(s[1..][..|s[1..]| - 1]))
  {
    var p := s[..|s| - 1];
    assert p[0] == s[0] && p[1..] == s[1..][..|s[1..]| - 1];
    Utf16Bmp(p);
  }

  /** UTF-16 decoding of a string whose first code unit is not a surrogate. */
  lemma Utf16Bmp(s: seq<CodeUnit>)
    requires |s| >= 1 && !IsSurrogateUnit(s[0])
    ensures DecodeUtf16(s) == Cons(s[0] as CodePoint, DecodeUtf16(s[1..]))
  {
    assert !IsHighSurrogate(s[0]) && !IsLowSurrogate(s[0]);
  }

  lemma ExpectedPair(s: seq<CodeUnit>)
    requires |s| >= 2 && IsHighSurrogate(s[0]) && IsLowSurrogate(s[1])
    ensures IsScalar(PairValue(s[0], s[1]))
    ensures Expected(s) == Prepend(EncodeScalar(PairValue(s[0], s[1])), Expected(s[2..]))
  {
    var cp := PairValue(s[0], s[1]);
    PairScalar(s[0], s[1]);
    assert DecodeUtf16(s) == Cons(cp, DecodeUtf16(s[2..]));
    if 2 < |s| {
      var p := s[..|s| - 1];
      assert p[0] == s[0] && p[1] == s[1] && p[2..] == s[2..][..|s[2..]| - 1];
      assert DecodeUtf16(p) == Cons(cp, DecodeUtf16(p[2..]));
    }
    ExpectedStep(s, 2, cp);
  }

  /** A lone high surrogate at the end, or a surrogate that is not part of a pair. */
  lemma ExpectedStop(s: seq<CodeUnit>)
    requires |s| >= 1 && IsSurrogateUnit(s[0])
    requires !(|s| >= 2 && IsHighSurrogate(s[0]) && IsLowSurrogate(s[1]))
    ensures Expected(s) == if |s| == 1 && IsHighSurrogate(s[0]) then Ok([QuestionMark]) else Err(MalformedInput)
  {
    if |s| == 1 && IsHighSurrogate(s[0]) {
      assert s[..0] == [];
      assert DecodeUtf16(s).None?;
      assert EndsInLoneHigh(s);
      assert EncodeScalars(DecodeUtf16(s[..0]).value) + [QuestionMark] == [QuestionMark];
    } else {
      NoLoneHighAfterBad(s);
    }
  }

  /** The encoder stores exactly what the reference encodings say it should. */
  lemma {:induction false} EncodeSpec(s: seq<CodeUnit>)
    ensures Encode(s) == Expected(s)
    decreases |s|
  {
    if s == [] {
    } else if !IsSurrogateUnit(s[0]) {
      EncodeSpec(s[1..]);
      ExpectedBmp(s);
      BmpBytesEncode(s[0]);
    } else if |s| >= 2 && IsHighSurrogate(s[0]) && IsLowSurrogate(s[1]) {
      EncodeSpec(s[2..]);
      ExpectedPair(s);
      PairBytesEncode(s[0], s[1]);
      assert Classify(s) == Pair(EncodeScalar(PairValue(s[0], s[1])));
    } else {
      ExpectedStop(s);
    }
  }

  /* ---------------- The lone low surrogate ---------------- */

  /** Where the source does not reach its lone-low-surrogate path, it stores what `Encode` says. */
  lemma {:induction false} AsWrittenAgrees(s: seq<CodeUnit>)
    requires Encode(s).Ok?
    ensures EncodeAsWritten(s) == Encode(s)
    decreases |s|
  {
    if s != [] {
      match Classify(s)
      case Bmp(_) => AsWrittenAgrees(s[1..]);
      case Pair(_) => AsWrittenAgrees(s[2..]);
      case TrailingHigh =>
    }
  }

  /**
    As written, the source turns a lone low surrogate followed by 'A' into F0 8D B0 80:
    an ill-formed UTF-8 sequence (F0 must be followed by 90..BF), and the 'A' is lost.
   */
  lemma LoneLowSurrogate()
    ensures EncodeAsWritten([0xDC00, 0x41]) == Ok([0xF0, 0x8D, 0xB0, 0x80])
    ensures DecodeScalars([0xF0, 0x8D, 0xB0, 0x80]).None?
    ensures Encode([0xDC00, 0x41]) == Err(MalformedInput)
  {
    var s: seq<CodeUnit> := [0xDC00, 0x41];
    var b: seq<Byte> := [0xF0, 0x8D, 0xB0, 0x80];
    assert Classify(s) == LoneLow;
    assert EncodeAsWritten(s[2..]) == Ok([]) by {
      assert s[2..] == [];
    }
    assert FourBytes(s[0] as bv32) == b;
    assert b + [] == b;
    assert !Second4(b[0], b[1]);
  }

  /** With lone low surrogates rejected, whatever the encoder stores is well-formed UTF-8. */
  lemma EncodedIsWellFormed(s: seq<CodeUnit>)
    requires Encode(s).Ok?
    ensures DecodeScalars(Encode(s).value).Some?
  {
    EncodeSpec(s);
    if DecodeUtf16(s).Some? {
      DecodedUtf16Encodes(s);
      DecodeEncodedScalars(DecodeUtf16(s).value);
    } else {
      var cps := DecodeUtf16(s[..|s| - 1]).value;
      DecodedUtf16Encodes(s[..|s| - 1]);
      var q: CodePoint := 0x3F;
      assert EncodeScalar(q) == [QuestionMark];
      EncodeScalarsSnoc(cps, q);
      DecodeEncodedScalars(cps + [q]);
    }
  }

  /** A low surrogate at `i` that does not complete a high surrogate right before it. */
  predicate LoneLowAt(s: seq<CodeUnit>, i: int)
    requires 0 <= i < |s|
  {
    IsLowSurrogate(s[i]) && (i == 0 || !IsHighSurrogate(s[i - 1]))
  }

  /** `s` holds a lone low surrogate somewhere, the input on which the source goes wrong. */
  predicate HasLoneLow(s: seq<CodeUnit>) {
    exists i :: 0 <= i < |s| && LoneLowAt(s, i)
  }

  /** A lone low surrogate anywhere makes the corrected encoder throw. */
  lemma {:induction false} LoneLowRejected(s: seq<CodeUnit>)
    requires HasLoneLow(s)
    ensures Encode(s) == Err(MalformedInput)
    decreases |s|
  {
    var i :| 0 <= i < |s| && LoneLowAt(s, i);
    match Classify(s)
    case Bmp(_) =>
      assert LoneLowAt(s[1..], i - 1);
      LoneLowRejected(s[1..]);
    case Pair(_) =>
      assert LoneLowAt(s[2..], i - 2);
      LoneLowRejected(s[2..]);
    case TrailingHigh =>
      assert false;
    case Mispaired =>
    case LoneLow =>
  }

  /** Without a lone low surrogate, the source as written and the corrected encoder agree. */
  lemma {:induction false} AsWrittenWithoutLoneLow(s: seq<CodeUnit>)
    requires !HasLoneLow(s)
    ensures EncodeAsWritten(s) == Encode(s)
    decreases |s|
  {
    if s != [] {
      match Classify(s)
      case Bmp(_) =>
        NoLoneLowAfter(s, 1);
        AsWrittenWithoutLoneLow(s[1..]);
      case Pair(_) =>
        NoLoneLowAfter(s, 2);
        AsWrittenWithoutLoneLow(s[2..]);
      case TrailingHigh =>
      case Mispaired =>
      case LoneLow =>
        assert LoneLowAt(s, 0);
    }
  }

  /** Dropping the first `k` units, the last of them not a high surrogate, makes no lone low surrogate. */
  lemma NoLoneLowAfter(s: seq<CodeUnit>, k: nat)
    requires 0 < k <= |s| && !IsHighSurrogate(s[k - 1]) && !HasLoneLow(s)
    ensures !HasLoneLow(s[k..])
  {
    if HasLoneLow(s[k..]) {
      var j :| 0 <= j < |s| - k && LoneLowAt(s[k..], j);
      assert LoneLowAt(s, j + k);
    }
  }

  /**
    The source as written, against the reference encodings: on every input without a
    lone low surrogate it stores the UTF-8 form of well-formed UTF-16 (then '?' for one
    trailing high surrogate) and throws on a mispaired high surrogate; every input with
    a lone low surrogate is one the reference rejects.
   */
  lemma AsWrittenSpec(s: seq<CodeUnit>)
    ensures !HasLoneLow(s) ==> EncodeAsWritten(s) == Expected(s)
    ensures HasLoneLow(s) ==> Expected(s) == Err(MalformedInput)
  {
    EncodeSpec(s);
    if HasLoneLow(s) {
      LoneLowRejected(s);
    } else {
      AsWrittenWithoutLoneLow(s);
    }
  }

  /* ---------------- The loop ---------------- */

  /** `Prepend` of two pieces in turn is `Prepend` of both. */
  lemma PrependTwice(a: seq<Byte>, b: seq<Byte>, rest: Result<seq<Byte>>)
    ensures Prepend(a, Prepend(b, rest)) == Prepend(a + b, rest)
  {
    if rest.Ok? {
      assert a + (b + rest.value) == (a + b) + rest.value;
    }
  }

  /**
    One iteration of the loop of `encodeUTF8Internal` at index `i` of `chars[..sl]`: the
    branch it takes, the bytes it stores and how many chars it consumes.
   */
  lemma StepFacts(chars: seq<CodeUnit>, i: int, sl: int)
    requires 0 <= i < sl <= |chars|
    ensures var t := chars[i..sl];
      match Classify(t)
      case Bmp(b) => Encode(t) == Prepend(b, Encode(chars[i + 1..sl]))
      case Pair(b) => i + 2 <= sl && Encode(t) == Prepend(b, Encode(chars[i + 2..sl]))
      case TrailingHigh => Encode(t) == Ok([QuestionMark])
      case Mispaired => Encode(t).Err?
      case LoneLow => Encode(t).Err?
  {
    var t := chars[i..sl];
    assert t[1..] == chars[i + 1..sl];
    if |t| >= 2 {
      assert t[2..] == chars[i + 2..sl];
    }
  }

  /**
    The loop of `encodeUTF8Internal` over `chars[off..sl]`: `ok` is false where the
    source throws, and otherwise `bytes` is everything it stores.
   */
  method EncodeBytes(chars: seq<CodeUnit>, off: int, sl: int) returns (ok: bool, bytes: seq<Byte>)
    requires 0 <= off <= sl <= |chars|
    ensures ok <==> Encode(chars[off..sl]).Ok?
    ensures ok ==> bytes == Encode(chars[off..sl]).value
  {
    ghost var total := Encode(chars[off..sl]);
    var i := off;
    bytes := [];
    assert total == Prepend([], Encode(chars[i..sl])) by {
      PrependTwice([], [], total);
      assert Prepend([], total) == total by {
        if total.Ok? {
          assert [] + total.value == total.value;
        }
      }
    }
    while i < sl
      invariant off <= i <= sl
      invariant total == Prepend(bytes, Encode(chars[i..sl]))
      decreases sl - i
    {
      StepFacts(chars, i, sl);
      match Classify(chars[i..sl])
      case Bmp(b) =>
        PrependTwice(bytes, b, Encode(chars[i + 1..sl]));
        bytes, i := bytes + b, i + 1;
      case Pair(b) =>
        PrependTwice(bytes, b, Encode(chars[i + 2..sl]));
        bytes, i := bytes + b, i + 2;
      case TrailingHigh =>
        return true, bytes + [QuestionMark];
      case Mispaired =>
        return false, bytes;
      case LoneLow =>
        return false, bytes;
    }
    assert chars[sl..sl] == [];
    assert bytes + [] == bytes;
    ok := true;
  }

  /**
    `encodeUTF8(chars, off, len, bytes, dp)`: stores the UTF-8 form of `chars[off..off+len]`
    into `dest` from `dp` on and returns the index after the last byte stored. It succeeds
    exactly on well-formed UTF-16, with or without one trailing high surrogate; the bytes
    are the UTF-8 encoding of the scalar values, followed by '?' for that surrogate. On any
    other input it fails. This is the corrected encoder: on input without a lone low
    surrogate it does what the source does, while on a lone low surrogate it throws where
    the source stores four ill-formed bytes (`EncodeAsWritten`).
   */
  method EncodeUtf8(chars: seq<CodeUnit>, off: int, len: int, dest: seq<Byte>, dp: int)
    returns (r: Result<int>, out: seq<Byte>)
    requires 0 <= off && 0 <= len && off + len <= |chars| && 0 <= dp
    requires Expected(chars[off..off + len]).Ok? ==> dp + |Expected(chars[off..off + len]).value| <= |dest|
    ensures r.Ok? <==> Expected(chars[off..off + len]).Ok?
    ensures r.Ok? ==>
      var b := Expected(chars[off..off + len]).value;
      r.value == dp + |b| && out == dest[..dp] + b + dest[r.value..]
    ensures r.Err? ==> r.error == MalformedInput && out == dest
    ensures !HasLoneLow(chars[off..off + len]) ==>
      (r.Ok? <==> EncodeAsWritten(chars[off..off + len]).Ok?) &&
      (r.Ok? ==> out[dp..r.value] == EncodeAsWritten(chars[off..off + len]).value)
    ensures HasLoneLow(chars[off..off + len]) ==> r == Err(MalformedInput)
  {
    var ok, bytes := EncodeBytes(chars, off, off + len);
    EncodeSpec(chars[off..off + len]);
    AsWrittenSpec(chars[off..off + len]);
    if ok {
      out := dest[..dp] + bytes + dest[dp + |bytes|..];
      assert out[dp..dp + |bytes|] == bytes;
      r := Ok(dp + |bytes|);
    } else {
      out := dest;
      r := Err(MalformedInput);
    }
  }
}
