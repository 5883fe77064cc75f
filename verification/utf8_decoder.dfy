/**
  The UTF-8 decoder `Utf8Utils.decodeUTF8`: bytes to UTF-16 code units, returning -1 on
  malformed input. Java `int` arithmetic is modelled on `bv32`; a Java `byte` read into an
  `int` is sign-extended and a cast to `char` keeps the low 16 bits.
 */
module Utf8Decoder {
  import opened Results
  import opened Unicode

  /** Java's widening of a (signed) byte to int. */
  function SignExtend(b: Byte): bv32
  {
    if b < 0x80 then b as bv32 else (b as bv32) | 0xFFFF_FF00
  }

  /** Java's arithmetic right shift `>>` on int. */
  function Sar(x: bv32, n: bv32): bv32
    requires n < 32
  {
    if x & 0x8000_0000 == 0 then x >> n else (x >> n) | !((0xFFFF_FFFF as bv32) >> n)
  }

  /** Java's `(char)` cast of an int. */
  function ToChar(x: bv32): CodeUnit
  {
    (x & 0xFFFF) as CodeUnit
  }

  /** `(b & 0xc0) != 0x80` in the source: the byte is not a trailing byte. */
  predicate NotContinuation(b: bv32)
  {
    b & 0xC0 != 0x80
  }

  /** The outcome of decoding one sequence: malformed, or the chars written and bytes consumed. */
  datatype Step = Malformed | Emit(units: seq<CodeUnit>, width: nat)

  /**
    One iteration of the main loop of `decodeUTF8`, applied to the unread input
    `sa[sp..sl]`; the length tests are the source's `sp < sl`, `sp + 1 < sl` and
    `sp + 2 < sl` taken after the lead byte was read.
   */
  function DecodeStep(input: seq<Byte>): (r: Step)
    requires |input| > 0
    ensures r.Emit? ==> 1 <= r.width <= |input| && 1 <= |r.units| <= r.width
  {
    var b1 := SignExtend(input[0]);
    if b1 & 0x8000_0000 == 0 then
      Emit([ToChar(b1)], 1)
    else if Sar(b1, 5) == 0xFFFF_FFFE && b1 & 0x1E != 0 then
      if |input| >= 2 then TwoByteStep(input[0], input[1]) else Malformed
    else if Sar(b1, 4) == 0xFFFF_FFFE then
      if |input| >= 3 then ThreeByteStep(input[0], input[1], input[2]) else Malformed
    else if Sar(b1, 3) == 0xFFFF_FFFE then
      if |input| >= 4 then FourByteStep(input[0], input[1], input[2], input[3]) else Malformed
    else
      Malformed
  }

  /** The two-byte branch: `110xxxxx 10xxxxxx`. */
  function TwoByteStep(x0: Byte, x1: Byte): (r: Step)
    ensures r.Emit? ==> r.width == 2 && |r.units| == 1
  {
    var b1 := SignExtend(x0);
    var b2 := SignExtend(x1);
    if NotContinuation(b2) then Malformed
    else Emit([ToChar(((b1 << 6) ^ b2) ^ ((SignExtend(0xC0) << 6) ^ SignExtend(0x80)))], 2)
  }

  /** The three-byte branch: `1110xxxx 10xxxxxx 10xxxxxx`, refusing overlong forms and surrogates. */
  function ThreeByteStep(x0: Byte, x1: Byte, x2: Byte): (r: Step)
    ensures r.Emit? ==> r.width == 3 && |r.units| == 1
  {
    var b1 := SignExtend(x0);
    var b2 := SignExtend(x1);
    var b3 := SignExtend(x2);
    if (b1 == SignExtend(0xE0) && b2 & 0xE0 == 0x80) || NotContinuation(b2) || NotContinuation(b3) then
      Malformed
    else
      var c := ThreeByteChar(b1, b2, b3);
      if IsSurrogate(c) then Malformed else Emit([c], 3)
  }

  /** The char of the three-byte branch, from the three sign-extended bytes. */
  function ThreeByteChar(b1: bv32, b2: bv32, b3: bv32): CodeUnit
  {
    ToChar((b1 << 12) ^ (b2 << 6) ^ (b3 ^ ((SignExtend(0xE0) << 12) ^ (SignExtend(0x80) << 6) ^ SignExtend(0x80))))
  }

  /** `Character.isSurrogate`, written out for Java 1.7 as the source does. */
  predicate IsSurrogate(c: CodeUnit)
  {
    0xD800 <= c < 0xDFFF + 1
  }

  /** The int `uc` of the four-byte branch, from the four sign-extended bytes. */
  function FourByteInt(b1: bv32, b2: bv32, b3: bv32, b4: bv32): bv32
  {
    (b1 << 18) ^ (b2 << 12) ^ (b3 << 6)
    ^ (b4 ^ ((SignExtend(0xF0) << 18) ^ (SignExtend(0x80) << 12) ^ (SignExtend(0x80) << 6) ^ SignExtend(0x80)))
  }

  /** The four-byte branch: `11110xxx 10xxxxxx 10xxxxxx 10xxxxxx`, written as a surrogate pair. */
  function FourByteStep(x0: Byte, x1: Byte, x2: Byte, x3: Byte): (r: Step)
    ensures r.Emit? ==> r.width == 4 && |r.units| == 2
  {
    var b1 := SignExtend(x0);
    var b2 := SignExtend(x1);
    var b3 := SignExtend(x2);
    var b4 := SignExtend(x3);
    var uc := FourByteInt(b1, b2, b3, b4);
    if NotContinuation(b2) || NotContinuation(b3) || NotContinuation(b4) || !IsSupplementary(uc) then
      Malformed
    else
      Emit(SurrogatesOf(uc), 4)
  }

  /** `Character.isSupplementaryCodePoint`: a signed comparison, so a negative int fails it. */
  predicate IsSupplementary(uc: bv32)
  {
    uc < 0x8000_0000 && 0x10000 <= uc && uc < 0x10FFFF + 1
  }

  /** `Character.highSurrogate` and `lowSurrogate` as the source spells them. */
  function SurrogatesOf(uc: bv32): seq<CodeUnit>
  {
    [ToChar((uc >> 10) + (0xD800 - (0x10000 >> 10))), ToChar((uc & 0x3FF) + 0xDC00)]
  }

  /* ---------------- Bit-level facts about the source's int arithmetic ---------------- */

  /** The four lead-byte tests of the main loop select ASCII, C2..DF, E0..EF and F0..F7. */
  lemma LeadClasses(x0: Byte, b1: bv32)
    requires b1 == SignExtend(x0)
    ensures b1 & 0x8000_0000 == 0 <==> x0 < 0x80
    ensures (Sar(b1, 5) == 0xFFFF_FFFE && b1 & 0x1E != 0) <==> 0xC2 <= x0 <= 0xDF
    ensures Sar(b1, 4) == 0xFFFF_FFFE <==> 0xE0 <= x0 <= 0xEF
    ensures Sar(b1, 3) == 0xFFFF_FFFE <==> 0xF0 <= x0 <= 0xF7
  {
  }

  /** `isNotContinuation` on a sign-extended byte is the negation of the table's 80..BF. */
  lemma ContinuationTest(x: Byte)
    ensures NotContinuation(SignExtend(x)) <==> !IsTrail(x)
  {
  }

  /** The two-byte branch against rows C2..DF of the table. */
  lemma TwoByteTable(x0: Byte, x1: Byte, cp: CodePoint)
    requires 0xC2 <= x0 <= 0xDF
    requires cp == Value2(x0, x1)
    ensures TwoByteStep(x0, x1).Emit? <==> IsTrail(x1)
    ensures TwoByteStep(x0, x1).Emit? ==> IsScalar(cp) && TwoByteStep(x0, x1).units == EncodeUtf16(cp)
  {
    ContinuationTest(x1);
    if IsTrail(x1) {
      TwoByteChar(x0, x1, cp);
    }
  }

  lemma TwoByteChar(x0: Byte, x1: Byte, cp: CodePoint)
    requires 0xC2 <= x0 <= 0xDF && IsTrail(x1)
    requires cp == Value2(x0, x1)
    ensures 0x80 <= cp < 0x800
    ensures ToChar(((SignExtend(x0) << 6) ^ SignExtend(x1)) ^ ((SignExtend(0xC0) << 6) ^ SignExtend(0x80)))
         == cp as CodeUnit
  {
  }

  lemma ThreeByteCharValue(x0: Byte, x1: Byte, x2: Byte, cp: CodePoint)
    requires 0xE0 <= x0 <= 0xEF && IsTrail(x1) && IsTrail(x2)
    requires cp == Value3(x0, x1, x2)
    ensures ThreeByteChar(SignExtend(x0), SignExtend(x1), SignExtend(x2)) == cp as CodeUnit
    ensures cp < 0x10000
    ensures IsSurrogate(cp as CodeUnit) <==> (x0 == 0xED && x1 >= 0xA0)
  {
  }

  /** Below 0x10000 the scalar values are the code units that are not surrogates. */
  lemma BmpScalar(cp: CodePoint)
    requires cp < 0x10000
    ensures IsScalar(cp) <==> !IsSurrogate(cp as CodeUnit)
    ensures IsScalar(cp) ==> EncodeUtf16(cp) == [cp as CodeUnit]
  {
  }

  lemma OverlongThree(x0: Byte, x1: Byte)
    requires 0xE0 <= x0 <= 0xEF && IsTrail(x1)
    ensures (SignExtend(x0) == SignExtend(0xE0) && SignExtend(x1) & 0xE0 == 0x80) <==> (x0 == 0xE0 && x1 < 0xA0)
  {
  }

  /** The three-byte branch against rows E0..EF of the table. */
  lemma ThreeByteTable(x0: Byte, x1: Byte, x2: Byte, cp: CodePoint)
    requires 0xE0 <= x0 <= 0xEF
    requires cp == Value3(x0, x1, x2)
    ensures ThreeByteStep(x0, x1, x2).Emit?
        <==> Second3(x0, x1) && IsTrail(x2)
    ensures ThreeByteStep(x0, x1, x2).Emit? ==>
      IsScalar(cp) && ThreeByteStep(x0, x1, x2).units == EncodeUtf16(cp)
  {
    ContinuationTest(x1);
    ContinuationTest(x2);
    if IsTrail(x1) && IsTrail(x2) {
      OverlongThree(x0, x1);
      ThreeByteCharValue(x0, x1, x2, cp);
      BmpScalar(cp);
    }
  }

  lemma UcValue(x0: Byte, x1: Byte, x2: Byte, x3: Byte, cp: CodePoint)
    requires 0xF0 <= x0 <= 0xF7 && IsTrail(x1) && IsTrail(x2) && IsTrail(x3)
    requires cp == Value4(x0, x1, x2, x3)
    ensures FourByteInt(SignExtend(x0), SignExtend(x1), SignExtend(x2), SignExtend(x3)) == cp
  {
  }

  lemma FourByteRange(x0: Byte, x1: Byte, x2: Byte, x3: Byte, cp: CodePoint)
    requires 0xF0 <= x0 <= 0xF7 && IsTrail(x1)
    requires cp == Value4(x0, x1, x2, x3)
    ensures (cp < 0x8000_0000 && 0x10000 <= cp && cp < 0x10FFFF + 1)
        <==> (x0 <= 0xF4 && Second4(x0, x1))
  {
  }

  /** The source's surrogate formulas agree with section 2.1 of RFC 2781. */
  lemma SurrogatesAgree(cp: CodePoint)
    requires 0x10000 <= cp <= 0x10FFFF
    ensures IsScalar(cp) && SurrogatesOf(cp) == EncodeUtf16(cp)
  {
  }

  /** The four-byte branch against rows F0..F4 of the table; F5..F7 fail its range test. */
  lemma FourByteTable(x0: Byte, x1: Byte, x2: Byte, x3: Byte, cp: CodePoint)
    requires 0xF0 <= x0 <= 0xF7
    requires cp == Value4(x0, x1, x2, x3)
    ensures FourByteStep(x0, x1, x2, x3).Emit?
        <==> x0 <= 0xF4 && Second4(x0, x1)
             && IsTrail(x2) && IsTrail(x3)
    ensures FourByteStep(x0, x1, x2, x3).Emit? ==>
      IsScalar(cp) && FourByteStep(x0, x1, x2, x3).units == EncodeUtf16(cp)
  {
    ContinuationTest(x1);
    ContinuationTest(x2);
    ContinuationTest(x3);
    if IsTrail(x1) && IsTrail(x2) && IsTrail(x3) {
      UcValue(x0, x1, x2, x3, cp);
      FourByteRange(x0, x1, x2, x3, cp);
      if IsSupplementary(cp) {
        SurrogatesAgree(cp);
      }
    }
  }

  /* ---------------- Agreement with the RFC 3629 table ---------------- */

  /** What a step of the decoder must do: decode the table's first scalar and write its UTF-16 form. */
  predicate Agrees(input: seq<Byte>, step: Step)
    requires |input| > 0
  {
    match step
    case Malformed => FirstScalar(input).None?
    case Emit(units, width) =>
      FirstScalar(input).Some? && IsScalar(FirstScalar(input).value.0)
      && width == FirstScalar(input).value.1 && units == EncodeUtf16(FirstScalar(input).value.0)
  }

  /**
    The source's branch logic, with its sign extensions and its shortest-form, surrogate
    and range tests, accepts exactly the well-formed byte sequences of section 4 of
    RFC 3629 and writes the UTF-16 form of the scalar value each one encodes.
   */
  lemma DecodeStepAgrees(input: seq<Byte>)
    requires |input| > 0
    ensures Agrees(input, DecodeStep(input))
  {
    var x0 := input[0];
    LeadClasses(x0, SignExtend(x0));
    if x0 < 0x80 {
      BmpScalar(x0 as CodePoint);
    } else if 0xC2 <= x0 <= 0xDF {
      if |input| >= 2 {
        TwoAgrees(input);
      }
    } else if 0xE0 <= x0 <= 0xEF {
      if |input| >= 3 {
        ThreeAgrees(input);
      }
    } else if 0xF0 <= x0 <= 0xF7 {
      if |input| >= 4 {
        FourAgrees(input);
      }
    }
  }

  lemma TwoAgrees(input: seq<Byte>)
    requires |input| >= 2 && 0xC2 <= input[0] <= 0xDF
    ensures Agrees(input, TwoByteStep(input[0], input[1]))
  {
    var x0, x1 := input[0], input[1];
    var cp := Value2(x0, x1);
    TwoByteTable(x0, x1, cp);
    if TwoByteStep(x0, x1).Emit? {
      assert FirstScalar(input) == Lead2(input) == Some((cp, 2));
    }
  }

  lemma ThreeAgrees(input: seq<Byte>)
    requires |input| >= 3 && 0xE0 <= input[0] <= 0xEF
    ensures Agrees(input, ThreeByteStep(input[0], input[1], input[2]))
  {
    var x0, x1, x2 := input[0], input[1], input[2];
    var cp := Value3(x0, x1, x2);
    ThreeByteTable(x0, x1, x2, cp);
    if ThreeByteStep(x0, x1, x2).Emit? {
      Lead3Of(input, x0, x1, x2, cp);
    }
  }

  lemma FourAgrees(input: seq<Byte>)
    requires |input| >= 4 && 0xF0 <= input[0] <= 0xF7
    ensures Agrees(input, FourByteStep(input[0], input[1], input[2], input[3]))
  {
    var x0, x1, x2, x3 := input[0], input[1], input[2], input[3];
    var cp := Value4(x0, x1, x2, x3);
    FourByteTable(x0, x1, x2, x3, cp);
    if FourByteStep(x0, x1, x2, x3).Emit? {
      Lead4Of(input, x0, x1, x2, x3, cp);
    }
  }

  /* ---------------- The decoder ---------------- */

  /** The decoding of `done` followed by whatever `rest` decodes to. */
  function Then(done: seq<CodePoint>, rest: Option<seq<CodePoint>>): Option<seq<CodePoint>>
  {
    match rest
    case None => None
    case Some(r) => Some(done + r)
  }

  lemma ThenNothing(r: Option<seq<CodePoint>>)
    ensures Then([], r) == r
  {
    if r.Some? {
      assert [] + r.value == r.value;
    }
  }

  lemma ThenAll(done: seq<CodePoint>)
    ensures Then(done, DecodeScalars([])) == Some(done)
  {
    assert done + [] == done;
  }

  /** Decoding one more table entry off the front of the unread input. */
  lemma ThenStep(done: seq<CodePoint>, b: seq<Byte>, cp: CodePoint, n: nat)
    requires |b| > 0 && FirstScalar(b) == Some((cp, n))
    ensures Then(done, DecodeScalars(b)) == Then(done + [cp], DecodeScalars(b[n..]))
  {
    var r := DecodeScalars(b[n..]);
    assert DecodeScalars(b) == if r.None? then None else Some([cp] + r.value);
    if r.Some? {
      assert done + ([cp] + r.value) == (done + [cp]) + r.value;
    }
  }

  lemma EncodeUtf16AllSnoc(done: seq<CodePoint>, cp: CodePoint)
    requires AllScalars(done) && IsScalar(cp)
    ensures AllScalars(done + [cp])
    ensures EncodeUtf16All(done + [cp]) == EncodeUtf16All(done) + EncodeUtf16(cp)
    decreases |done|
  {
    if done != [] {
      assert (done + [cp])[1..] == done[1..] + [cp];
      EncodeUtf16AllSnoc(done[1..], cp);
    }
  }

  /**
    One iteration of the source's main loop on the unread input: it fails exactly where
    the RFC 3629 table finds no well-formed sequence, and otherwise consumes that
    sequence and yields the UTF-16 form of its scalar value.
   */
  method ReadSequence(input: seq<Byte>) returns (step: Step, ghost cp: CodePoint)
    requires |input| > 0
    ensures step.Malformed? <==> FirstScalar(input).None?
    ensures step.Emit? ==>
      FirstScalar(input) == Some((cp, step.width)) && IsScalar(cp) && step.units == EncodeUtf16(cp)
    ensures step.Emit? ==> |step.units| <= step.width
  {
    step := DecodeStep(input);
    DecodeStepAgrees(input);
    cp := if step.Emit? then FirstScalar(input).value.0 else 0;
  }

  /**
    The state of `decodeUTF8` between iterations: `sa[sp..s]` has been read and decodes
    to the scalar values `done`, `chars` (the chars written since `dp`) is their UTF-16
    form, and `total`, the decoding of all of `sa[sp..sl]`, is `done` followed by the
    decoding of the unread rest.
   */
  ghost predicate Consumed(sa: seq<Byte>, sp: int, s: int, sl: int, total: Option<seq<CodePoint>>,
                           done: seq<CodePoint>, chars: seq<CodeUnit>)
  {
    0 <= sp <= s <= sl <= |sa| && |chars| <= s - sp
    && AllScalars(done) && chars == EncodeUtf16All(done)
    && total == Then(done, DecodeScalars(sa[s..sl]))
  }

  lemma KeepConsumed(sa: seq<Byte>, sp: int, s: int, sl: int, total: Option<seq<CodePoint>>,
                     done: seq<CodePoint>, chars: seq<CodeUnit>, cp: CodePoint, n: nat, units: seq<CodeUnit>)
    requires Consumed(sa, sp, s, sl, total, done, chars)
    requires s < sl && FirstScalar(sa[s..sl]) == Some((cp, n)) && IsScalar(cp)
    requires units == EncodeUtf16(cp) && |units| <= n
    ensures Consumed(sa, sp, s + n, sl, total, done + [cp], chars + units)
  {
    ThenStep(done, sa[s..sl], cp, n);
    assert sa[s..sl][n..] == sa[s + n..sl];
    EncodeUtf16AllSnoc(done, cp);
  }

  /** Input on which the table finds no sequence at `s` does not decode. */
  lemma Stuck(sa: seq<Byte>, sp: int, s: int, sl: int, total: Option<seq<CodePoint>>,
              done: seq<CodePoint>, chars: seq<CodeUnit>)
    requires Consumed(sa, sp, s, sl, total, done, chars) && s < sl && FirstScalar(sa[s..sl]).None?
    ensures total.None?
  {
  }

  /** Once all input is read, `done` is its decoding. */
  lemma Finish(sa: seq<Byte>, sp: int, sl: int, total: Option<seq<CodePoint>>,
               done: seq<CodePoint>, chars: seq<CodeUnit>)
    requires Consumed(sa, sp, sl, sl, total, done, chars)
    ensures total == Some(done)
  {
    assert sa[sl..sl] == [];
    ThenAll(done);
  }

  /** An ASCII byte is a one-byte sequence of the table, written as the same char. */
  lemma AsciiTable(sa: seq<Byte>, s: int, sl: int)
    requires 0 <= s < sl <= |sa| && sa[s] < 0x80
    ensures FirstScalar(sa[s..sl]) == Some((sa[s] as CodePoint, 1))
    ensures IsScalar(sa[s] as CodePoint) && EncodeUtf16(sa[s] as CodePoint) == [sa[s] as CodeUnit]
  {
    assert sa[s..sl][0] == sa[s];
  }

  /** Copying one ASCII byte as a char keeps the decoding state. */
  lemma KeepAscii(sa: seq<Byte>, sp: int, s: int, sl: int, total: Option<seq<CodePoint>>,
                  done: seq<CodePoint>, chars: seq<CodeUnit>)
    requires Consumed(sa, sp, s, sl, total, done, chars) && s < sl && sa[s] < 0x80
    ensures Consumed(sa, sp, s + 1, sl, total, done + [sa[s] as CodePoint], chars + [sa[s] as CodeUnit])
  {
    AsciiTable(sa, s, sl);
    KeepConsumed(sa, sp, s, sl, total, done, chars, sa[s] as CodePoint, 1, [sa[s] as CodeUnit]);
  }

  /**
    The ASCII-only loop of `decodeUTF8`: copies bytes below 0x80 one to one while fewer
    than `dlAscii` (the smaller of `len` and `da.length`) chars lie before `dp + |chars|`.
   */
  method DecodeAscii(sa: seq<Byte>, sp: int, sl: int, dp: int, dlAscii: int)
    returns (s: int, chars: seq<CodeUnit>, ghost done: seq<CodePoint>)
    requires 0 <= sp <= sl <= |sa| && 0 <= dp && dlAscii <= sl - sp
    ensures Consumed(sa, sp, s, sl, DecodeScalars(sa[sp..sl]), done, chars)
    ensures |chars| == s - sp
  {
    ghost var total := DecodeScalars(sa[sp..sl]);
    s, chars, done := sp, [], [];
    ThenNothing(total);
    while dp + |chars| < dlAscii && sa[s] < 0x80
      invariant Consumed(sa, sp, s, sl, total, done, chars)
      invariant |chars| == s - sp
      decreases sl - s
    {
      KeepAscii(sa, sp, s, sl, total, done, chars);
      s, chars, done := s + 1, chars + [sa[s] as CodeUnit], done + [sa[s] as CodePoint];
    }
  }

  /**
    One iteration of the main loop of `decodeUTF8`: reads the sequence at `s` and appends
    its chars, or reports (`ok` false) the ill-formed sequence that makes the whole input
    ill-formed.
   */
  method MainStep(sa: seq<Byte>, sp: int, s: int, sl: int, ghost total: Option<seq<CodePoint>>,
                  ghost done: seq<CodePoint>, chars: seq<CodeUnit>)
    returns (ok: bool, s': int, chars': seq<CodeUnit>, ghost done': seq<CodePoint>)
    requires Consumed(sa, sp, s, sl, total, done, chars) && s < sl
    ensures ok ==> s < s' && Consumed(sa, sp, s', sl, total, done', chars')
    ensures !ok ==> total.None? && chars' == chars
  {
    var step, cp := ReadSequence(sa[s..sl]);
    if step.Malformed? {
      Stuck(sa, sp, s, sl, total, done, chars);
      return false, s, chars, done;
    }
    KeepConsumed(sa, sp, s, sl, total, done, chars, cp, step.width, step.units);
    ok, s', chars', done' := true, s + step.width, chars + step.units, done + [cp];
  }

  /**
    The main loop of `decodeUTF8`, from the state the ASCII loop leaves: one table entry
    per iteration, giving up (the source's -1) at the first ill-formed sequence.
   */
  method DecodeRest(sa: seq<Byte>, sp: int, s0: int, sl: int, ghost total: Option<seq<CodePoint>>,
                    ghost done0: seq<CodePoint>, chars0: seq<CodeUnit>)
    returns (ok: bool, chars: seq<CodeUnit>)
    requires Consumed(sa, sp, s0, sl, total, done0, chars0)
    ensures ok <==> total.Some?
    ensures ok ==> AllScalars(total.value) && chars == EncodeUtf16All(total.value)
    ensures |chars| <= sl - sp
  {
    var s := s0;
    chars := chars0;
    ghost var done := done0;
    while s < sl
      invariant Consumed(sa, sp, s, sl, total, done, chars)
      decreases sl - s
    {
      ok, s, chars, done := MainStep(sa, sp, s, sl, total, done, chars);
      if !ok {
        return;
      }
    }
    Finish(sa, sp, sl, total, done, chars);
    ok := true;
  }

  /** Both loops of `decodeUTF8` on `sa[sp..sl]`: the chars they store from `dp` on. */
  method DecodeChars(sa: seq<Byte>, sp: int, sl: int, dp: int, dlAscii: int)
    returns (ok: bool, chars: seq<CodeUnit>)
    requires 0 <= sp <= sl <= |sa| && 0 <= dp && dlAscii <= sl - sp
    ensures ok <==> DecodeScalars(sa[sp..sl]).Some?
    ensures ok ==> AllScalars(DecodeScalars(sa[sp..sl]).value)
    ensures ok ==> chars == EncodeUtf16All(DecodeScalars(sa[sp..sl]).value)
    ensures |chars| <= sl - sp
  {
    var s, chars0, done := DecodeAscii(sa, sp, sl, dp, dlAscii);
    ok, chars := DecodeRest(sa, sp, s, sl, DecodeScalars(sa[sp..sl]), done, chars0);
  }

  /**
    `decodeUTF8(sa, sp, len, da, dp)`: decodes `sa[sp..sp+len]` into `da` from index
    `dp` and returns the index after the last char written, or -1 when the bytes are not
    well-formed UTF-8. The result is -1 exactly when the input is ill-formed; otherwise
    `da` now holds, from `dp` to the result, the UTF-16 encoding of the scalar values the
    bytes encode, and nothing else in it has changed.
   */
  method DecodeUtf8(sa: seq<Byte>, sp: int, len: int, da: seq<CodeUnit>, dp: int)
    returns (r: int, out: seq<CodeUnit>)
    requires 0 <= sp && 0 <= len && sp + len <= |sa|
    requires 0 <= dp && dp + len <= |da|
    ensures |out| == |da|
    ensures r == -1 <==> DecodeScalars(sa[sp..sp + len]).None?
    ensures r != -1 ==>
      var cps := DecodeScalars(sa[sp..sp + len]).value;
      AllScalars(cps) && r == dp + |EncodeUtf16All(cps)| && r <= dp + len
      && out == da[..dp] + EncodeUtf16All(cps) + da[r..]
  {
    var dlAscii := if len < |da| then len else |da|;
    var ok, chars := DecodeChars(sa, sp, sp + len, dp, dlAscii);
    // the chars are stored one at a time from `dp` on, whether or not decoding succeeds
    out := da[..dp] + chars + da[dp + |chars|..];
    r := if ok then dp + |chars| else -1;
  }
}
