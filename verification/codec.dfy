/**
  The two directions of Utf8Utils together: encoding well-formed UTF-16 with
  `encodeUTF8` into a buffer of three bytes per char, as the source's callers size it,
  and decoding those bytes with `decodeUTF8` gives back the chars.
 */
module Codec {
  import opened Results
  import opened Unicode
  import Utf8Encoder
  import Utf8Decoder

  /** UTF-8 never needs more than three bytes per UTF-16 code unit. */
  lemma {:induction false} EncodedLength(cps: seq<CodePoint>)
    requires AllScalars(cps)
    ensures |EncodeScalars(cps)| <= 3 * |EncodeUtf16All(cps)|
  {
    if cps != [] {
      EncodedLength(cps[1..]);
    }
  }

  /**
    `encodeUTF8` over all of well-formed `s`, into a buffer of three bytes per char:
    it succeeds and stores the UTF-8 form of the scalar values `s` encodes.
   */
  method EncodeWhole(s: seq<CodeUnit>) returns (bytes: seq<Byte>)
    requires DecodeUtf16(s).Some?
    ensures AllScalars(DecodeUtf16(s).value) && bytes == EncodeScalars(DecodeUtf16(s).value)
  {
    ghost var cps := DecodeUtf16(s).value;
    DecodedUtf16Encodes(s);
    EncodedLength(cps);
    Utf8Encoder.EncodeSpec(s);
    assert s[0..|s|] == s;
    var dest := seq(3 * |s|, _ => 0 as Byte);
    var r, out := Utf8Encoder.EncodeUtf8(s, 0, |s|, dest, 0);
    bytes := out[..r.value];
  }

  /**
    `decodeUTF8` over all of `bytes`, into a buffer of one char per byte: it fails
    exactly on ill-formed input and otherwise returns the UTF-16 form of the decoded
    scalar values.
   */
  method DecodeWhole(bytes: seq<Byte>) returns (r: int, chars: seq<CodeUnit>)
    ensures r == -1 <==> DecodeScalars(bytes).None?
    ensures r != -1 ==> AllScalars(DecodeScalars(bytes).value) && chars == EncodeUtf16All(DecodeScalars(bytes).value)
  {
    var da := seq(|bytes|, _ => 0 as CodeUnit);
    assert bytes[0..|bytes|] == bytes;
    var out;
    r, out := Utf8Decoder.DecodeUtf8(bytes, 0, |bytes|, da, 0);
    chars := if r == -1 then [] else out[..r];
  }

  /**
    Encoding then decoding: for well-formed UTF-16 `s`, `encodeUTF8` succeeds, and
    `decodeUTF8` on the bytes it stored accepts them and writes back exactly `s`.
   */
  method RoundTrip(s: seq<CodeUnit>) returns (bytes: seq<Byte>, back: seq<CodeUnit>)
    requires DecodeUtf16(s).Some?
    ensures DecodeScalars(bytes) == DecodeUtf16(s)
    ensures back == s
  {
    bytes := EncodeWhole(s);
    DecodeEncodedScalars(DecodeUtf16(s).value);
    var r;
    r, back := DecodeWhole(bytes);
    DecodedUtf16Encodes(s);
  }
}
