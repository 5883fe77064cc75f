# IPv4 radix tree and UTF-8 codec, modelled in Dafny

This project models two independent cores of the library.

**The IPv4 longest-prefix tree** (`IPv4RadixIntTree`) is a binary trie over address bits, most significant bit first. It is stored in three parallel `int` arrays, `lefts`, `rights` and `values`, with a node count `size` and a capacity `allocatedSize` that doubles when it runs out.
- `put(key, mask, value)` descends one level per leading 1-bit of the mask, creating missing nodes, and stores the value at the node it ends on.
- `selectValue(key)` walks the key's path and returns the value of the deepest node on it that holds one (longest-prefix match), or `NO_VALUE` (-1).

Around the tree the model covers:
- the CIDR-length-to-netmask formula (prefix notation, section 3.1 of RFC 4632);
- `inet_aton`, which turns dotted-decimal text into a 32-bit address;
- the per-line tokenizer of the bulk loader, in its plain (`a.b.c.d<TAB>e<TAB>v`) and nginx (`a.b.c.d/e<TAB>v;`, value in hexadecimal) grammars;
- `countLines`, which sizes the tree before a load;
- the load loop that performs one `put` per line;
- the string form of `selectValue`.

The tree's meaning is a table from prefixes (lists of bits) to values. `RadixTree.Refines` says the arrays represent such a table, and it also carries the arena invariants: child links are NULL or point into `[1, size)`, paths are unshared, and `size <= allocatedSize`. Every operation is proved against the table: `put` updates exactly one entry, and `selectValue` returns the value of the longest stored prefix of the key.

**The UTF-8 codec** (`Utf8Utils`) has two directions:
- `decodeUTF8` decodes bytes into UTF-16 code units and returns -1 on malformed input. It is proved to accept exactly the well-formed sequences of section 4 of RFC 3629, and to write their UTF-16 form (section 2.1 of RFC 2781).
- `encodeUTF8Internal` encodes UTF-16 into UTF-8. It is proved to store the UTF-8 form of the scalar values of well-formed UTF-16, to write '?' for one trailing high surrogate, and to throw on a mispaired high surrogate. On a lone low surrogate the source stores four ill-formed bytes and skips the next char (see Findings). The model states that behaviour, and the encoder the rest of the model uses throws there instead.

Encoding and then decoding gives the original string back.

Java semantics are written out explicitly:
- `int` arithmetic is 32-bit with wrap-around (`Numerals.Wrap`, `bv32`);
- a Java `byte` is sign-extended when widened (`LineParser.Widen`, `Utf8Decoder.SignExtend`);
- a cast to `char` or `byte` keeps the low bits;
- the netmask is computed in 64-bit arithmetic, with Java's six-bit shift distance (`Prefixes.MaskOfCidr`).

Files:
- `results.dfy`: `Option`, `Result`, and the exceptions as values;
- `numerals.dfy`: reading and writing decimal and hexadecimal numerals with 32-bit wrap-around;
- `prefixes.dfy`: prefixes, netmasks, the table and longest-prefix match;
- `radix_tree.dfy`: the array tree, `init`, growth, `put`, `selectValue`, `size`;
- `inet_aton.dfy`: `inet_aton` against a split-at-dots reference;
- `line_parser.dfy`: the bulk-load tokenizer for one line;
- `line_count.dfy`: `countLines`;
- `load.dfy`: `loadFromLocalFile` and the load loop of `init(InputStream, …)`, given the file's lines, plus `selectValue(String)`;
- `cidr_example.dfy`: the inclusion test case of the tree's tests;
- `unicode.dfy`: reference UTF-8 and UTF-16 encodings and their inverses;
- `utf8_decoder.dfy`, `utf8_encoder.dfy`: the two directions of the codec;
- `codec.dfy`: the codec's two directions composed.

## Model

| member | source | states |
|---|---|---|
| RadixTree.Init | src/main/java/com/alibaba/alib/net/IPv4RadixIntTree.java:68-79 | A new tree has size 1 and the requested capacity, and represents the empty table: no prefix has a value. |
| RadixTree.Expand | src/main/java/com/alibaba/alib/net/IPv4RadixIntTree.java:134-149 | Growth doubles the capacity, keeps the size, keeps the first `oldSize` entries of all three arrays, and keeps the arena invariants. |
| RadixTree.ExpandRefines | src/main/java/com/alibaba/alib/net/IPv4RadixIntTree.java:134-149 | Growth changes no walk and no lookup: the grown tree represents the same table. |
| RadixTree.Put | src/main/java/com/alibaba/alib/net/IPv4RadixIntTree.java:89-132 | `put(key, mask, value)` changes the table at the prefix of `key` under the leading 1-bits of `mask`, and nowhere else. Size grows by the number of missing levels. Capacity never shrinks. Overwriting an existing prefix adds no node and leaves size and capacity unchanged. |
| RadixTree.SelectValue | src/main/java/com/alibaba/alib/net/IPv4RadixIntTree.java:158-171 | The result is the value of the longest stored prefix of `key`, or `NO_VALUE` when none is stored. |
| RadixTree.Size | src/main/java/com/alibaba/alib/net/IPv4RadixIntTree.java:197 | `size()` is at least 1 and at most the capacity. |
| Prefixes.BestIsLongest | src/main/java/com/alibaba/alib/net/IPv4RadixIntTree.java:158-171 | The lookup result is the value of a stored prefix of the key, and no longer prefix of the key is stored; or it is `NO_VALUE` and no prefix of the key is stored. |
| Prefixes.BestMatch | src/main/java/com/alibaba/alib/net/IPv4RadixIntTree.java:158-171 | A stored prefix of the key, with no longer one stored, is the match. |
| Prefixes.NoMatch | src/main/java/com/alibaba/alib/net/IPv4RadixIntTree.java:158-171 | With no stored prefix of the key, the lookup yields `NO_VALUE`. |
| Prefixes.RootMatchesAll | src/main/java/com/alibaba/alib/net/IPv4RadixIntTree.java:164-166 | A value at the root is found for every key. |
| Prefixes.MaskZeroMatchesAll | src/main/java/com/alibaba/alib/net/IPv4RadixIntTree.java:94 | `put` with mask 0 stores at the root, and the value then matches every key. |
| Prefixes.MaskOfCidrBits | src/main/java/com/alibaba/alib/net/IPv4RadixIntTree.java:187 | For 0 <= cidr <= 32, `((1L << (32 - cidr)) - 1L) ^ 0xffffffffL` has exactly the top `cidr` bits set. |
| Prefixes.MaskOfCidrShape | src/main/java/com/alibaba/alib/net/IPv4RadixIntTree.java:187 | For 0 <= cidr <= 32, the 64-bit computation, cut to its low 32 bits, is the all-ones word shifted left by `32 - cidr`. |
| Prefixes.LeadingOnesOfCidr | src/main/java/com/alibaba/alib/net/IPv4RadixIntTree.java:358 | `put` with the netmask of a CIDR length descends exactly that many levels. |
| Prefixes.PutPathCanonical | src/main/java/com/alibaba/alib/net/IPv4RadixIntTree.java:94-96 | `put` consults only the leading run of 1-bits of the mask and the key bits under it. |
| Prefixes.SamePrefix | src/main/java/com/alibaba/alib/net/IPv4RadixIntTree.java:95 | Two keys share a path of length n exactly when their top n bits agree. |
| Prefixes.GetStore | src/main/java/com/alibaba/alib/net/IPv4RadixIntTree.java:108 | After a store, the stored prefix reads the new value and every other prefix reads as before. Storing `NO_VALUE` leaves no entry. |
| CidrExample.CidrInclusion | src/test/java/com/alibaba/alib/bvt/RadixTreeTests.java:11-19 | In a tree of capacity 100 holding 10.0.0.0/24 to 42 and 10.0.0.0/8 to 69: 10.32.32.32 gets 69, 10.0.0.32 gets 42, and 11.1.2.3 gets `NO_VALUE`. |
| Numerals.DecimalRoundTrip | src/main/java/com/alibaba/alib/net/IPv4RadixIntTree.java:373-374 | Reading the decimal numeral of any 32-bit value with `b * 10 + (ch - '0')` gives the value back. |
| Numerals.HexRoundTrip | src/main/java/com/alibaba/alib/net/IPv4RadixIntTree.java:307-314 | Reading the lower-case hexadecimal numeral of any 32-bit value with `val * 16 + weight` gives the value back. |
| InetAton.PackOctets | src/main/java/com/alibaba/alib/net/IPv4RadixIntTree.java:379-385 | Four octets below 256 OR-ed in at shifts 24, 16, 8 and 0 can each be read back from their own byte. |
| InetAton.FieldsCount | src/main/java/com/alibaba/alib/net/IPv4RadixIntTree.java:375-392 | Splitting text at its dots gives one more field than there are dots. |
| InetAton.InetAtonFields | src/main/java/com/alibaba/alib/net/IPv4RadixIntTree.java:363-404 | The empty string gives address 0. Any other text is accepted exactly when it has three dots, and the result is then the big-endian packing of the four dot-separated fields' decimal values. A fourth dot and too few dots both throw. |
| InetAton.SkipOthers | src/main/java/com/alibaba/alib/net/IPv4RadixIntTree.java:372-392 | A char that is neither a digit nor a dot is skipped: removing it from non-empty text does not change the result. |
| InetAton.InetAtonDotted | src/main/java/com/alibaba/alib/net/IPv4RadixIntTree.java:363-404 | The dotted-decimal text `a.b.c.d` of any four values reads back as their packing. |
| InetAton.InetAtonOctets | src/main/java/com/alibaba/alib/net/IPv4RadixIntTree.java:363-404 | For octets below 256, the address read from `a.b.c.d` holds a, b, c and d in its four bytes, from the top. |
| LineParser.Chars | src/main/java/com/alibaba/alib/net/IPv4RadixIntTree.java:305 | Each byte of the line is read as the sign-extended `char` of that byte. |
| LineParser.ParseAccepts | src/main/java/com/alibaba/alib/net/IPv4RadixIntTree.java:298-352 | A line is accepted exactly when every char is allowed where it stands: a digit; a..f in nginx mode; a dot after fewer than three marks; a tab or slash after three, four or five marks; a ';' only as the last char. |
| LineParser.ParseLast | src/main/java/com/alibaba/alib/net/IPv4RadixIntTree.java:345-352 | A non-empty line is accepted when every char before the last is allowed, and the last is allowed or is ';'. |
| LineParser.FourthDotRejected | src/main/java/com/alibaba/alib/net/IPv4RadixIntTree.java:326-328 | A fourth '.' throws. |
| LineParser.SeparatorRejected | src/main/java/com/alibaba/alib/net/IPv4RadixIntTree.java:341-343 | A tab or '/' throws unless three, four or five marks precede it. |
| LineParser.SemicolonRejected | src/main/java/com/alibaba/alib/net/IPv4RadixIntTree.java:345-349 | A ';' that is not the last char throws. |
| LineParser.ForeignRejected | src/main/java/com/alibaba/alib/net/IPv4RadixIntTree.java:347-349 | Any other char throws, including a..f outside nginx mode. |
| LineParser.HighByteRejected | src/main/java/com/alibaba/alib/net/IPv4RadixIntTree.java:305 | A byte of 0x80 or above sign-extends to a char that no rule accepts, so the line throws. |
| LineParser.ParsePlain | src/main/java/com/alibaba/alib/net/IPv4RadixIntTree.java:298-358 | The plain line `a.b.c.d<TAB>e<TAB>v` puts the packed address under the netmask of `e`, with the decimal `v` as a Java `int`. |
| LineParser.ParseNginx | src/main/java/com/alibaba/alib/net/IPv4RadixIntTree.java:298-358 | The nginx line `a.b.c.d/e<TAB>v;` puts the packed address under the netmask of `e`, with `v` read as hexadecimal and the final ';' skipped. |
| LineParser.EmptyLine | src/main/java/com/alibaba/alib/net/IPv4RadixIntTree.java:298-358 | An empty line performs `put(0, 0, 0)`. |
| LineParser.ParseBareAddress | src/main/java/com/alibaba/alib/net/IPv4RadixIntTree.java:350-358 | A line holding only an address is accepted. Its last octet becomes the value and the CIDR length stays 0, so the value goes to the root. |
| LineCount.NewlinesCount | src/main/java/com/alibaba/alib/net/IPv4RadixIntTree.java:425-429 | The running count equals the number of positions holding '\n'. |
| LineCount.FinalNewline | src/main/java/com/alibaba/alib/net/IPv4RadixIntTree.java:419-423 | Ending the last line with '\n' does not change the count. |
| LineCount.CountLines | src/main/java/com/alibaba/alib/net/IPv4RadixIntTree.java:410-433 | The count is the number of '\n' bytes in the file, plus one when the file is empty or does not end with '\n'. It is never below 1 and does not depend on how the reads split the file. |
| Load.CollectOk | src/main/java/com/alibaba/alib/net/IPv4RadixIntTree.java:290-359 | A load succeeds exactly when every line parses. |
| Load.CollectFails | src/main/java/com/alibaba/alib/net/IPv4RadixIntTree.java:290-359 | The first malformed line fails the load, whatever follows it. |
| Load.ParseAllOk | src/main/java/com/alibaba/alib/net/IPv4RadixIntTree.java:290-359 | A load succeeds exactly when every line parses, and then line i gives entry i. |
| Load.InitLines | src/main/java/com/alibaba/alib/net/IPv4RadixIntTree.java:286-360 | The load loop succeeds exactly when every line parses, and then the tree represents the table after each line's `put`, in order. Otherwise it throws the first line's exception. |
| Load.LoadFile | src/main/java/com/alibaba/alib/net/IPv4RadixIntTree.java:234-247 | A tree sized by `countLines` and filled from the lines represents the table of their puts. Sizing cannot fail. |
| Load.SelectText | src/main/java/com/alibaba/alib/net/IPv4RadixIntTree.java:207-211 | `selectValue(String)` throws exactly when `inet_aton` does, and otherwise returns the longest-prefix match of the address. |
| Utf8Decoder.LeadClasses | src/main/java/com/alibaba/alib/lang/Utf8Utils.java:128-171 | The four lead-byte tests select 00..7F, C2..DF, E0..EF and F0..F7. |
| Utf8Decoder.ContinuationTest | src/main/java/com/alibaba/alib/lang/Utf8Utils.java:135 | `(b & 0xc0) != 0x80` on a sign-extended byte holds exactly when the byte is outside 80..BF. |
| Utf8Decoder.TwoByteTable | src/main/java/com/alibaba/alib/lang/Utf8Utils.java:131-144 | The two-byte branch succeeds exactly on a continuation byte, and writes the UTF-16 form of the 11-bit value. |
| Utf8Decoder.ThreeByteTable | src/main/java/com/alibaba/alib/lang/Utf8Utils.java:145-170 | The three-byte branch refuses the E0 overlong forms, bad continuations and surrogates, and otherwise writes the value's single char. |
| Utf8Decoder.FourByteTable | src/main/java/com/alibaba/alib/lang/Utf8Utils.java:171-197 | The four-byte branch succeeds exactly on values in 0x10000..0x10FFFF with good continuations, and writes the surrogate pair of section 2.1 of RFC 2781. F5..F7 fail its range test. |
| Utf8Decoder.SurrogatesAgree | src/main/java/com/alibaba/alib/lang/Utf8Utils.java:193-194 | The source's `highSurrogate` and `lowSurrogate` formulas give the UTF-16 encoding. |
| Utf8Decoder.DecodeStepAgrees | src/main/java/com/alibaba/alib/lang/Utf8Utils.java:126-202 | One iteration of the main loop fails exactly where the RFC 3629 table finds no well-formed sequence, and otherwise consumes that sequence and writes the UTF-16 form of its value. |
| Utf8Decoder.ReadSequence | src/main/java/com/alibaba/alib/lang/Utf8Utils.java:126-202 | The same for one iteration of the loop: fails exactly on ill-formed input, and otherwise writes at most one char per byte consumed. |
| Utf8Decoder.DecodeAscii | src/main/java/com/alibaba/alib/lang/Utf8Utils.java:119-124 | The ASCII fast path copies each byte below 0x80 as the same char and keeps the decoding state. |
| Utf8Decoder.DecodeRest | src/main/java/com/alibaba/alib/lang/Utf8Utils.java:126-203 | The main loop succeeds exactly on well-formed input, writes the UTF-16 encoding of the decoded values, and writes no more chars than it reads bytes. |
| Utf8Decoder.DecodeChars | src/main/java/com/alibaba/alib/lang/Utf8Utils.java:118-203 | Both loops together succeed exactly on well-formed UTF-8 and write its UTF-16 form. |
| Utf8Decoder.DecodeUtf8 | src/main/java/com/alibaba/alib/lang/Utf8Utils.java:118-203 | `decodeUTF8` returns -1 exactly on ill-formed input. Otherwise it returns `dp` plus the number of chars written. `da` holds the UTF-16 form of the decoded values from `dp` on, and nothing else in `da` changes. |
| Utf8Encoder.BmpBytesEncode | src/main/java/com/alibaba/alib/lang/Utf8Utils.java:78-84 | A code unit outside the surrogate range is stored as the UTF-8 encoding of its value, in one, two or three bytes. |
| Utf8Encoder.PairCodeValue | src/main/java/com/alibaba/alib/lang/Utf8Utils.java:95 | `(c << 10) + d + 0xfca02400`, wrapping at 32 bits, is the scalar value of the surrogate pair. |
| Utf8Encoder.PairBytesEncode | src/main/java/com/alibaba/alib/lang/Utf8Utils.java:94-106 | A surrogate pair is stored as the four-byte UTF-8 encoding of its scalar value. |
| Utf8Encoder.ExpectedStop | src/main/java/com/alibaba/alib/lang/Utf8Utils.java:88-98 | A lone high surrogate at the end gives '?'. A high surrogate followed by anything but a low surrogate throws. |
| Utf8Encoder.EncodeSpec | src/main/java/com/alibaba/alib/lang/Utf8Utils.java:74-116 | The corrected encoder, which rejects a lone low surrogate, stores exactly what the reference encodings prescribe: the UTF-8 form of well-formed UTF-16, then '?' for one trailing high surrogate. On every other input it throws. |
| Utf8Encoder.AsWrittenSpec | src/main/java/com/alibaba/alib/lang/Utf8Utils.java:74-116 | The source as written, on every input without a lone low surrogate (a low surrogate not right after a high one), stores what the reference prescribes and throws where it throws. Every input with a lone low surrogate is one the reference rejects. |
| Utf8Encoder.LoneLowRejected | src/main/java/com/alibaba/alib/lang/Utf8Utils.java:99-107 | A lone low surrogate anywhere in the input makes the corrected encoder throw. |
| Utf8Encoder.AsWrittenWithoutLoneLow | src/main/java/com/alibaba/alib/lang/Utf8Utils.java:74-116 | On input without a lone low surrogate, the source as written and the corrected encoder give the same bytes or the same exception. |
| Utf8Encoder.AsWrittenAgrees | src/main/java/com/alibaba/alib/lang/Utf8Utils.java:74-116 | On every input without a lone low surrogate, the source as written stores what `Encode` does. |
| Utf8Encoder.LoneLowSurrogate | src/main/java/com/alibaba/alib/lang/Utf8Utils.java:99-107 | As written, a lone low surrogate followed by 'A' is stored as F0 8D B0 80. That is ill-formed UTF-8, and the 'A' is lost. |
| Utf8Encoder.EncodedIsWellFormed | src/main/java/com/alibaba/alib/lang/Utf8Utils.java:74-116 | With lone low surrogates rejected, whatever the encoder stores is well-formed UTF-8. |
| Utf8Encoder.EncodeUtf8 | src/main/java/com/alibaba/alib/lang/Utf8Utils.java:68-116 | `encodeUTF8` succeeds exactly when the reference says it should. It then returns `dp` plus the number of bytes stored, and stores them from `dp` on. Otherwise it throws `MalformedInput`. On input without a lone low surrogate it succeeds exactly when the source as written does, with the same bytes; a lone low surrogate throws. |
| Unicode.DecodeEncodedScalars | src/main/java/com/alibaba/alib/lang/Utf8Utils.java:118-203 | Decoding the UTF-8 encoding of scalar values gives them back. |
| Unicode.WellFormedIffEncoding | src/main/java/com/alibaba/alib/lang/Utf8Utils.java:118-203 | Bytes are well-formed UTF-8 exactly when they are the encoding of some scalar values. |
| Unicode.DecodeUtf16OfEncoding | src/main/java/com/alibaba/alib/lang/Utf8Utils.java:193-194 | Decoding the UTF-16 encoding of scalar values gives them back. |
| Codec.EncodedLength | src/main/java/com/alibaba/alib/lang/Utf8Utils.java:68-116 | UTF-8 never needs more than three bytes per UTF-16 code unit. |
| Codec.RoundTrip | src/test/java/com/alibaba/alib/bvt/Utf8Utils_Test.java:109-114 | For well-formed UTF-16, `encodeUTF8` succeeds, and `decodeUTF8` on the bytes stored accepts them and gives back exactly the original chars. |

## Left out

- File and stream plumbing is not modelled: `FileInputStream`, `readLine` with its ByteBuffer refills and its fixed 32-byte line buffer, and the chunked reads of `countLines`. `Load.InitLines` takes the file's lines as a parameter, and `LineCount.CountLines` takes the chunks the reads return. The model makes no claim about which lines `readLine` yields. In particular, `readLine` drops a last line that has no '\n', and a line longer than 32 bytes overflows its buffer.
- `put(String, int)` is not modelled beyond its mask formula (`Prefixes.MaskOfCidr`). `Integer.parseInt` is library code.
- The `int` counters `size`, `allocatedSize` and `lines` are unbounded integers. Overflow past 2^31 is not modelled.
- `put` and `selectValue` take `long` keys and masks but consult only their low 32 bits. The model passes those 32 bits.
- RadixTree.Init: a capacity below 1 is excluded by precondition. The source then fails writing index 0 (a negative size throws earlier).
- Prefixes.MaskOfCidrBits: stated only for CIDR lengths 0..32. Other lengths are computed exactly as the source does, but no property is claimed for them.
- Octets and fields above 255 are modelled as the source treats them: OR-ed in with 32-bit wrap-around. Its `ch > 255` tests can never fire, so nothing rejects them. Round trips that name the octets (`InetAton.InetAtonOctets`) assume values below 256.
- Storing `NO_VALUE` (-1) is modelled as erasing the prefix's entry, since a node holding -1 is indistinguishable from an empty one (`Prefixes.Store`).
- `inet_aton` and the line tokenizer read Java `char`s, modelled as Dafny `char`. A Dafny `char` cannot hold a lone surrogate, though a Java `String` passed to `selectValue(String)` or `put(String, int)` can. This loses nothing: `inet_aton` skips every char that is neither a digit nor a dot (`InetAton.SkipOthers`), and the tokenizer only ever sees widened bytes.
- Exception messages are not modelled. Every exception is the value `UnknownHost` or `MalformedInput`.
- The JVM internals of `Utf8Utils` are not modelled: `sun.misc.Unsafe`, reflection on `String`, the JDK-version dispatch of `encodeUTF8(String, …)`, and the `decodeUTF8_unsafe` variants. Memory access through `Unsafe` is modelled as sequence indexing.
- Utf8Decoder.DecodeUtf8: requires the destination to have room for one char per input byte, as the callers allocate it. The source needs less: it throws `ArrayIndexOutOfBoundsException` only when the decoded UTF-16 does not fit, so for example E4 B8 AD decodes into a one-char array.
- Utf8Encoder.EncodeUtf8: requires the destination to have room for the bytes it stores. The source writes through `Unsafe` without a bounds check.
- Utf8Encoder.EncodeSpec: states the corrected encoder. What the source does is stated by `Utf8Encoder.AsWrittenSpec`, which covers every input except those holding a lone low surrogate. On those the source stores four ill-formed bytes and skips the next char (`Utf8Encoder.EncodeAsWritten`, see Findings).
- Utf8Encoder.EncodeUtf8: models the corrected encoder. On a lone low surrogate it throws `MalformedInput`, whereas the source stores four bytes, skips the next char and returns normally. On every other input its result matches the source as written.
- Utf8Encoder.EncodeUtf8: on the throwing path the model leaves `dest` unchanged, whereas the source has already stored the bytes of the chars before the bad one.
- The timing loops and performance tests are not modelled.

## Findings

| source | as written | input that shows it | evidently intended | confidence | as-written member | corrected member |
|---|---|---|---|---|---|---|
| src/main/java/com/alibaba/alib/lang/Utf8Utils.java:99-107 | A lone low surrogate takes the surrogate path with `uc = c`. Its four bytes are stored, and the following char is skipped. | `[0xDC00, 'A']` is stored as F0 8D B0 80, which is ill-formed UTF-8, and 'A' is lost. | Reject a lone low surrogate as malformed input, as a mispaired high surrogate is. | high (not executed) | Utf8Encoder.LoneLowSurrogate | Utf8Encoder.EncodedIsWellFormed |
