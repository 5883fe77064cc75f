/**
  `inet_aton`: the dotted-decimal text of an IPv4 address to its 32-bit value.

  The source reads the text one char at a time, accumulating decimal digits into `b`,
  OR-ing `b` into the address at each of the first three dots, skipping every other
  char, and at the last char requiring that exactly three dots were seen. Here that loop
  is `Scan`/`InetAton`; the reference it is proved against splits the text at its dots
  (`Fields`) and packs the four field values big-endian (`PackFields`).
 */
module InetAton {
  import opened Results
  import opened Numerals

  /** `(o0 << 24) | (o1 << 16) | (o2 << 8) | o3` on Java ints: bits shifted past 32 are lost. */
  function Pack(o0: Word, o1: Word, o2: Word, o3: Word): bv32 {
    ((o0 as bv32) << 24) | ((o1 as bv32) << 16) | ((o2 as bv32) << 8) | (o3 as bv32)
  }

  /** Four octets survive packing: each can be read back from its own byte of the address. */
  lemma PackOctets(o0: Word, o1: Word, o2: Word, o3: Word)
    requires o0 < 256 && o1 < 256 && o2 < 256 && o3 < 256
    ensures Pack(o0, o1, o2, o3) >> 24 == o0 as bv32
    ensures (Pack(o0, o1, o2, o3) >> 16) & 0xff == o1 as bv32
    ensures (Pack(o0, o1, o2, o3) >> 8) & 0xff == o2 as bv32
    ensures Pack(o0, o1, o2, o3) & 0xff == o3 as bv32
  {
  }

  /* ---------------- The source's loop ---------------- */

  /** The loop's variables between two chars: the address so far, `b`, and the dots seen `p`. */
  datatype Aton = Aton(address: bv32, b: Word, p: nat)

  const Start := Aton(0, 0, 0)

  /** The field value `b` in the octet the `p`-th dot completes: `b << 24`, `b << 16`, `b << 8`, `b`. */
  function Place(b: Word, p: nat): bv32
    requires p < 4
  {
    var w := b as bv32;
    if p == 0 then w << 24 else if p == 1 then w << 16 else if p == 2 then w << 8 else w
  }

  /**
    One char: a digit accumulates into `b`; one of the first three dots ORs `b` into its
    octet and starts the next; a fourth dot throws; any other char is skipped.
   */
  function Step(st: Aton, ch: char): Option<Aton> {
    if IsDigit(ch) then
      Some(st.(b := Wrap(st.b * 10 + Digit(ch))))
    else if ch == '.' then
      if st.p < 3 then Some(Aton(st.address | Place(st.b, st.p), 0, st.p + 1))
      else None
    else
      Some(st)
  }

  /** The loop over `s` from `start`; `None` once a char has thrown. */
  function Run(start: Option<Aton>, s: seq<char>): Option<Aton> {
    if s == [] then start
    else
      match Run(start, s[..|s| - 1])
      case None => None
      case Some(st) => Step(st, s[|s| - 1])
  }

  function Scan(s: seq<char>): Option<Aton> {
    Run(Some(Start), s)
  }

  /**
    `inet_aton(line)`: empty text is address 0; otherwise the last char must leave three
    dots seen, and the last octet is OR-ed in unshifted.
   */
  function InetAton(line: seq<char>): Result<bv32> {
    if line == [] then Ok(0)
    else
      match Scan(line)
      case None => Err(UnknownHost)
      case Some(st) => if st.p == 3 then Ok(st.address | Place(st.b, 3)) else Err(UnknownHost)
  }

  /* ---------------- The reference: fields between dots ---------------- */

  /** The text split at its dots; a field may be empty and may hold chars other than digits. */
  function Fields(s: seq<char>): (fs: seq<seq<char>>)
    ensures fs != []
  {
    if s == [] then [[]] else AddChar(Fields(s[..|s| - 1]), s[|s| - 1])
  }

  /** Appending one char: a dot opens a new field, any other char extends the last one. */
  function AddChar(fs: seq<seq<char>>, c: char): (fs': seq<seq<char>>)
    requires fs != []
    ensures fs' != []
  {
    if c == '.' then fs + [[]] else fs[..|fs| - 1] + [fs[|fs| - 1] + [c]]
  }

  /** There is one field more than there are dots. */
  lemma {:induction false} FieldsCount(s: seq<char>)
    ensures |Fields(s)| == multiset(s)['.'] + 1
  {
    if s != [] {
      FieldsCount(s[..|s| - 1]);
      assert s == s[..|s| - 1] + [s[|s| - 1]];
    }
  }

  /** The address the first `|done|` fields make, each at its octet's shift. */
  function Partial(done: seq<seq<char>>): bv32
    requires |done| <= 4
  {
    if done == [] then 0
    else
      var k := |done| - 1;
      Partial(done[..k]) | Place(DecimalValue(done[k]), k)
  }

  /** Four fields packed big-endian. */
  function PackFields(fs: seq<seq<char>>): bv32
    requires |fs| == 4
  {
    Pack(DecimalValue(fs[0]), DecimalValue(fs[1]), DecimalValue(fs[2]), DecimalValue(fs[3]))
  }

  /** What the loop has computed once the text read so far splits into `fs`. */
  predicate Scanned(fs: seq<seq<char>>, r: Option<Aton>)
    requires fs != []
  {
    (r.Some? <==> |fs| <= 4) &&
    (r.Some? ==>
      r.value.p == |fs| - 1 && r.value.b == DecimalValue(fs[|fs| - 1]) &&
      r.value.address == Partial(fs[..|fs| - 1]))
  }

  /** One more char, in the loop and in the fields. */
  function Then(r: Option<Aton>, c: char): Option<Aton> {
    if r.None? then None else Step(r.value, c)
  }

  lemma DotStep(fs: seq<seq<char>>, r: Option<Aton>)
    requires fs != [] && Scanned(fs, r)
    ensures Scanned(AddChar(fs, '.'), Then(r, '.'))
  {
    if r.Some? && |fs| < 4 {
      DotOpens(fs, r.value);
    }
  }

  lemma DotOpens(fs: seq<seq<char>>, st: Aton)
    requires fs != [] && |fs| < 4 && Scanned(fs, Some(st))
    ensures Scanned(fs + [[]], Step(st, '.'))
  {
    var k := |fs| - 1;
    DotCompletes(st);
    PartialNext(fs);
    assert (fs + [[]])[..k + 1] == fs;
  }

  lemma DotCompletes(st: Aton)
    requires st.p < 3
    ensures Step(st, '.') == Some(Aton(st.address | Place(st.b, st.p), 0, st.p + 1))
  {
  }

  lemma PartialNext(fs: seq<seq<char>>)
    requires 0 < |fs| <= 4
    ensures Partial(fs) == Partial(fs[..|fs| - 1]) | Place(DecimalValue(fs[|fs| - 1]), |fs| - 1)
  {
  }

  lemma CharStep(fs: seq<seq<char>>, r: Option<Aton>, c: char)
    requires fs != [] && Scanned(fs, r) && c != '.'
    ensures Scanned(AddChar(fs, c), Then(r, c))
  {
    var k := |fs| - 1;
    var fs' := AddChar(fs, c);
    assert fs'[..k] == fs[..k];
    assert fs'[k][..|fs'[k]| - 1] == fs[k];
  }

  lemma {:induction false} ScanFields(s: seq<char>)
    ensures Scanned(Fields(s), Scan(s))
  {
    if s != [] {
      var s', c := s[..|s| - 1], s[|s| - 1];
      ScanFields(s');
      assert Scan(s) == Then(Scan(s'), c);
      if c == '.' {
        DotStep(Fields(s'), Scan(s'));
      } else {
        CharStep(Fields(s'), Scan(s'), c);
      }
    }
  }

  lemma PartialFour(fs: seq<seq<char>>)
    requires |fs| == 4
    ensures Partial(fs[..3]) | Place(DecimalValue(fs[3]), 3) == PackFields(fs)
  {
    PartialNext(fs[..3]);
    PartialNext(fs[..2]);
    PartialNext(fs[..1]);
    assert fs[..3][..2] == fs[..2] && fs[..2][..1] == fs[..1] && fs[..1][..0] == [];
  }

  /**
    `inet_aton` accepts exactly the empty text and text with exactly three dots, and
    then returns the four dot-separated fields' decimal values packed big-endian: a
    fourth dot throws, and so does reaching the last char with fewer than three.
   */
  lemma InetAtonFields(line: seq<char>)
    ensures line == [] ==> InetAton(line) == Ok(0)
    ensures line != [] ==> (InetAton(line).Ok? <==> multiset(line)['.'] == 3)
    ensures line != [] && |Fields(line)| == 4 ==> InetAton(line) == Ok(PackFields(Fields(line)))
  {
    ScanFields(line);
    FieldsCount(line);
    if line != [] && |Fields(line)| == 4 {
      PartialFour(Fields(line));
    }
  }

  /* ---------------- Properties ---------------- */

  lemma {:induction false} RunAppend(start: Option<Aton>, s: seq<char>, t: seq<char>)
    ensures Run(start, s + t) == Run(Run(start, s), t)
  {
    if t != [] {
      RunAppend(start, s, t[..|t| - 1]);
      assert (s + t)[..|s + t| - 1] == s + t[..|t| - 1];
    } else {
      assert s + t == s;
    }
  }

  lemma RunSnoc(start: Option<Aton>, s: seq<char>, c: char)
    ensures Run(start, s + [c]) == Then(Run(start, s), c)
  {
    assert (s + [c])[..|s|] == s;
  }

  lemma SkipStep(st: Aton, c: char)
    requires !IsDigit(c) && c != '.'
    ensures Step(st, c) == Some(st)
  {
  }

  /** Chars other than digits and dots are skipped, not rejected, wherever they stand. */
  lemma SkipOthers(s: seq<char>, c: char, t: seq<char>)
    requires !IsDigit(c) && c != '.' && s + t != []
    ensures InetAton(s + [c] + t) == InetAton(s + t)
  {
    var start := Some(Start);
    RunAppend(start, s + [c], t);
    RunAppend(start, s, t);
    RunSnoc(start, s, c);
    if Run(start, s).Some? {
      SkipStep(Run(start, s).value, c);
    }
    assert Scan(s + [c] + t) == Scan(s + t);
  }

  lemma AddCharAppend(fx: seq<seq<char>>, fy: seq<seq<char>>, c: char)
    requires fy != []
    ensures AddChar(fx + fy, c) == fx + AddChar(fy, c)
  {
    if c != '.' {
      assert (fx + fy)[..|fx + fy| - 1] == fx + fy[..|fy| - 1];
    }
  }

  lemma {:induction false} FieldsJoin(x: seq<char>, y: seq<char>)
    ensures Fields(x + ['.'] + y) == Fields(x) + Fields(y)
  {
    var s := x + ['.'] + y;
    if y == [] {
      assert s[..|s| - 1] == x && s[|s| - 1] == '.';
      assert Fields(s) == AddChar(Fields(x), '.');
    } else {
      var y', c := y[..|y| - 1], y[|y| - 1];
      FieldsJoin(x, y');
      assert s[..|s| - 1] == x + ['.'] + y' && s[|s| - 1] == c;
      assert Fields(s) == AddChar(Fields(x + ['.'] + y'), c);
      assert Fields(y) == AddChar(Fields(y'), c);
      AddCharAppend(Fields(x), Fields(y'), c);
    }
  }

  lemma {:induction false} FieldsOfDigits(s: seq<char>)
    requires forall k :: 0 <= k < |s| ==> IsDigit(s[k])
    ensures Fields(s) == [s]
  {
    if s != [] {
      FieldsOfDigits(s[..|s| - 1]);
      assert s == s[..|s| - 1] + [s[|s| - 1]];
    }
  }

  /** The dotted-decimal text of four field values. */
  function Dotted(a: Word, b: Word, c: Word, d: Word): seq<char> {
    Decimal(a) + ['.'] + Decimal(b) + ['.'] + Decimal(c) + ['.'] + Decimal(d)
  }

  lemma DottedFields(a: Word, b: Word, c: Word, d: Word)
    ensures Fields(Dotted(a, b, c, d)) == [Decimal(a), Decimal(b), Decimal(c), Decimal(d)]
  {
    var da, db, dc, dd := Decimal(a), Decimal(b), Decimal(c), Decimal(d);
    FieldsOfDigits(da);
    FieldsOfDigits(db);
    FieldsOfDigits(dc);
    FieldsOfDigits(dd);
    FieldsJoin(da, db);
    assert Fields(da + ['.'] + db) == [da, db];
    FieldsJoin(da + ['.'] + db, dc);
    assert Fields(da + ['.'] + db + ['.'] + dc) == [da, db, dc];
    FieldsJoin(da + ['.'] + db + ['.'] + dc, dd);
  }

  /** The dotted-decimal text of any four field values reads back as their packing. */
  lemma InetAtonDotted(a: Word, b: Word, c: Word, d: Word)
    ensures InetAton(Dotted(a, b, c, d)) == Ok(Pack(a, b, c, d))
  {
    var line := Dotted(a, b, c, d);
    DottedFields(a, b, c, d);
    DecimalRoundTrip(a);
    DecimalRoundTrip(b);
    DecimalRoundTrip(c);
    DecimalRoundTrip(d);
    PackFieldsOf(Fields(line), a, b, c, d);
    InetAtonFields(line);
  }

  lemma PackFieldsOf(fs: seq<seq<char>>, a: Word, b: Word, c: Word, d: Word)
    requires |fs| == 4
    requires DecimalValue(fs[0]) == a && DecimalValue(fs[1]) == b
    requires DecimalValue(fs[2]) == c && DecimalValue(fs[3]) == d
    ensures PackFields(fs) == Pack(a, b, c, d)
  {
  }

  /**
    An address written as four octets reads back as an address whose bytes, from the
    top, are those octets.
   */
  lemma InetAtonOctets(a: Word, b: Word, c: Word, d: Word)
    requires a < 256 && b < 256 && c < 256 && d < 256
    ensures InetAton(Dotted(a, b, c, d)).Ok?
    ensures var ip := InetAton(Dotted(a, b, c, d)).value;
      ip >> 24 == a as bv32 && (ip >> 16) & 0xff == b as bv32 && (ip >> 8) & 0xff == c as bv32 && ip & 0xff == d as bv32
  {
    InetAtonDotted(a, b, c, d);
    PackOctets(a, b, c, d);
  }
}
