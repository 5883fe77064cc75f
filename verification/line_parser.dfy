/**
  The per-line tokenizer of the bulk loader (`init(InputStream, nginxFormat, …)`): one
  line of bytes, without its '\n', to the `put(ip, netmask, value)` it performs.

  Each byte is widened to a Java `char` and fed to a small state machine whose phase `p`
  counts the dots, tabs and slashes seen: in phases 0..3 the digits are the address
  octets, in phase 4 the CIDR length, in phase 5 the value. The plain grammar is
  `a.b.c.d<TAB>e<TAB>v`; the nginx grammar is `a.b.c.d/e<TAB>v;` with `v` in hexadecimal.
  Both grammars accept either separator, a ';' is skipped only as the last byte, and at
  the last byte the value field takes whatever the accumulator holds.
 */
module LineParser {
  import opened Results
  import opened Unicode
  import opened Numerals
  import InetAton
  import Prefixes

  /** `(char) b` on a Java `byte`: sign extension sends 80..FF to FF80..FFFF. */
  function Widen(b: Byte): char {
    if b < 0x80 then (b as int) as char else (b as int + 0xFF00) as char
  }

  /** The chars the tokenizer reads from a line of bytes. */
  function Chars(line: seq<Byte>): (s: seq<char>)
    ensures |s| == |line|
    ensures forall i :: 0 <= i < |line| ==> s[i] == Widen(line[i])
  {
    if line == [] then [] else Chars(line[..|line| - 1]) + [Widen(line[|line| - 1])]
  }

  /** The arguments of the `put` a line performs. */
  datatype Entry = Entry(ip: bv32, mask: bv32, value: int)

  /** The loop's variables between two bytes: the fields so far, the accumulator `val`, the phase `p`. */
  datatype Scan = Scan(b0: Word, b1: Word, b2: Word, b3: Word, cidr: Word, port: Word, val: Word, p: nat)

  const Start := Scan(0, 0, 0, 0, 0, 0, 0, 0)

  predicate IsSeparator(c: char) { c == '\t' || c == '/' }

  /** A dot, tab or slash: the chars that advance the phase. */
  predicate IsMark(c: char) { c == '.' || IsSeparator(c) }

  /**
    One char that is not the line's last: digits accumulate (in hexadecimal in the nginx
    value phase), a..f accumulate in hexadecimal in nginx mode, a dot closes octet `p`
    for `p` < 3, a separator closes the last octet, the CIDR length or the value for `p`
    in 3..5; everything else throws.
   */
  function Step(st: Scan, ch: char, nginx: bool): Option<Scan> {
    if IsDigit(ch) then
      if nginx && st.p == 5 then Some(st.(val := Wrap(st.val * 16 + Digit(ch))))
      else Some(st.(val := Wrap(st.val * 10 + Digit(ch))))
    else if nginx && IsHexLetter(ch) then
      Some(st.(val := Wrap(st.val * 16 + HexLetter(ch))))
    else if ch == '.' then
      if st.p == 0 then Some(st.(b0 := st.val, val := 0, p := 1))
      else if st.p == 1 then Some(st.(b1 := st.val, val := 0, p := 2))
      else if st.p == 2 then Some(st.(b2 := st.val, val := 0, p := 3))
      else None
    else if IsSeparator(ch) then
      if st.p == 3 then Some(st.(b3 := st.val, val := 0, p := 4))
      else if st.p == 4 then Some(st.(cidr := st.val, val := 0, p := 5))
      else if st.p == 5 then Some(st.(port := st.val, p := 6))
      else None
    else
      None
  }

  function Then(r: Option<Scan>, ch: char, nginx: bool): Option<Scan> {
    if r.None? then None else Step(r.value, ch, nginx)
  }

  /** The loop over `s` from the initial variables; `None` once a char has thrown. */
  function Run(s: seq<char>, nginx: bool): Option<Scan> {
    if s == [] then Some(Start) else Then(Run(s[..|s| - 1], nginx), s[|s| - 1], nginx)
  }

  /** The line's last char: a ';' is skipped there, and then the value takes `val`. */
  function Last(st: Scan, ch: char, nginx: bool): Option<Scan> {
    var r := if ch == ';' then Some(st) else Step(st, ch, nginx);
    if r.None? then None else Some(r.value.(port := r.value.val))
  }

  /** `b3 | (b2 << 8) | (b1 << 16) | (b0 << 24)`, the netmask of `cidr`, and the value. */
  function EntryOf(st: Scan): Entry {
    Entry(InetAton.Pack(st.b0, st.b1, st.b2, st.b3), Prefixes.MaskOfCidr(st.cidr as bv32), ToInt(st.port))
  }

  /** The tokenizer on the chars of one line. */
  function ParseChars(s: seq<char>, nginx: bool): Result<Entry> {
    if s == [] then Ok(EntryOf(Start))
    else
      var r := Run(s[..|s| - 1], nginx);
      if r.None? then Err(UnknownHost)
      else
        var x := Last(r.value, s[|s| - 1], nginx);
        if x.None? then Err(UnknownHost) else Ok(EntryOf(x.value))
  }

  /** The tokenizer on one line of bytes. */
  function ParseLine(line: seq<Byte>, nginx: bool): Result<Entry> {
    ParseChars(Chars(line), nginx)
  }

  /* ---------------- Which lines are accepted ---------------- */

  /** Dots, tabs and slashes among `s`: the phase after reading `s`. */
  function Marks(s: seq<char>): nat {
    multiset(s)['.'] + multiset(s)['\t'] + multiset(s)['/']
  }

  /** Whether char `c` may follow `k` marks anywhere in a line. */
  predicate Allowed(c: char, k: nat, nginx: bool) {
    IsDigit(c) || (nginx && IsHexLetter(c)) || (c == '.' && k < 3) || (IsSeparator(c) && 3 <= k <= 5)
  }

  /** Whether the char at `i` is acceptable where it stands; a ';' only as the last. */
  predicate Admissible(s: seq<char>, i: nat, nginx: bool)
    requires i < |s|
  {
    Allowed(s[i], Marks(s[..i]), nginx) || (s[i] == ';' && i == |s| - 1)
  }

  predicate Fine(s: seq<char>, i: nat, nginx: bool)
    requires i < |s|
  {
    Allowed(s[i], Marks(s[..i]), nginx)
  }

  /** What the loop has done after `s`, stated over the marks of `s`. */
  predicate RunOk(s: seq<char>, nginx: bool) {
    var r := Run(s, nginx);
    (r.Some? <==> forall i {:trigger Fine(s, i, nginx)} :: 0 <= i < |s| ==> Fine(s, i, nginx)) &&
    (r.Some? ==> r.value.p == Marks(s))
  }

  /** One char: it is accepted exactly when allowed after the marks so far. */
  lemma StepAllowed(st: Scan, c: char, nginx: bool)
    ensures Step(st, c, nginx).Some? <==> Allowed(c, st.p, nginx)
    ensures Step(st, c, nginx).Some? ==> Step(st, c, nginx).value.p == st.p + (if IsMark(c) then 1 else 0)
  {
  }

  lemma MarksSnoc(s: seq<char>, c: char)
    ensures Marks(s + [c]) == Marks(s) + (if IsMark(c) then 1 else 0)
  {
    assert multiset(s + [c]) == multiset(s) + multiset{c};
  }

  lemma {:induction false} RunAllowed(s: seq<char>, nginx: bool)
    ensures RunOk(s, nginx)
  {
    if s != [] {
      var s', c := s[..|s| - 1], s[|s| - 1];
      RunAllowed(s', nginx);
      assert s == s' + [c];
      MarksSnoc(s', c);
      assert Fine(s, |s'|, nginx) == Allowed(c, Marks(s'), nginx);
      forall i | 0 <= i < |s'|
        ensures Fine(s, i, nginx) == Fine(s', i, nginx)
      {
        assert s[..i] == s'[..i];
      }
      if Run(s', nginx).Some? {
        StepAllowed(Run(s', nginx).value, c, nginx);
      }
    }
  }

  /**
    A line is accepted exactly when every char is allowed where it stands: digits
    anywhere, a..f anywhere in nginx mode, a dot while fewer than three marks precede it,
    a tab or slash after three, four or five marks, and a ';' only as the last char.
    Any other char throws.
   */
  lemma ParseAccepts(s: seq<char>, nginx: bool)
    ensures ParseChars(s, nginx).Ok? <==>
      forall i {:trigger Admissible(s, i, nginx)} :: 0 <= i < |s| ==> Admissible(s, i, nginx)
  {
    if s != [] {
      var s', c := s[..|s| - 1], s[|s| - 1];
      ParseLast(s, nginx);
      AdmissibleSplit(s, nginx);
      assert s[..|s'|] == s';
    }
  }

  predicate AllFine(s: seq<char>, nginx: bool) {
    forall i {:trigger Fine(s, i, nginx)} :: 0 <= i < |s| ==> Fine(s, i, nginx)
  }

  /** A non-empty line parses when its chars before the last are fine and the last is allowed or ';'. */
  lemma ParseLast(s: seq<char>, nginx: bool)
    requires s != []
    ensures ParseChars(s, nginx).Ok? <==>
      AllFine(s[..|s| - 1], nginx) && (Allowed(s[|s| - 1], Marks(s[..|s| - 1]), nginx) || s[|s| - 1] == ';')
  {
    var s', c := s[..|s| - 1], s[|s| - 1];
    RunAllowed(s', nginx);
    if Run(s', nginx).Some? && c != ';' {
      StepAllowed(Run(s', nginx).value, c, nginx);
    }
  }

  /** Every char is admissible exactly when those before the last are fine and the last is admissible. */
  lemma AdmissibleSplit(s: seq<char>, nginx: bool)
    requires s != []
    ensures (forall i {:trigger Admissible(s, i, nginx)} :: 0 <= i < |s| ==> Admissible(s, i, nginx)) <==>
      AllFine(s[..|s| - 1], nginx) && Admissible(s, |s| - 1, nginx)
  {
    var s' := s[..|s| - 1];
    forall i | 0 <= i < |s'|
      ensures Admissible(s, i, nginx) == Fine(s', i, nginx)
    {
      assert s[..i] == s'[..i];
    }
    if AllFine(s', nginx) && Admissible(s, |s'|, nginx) {
      forall i | 0 <= i < |s|
        ensures Admissible(s, i, nginx)
      {
        if i < |s'| {
          assert Fine(s', i, nginx);
        }
      }
    }
    if forall i {:trigger Admissible(s, i, nginx)} :: 0 <= i < |s| ==> Admissible(s, i, nginx) {
      forall i | 0 <= i < |s'|
        ensures Fine(s', i, nginx)
      {
        assert Admissible(s, i, nginx);
      }
    }
  }

  /* ---------------- Rejections ---------------- */

  /** A fourth dot throws. */
  lemma FourthDotRejected(s: seq<char>, i: nat, nginx: bool)
    requires i < |s| && s[i] == '.' && multiset(s[..i])['.'] >= 3
    ensures ParseChars(s, nginx).Err?
  {
    ParseAccepts(s, nginx);
    assert !Admissible(s, i, nginx);
  }

  /** A tab or slash throws unless three, four or five marks precede it. */
  lemma SeparatorRejected(s: seq<char>, i: nat, nginx: bool)
    requires i < |s| && IsSeparator(s[i]) && !(3 <= Marks(s[..i]) <= 5)
    ensures ParseChars(s, nginx).Err?
  {
    ParseAccepts(s, nginx);
    assert !Admissible(s, i, nginx);
  }

  /** A ';' anywhere but last throws. */
  lemma SemicolonRejected(s: seq<char>, i: nat, nginx: bool)
    requires i < |s| - 1 && s[i] == ';'
    ensures ParseChars(s, nginx).Err?
  {
    ParseAccepts(s, nginx);
    assert !Admissible(s, i, nginx);
  }

  /** Any other char throws, and so do a..f outside nginx mode. */
  lemma ForeignRejected(s: seq<char>, i: nat, nginx: bool)
    requires i < |s| && !IsDigit(s[i]) && !IsMark(s[i]) && s[i] != ';'
    requires !(nginx && IsHexLetter(s[i]))
    ensures ParseChars(s, nginx).Err?
  {
    ParseAccepts(s, nginx);
    assert !Admissible(s, i, nginx);
  }

  /* ---------------- Accepted lines ---------------- */

  lemma RunSnoc(s: seq<char>, c: char, nginx: bool)
    ensures Run(s + [c], nginx) == Then(Run(s, nginx), c, nginx)
  {
    assert (s + [c])[..|s|] == s;
  }

  /** A decimal numeral read from a zero accumulator, outside the nginx value phase. */
  lemma {:induction false} RunDecimal(s: seq<char>, t: seq<char>, st: Scan, nginx: bool)
    requires Run(s, nginx) == Some(st) && st.val == 0 && !(nginx && st.p == 5)
    requires forall k :: 0 <= k < |t| ==> IsDigit(t[k])
    ensures Run(s + t, nginx) == Some(st.(val := DecimalValue(t)))
  {
    if t == [] {
      assert s + t == s;
    } else {
      var t', c := t[..|t| - 1], t[|t| - 1];
      RunDecimal(s, t', st, nginx);
      assert s + t == (s + t') + [c];
      RunSnoc(s + t', c, nginx);
    }
  }

  /** A hexadecimal numeral read from a zero accumulator in the nginx value phase. */
  lemma {:induction false} RunHex(s: seq<char>, t: seq<char>, st: Scan)
    requires Run(s, true) == Some(st) && st.val == 0 && st.p == 5
    requires forall k :: 0 <= k < |t| ==> IsDigit(t[k]) || IsHexLetter(t[k])
    ensures Run(s + t, true) == Some(st.(val := HexValue(t)))
  {
    if t == [] {
      assert s + t == s;
    } else {
      var t', c := t[..|t| - 1], t[|t| - 1];
      RunHex(s, t', st);
      assert s + t == (s + t') + [c];
      RunSnoc(s + t', c, true);
    }
  }

  /** An octet and its dot, read from a zero accumulator before the third dot. */
  lemma RunOctet(s: seq<char>, x: Word, st: Scan, nginx: bool)
    requires Run(s, nginx) == Some(st) && st.val == 0 && st.p < 3
    ensures Run(s + Decimal(x) + ['.'], nginx) == Step(st.(val := x), '.', nginx)
  {
    DecimalRoundTrip(x);
    RunDecimal(s, Decimal(x), st, nginx);
    RunSnoc(s + Decimal(x), '.', nginx);
  }

  /** After `a.b.c.d` the three octets are closed and `val` holds the fourth. */
  lemma RunDotted(a: Word, b: Word, c: Word, d: Word, nginx: bool)
    ensures Run(InetAton.Dotted(a, b, c, d), nginx) == Some(Scan(a, b, c, 0, 0, 0, d, 3))
  {
    var s1 := Decimal(a) + ['.'];
    var s2 := s1 + Decimal(b) + ['.'];
    var s3 := s2 + Decimal(c) + ['.'];
    assert [] + Decimal(a) + ['.'] == s1;
    RunOctet([], a, Start, nginx);
    assert Run(s1, nginx) == Some(Scan(a, 0, 0, 0, 0, 0, 0, 1));
    RunOctet(s1, b, Scan(a, 0, 0, 0, 0, 0, 0, 1), nginx);
    assert Run(s2, nginx) == Some(Scan(a, b, 0, 0, 0, 0, 0, 2));
    RunOctet(s2, c, Scan(a, b, 0, 0, 0, 0, 0, 2), nginx);
    assert Run(s3, nginx) == Some(Scan(a, b, c, 0, 0, 0, 0, 3));
    DecimalRoundTrip(d);
    RunDecimal(s3, Decimal(d), Scan(a, b, c, 0, 0, 0, 0, 3), nginx);
    assert InetAton.Dotted(a, b, c, d) == s3 + Decimal(d);
  }

  /** A line whose last char is not ';' ends with the value taking `val`. */
  lemma ParseEnd(s: seq<char>, x: Scan, nginx: bool)
    requires s != [] && s[|s| - 1] != ';' && Run(s, nginx) == Some(x)
    ensures ParseChars(s, nginx) == Ok(EntryOf(x.(port := x.val)))
  {
  }

  /** A final ';' is skipped, and the value takes `val`. */
  lemma ParseEndSemicolon(s: seq<char>, x: Scan, nginx: bool)
    requires Run(s, nginx) == Some(x)
    ensures ParseChars(s + [';'], nginx) == Ok(EntryOf(x.(port := x.val)))
  {
    assert (s + [';'])[..|s|] == s;
  }

  /** The plain line `a.b.c.d<TAB>e<TAB>v`. */
  function PlainText(a: Word, b: Word, c: Word, d: Word, e: Word, v: Word): seq<char> {
    InetAton.Dotted(a, b, c, d) + ['\t'] + Decimal(e) + ['\t'] + Decimal(v)
  }

  /** The nginx line `a.b.c.d/e<TAB>v;` with `v` in lower-case hexadecimal. */
  function NginxText(a: Word, b: Word, c: Word, d: Word, e: Word, v: Word): seq<char> {
    InetAton.Dotted(a, b, c, d) + ['/'] + Decimal(e) + ['\t'] + Hex(v) + [';']
  }

  /**
    A plain line puts the packed address under the netmask of `e` with the decimal
    value `v` (as a Java `int`).
   */
  lemma ParsePlain(a: Word, b: Word, c: Word, d: Word, e: Word, v: Word)
    ensures ParseChars(PlainText(a, b, c, d, e, v), false)
         == Ok(Entry(InetAton.Pack(a, b, c, d), Prefixes.MaskOfCidr(e as bv32), ToInt(v)))
  {
    var s := InetAton.Dotted(a, b, c, d);
    RunDotted(a, b, c, d, false);
    RunSnoc(s, '\t', false);
    DecimalRoundTrip(e);
    RunDecimal(s + ['\t'], Decimal(e), Scan(a, b, c, d, 0, 0, 0, 4), false);
    RunSnoc(s + ['\t'] + Decimal(e), '\t', false);
    DecimalRoundTrip(v);
    RunDecimal(s + ['\t'] + Decimal(e) + ['\t'], Decimal(v), Scan(a, b, c, d, e, 0, 0, 5), false);
    ParseEnd(PlainText(a, b, c, d, e, v), Scan(a, b, c, d, e, 0, v, 5), false);
  }

  /**
    An nginx line puts the packed address under the netmask of `e` with the
    hexadecimal value `v` (as a Java `int`); the final ';' is skipped.
   */
  lemma ParseNginx(a: Word, b: Word, c: Word, d: Word, e: Word, v: Word)
    ensures ParseChars(NginxText(a, b, c, d, e, v), true)
         == Ok(Entry(InetAton.Pack(a, b, c, d), Prefixes.MaskOfCidr(e as bv32), ToInt(v)))
  {
    var s := InetAton.Dotted(a, b, c, d);
    RunDotted(a, b, c, d, true);
    RunSnoc(s, '/', true);
    DecimalRoundTrip(e);
    RunDecimal(s + ['/'], Decimal(e), Scan(a, b, c, d, 0, 0, 0, 4), true);
    RunSnoc(s + ['/'] + Decimal(e), '\t', true);
    HexRoundTrip(v);
    RunHex(s + ['/'] + Decimal(e) + ['\t'], Hex(v), Scan(a, b, c, d, e, 0, 0, 5));
    ParseEndSemicolon(s + ['/'] + Decimal(e) + ['\t'] + Hex(v), Scan(a, b, c, d, e, 0, v, 5), true);
  }

  /** An empty line performs `put(0, 0, 0)`: value 0 under the empty prefix. */
  lemma EmptyLine(nginx: bool)
    ensures ParseChars([], nginx) == Ok(Entry(0, 0, 0))
  {
  }

  /**
    A line holding only an address `a.b.c.d` is accepted: the last octet lands in the
    value, the address keeps octet 0 there, and the CIDR length stays 0, so the value
    goes under the empty prefix.
   */
  lemma ParseBareAddress(a: Word, b: Word, c: Word, d: Word, nginx: bool)
    ensures ParseChars(InetAton.Dotted(a, b, c, d), nginx)
         == Ok(Entry(InetAton.Pack(a, b, c, 0), 0, ToInt(d)))
  {
    RunDotted(a, b, c, d, nginx);
    ParseEnd(InetAton.Dotted(a, b, c, d), Scan(a, b, c, 0, 0, 0, d, 3), nginx);
  }

  /* ---------------- Bytes ---------------- */

  /**
    A byte of 0x80 or above is sign-extended into a char in \uFF80..\uFFFF, which is
    neither a digit, a letter a..f nor a mark, so the line throws.
   */
  lemma HighByteRejected(line: seq<Byte>, i: nat, nginx: bool)
    requires i < |line| && line[i] >= 0x80
    ensures ParseLine(line, nginx).Err?
  {
    var s := Chars(line);
    assert s[i] as int >= 0xFF80;
    ForeignRejected(s, i, nginx);
  }
}
