/**
  `countLines`, the pre-pass that sizes the trie before a bulk load: it reads the file
  in chunks, counts the '\n' bytes and adds one for a last line that has no '\n' (or
  for an empty file). The file is given as the sequence of chunks its reads return.
 */
module LineCount {
  import opened Unicode

  const Newline: Byte := 0x0A

  /** The bytes of the successive reads, end to end. */
  function Concat(chunks: seq<seq<Byte>>): seq<Byte> {
    if chunks == [] then [] else Concat(chunks[..|chunks| - 1]) + chunks[|chunks| - 1]
  }

  /** The '\n' bytes of `s`, counted left to right. */
  function Newlines(s: seq<Byte>): nat {
    if s == [] then 0 else Newlines(s[..|s| - 1]) + (if s[|s| - 1] == Newline then 1 else 0)
  }

  /** The variable `b` after reading `s`: its last byte, or the initial 0. */
  function LastByte(s: seq<Byte>): Byte {
    if s == [] then 0 else s[|s| - 1]
  }

  /** The count `countLines` returns for content `s`. */
  function Lines(s: seq<Byte>): nat {
    Newlines(s) + (if LastByte(s) != Newline then 1 else 0)
  }

  /** The positions of the '\n' bytes of `s`. */
  function NewlineAt(s: seq<Byte>): set<nat> {
    set k: nat | k < |s| && s[k] == Newline
  }

  /** The left-to-right count is the number of positions holding '\n'. */
  lemma {:induction false} NewlinesCount(s: seq<Byte>)
    ensures Newlines(s) == |NewlineAt(s)|
  {
    if s != [] {
      var s', x := s[..|s| - 1], s[|s| - 1];
      NewlinesCount(s');
      assert |s'| !in NewlineAt(s');
      if x == Newline {
        assert NewlineAt(s) == NewlineAt(s') + {|s'|};
      } else {
        assert NewlineAt(s) == NewlineAt(s');
      }
    }
  }

  /** Terminating the last line with '\n' does not change the count. */
  lemma FinalNewline(s: seq<Byte>)
    requires s != [] && s[|s| - 1] != Newline
    ensures Lines(s + [Newline]) == Lines(s)
  {
    assert (s + [Newline])[..|s|] == s;
  }

  /** Every '\n' ends one line; a last line without one still counts, and an empty file is one line. */
  lemma LinesCount(s: seq<Byte>)
    ensures Lines(s) == |NewlineAt(s)| + (if s == [] || s[|s| - 1] != Newline then 1 else 0)
  {
    NewlinesCount(s);
  }

  /** The inner loop over one chunk, carrying `lines` and `b` across it. */
  method CountChunk(ghost prefix: seq<Byte>, chunk: seq<Byte>, lines: int, b: Byte) returns (lines': int, b': Byte)
    requires lines == Newlines(prefix) && b == LastByte(prefix)
    ensures lines' == Newlines(prefix + chunk) && b' == LastByte(prefix + chunk)
  {
    lines', b' := lines, b;
    var i := 0;
    assert prefix + chunk[..0] == prefix;
    while i < |chunk|
      invariant 0 <= i <= |chunk|
      invariant lines' == Newlines(prefix + chunk[..i]) && b' == LastByte(prefix + chunk[..i])
    {
      b' := chunk[i];
      if b' == Newline {
        lines' := lines' + 1;
      }
      assert (prefix + chunk[..i + 1])[..|prefix| + i] == prefix + chunk[..i];
      i := i + 1;
    }
    assert chunk[..i] == chunk;
  }

  /**
    `countLines` over the chunks the reads return: the number of '\n' bytes in the
    whole content, plus one when the content is empty or does not end with '\n'.
   */
  method CountLines(chunks: seq<seq<Byte>>) returns (lines: int)
    ensures lines >= 1
    ensures var s := Concat(chunks);
            lines == |NewlineAt(s)| + (if s == [] || s[|s| - 1] != Newline then 1 else 0)
  {
    lines := 0;
    var b: Byte := 0;
    var k := 0;
    while k < |chunks|
      invariant 0 <= k <= |chunks|
      invariant lines == Newlines(Concat(chunks[..k])) && b == LastByte(Concat(chunks[..k]))
    {
      lines, b := CountChunk(Concat(chunks[..k]), chunks[k], lines, b);
      assert chunks[..k + 1][..k] == chunks[..k];
      k := k + 1;
    }
    if b != Newline {
      lines := lines + 1;
    }
    assert chunks[..k] == chunks;
    LinesCount(Concat(chunks));
  }
}
