/**
  The bulk loader: `loadFromLocalFile` sizes a tree with `countLines` and then
  `init(InputStream, …)` parses every line and performs one `put` per line, failing
  the whole load on the first malformed line. Splitting the file into lines
  (`readLine`) is not modelled: the lines arrive as a parameter. Also here: the
  string form of `selectValue`.
 */
module Load {
  import opened Results
  import opened Unicode
  import opened Prefixes
  import opened RadixTree
  import LineParser
  import LineCount
  import InetAton

  /** The table after the puts of `es`, in order, starting from `m`. */
  function Apply(m: Table, es: seq<LineParser.Entry>): Table {
    if es == [] then m
    else
      var e := es[|es| - 1];
      Store(Apply(m, es[..|es| - 1]), PutPath(e.ip, e.mask), e.value)
  }

  /** The outcome of parsing each line. */
  function Parses(lines: seq<seq<Byte>>, nginx: bool): (rs: seq<Result<LineParser.Entry>>)
    ensures |rs| == |lines|
  {
    seq(|lines|, i requires 0 <= i < |lines| => LineParser.ParseLine(lines[i], nginx))
  }

  /** The entries of `rs`, or the exception of the first failure among them. */
  function Collect(rs: seq<Result<LineParser.Entry>>): Result<seq<LineParser.Entry>> {
    if rs == [] then Ok([])
    else
      var r := Collect(rs[..|rs| - 1]);
      if r.Err? then r
      else if rs[|rs| - 1].Err? then Err(rs[|rs| - 1].error)
      else Ok(r.value + [rs[|rs| - 1].value])
  }

  /** The entries of `lines`, or the exception of the first malformed one. */
  function ParseAll(lines: seq<seq<Byte>>, nginx: bool): Result<seq<LineParser.Entry>> {
    Collect(Parses(lines, nginx))
  }

  /** A failure fails the whole collection whatever follows it. */
  lemma {:induction false} CollectFails(rs: seq<Result<LineParser.Entry>>, j: nat)
    requires j <= |rs| && Collect(rs[..j]).Err?
    ensures Collect(rs) == Collect(rs[..j])
    decreases |rs| - j
  {
    if j < |rs| {
      assert rs[..j + 1][..j] == rs[..j];
      CollectFails(rs, j + 1);
    } else {
      assert rs[..j] == rs;
    }
  }

  /** Element `i` of `rs` succeeded. */
  predicate Succeeded(rs: seq<Result<LineParser.Entry>>, i: int)
    requires 0 <= i < |rs|
  {
    rs[i].Ok?
  }

  /** Collecting succeeds exactly when every element succeeded. */
  lemma {:induction false} CollectOk(rs: seq<Result<LineParser.Entry>>)
    ensures Collect(rs).Ok? <==> forall i {:trigger Succeeded(rs, i)} :: 0 <= i < |rs| ==> Succeeded(rs, i)
  {
    if rs != [] {
      var init := rs[..|rs| - 1];
      CollectOk(init);
      if Collect(rs).Ok? {
        forall i | 0 <= i < |rs|
          ensures Succeeded(rs, i)
        {
          if i < |init| {
            assert Succeeded(init, i);
          }
        }
      } else if Collect(init).Err? {
        var i :| 0 <= i < |init| && !Succeeded(init, i);
        assert !Succeeded(rs, i);
      } else {
        assert !Succeeded(rs, |init|);
      }
    }
  }

  /** The entries collected are the elements' entries, in order. */
  lemma {:induction false} CollectEntries(rs: seq<Result<LineParser.Entry>>, i: nat)
    requires Collect(rs).Ok? && i < |rs|
    ensures |Collect(rs).value| == |rs|
    ensures rs[i] == Ok(Collect(rs).value[i])
  {
    var init := rs[..|rs| - 1];
    assert Collect(rs).value == Collect(init).value + [rs[|rs| - 1].value];
    if i < |init| {
      CollectEntries(init, i);
    } else if |init| > 0 {
      CollectEntries(init, 0);
    }
  }

  /** A load succeeds exactly when every line parses; line `i` then gives entry `i`. */
  lemma ParseAllOk(lines: seq<seq<Byte>>, nginx: bool)
    ensures ParseAll(lines, nginx).Ok? <==> forall i :: 0 <= i < |lines| ==> LineParser.ParseLine(lines[i], nginx).Ok?
    ensures ParseAll(lines, nginx).Ok? ==>
              |ParseAll(lines, nginx).value| == |lines| &&
              forall i :: 0 <= i < |lines| ==> LineParser.ParseLine(lines[i], nginx) == Ok(ParseAll(lines, nginx).value[i])
  {
    var rs := Parses(lines, nginx);
    CollectOk(rs);
    assert forall i :: 0 <= i < |lines| ==> (Succeeded(rs, i) <==> LineParser.ParseLine(lines[i], nginx).Ok?);
    if Collect(rs).Ok? {
      forall i | 0 <= i < |lines|
        ensures |ParseAll(lines, nginx).value| == |lines|
        ensures LineParser.ParseLine(lines[i], nginx) == Ok(ParseAll(lines, nginx).value[i])
      {
        CollectEntries(rs, i);
      }
      if lines == [] {
        assert Collect(rs).value == [];
      }
    }
  }

  /**
    `init(InputStream, nginxFormat, …)` over the lines of a file: every line is parsed
    and put in order; the first malformed line throws.
   */
  method InitLines(t: Tree, lines: seq<seq<Byte>>, nginx: bool, ghost m: Table) returns (r: Result<Tree>)
    requires Refines(t, m)
    ensures r.Ok? <==> ParseAll(lines, nginx).Ok?
    ensures r.Err? ==> r.error == ParseAll(lines, nginx).error
    ensures r.Ok? ==> Refines(r.value, Apply(m, ParseAll(lines, nginx).value))
  {
    ghost var rs := Parses(lines, nginx);
    var cur := t;
    var i := 0;
    while i < |lines|
      invariant 0 <= i <= |lines|
      invariant Collect(rs[..i]).Ok?
      invariant Refines(cur, Apply(m, Collect(rs[..i]).value))
    {
      assert rs[..i + 1][..i] == rs[..i];
      var e := LineParser.ParseLine(lines[i], nginx);
      assert e == rs[i];
      if e.Err? {
        CollectFails(rs, i + 1);
        return Err(e.error);
      }
      ghost var es := Collect(rs[..i]).value;
      cur := Put(cur, e.value.ip, e.value.mask, e.value.value, Apply(m, es));
      assert (es + [e.value])[..|es|] == es;
      i := i + 1;
    }
    assert rs[..i] == rs;
    r := Ok(cur);
  }

  /**
    `loadFromLocalFile`: a tree sized by `countLines` over the file's chunks, filled
    from its lines. The count is never below 1, so sizing cannot fail.
   */
  method LoadFile(chunks: seq<seq<Byte>>, lines: seq<seq<Byte>>, nginx: bool) returns (r: Result<Tree>)
    ensures r.Ok? <==> ParseAll(lines, nginx).Ok?
    ensures r.Ok? ==> Refines(r.value, Apply(map[], ParseAll(lines, nginx).value))
  {
    var n := LineCount.CountLines(chunks);
    var t := Init(n);
    r := InitLines(t, lines, nginx, map[]);
  }

  /** `selectValue(String)`: the address is read with `inet_aton`, then looked up. */
  method SelectText(t: Tree, ip: seq<char>, ghost m: Table) returns (r: Result<int>)
    requires Refines(t, m)
    ensures r.Ok? <==> InetAton.InetAton(ip).Ok?
    ensures r.Ok? ==> r.value == Best(m, InetAton.InetAton(ip).value)
  {
    var a := InetAton.InetAton(ip);
    if a.Err? {
      return Err(a.error);
    }
    var v := SelectValue(t, a.value, m);
    r := Ok(v);
  }
}
