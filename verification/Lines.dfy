/** Newline-terminated lines: finding them, splitting a byte string into them, and joining them again. */
module Lines {
  import opened Bytes

  const NEWLINE: byte := 10

  /** The position of the first newline, or the length. */
  function Find(s: seq<byte>): (i: nat)
    ensures i <= |s| && NEWLINE !in s[..i] && (i < |s| ==> s[i] == NEWLINE)
    ensures i == |s| <==> NEWLINE !in s
  {
    if s == [] || s[0] == NEWLINE then 0
    else
      var i := 1 + Find(s[1..]);
      assert s[..i] == [s[0]] + s[1..][..i - 1];
      i
  }

  lemma {:induction false} FindIs(s: seq<byte>, i: nat)
    requires i <= |s| && NEWLINE !in s[..i] && (i < |s| ==> s[i] == NEWLINE)
    ensures Find(s) == i
  {
    if i > 0 {
      assert s[..i][0] == s[0] && s[..i][1..] == s[1..][..i - 1];
      FindIs(s[1..], i - 1);
    }
  }

  /** What the frames were on the wire. */
  function Wire(fs: seq<seq<byte>>): seq<byte> {
    if fs == [] then [] else Wire(fs[..|fs| - 1]) + (fs[|fs| - 1] + [NEWLINE])
  }

  lemma WireAppend(fs: seq<seq<byte>>, f: seq<byte>)
    ensures Wire(fs + [f]) == Wire(fs) + (f + [NEWLINE])
  {
    assert (fs + [f])[..|fs|] == fs;
  }

  lemma {:induction false} WireSplit(fs: seq<seq<byte>>, gs: seq<seq<byte>>)
    ensures Wire(fs + gs) == Wire(fs) + Wire(gs)
  {
    if gs == [] {
      assert fs + gs == fs;
    } else {
      WireSplit(fs, gs[..|gs| - 1]);
      assert (fs + gs)[..|fs + gs| - 1] == fs + gs[..|gs| - 1];
      Associate(Wire(fs), Wire(gs[..|gs| - 1]), gs[|gs| - 1] + [NEWLINE]);
    }
  }

  lemma WireHead(fs: seq<seq<byte>>)
    requires fs != []
    ensures |Wire(fs)| == |fs[0]| + 1 + |Wire(fs[1..])|
  {
    assert fs == [fs[0]] + fs[1..];
    WireSplit([fs[0]], fs[1..]);
    WireAppend([], fs[0]);
    assert [] + [fs[0]] == [fs[0]];
  }

  /** The newline-terminated lines of a byte string. */
  function Split(s: seq<byte>): seq<seq<byte>>
    decreases |s|
  {
    var i := Find(s);
    if i == |s| then [] else [s[..i]] + Split(s[i + 1..])
  }

  lemma FirstLine(s: seq<byte>) returns (f: seq<byte>, rest: seq<byte>)
    requires NEWLINE in s
    ensures s == f + [NEWLINE] + rest && NEWLINE !in f
  {
    f, rest := s[..Find(s)], s[Find(s) + 1..];
  }

  lemma SplitLine(f: seq<byte>, rest: seq<byte>)
    requires NEWLINE !in f
    ensures Split(f + [NEWLINE] + rest) == [f] + Split(rest)
  {
    var s := f + [NEWLINE] + rest;
    FindIs(s, |f|);
    assert s[..|f|] == f && s[|f| + 1..] == rest;
  }

  /** Frames in front of a byte string are its first lines. */
  lemma {:induction false} SplitWire(fs: seq<seq<byte>>, rest: seq<byte>)
    requires forall i :: 0 <= i < |fs| ==> NEWLINE !in fs[i]
    ensures Split(Wire(fs) + rest) == fs + Split(rest)
  {
    if fs == [] {
      assert [] + rest == rest && [] + Split(rest) == Split(rest);
    } else {
      var m := |fs| - 1;
      SplitWire(fs[..m], fs[m] + [NEWLINE] + rest);
      SplitLine(fs[m], rest);
      Associate(Wire(fs[..m]), fs[m] + [NEWLINE], rest);
      assert fs == fs[..m] + [fs[m]];
      Associate(fs[..m], [fs[m]], Split(rest));
    }
  }

  /** Joining undoes splitting when the text ends with a newline. */
  lemma {:induction false} WireOfSplit(s: seq<byte>)
    requires s == [] || s[|s| - 1] == NEWLINE
    ensures Wire(Split(s)) == s
    decreases |s|
  {
    if s != [] {
      var i := Find(s);
      var f, rest := s[..i], s[i + 1..];
      assert s == f + [NEWLINE] + rest;
      WireOfSplit(rest);
      WireSplit([f], Split(rest));
      WireAppend([], f);
      assert [] + [f] == [f] && [] + (f + [NEWLINE]) == f + [NEWLINE];
    }
  }

  lemma {:induction false} SplitHasNoNewline(s: seq<byte>)
    ensures forall i :: 0 <= i < |Split(s)| ==> NEWLINE !in Split(s)[i]
    decreases |s|
  {
    if Find(s) < |s| {
      SplitHasNoNewline(s[Find(s) + 1..]);
    }
  }

  /** What stands behind the last line. */
  function Rest(s: seq<byte>): seq<byte>
    decreases |s|
  {
    var i := Find(s);
    if i == |s| then s else Rest(s[i + 1..])
  }

  lemma RestLine(f: seq<byte>, rest: seq<byte>)
    requires NEWLINE !in f
    ensures Rest(f + [NEWLINE] + rest) == Rest(rest)
  {
    var s := f + [NEWLINE] + rest;
    FindIs(s, |f|);
    assert s[|f| + 1..] == rest;
  }

  lemma {:induction false} RestBehind(fs: seq<seq<byte>>, rest: seq<byte>)
    requires forall i :: 0 <= i < |fs| ==> NEWLINE !in fs[i]
    ensures Rest(Wire(fs) + rest) == Rest(rest)
  {
    if fs == [] {
      assert [] + rest == rest;
    } else {
      var m := |fs| - 1;
      RestBehind(fs[..m], fs[m] + [NEWLINE] + rest);
      RestLine(fs[m], rest);
      Associate(Wire(fs[..m]), fs[m] + [NEWLINE], rest);
    }
  }

  /** Every text is its lines and what stands behind them. */
  lemma {:induction false} SplitAndRest(s: seq<byte>)
    ensures s == Wire(Split(s)) + Rest(s) && NEWLINE !in Rest(s)
    decreases |s|
  {
    var i := Find(s);
    if i == |s| {
      assert [] + s == s;
    } else {
      var f, rest := s[..i], s[i + 1..];
      assert s == f + [NEWLINE] + rest;
      SplitAndRest(rest);
      WireSplit([f], Split(rest));
      WireAppend([], f);
      assert [] + [f] == [f] && [] + (f + [NEWLINE]) == f + [NEWLINE];
      Associate(f + [NEWLINE], Wire(Split(rest)), Rest(rest));
    }
  }

  lemma NoLines(s: seq<byte>)
    requires NEWLINE !in s
    ensures Split(s) == [] && Rest(s) == s
  {
    FindIs(s, |s|);
  }
}
