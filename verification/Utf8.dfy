/** Incremental and batch UTF-8 validation (refinement_protocol.cpp) against section 4 of RFC 3629. */
module Utf8 {
  import opened Bytes

  const MAX_LITERAL_BYTES := 4 * 1024

  // ----- section 4 of RFC 3629

  predicate IsTail(b: byte) { 0x80 <= b <= 0xBF }

  /** UTF8-char: exactly one of the forms UTF8-1, UTF8-2, UTF8-3 and UTF8-4. */
  predicate IsChar(c: seq<byte>) {
    || (|c| == 1 && c[0] <= 0x7F)
    || (|c| == 2 && 0xC2 <= c[0] <= 0xDF && IsTail(c[1]))
    || (|c| == 3 && IsTail(c[2])
        && (|| (c[0] == 0xE0 && 0xA0 <= c[1] <= 0xBF)
            || (0xE1 <= c[0] <= 0xEC && IsTail(c[1]))
            || (c[0] == 0xED && 0x80 <= c[1] <= 0x9F)
            || (0xEE <= c[0] <= 0xEF && IsTail(c[1]))))
    || (|c| == 4 && IsTail(c[2]) && IsTail(c[3])
        && (|| (c[0] == 0xF0 && 0x90 <= c[1] <= 0xBF)
            || (0xF1 <= c[0] <= 0xF3 && IsTail(c[1]))
            || (c[0] == 0xF4 && 0x80 <= c[1] <= 0x8F)))
  }

  predicate CharAtFront(t: seq<byte>, n: nat) {
    0 < n <= |t| && IsChar(t[..n])
  }

  /** UTF8-octets: a sequence of characters. */
  ghost predicate WellFormed(t: seq<byte>)
    decreases |t|
  {
    t == [] || exists n: nat :: CharAtFront(t, n) && WellFormed(t[n..])
  }

  // ----- the incremental validator

  datatype State = State(valid: bool, remaining: nat, codePoint: nat, minimum: nat)

  const START := State(true, 0, 0, 0)

  predicate Accepting(s: State) { s.valid && s.remaining == 0 }

  /** One byte: the masks of the code are remainders here, and a shift by six bits a factor of 64. */
  function Step(s: State, b: byte): State {
    if !s.valid then s
    else if s.remaining == 0 then
      if b <= 0x7F then s
      else if 0xC2 <= b <= 0xDF then State(true, 1, b % 0x20, 0x80)
      else if 0xE0 <= b <= 0xEF then State(true, 2, b % 0x10, 0x800)
      else if 0xF0 <= b <= 0xF4 then State(true, 3, b % 0x08, 0x10000)
      else s.(valid := false)
    else if b / 0x40 != 2 then s.(valid := false)
    else
      var cp := s.codePoint * 0x40 + b % 0x40;
      var bad := s.remaining == 1 && (cp < s.minimum || cp > 0x10FFFF || 0xD800 <= cp <= 0xDFFF);
      State(!bad, s.remaining - 1, cp, s.minimum)
  }

  function Run(s: State, t: seq<byte>): State
    decreases |t|
  {
    if t == [] then s else Run(Step(s, t[0]), t[1..])
  }

  lemma {:induction false} RunConcat(s: State, a: seq<byte>, b: seq<byte>)
    ensures Run(s, a + b) == Run(Run(s, a), b)
    decreases |a|
  {
    if a == [] {
      assert a + b == b;
    } else {
      assert (a + b)[1..] == a[1..] + b;
      RunConcat(Step(s, a[0]), a[1..], b);
    }
  }

  lemma RunSnoc(s: State, t: seq<byte>, b: byte)
    ensures Run(s, t + [b]) == Step(Run(s, t), b)
  {
    RunConcat(s, t, [b]);
    assert [b][1..] == [];
  }

  lemma {:induction false} RunInvalid(s: State, t: seq<byte>)
    requires !s.valid
    ensures Run(s, t) == s
    decreases |t|
  {
    if t != [] { RunInvalid(s, t[1..]); }
  }

  /** The number of bytes a lead byte announces, and 0 for a byte that leads nothing. */
  function Width(b: byte): nat {
    if b <= 0x7F then 1
    else if 0xC2 <= b <= 0xDF then 2
    else if 0xE0 <= b <= 0xEF then 3
    else if 0xF0 <= b <= 0xF4 then 4
    else 0
  }

  lemma WellFormedByWidth(t: seq<byte>)
    requires t != []
    ensures WellFormed(t) <==> CharAtFront(t, Width(t[0])) && WellFormed(t[Width(t[0])..])
  {
    forall n: nat | CharAtFront(t, n)
      ensures n == Width(t[0])
    {
      assert t[..n][0] == t[0];
    }
  }

  /** While bytes of a character are outstanding, only its remaining tail bytes matter. */
  lemma {:induction false} Short(s: State, t: seq<byte>)
    requires s.remaining > |t|
    ensures !Accepting(Run(s, t))
    decreases |t|
  {
    if t != [] {
      if !Step(s, t[0]).valid { RunInvalid(Step(s, t[0]), t[1..]); } else { Short(Step(s, t[0]), t[1..]); }
    }
  }

  /** The range and surrogate tests of the code single out the rows of the grammar. */
  lemma TwoBytes(s: State, b: byte, c: byte)
    requires Accepting(s) && Width(b) == 2
    ensures var e := Step(Step(s, b), c); (e.valid <==> IsChar([b, c])) && (e.valid ==> e.remaining == 0)
  {
  }

  lemma ThreeBytes(s: State, b: byte, c: byte, d: byte)
    requires Accepting(s) && Width(b) == 3
    ensures var e := Step(Step(Step(s, b), c), d);
            (e.valid <==> IsChar([b, c, d])) && (e.valid ==> e.remaining == 0)
  {
  }

  lemma FourBytes(s: State, b: byte, c: byte, d: byte, e: byte)
    requires Accepting(s) && Width(b) == 4
    ensures var f := Step(Step(Step(Step(s, b), c), d), e);
            (f.valid <==> IsChar([b, c, d, e])) && (f.valid ==> f.remaining == 0)
  {
  }

  lemma RunStep(s: State, t: seq<byte>, i: nat)
    requires i < |t|
    ensures Run(s, t[i..]) == Run(Step(s, t[i]), t[i + 1..])
  {
    assert t[i..][1..] == t[i + 1..];
  }

  /** A complete character leads back to an accepting state and any other `Width` bytes do not. */
  lemma OneChar(s: State, c: seq<byte>)
    requires Accepting(s) && c != [] && |c| == Width(c[0])
    ensures Run(s, c).valid <==> IsChar(c)
    ensures Run(s, c).valid ==> Accepting(Run(s, c))
  {
    assert c[0..] == c;
    var s1 := Step(s, c[0]);
    RunStep(s, c, 0);
    if |c| == 2 {
      assert c == [c[0], c[1]];
      RunStep(s1, c, 1);
      TwoBytes(s, c[0], c[1]);
    } else if |c| == 3 {
      assert c == [c[0], c[1], c[2]];
      RunStep(s1, c, 1);
      RunStep(Step(s1, c[1]), c, 2);
      ThreeBytes(s, c[0], c[1], c[2]);
    } else if |c| == 4 {
      assert c == [c[0], c[1], c[2], c[3]];
      RunStep(s1, c, 1);
      RunStep(Step(s1, c[1]), c, 2);
      RunStep(Step(Step(s1, c[1]), c[2]), c, 3);
      FourBytes(s, c[0], c[1], c[2], c[3]);
    }
  }

  /** Exactness: from any accepting state, a text is accepted if and only if it is well-formed UTF-8. */
  lemma {:induction false} RunExact(s: State, t: seq<byte>)
    requires Accepting(s)
    ensures Accepting(Run(s, t)) <==> WellFormed(t)
    decreases |t|
  {
    if t != [] {
      WellFormedByWidth(t);
      var n := Width(t[0]);
      if n == 0 {
        RunInvalid(Step(s, t[0]), t[1..]);
      } else if n > |t| {
        Short(Step(s, t[0]), t[1..]);
      } else {
        assert t == t[..n] + t[n..] && t[..n][0] == t[0];
        RunConcat(s, t[..n], t[n..]);
        OneChar(s, t[..n]);
        if Run(s, t[..n]).valid {
          RunExact(Run(s, t[..n]), t[n..]);
        } else {
          RunInvalid(Run(s, t[..n]), t[n..]);
        }
      }
    }
  }

  /** Chunking is irrelevant: only the concatenation decides. */
  lemma ChunkedExact(a: seq<byte>, b: seq<byte>)
    ensures Accepting(Run(Run(START, a), b)) <==> WellFormed(a + b)
  {
    RunConcat(START, a, b);
    RunExact(START, a + b);
  }

  /** The batch check of a fixture literal. */
  method CheckLiteral(value: seq<byte>) returns (ok: bool)
    ensures ok <==> 0 < |value| <= MAX_LITERAL_BYTES && WellFormed(value)
  {
    if value == [] || |value| > MAX_LITERAL_BYTES { return false; }
    RunExact(START, value);
    var s := START;
    for i := 0 to |value|
      invariant s.valid && Run(s, value[i..]) == Run(START, value)
    {
      s := Step(s, value[i]);
      assert value[i..][1..] == value[i + 1..];
      if !s.valid {
        RunInvalid(s, value[i + 1..]);
        return false;
      }
    }
    ok := s.remaining == 0;
  }
}
