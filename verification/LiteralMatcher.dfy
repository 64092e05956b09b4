/** The streaming Knuth-Morris-Pratt matcher of refinement_protocol.cpp. */
module LiteralMatcher {
  import opened Bytes

  /** The first `k` bytes of the literal are the last `k` bytes of the text. */
  ghost predicate Ends(lit: seq<byte>, text: seq<byte>, k: nat) {
    k <= |lit| && k <= |text| && text[|text| - k..] == lit[..k]
  }

  /** `k` is the longest prefix of the literal shorter than `limit` with which the text ends. */
  ghost predicate Longest(lit: seq<byte>, text: seq<byte>, k: nat, limit: nat) {
    k < limit && Ends(lit, text, k) && forall j :: k < j < limit ==> !Ends(lit, text, j)
  }

  ghost predicate OccursAt(lit: seq<byte>, text: seq<byte>, i: nat) {
    i + |lit| <= |text| && text[i..i + |lit|] == lit
  }

  ghost predicate Occurs(lit: seq<byte>, text: seq<byte>) {
    exists i: nat :: OccursAt(lit, text, i)
  }

  /** `table[i]` is the longest proper border of the literal's first `i + 1` bytes. */
  ghost predicate IsBorderTable(lit: seq<byte>, table: seq<nat>, n: nat) {
    n <= |table| == |lit| && forall i :: 0 <= i < n ==> Longest(lit, lit[..i + 1], table[i], i + 1)
  }

  // ----- what one more byte, and a shorter match, mean

  lemma EndsExtend(lit: seq<byte>, text: seq<byte>, b: byte, k: nat)
    requires k < |lit|
    ensures Ends(lit, text + [b], k + 1) <==> Ends(lit, text, k) && lit[k] == b
  {
    var t := text + [b];
    if k <= |text| {
      assert t[|t| - (k + 1)..] == text[|text| - k..] + [b];
      assert lit[..k + 1] == lit[..k] + [lit[k]];
    }
  }

  /** Below a match of length `m`, ending the text and being a border of the match are the same. */
  lemma EndsBelow(lit: seq<byte>, text: seq<byte>, m: nat, j: nat)
    requires Ends(lit, text, m) && j <= m
    ensures Ends(lit, text, j) <==> Ends(lit, lit[..m], j)
  {
    assert text[|text| - j..] == text[|text| - m..][m - j..];
  }

  lemma OccursExtend(lit: seq<byte>, text: seq<byte>, b: byte)
    requires lit != []
    ensures Occurs(lit, text + [b]) <==> Occurs(lit, text) || Ends(lit, text + [b], |lit|)
  {
    var t, n := text + [b], |lit|;
    if Occurs(lit, text) {
      var i: nat :| OccursAt(lit, text, i);
      assert t[i..i + n] == text[i..i + n];
      assert OccursAt(lit, t, i);
    }
    if Ends(lit, t, n) {
      assert OccursAt(lit, t, |t| - n);
    }
    if Occurs(lit, t) {
      var i: nat :| OccursAt(lit, t, i);
      if i + n <= |text| {
        assert t[i..i + n] == text[i..i + n];
        assert OccursAt(lit, text, i);
      } else {
        assert i == |t| - n && Ends(lit, t, n);
      }
    }
  }

  /** No candidate longer than `m` can be extended by `b`: what the fallback loop keeps. */
  ghost predicate NoLonger(lit: seq<byte>, text: seq<byte>, b: byte, m: nat, limit: nat)
    requires limit <= |lit|
  {
    forall j :: m < j < limit ==> !(Ends(lit, text, j) && lit[j] == b)
  }

  lemma NoneLonger(lit: seq<byte>, text: seq<byte>, b: byte, m: nat)
    requires Longest(lit, text, m, |lit|)
    ensures m < |lit| && Ends(lit, text, m) && NoLonger(lit, text, b, m, |lit|)
  {
  }

  lemma Fallback(lit: seq<byte>, text: seq<byte>, b: byte, m: nat, border: nat, limit: nat)
    requires limit <= |lit| && 0 < m < limit && Ends(lit, text, m) && lit[m] != b
    requires NoLonger(lit, text, b, m, limit)
    requires Longest(lit, lit[..m], border, m)
    ensures Ends(lit, text, border) && NoLonger(lit, text, b, border, limit)
  {
    EndsBelow(lit, text, m, border);
    forall j | border < j < limit
      ensures !(Ends(lit, text, j) && lit[j] == b)
    {
      if j < m { EndsBelow(lit, text, m, j); }
    }
  }

  /** After the loop the longest extension is one byte longer, or empty. */
  lemma Extend(lit: seq<byte>, text: seq<byte>, b: byte, m: nat, limit: nat)
    requires m < limit <= |lit| && Ends(lit, text, m) && NoLonger(lit, text, b, m, limit)
    requires m == 0 || lit[m] == b
    ensures Longest(lit, text + [b], if lit[m] == b then m + 1 else 0, limit + 1)
  {
    var k := if lit[m] == b then m + 1 else 0;
    EndsExtend(lit, text, b, m);
    forall j | k < j < limit + 1
      ensures !Ends(lit, text + [b], j)
    {
      EndsExtend(lit, text, b, j - 1);
    }
  }

  /** The constructor's loop: the border table, by the same fallback on the literal itself. */
  method BuildTable(lit: seq<byte>) returns (table: seq<nat>)
    requires lit != []
    ensures IsBorderTable(lit, table, |lit|)
  {
    table := seq(|lit|, _ => 0);
    var index, length := 1, 0;
    while index < |lit|
      invariant 0 <= length < index <= |lit|
      invariant IsBorderTable(lit, table, index)
      invariant Ends(lit, lit[..index], length)
      invariant index < |lit| ==> NoLonger(lit, lit[..index], lit[index], length, index)
      decreases |lit| - index, length
    {
      assert lit[..index + 1] == lit[..index] + [lit[index]];
      if lit[index] == lit[length] {
        Extend(lit, lit[..index], lit[index], length, index);
        length := length + 1;
        table := table[index := length];
        index := index + 1;
      } else if length != 0 {
        Fallback(lit, lit[..index], lit[index], length, table[length - 1], index);
        length := table[length - 1];
      } else {
        Extend(lit, lit[..index], lit[index], 0, index);
        table := table[index := 0];
        index := index + 1;
      }
    }
  }

  // ----- the work of the matcher, as a function of the bytes

  /** Where the fallbacks lead from a match of length `m` when `b` comes next, and how many there are. */
  ghost function Settle(lit: seq<byte>, table: seq<nat>, m: nat, b: byte): (r: (nat, nat))
    requires IsBorderTable(lit, table, |lit|) && m < |lit|
    ensures r.0 + r.1 <= m && (r.0 == 0 || lit[r.0] == b)
  {
    if m == 0 || lit[m] == b then (m, 0)
    else
      var (k, n) := Settle(lit, table, table[m - 1], b);
      (k, n + 1)
  }

  lemma SettleNext(lit: seq<byte>, table: seq<nat>, m: nat, b: byte)
    requires IsBorderTable(lit, table, |lit|) && 0 < m < |lit| && lit[m] != b
    ensures |table| == |lit| && table[m - 1] < m && Longest(lit, lit[..m], table[m - 1], m)
    ensures Settle(lit, table, m, b)
         == (Settle(lit, table, table[m - 1], b).0, Settle(lit, table, table[m - 1], b).1 + 1)
  {
  }

  lemma SettleDone(lit: seq<byte>, table: seq<nat>, m: nat, b: byte)
    requires IsBorderTable(lit, table, |lit|) && m < |lit| && (m == 0 || lit[m] == b)
    ensures Settle(lit, table, m, b) == (m, 0)
  {
  }

  /** The match after one more byte, and the fallbacks this took; a whole match falls back once more. */
  ghost function Work(lit: seq<byte>, table: seq<nat>, m: nat, b: byte): (r: (nat, nat))
    requires IsBorderTable(lit, table, |lit|) && m < |lit|
    ensures r.0 < |lit| && r.0 + r.1 <= m + 1
  {
    var (k, n) := Settle(lit, table, m, b);
    if lit[k] != b then (k, n)
    else if k + 1 < |lit| then (k + 1, n)
    else (table[k], n + 1)
  }

  /** The match after a whole text, and all fallbacks taken on the way. */
  ghost function Total(lit: seq<byte>, table: seq<nat>, text: seq<byte>): (r: (nat, nat))
    requires lit != [] && IsBorderTable(lit, table, |lit|)
    ensures r.0 < |lit|
  {
    if text == [] then (0, 0)
    else
      var (m, n) := Total(lit, table, text[..|text| - 1]);
      var (k, more) := Work(lit, table, m, text[|text| - 1]);
      (k, n + more)
  }

  lemma TotalSnoc(lit: seq<byte>, table: seq<nat>, text: seq<byte>, b: byte)
    requires lit != [] && IsBorderTable(lit, table, |lit|)
    ensures var (m, n) := Total(lit, table, text);
            var (k, more) := Work(lit, table, m, b);
            Total(lit, table, text + [b]) == (k, n + more)
  {
    assert (text + [b])[..|text|] == text;
  }

  /** Amortised over any text there is at most one fallback a byte: a fallback gives up what bytes before it matched. */
  lemma {:induction false} FallbacksBounded(lit: seq<byte>, table: seq<nat>, text: seq<byte>)
    requires lit != [] && IsBorderTable(lit, table, |lit|)
    ensures Total(lit, table, text).0 + Total(lit, table, text).1 <= |text|
  {
    if text != [] {
      FallbacksBounded(lit, table, text[..|text| - 1]);
    }
  }

  class Matcher {
    const literal: seq<byte>
    const table: seq<nat>
    var matched: nat
    var found: bool
    ghost var consumed: seq<byte>
    ghost var fallbacks: nat

    /** Exactness: the state is a function of the bytes consumed so far, however they were chunked. */
    ghost predicate Valid()
      reads this
    {
      && literal != []
      && IsBorderTable(literal, table, |literal|)
      && Longest(literal, consumed, matched, |literal|)
      && found == Occurs(literal, consumed)
      && (matched, fallbacks) == Total(literal, table, consumed)
    }

    constructor (lit: seq<byte>)
      requires lit != []
      ensures Valid() && literal == lit && consumed == [] && fallbacks == 0
    {
      literal := lit;
      var t := BuildTable(lit);
      table := t;
      matched, found, consumed, fallbacks := 0, false, [], 0;
    }

    /** The fallback loop: the longest match that the byte extends, or none. */
    method FallBack(b: byte) returns (m: nat, ghost n: nat)
      requires Valid()
      ensures m < |literal| && Ends(literal, consumed, m) && NoLonger(literal, consumed, b, m, |literal|)
      ensures (m, n) == Settle(literal, table, matched, b)
    {
      hide Total, Occurs, Settle, Ends, NoLonger, Longest, IsBorderTable;
      m, n := matched, 0;
      NoneLonger(literal, consumed, b, m);
      while m != 0 && literal[m] != b
        invariant m < |literal| && Ends(literal, consumed, m) && NoLonger(literal, consumed, b, m, |literal|)
        invariant Settle(literal, table, matched, b)
               == (Settle(literal, table, m, b).0, n + Settle(literal, table, m, b).1)
      {
        SettleNext(literal, table, m, b);
        Fallback(literal, consumed, b, m, table[m - 1], |literal|);
        m := table[m - 1];
        n := n + 1;
      }
      SettleDone(literal, table, m, b);
    }

    method Consume(b: byte)
      requires Valid()
      modifies this
      ensures Valid() && consumed == old(consumed) + [b] && fallbacks + matched <= |consumed|
    {
      hide Total, Settle, Occurs, Ends, NoLonger, Longest, IsBorderTable;
      ghost var n;
      var m: nat;
      m, n := FallBack(b);
      Extend(literal, consumed, b, m, |literal|);
      OccursExtend(literal, consumed, b);
      TotalSnoc(literal, table, consumed, b);
      FallbacksBounded(literal, table, consumed + [b]);
      LongestBelow(literal, consumed + [b], if literal[m] == b then m + 1 else 0);
      if literal[m] == b {
        m := m + 1;
      }
      consumed := consumed + [b];
      if m == |literal| {
        found := true;
        WholeFallsBack(literal, table, consumed);
        m := table[m - 1];
        n := n + 1;
      }
      matched, fallbacks := m, fallbacks + n;
    }
  }

  /** Either the whole literal ends the text, or the longest match is a proper one. */
  lemma LongestBelow(lit: seq<byte>, text: seq<byte>, k: nat)
    requires Longest(lit, text, k, |lit| + 1)
    ensures k == |lit| <==> Ends(lit, text, |lit|)
    ensures k < |lit| ==> Longest(lit, text, k, |lit|)
  {
  }

  /** After a whole match the longest proper one is the border of the literal. */
  lemma WholeFallsBack(lit: seq<byte>, table: seq<nat>, text: seq<byte>)
    requires lit != [] && IsBorderTable(lit, table, |lit|) && Ends(lit, text, |lit|)
    ensures |table| == |lit| && Longest(lit, text, table[|lit| - 1], |lit|)
  {
    assert lit[..|lit|] == lit;
    forall j | 0 <= j < |lit|
      ensures Ends(lit, text, j) <==> Ends(lit, lit, j)
    {
      EndsBelow(lit, text, |lit|, j);
    }
  }
}
