/**
 The canonical encoder of receipt_chain.cpp and refinement_protocol.cpp: fixed-width big-endian
 integers and length-prefixed strings, written one after another with no separators.
 */
module Canonical {
  import opened Bytes

  datatype Token =
    | U8(v: byte)
    | U32(w: u32)
    | U64(x: u64)
    | Str(s: seq<byte>)

  /** `append_string` casts the length to 32 bits, so only shorter strings are represented faithfully. */
  predicate Representable(t: Token) {
    t.Str? ==> |t.s| < 0x1_0000_0000
  }

  function EncodeToken(t: Token): seq<byte> {
    match t
    case U8(v) => [v]
    case U32(w) => BigEndian(4, w)
    case U64(x) => BigEndian(8, x)
    case Str(s) => BigEndian(4, |s|) + s
  }

  function Encode(ts: seq<Token>): seq<byte> {
    if ts == [] then [] else EncodeToken(ts[0]) + Encode(ts[1..])
  }

  predicate SameKind(t: Token, u: Token) {
    t.U8? == u.U8? && t.U32? == u.U32? && t.U64? == u.U64?
  }

  ghost predicate SameShape(a: seq<Token>, b: seq<Token>) {
    |a| == |b| && forall i :: 0 <= i < |a| ==> SameKind(a[i], b[i])
  }

  ghost predicate AllRepresentable(a: seq<Token>) {
    forall i :: 0 <= i < |a| ==> Representable(a[i])
  }

  /** A string encoding can be taken off the front of two equal byte strings. */
  lemma StringCancel(n: nat, c: seq<byte>, s: seq<byte>, d: seq<byte>, r: seq<byte>)
    requires |c| < Pow256(n) && |d| < Pow256(n)
    requires BigEndian(n, |c|) + c + s == BigEndian(n, |d|) + d + r
    ensures c == d && s == r
  {
    Associate(BigEndian(n, |c|), c, s);
    Associate(BigEndian(n, |d|), d, r);
    NumberCancel(n, |c|, c + s, |d|, d + r);
    Cancel(c, s, d, r);
  }

  /** One token can be taken off the front of two equal encodings. */
  lemma TokenCancel(t: Token, s: seq<byte>, u: Token, r: seq<byte>)
    requires SameKind(t, u) && Representable(t) && Representable(u)
    requires EncodeToken(t) + s == EncodeToken(u) + r
    ensures t == u && s == r
  {
    Pow256Values();
    match t {
      case U8(v) => Cancel([v], s, [u.v], r);
      case U32(w) => NumberCancel(4, w, s, u.w, r);
      case U64(x) => NumberCancel(8, x, s, u.x, r);
      case Str(c) => StringCancel(4, c, s, u.s, r);
    }
  }

  /** Equal encodings that start with segments of the same shape have equal segments and equal rests. */
  lemma {:induction false} ShapeCancel(a: seq<Token>, s: seq<byte>, b: seq<Token>, r: seq<byte>)
    requires SameShape(a, b) && AllRepresentable(a) && AllRepresentable(b)
    requires Encode(a) + s == Encode(b) + r
    ensures a == b && s == r
  {
    if a == [] {
      assert [] + s == s && [] + r == r;
    } else {
      Associate(EncodeToken(a[0]), Encode(a[1..]), s);
      Associate(EncodeToken(b[0]), Encode(b[1..]), r);
      assert SameKind(a[0], b[0]) && Representable(a[0]) && Representable(b[0]);
      TokenCancel(a[0], Encode(a[1..]) + s, b[0], Encode(b[1..]) + r);
      ShapeCancel(a[1..], s, b[1..], r);
      assert a == [a[0]] + a[1..] && b == [b[0]] + b[1..];
    }
  }

  lemma EncodeNonEmpty(a: seq<Token>)
    requires a != []
    ensures Encode(a) != []
  {
    assert EncodeToken(a[0]) != [];
  }
}
