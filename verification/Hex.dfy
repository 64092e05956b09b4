/** Lowercase hexadecimal digests: `encode_digest` (sha256.cpp) and `decode_digest` (receipt_chain.cpp). */
module Hex {
  import opened Bytes

  predicate IsDigit(b: byte) { '0' as int <= b <= '9' as int }

  predicate IsLowerHex(b: byte) { IsDigit(b) || 'a' as int <= b <= 'f' as int }

  predicate AllLowerHex(s: seq<byte>) {
    forall i :: 0 <= i < |s| ==> IsLowerHex(s[i])
  }

  predicate ValidDigest(d: seq<byte>) {
    |d| == 64 && AllLowerHex(d)
  }

  /** Sixty-four zeros: the head of an empty chain. */
  function ZeroDigest(): (d: seq<byte>)
    ensures ValidDigest(d)
  {
    seq(64, _ => '0' as int)
  }

  type nibble = x: int | 0 <= x < 16

  function Digit(n: nibble): (r: byte)
    ensures IsLowerHex(r) && Nibble(r) == n
  {
    if n < 10 then '0' as int + n else 'a' as int + n - 10
  }

  function Nibble(b: byte): (r: nibble)
    requires IsLowerHex(b)
  {
    if IsDigit(b) then b - '0' as int else b - 'a' as int + 10
  }

  function HexOf(b: byte): (r: seq<byte>)
    ensures |r| == 2 && AllLowerHex(r)
  {
    [Digit(b / 16), Digit(b % 16)]
  }

  function PairValue(high: byte, low: byte): byte
    requires IsLowerHex(high) && IsLowerHex(low)
  {
    Nibble(high) * 16 + Nibble(low)
  }

  function ToHex(bs: seq<byte>): (r: seq<byte>)
    ensures |r| == 2 * |bs| && AllLowerHex(r)
  {
    if bs == [] then [] else ToHex(bs[..|bs| - 1]) + HexOf(bs[|bs| - 1])
  }

  function FromHex(s: seq<byte>): (r: seq<byte>)
    requires AllLowerHex(s) && |s| % 2 == 0
    ensures |r| == |s| / 2
  {
    if s == [] then [] else FromHex(s[..|s| - 2]) + [PairValue(s[|s| - 2], s[|s| - 1])]
  }

  lemma FromHexAppend(s: seq<byte>, h: seq<byte>)
    requires AllLowerHex(s) && AllLowerHex(h) && |s| % 2 == 0 && |h| == 2
    ensures AllLowerHex(s + h) && FromHex(s + h) == FromHex(s) + [PairValue(h[0], h[1])]
  {
    assert (s + h)[..|s + h| - 2] == s;
  }

  lemma ToHexAppend(bs: seq<byte>, b: byte)
    ensures ToHex(bs + [b]) == ToHex(bs) + HexOf(b)
  {
    assert (bs + [b])[..|bs|] == bs;
  }

  lemma PairOfHex(b: byte)
    ensures PairValue(HexOf(b)[0], HexOf(b)[1]) == b
  {
  }

  lemma HexOfPair(high: byte, low: byte)
    requires IsLowerHex(high) && IsLowerHex(low)
    ensures HexOf(PairValue(high, low)) == [high, low]
  {
    assert Digit(Nibble(high)) == high && Digit(Nibble(low)) == low;
  }

  /** Decoding what was encoded gives the bytes back. */
  lemma {:induction false} DecodeEncode(bs: seq<byte>)
    ensures FromHex(ToHex(bs)) == bs
  {
    if bs != [] {
      var n := |bs| - 1;
      DecodeEncode(bs[..n]);
      FromHexAppend(ToHex(bs[..n]), HexOf(bs[n]));
      PairOfHex(bs[n]);
      assert bs == bs[..n] + [bs[n]];
    }
  }

  /** Lowercase hex strings have only one decoding source, so comparing decoded digests compares the strings. */
  lemma {:induction false} EncodeDecode(s: seq<byte>)
    requires AllLowerHex(s) && |s| % 2 == 0
    ensures ToHex(FromHex(s)) == s
  {
    if s != [] {
      var n := |s| - 2;
      EncodeDecode(s[..n]);
      ToHexAppend(FromHex(s[..n]), PairValue(s[n], s[n + 1]));
      HexOfPair(s[n], s[n + 1]);
      assert s == s[..n] + [s[n], s[n + 1]];
    }
  }

  method EncodeDigest(digest: seq<byte>) returns (encoded: seq<byte>)
    ensures encoded == ToHex(digest)
  {
    encoded := [];
    for i := 0 to |digest|
      invariant encoded == ToHex(digest[..i])
    {
      assert digest[..i + 1][..i] == digest[..i];
      encoded := encoded + HexOf(digest[i]);
    }
    assert digest[..|digest|] == digest;
  }

  function DecodedDigest(value: seq<byte>): Option<seq<byte>> {
    if ValidDigest(value) then Some(FromHex(value)) else None
  }

  /** The decoding loop, two input characters for each of the 32 output bytes. */
  method DecodeDigest(value: seq<byte>) returns (decoded: Option<seq<byte>>)
    ensures decoded == DecodedDigest(value)
  {
    if !ValidDigest(value) { return None; }
    var bytes: seq<byte> := [];
    for i := 0 to 32
      invariant bytes == FromHex(value[..2 * i])
    {
      assert value[..2 * i + 2][..2 * i] == value[..2 * i];
      bytes := bytes + [PairValue(value[2 * i], value[2 * i + 1])];
    }
    assert value[..64] == value;
    decoded := Some(bytes);
  }

  /** `constant_time_digest_equal`: both sides decode, and to the same bytes. */
  predicate DigestEqual(left: seq<byte>, right: seq<byte>) {
    DecodedDigest(left).Some? && DecodedDigest(left) == DecodedDigest(right)
  }

  lemma DigestEqualIsEquality(left: seq<byte>, right: seq<byte>)
    ensures DigestEqual(left, right) <==> left == right && ValidDigest(left)
  {
    if DigestEqual(left, right) {
      EncodeDecode(left);
      EncodeDecode(right);
    }
  }
}
