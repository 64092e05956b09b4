/** `hmac_sha256_hex` (receipt_chain.cpp) against section 2 of RFC 2104. */
module Hmac {
  import opened Bytes
  import opened Hex
  import Sha256

  const BLOCK_BYTES := 64

  function Xor(a: byte, b: byte): byte { ((a as bv8) ^ (b as bv8)) as int }

  // ----- section 2 of RFC 2104, for keys of at most one block

  /** Step (1): zeros are appended to the key to create a block. */
  function KeyBlock(key: seq<byte>): (r: seq<byte>)
    requires |key| <= BLOCK_BYTES
    ensures |r| == BLOCK_BYTES
  {
    key + seq(BLOCK_BYTES - |key|, _ => 0)
  }

  /** Steps (2) and (5): the block XORed with a repeated byte. */
  function XorPad(k: seq<byte>, pad: byte): (r: seq<byte>)
    ensures |r| == |k|
  {
    seq(|k|, i requires 0 <= i < |k| => Xor(k[i], pad))
  }

  function Rfc2104(key: seq<byte>, text: seq<byte>): (r: seq<byte>)
    requires |key| <= BLOCK_BYTES
    ensures |r| == 32
  {
    var k := KeyBlock(key);
    Sha256.Digest(XorPad(k, 0x5c) + Sha256.Digest(XorPad(k, 0x36) + text))
  }

  function HmacHex(key: seq<byte>, message: seq<byte>): Option<seq<byte>> {
    if |key| > BLOCK_BYTES || BLOCK_BYTES + |message| > Sha256.MAX_INPUT_BYTES then None
    else Some(ToHex(Rfc2104(key, message)))
  }

  // ----- the code

  lemma XorZero(pad: byte)
    ensures Xor(0, pad) == pad
  {
  }

  lemma XorCommutes(a: byte, b: byte)
    ensures Xor(a, b) == Xor(b, a)
  {
  }

  /** A pad filled with its byte, the key then XORed over its start, is the padded key XORed with the byte. */
  method FillPad(key: seq<byte>, fill: byte) returns (pad: array<byte>)
    requires |key| <= BLOCK_BYTES
    ensures fresh(pad) && pad[..] == XorPad(KeyBlock(key), fill)
  {
    pad := new byte[BLOCK_BYTES](_ => fill);
    for i := 0 to |key|
      invariant forall j :: 0 <= j < i ==> pad[j] == Xor(key[j], fill)
      invariant forall j :: i <= j < BLOCK_BYTES ==> pad[j] == fill
    {
      XorCommutes(pad[i], key[i]);
      pad[i] := Xor(pad[i], key[i]);
    }
    XorZero(fill);
    assert pad[..] == XorPad(KeyBlock(key), fill);
  }

  method HmacSha256Hex(key: seq<byte>, message: seq<byte>) returns (r: Option<seq<byte>>)
    ensures r == HmacHex(key, message)
  {
    if |key| > BLOCK_BYTES { return None; }
    var innerPad := FillPad(key, 0x36);
    var outerPad := FillPad(key, 0x5c);
    var innerHex := Sha256.Sha256Hex(innerPad[..] + message);
    if innerHex.None? { return None; }
    ghost var inner := Sha256.Digest(innerPad[..] + message);
    var innerDigest := DecodeDigest(innerHex.value);
    DecodeEncode(inner);
    assert innerDigest == Some(inner);
    r := Sha256.Sha256Hex(outerPad[..] + innerDigest.value);
  }
}
