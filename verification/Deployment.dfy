/** The chain with the hash and the keyed hash it is deployed with. */
module Deployment {
  import opened Bytes
  import opened Canonical
  import opened Hex
  import opened AuditChain
  import Sha256
  import Hmac

  /** `sha256_hex` and `hmac_sha256_hex`; where the code reports an error for an input too long, this answers zeros. */
  function Deployed(): Crypto {
    Crypto(
      Sha256.DigestHex,
      (k, m) => match Hmac.HmacHex(k, m) case Some(d) => d case None => ZeroDigest(),
      p => DigestOf(Sha256.DigestHex, p))
  }

  /** All answer with lowercase hex digests and receipts are hashed, so every theorem about the chain holds of it. */
  lemma DeployedDigests()
    ensures Deployed().Digests() && Deployed().HashesReceipts()
  {
    hide Sha256.Digest, Hmac.Rfc2104, ReceiptBytes;
    forall k, m
      ensures ValidDigest(Deployed().mac(k, m))
    {
    }
    forall p: Payload
      ensures Deployed().digest(p).Some? ==> ValidDigest(Deployed().digest(p).value)
    {
      assert Deployed().digest(p) == DigestOf(Sha256.DigestHex, p);
    }
  }

  lemma {:induction false} EncodeSize(ts: seq<Token>)
    requires forall t :: t in ts ==> |EncodeToken(t)| <= 132
    ensures |Encode(ts)| <= 132 * |ts|
  {
    hide EncodeToken;
    if ts != [] {
      EncodeSize(ts[1..]);
    }
  }

  lemma MaterialSize(t: seq<byte>, h: Header)
    requires |t| < 100 && ShortHeader(h)
    ensures |Encode(MaterialTokens(t, h))| <= 132 * 8
  {
    EncodeSize(MaterialTokens(t, h));
  }

  /** On the 32-byte key and every accepted record the keyed hash is the HMAC of RFC 2104: the zeros never occur. */
  lemma MacIsHmac(key: seq<byte>, a: Anchor, r: Record)
    requires |key| == 32 && VerifySelf(Deployed(), key, a, r).Ok?
    ensures Hmac.HmacHex(key, Material(r)) == Some(r.h.thisHmac)
    ensures r.h.thisHmac == ToHex(Hmac.Rfc2104(key, Material(r)))
  {
    DeployedDigests();
    AcceptedFacts(Deployed(), key, a, r);
    MaterialSize(EnvelopeTag(r.receipt), r.h);
  }
}
