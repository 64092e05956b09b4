/** The authenticated receipt chain of receipt_chain.cpp: producing, verifying, and what a head commits to. */
module AuditChain {
  import opened Bytes
  import opened Canonical
  import opened Hex
  import opened Histories
  import R = Receipts
  import F = RefinementReceipts

  datatype Payload = ResourcePayload(resource: R.ResourceReceipt) | RefinementPayload(refinement: F.RefinementReceipt)

  /** The hash, the keyed hash, and the digest of a receipt, all answering with lowercase hex digests. */
  datatype Crypto = Crypto(
    sha: F.Hash, mac: (seq<byte>, seq<byte>) -> seq<byte>, digest: Payload -> Option<seq<byte>>)
  {
    ghost predicate Digests() {
      && (forall m :: ValidDigest(sha(m)))
      && (forall k, m :: ValidDigest(mac(k, m)))
      && (forall p :: digest(p).Some? ==> ValidDigest(digest(p).value))
    }

    /** A receipt is digested by hashing its canonical bytes, and not at all if it is not valid. */
    ghost predicate HashesReceipts() { forall p :: digest(p) == DigestOf(sha, p) }
  }

  /** The authenticated envelope without its receipt. */
  datatype Header = Header(
    schemaVersion: byte,
    sequence: u64,
    keyId: seq<byte>,
    sessionId: seq<byte>,
    planDigest: seq<byte>,
    receiptDigest: seq<byte>,
    previousHmac: seq<byte>,
    thisHmac: seq<byte>)

  /** An authenticated envelope of either kind. */
  datatype Record = Record(h: Header, receipt: Payload)

  datatype Anchor = Anchor(keyId: seq<byte>, sequence: u64, head: seq<byte>)

  datatype Error =
    | InvalidSession
    | InvalidPlan
    | InvalidRefinementIdentity
    | SequenceExhausted
    | InvalidReceipt
    | UnsupportedSchema
    | SessionMismatch
    | PlanMismatch
    | KeyMismatch
    | SequenceMismatch
    | PreviousMismatch
    | ReceiptDigestMismatch
    | HmacMismatch

  // ----- keys and materials

  function KeyTokens(key: seq<byte>): seq<Token> {
    [Str(Ascii("glove.audit-key-id")), U8(1), U32(|key| % 0x1_0000_0000)] + seq(|key|, i requires 0 <= i < |key| => U8(key[i]))
  }

  function KeyId(c: Crypto, key: seq<byte>): seq<byte> { c.sha(Encode(KeyTokens(key))) }

  function Genesis(c: Crypto, key: seq<byte>): Anchor { Anchor(KeyId(c, key), 0, ZeroDigest()) }

  function ReceiptBytes(sha: F.Hash, p: Payload): Option<seq<byte>> {
    match p
    case ResourcePayload(r) => R.EncodeReceipt(r)
    case RefinementPayload(r) => F.EncodeRefinement(sha, r)
  }

  /** `resource_enforcement_receipt_digest` and `refinement_evaluation_receipt_digest` */
  function DigestOf(sha: F.Hash, p: Payload): Option<seq<byte>> {
    match ReceiptBytes(sha, p)
    case None => None
    case Some(b) => Some(sha(b))
  }

  function EnvelopeTag(p: Payload): seq<byte> {
    if p.ResourcePayload? then Ascii("glove.receipt-audit-envelope")
    else Ascii("glove.refinement-receipt-audit-envelope")
  }

  function MaterialTokens(tag: seq<byte>, h: Header): seq<Token> {
    [Str(tag), U8(1), U64(h.sequence), Str(h.keyId), Str(h.sessionId), Str(h.planDigest), Str(h.receiptDigest),
     Str(h.previousHmac)]
  }

  /** What the HMAC of a record is computed over. */
  function Material(r: Record): seq<byte> {
    Encode(MaterialTokens(EnvelopeTag(r.receipt), r.h))
  }

  // ----- producing and verifying

  function IdentityError(p: Payload, a: Anchor, sessionId: seq<byte>, planDigest: seq<byte>): Option<Error> {
    var bad := if !R.ValidIdentifier(sessionId) then Some(InvalidSession)
               else if !ValidDigest(planDigest) then Some(InvalidPlan)
               else if a.sequence == U64_MAX then Some(SequenceExhausted)
               else None;
    if bad.Some? && p.RefinementPayload? then Some(InvalidRefinementIdentity) else bad
  }

  /** The envelope appended after anchor `a`, or why there is none. */
  function Produce(c: Crypto, key: seq<byte>, a: Anchor, sessionId: seq<byte>, planDigest: seq<byte>, p: Payload)
    : Result<Record, Error>
  {
    var bad := IdentityError(p, a, sessionId, planDigest);
    if bad.Some? then Err(bad.value)
    else
      match c.digest(p)
      case None => Err(InvalidReceipt)
      case Some(d) =>
        var draft := Record(Header(1, a.sequence + 1, a.keyId, sessionId, planDigest, d, a.head, []), p);
        Ok(draft.(h := draft.h.(thisHmac := c.mac(key, Material(draft)))))
  }

  /**
   * A request is granted exactly if session and plan are well formed, the sequence has a successor and the receipt has
   * a digest; and what is granted carries just these, behind the anchor.
   */
  lemma ProduceExact(c: Crypto, key: seq<byte>, a: Anchor, sessionId: seq<byte>, planDigest: seq<byte>, p: Payload)
    ensures Produce(c, key, a, sessionId, planDigest, p).Ok?
        <==> R.ValidIdentifier(sessionId) && ValidDigest(planDigest) && a.sequence < U64_MAX && c.digest(p).Some?
    ensures Produce(c, key, a, sessionId, planDigest, p).Ok? ==>
              var r := Produce(c, key, a, sessionId, planDigest, p).value;
              && r.receipt == p
              && r.h == Header(1, a.sequence + 1, a.keyId, sessionId, planDigest, c.digest(p).value, a.head,
                               c.mac(key, Material(r)))
    ensures Produce(c, key, a, sessionId, planDigest, p) == Err(InvalidReceipt)
        <==> R.ValidIdentifier(sessionId) && ValidDigest(planDigest) && a.sequence < U64_MAX && c.digest(p).None?
  {
    hide R.ValidIdentifier, ValidDigest, EnvelopeTag, Encode;
  }

  function AnchorOf(r: Record): Anchor { Anchor(r.h.keyId, r.h.sequence, r.h.thisHmac) }

  /** `verify_receipt_audit_envelope` and its refinement twin, test by test. */
  function Verify(c: Crypto, key: seq<byte>, a: Anchor, r: Record, sessionId: seq<byte>, planDigest: seq<byte>)
    : Result<Anchor, Error>
  {
    Check(KeyId(c, key), c.digest(r.receipt), c.mac(key, Material(r)), a, r.h, sessionId, planDigest)
  }

  /** The tests, given the key identity, the receipt's digest and the expected HMAC. */
  function Check(keyId: seq<byte>, digest: Option<seq<byte>>, hmac: seq<byte>, a: Anchor, h: Header,
                 sessionId: seq<byte>, planDigest: seq<byte>): Result<Anchor, Error>
  {
    if h.schemaVersion != 1 then Err(UnsupportedSchema)
    else if !R.ValidIdentifier(sessionId) || h.sessionId != sessionId then Err(SessionMismatch)
    else if !ValidDigest(planDigest) || h.planDigest != planDigest then Err(PlanMismatch)
    else if a.keyId != keyId || h.keyId != keyId then Err(KeyMismatch)
    else if a.sequence == U64_MAX || h.sequence != a.sequence + 1 then Err(SequenceMismatch)
    else if !DigestEqual(h.previousHmac, a.head) then Err(PreviousMismatch)
    else if digest.None? || !DigestEqual(h.receiptDigest, digest.value) then Err(ReceiptDigestMismatch)
    else if !DigestEqual(h.thisHmac, hmac) then Err(HmacMismatch)
    else Ok(Anchor(a.keyId, h.sequence, h.thisHmac))
  }

  /** What an envelope has to be, to be accepted at an anchor for an expected session and plan. */
  predicate Acceptable(keyId: seq<byte>, digest: Option<seq<byte>>, hmac: seq<byte>, a: Anchor, h: Header,
                       sessionId: seq<byte>, planDigest: seq<byte>)
  {
    && h.schemaVersion == 1
    && h.sessionId == sessionId && R.ValidIdentifier(sessionId)
    && h.planDigest == planDigest && ValidDigest(planDigest)
    && h.keyId == keyId && a.keyId == keyId
    && h.sequence == a.sequence + 1
    && h.previousHmac == a.head && ValidDigest(a.head)
    && digest == Some(h.receiptDigest) && ValidDigest(h.receiptDigest)
    && h.thisHmac == hmac && ValidDigest(hmac)
  }

  /** The tests accept exactly those, and what is accepted becomes the anchor. */
  lemma CheckExact(keyId: seq<byte>, digest: Option<seq<byte>>, hmac: seq<byte>, a: Anchor, h: Header,
                   sessionId: seq<byte>, planDigest: seq<byte>)
    ensures Check(keyId, digest, hmac, a, h, sessionId, planDigest).Ok?
        <==> Acceptable(keyId, digest, hmac, a, h, sessionId, planDigest)
    ensures Acceptable(keyId, digest, hmac, a, h, sessionId, planDigest) ==>
              Check(keyId, digest, hmac, a, h, sessionId, planDigest).value == Anchor(keyId, h.sequence, h.thisHmac)
  {
    hide ValidDigest, R.ValidIdentifier;
    DigestEqualIsEquality(h.previousHmac, a.head);
    if digest.Some? { DigestEqualIsEquality(h.receiptDigest, digest.value); }
    DigestEqualIsEquality(h.thisHmac, hmac);
  }

  lemma CheckFacts(keyId: seq<byte>, digest: Option<seq<byte>>, hmac: seq<byte>, a: Anchor, h: Header,
                   sessionId: seq<byte>, planDigest: seq<byte>)
    requires Check(keyId, digest, hmac, a, h, sessionId, planDigest).Ok?
    ensures h.schemaVersion == 1 && h.sequence == a.sequence + 1 && h.keyId == a.keyId == keyId
    ensures h.sessionId == sessionId && h.planDigest == planDigest
    ensures h.previousHmac == a.head && digest == Some(h.receiptDigest) && h.thisHmac == hmac
    ensures |h.sessionId| <= 128 && |h.planDigest| == |h.receiptDigest| == |h.previousHmac| == 64
  {
    CheckExact(keyId, digest, hmac, a, h, sessionId, planDigest);
  }

  /** Verification binds a record to its key, its place in the chain, its receipt, its session and its plan. */
  lemma VerifyExact(c: Crypto, key: seq<byte>, a: Anchor, r: Record, sessionId: seq<byte>, planDigest: seq<byte>)
    ensures Verify(c, key, a, r, sessionId, planDigest).Ok?
        <==> Acceptable(KeyId(c, key), c.digest(r.receipt), c.mac(key, Material(r)), a, r.h, sessionId, planDigest)
    ensures r.h.sessionId != sessionId || r.h.planDigest != planDigest ==>
              Verify(c, key, a, r, sessionId, planDigest).Err?
    ensures Verify(c, key, a, r, sessionId, planDigest).Ok? ==>
              Verify(c, key, a, r, sessionId, planDigest).value == AnchorOf(r)
  {
    CheckExact(KeyId(c, key), c.digest(r.receipt), c.mac(key, Material(r)), a, r.h, sessionId, planDigest);
  }

  /** Verification against the record's own session and plan, as recovery does it. */
  function VerifySelf(c: Crypto, key: seq<byte>, a: Anchor, r: Record): Result<Anchor, Error> {
    Verify(c, key, a, r, r.h.sessionId, r.h.planDigest)
  }

  function Accepted(r: Result<Anchor, Error>): Option<Anchor> {
    match r
    case Ok(a) => Some(a)
    case Err(_) => None
  }

  function Verifier(c: Crypto, key: seq<byte>): Acceptor<Anchor, Record> {
    (a, r) => Accepted(VerifySelf(c, key, a, r))
  }

  /** The anchor reached by verifying a history in order; none as soon as one record is refused. */
  function VerifyAll(c: Crypto, key: seq<byte>, a: Anchor, rs: seq<Record>): Option<Anchor> {
    Accept(Verifier(c, key), a, rs)
  }

  /** An accepted record becomes the anchor. */
  lemma VerifiedAnchor(c: Crypto, key: seq<byte>, a: Anchor, r: Record)
    requires VerifySelf(c, key, a, r).Ok?
    ensures VerifySelf(c, key, a, r).value == AnchorOf(r)
    ensures r.h.sequence == a.sequence + 1 && r.h.keyId == a.keyId && ValidDigest(r.h.thisHmac)
  {
  }

  /** An accepted history advances the sequence by its length, keeps the key, and ends at its last HMAC. */
  lemma {:induction false} VerifyAllAnchor(c: Crypto, key: seq<byte>, a: Anchor, rs: seq<Record>)
    requires VerifyAll(c, key, a, rs).Some?
    ensures VerifyAll(c, key, a, rs).value.sequence == a.sequence + |rs|
    ensures VerifyAll(c, key, a, rs).value.keyId == a.keyId
    ensures rs != [] ==> VerifyAll(c, key, a, rs).value == AnchorOf(rs[|rs| - 1])
  {
    if rs != [] {
      var b := VerifyAll(c, key, a, rs[..|rs| - 1]);
      VerifyAllAnchor(c, key, a, rs[..|rs| - 1]);
      VerifiedAnchor(c, key, b.value, rs[|rs| - 1]);
    }
  }

  /** Record `i` of an accepted history carries sequence number `i + 1` past the start. */
  lemma VerifyAllSequence(c: Crypto, key: seq<byte>, a: Anchor, rs: seq<Record>, i: nat)
    requires VerifyAll(c, key, a, rs).Some? && i < |rs|
    ensures rs[i].h.sequence == a.sequence + i + 1
  {
    AcceptPrefix(Verifier(c, key), a, rs, i + 1);
    VerifyAllAnchor(c, key, a, rs[..i + 1]);
  }

  // ----- producer and verifier agree

  lemma MaterialIgnoresHmac(r: Record, h: seq<byte>)
    ensures Material(r.(h := r.h.(thisHmac := h))) == Material(r)
  {
  }

  /** Whatever is produced after an anchor is accepted at it, for the session and plan it was produced for. */
  lemma ProducedIsAccepted(c: Crypto, key: seq<byte>, a: Anchor, sessionId: seq<byte>, planDigest: seq<byte>, p: Payload)
    requires c.Digests() && a.keyId == KeyId(c, key) && ValidDigest(a.head)
    requires Produce(c, key, a, sessionId, planDigest, p).Ok?
    ensures var r := Produce(c, key, a, sessionId, planDigest, p).value;
            && Verify(c, key, a, r, sessionId, planDigest) == Ok(AnchorOf(r))
            && ValidDigest(r.h.thisHmac)
            && r.h.sessionId == sessionId && r.h.planDigest == planDigest && r.receipt == p
  {
    var r := Produce(c, key, a, sessionId, planDigest, p).value;
    MaterialIgnoresHmac(r, []);
    DigestEqualIsEquality(a.head, a.head);
    DigestEqualIsEquality(r.h.receiptDigest, r.h.receiptDigest);
    DigestEqualIsEquality(r.h.thisHmac, r.h.thisHmac);
  }

  datatype Request = Request(sessionId: seq<byte>, planDigest: seq<byte>, payload: Payload)

  /** A run of a producer: refused requests leave it where it was. */
  function ProduceAll(c: Crypto, key: seq<byte>, a: Anchor, qs: seq<Request>): (seq<Record>, Anchor) {
    if qs == [] then ([], a)
    else
      var (rs, b) := ProduceAll(c, key, a, qs[..|qs| - 1]);
      var q := qs[|qs| - 1];
      match Produce(c, key, b, q.sessionId, q.planDigest, q.payload)
      case Err(_) => (rs, b)
      case Ok(r) => (rs + [r], AnchorOf(r))
  }

  /** Every run of the producer is accepted in order and leaves the verifier at the producer's sequence and head. */
  lemma {:induction false} RunsAreAccepted(c: Crypto, key: seq<byte>, qs: seq<Request>)
    requires c.Digests()
    ensures var (rs, end) := ProduceAll(c, key, Genesis(c, key), qs);
            VerifyAll(c, key, Genesis(c, key), rs) == Some(end) && end.keyId == KeyId(c, key) && ValidDigest(end.head)
  {
    hide Produce, Verify, KeyId, ValidDigest, Material, R.ValidIdentifier;
    if qs != [] {
      RunsAreAccepted(c, key, qs[..|qs| - 1]);
      var (rs, b) := ProduceAll(c, key, Genesis(c, key), qs[..|qs| - 1]);
      var q := qs[|qs| - 1];
      var p := Produce(c, key, b, q.sessionId, q.planDigest, q.payload);
      if p.Ok? {
        ProducedIsAccepted(c, key, b, q.sessionId, q.planDigest, q.payload);
        ProduceExact(c, key, b, q.sessionId, q.planDigest, q.payload);
        AcceptAppend(Verifier(c, key), Genesis(c, key), rs, p.value);
      }
    }
  }

  // ----- the head determines the history

  ghost predicate ShortPaths(r: Record) {
    match r.receipt
    case ResourcePayload(x) => R.ShortPaths(x)
    case RefinementPayload(x) => R.ShortPaths(x.resource)
  }

  /** The two records do not witness a collision of the keyed hash or of the hash. */
  ghost predicate NoCollision(c: Crypto, key: seq<byte>, r: Record, q: Record) {
    && (c.mac(key, Material(r)) == c.mac(key, Material(q)) ==> Material(r) == Material(q))
    && NoDigestCollision(c, r.receipt, q.receipt)
  }

  ghost predicate NoDigestCollision(c: Crypto, p: Payload, q: Payload) {
    && (c.digest(p).Some? && c.digest(p) == c.digest(q) ==> ReceiptBytes(c.sha, p) == ReceiptBytes(c.sha, q))
    && (p.RefinementPayload? && q.RefinementPayload? ==>
          F.CollisionFree(c.sha, R.Canonicalize(p.refinement.resource), R.Canonicalize(q.refinement.resource)))
  }

  lemma TagsDiffer(p: Payload, q: Payload)
    requires EnvelopeTag(p) == EnvelopeTag(q)
    ensures p.ResourcePayload? == q.ResourcePayload?
  {
  }

  /** Every string of the material is short enough for its length prefix. */
  predicate ShortHeader(h: Header) {
    && |h.keyId| == |h.planDigest| == |h.receiptDigest| == |h.previousHmac| == 64
    && |h.sessionId| <= 128
  }

  lemma HeaderInjective(t: seq<byte>, h: Header, u: seq<byte>, g: Header)
    requires |t| < 100 && |u| < 100 && ShortHeader(h) && ShortHeader(g)
    requires Encode(MaterialTokens(t, h)) == Encode(MaterialTokens(u, g))
    ensures t == u && h.(schemaVersion := 1, thisHmac := []) == g.(schemaVersion := 1, thisHmac := [])
  {
    var a, b := MaterialTokens(t, h), MaterialTokens(u, g);
    assert Encode(a) + [] == Encode(a) && Encode(b) + [] == Encode(b);
    ShapeCancel(a, [], b, []);
    assert a[0] == b[0] && a[2] == b[2] && a[3] == b[3] && a[4] == b[4] && a[5] == b[5] && a[6] == b[6] && a[7] == b[7];
  }

  /** What acceptance says about a record, with string equalities in place of digest comparisons. */
  lemma AcceptedFacts(c: Crypto, key: seq<byte>, a: Anchor, r: Record)
    requires c.Digests() && VerifySelf(c, key, a, r).Ok?
    ensures r.h.schemaVersion == 1 && r.h.sequence == a.sequence + 1
    ensures r.h.keyId == a.keyId == KeyId(c, key) && r.h.previousHmac == a.head
    ensures c.digest(r.receipt) == Some(r.h.receiptDigest)
    ensures r.h.thisHmac == c.mac(key, Material(r))
    ensures ShortHeader(r.h)
  {
    CheckFacts(KeyId(c, key), c.digest(r.receipt), c.mac(key, Material(r)), a, r.h, r.h.sessionId, r.h.planDigest);
  }

  lemma SameMaterial(r: Record, q: Record)
    requires ShortHeader(r.h) && ShortHeader(q.h) && Material(r) == Material(q)
    ensures r.receipt.ResourcePayload? == q.receipt.ResourcePayload?
    ensures r.h.(schemaVersion := 1, thisHmac := []) == q.h.(schemaVersion := 1, thisHmac := [])
  {
    HeaderInjective(EnvelopeTag(r.receipt), r.h, EnvelopeTag(q.receipt), q.h);
    TagsDiffer(r.receipt, q.receipt);
  }

  lemma PayloadDetermined(c: Crypto, key: seq<byte>, r: Record, q: Record)
    requires c.Digests() && c.HashesReceipts() && NoCollision(c, key, r, q) && ShortPaths(r) && ShortPaths(q)
    requires r.receipt.ResourcePayload? == q.receipt.ResourcePayload?
    requires c.digest(r.receipt).Some? && c.digest(r.receipt) == c.digest(q.receipt)
    ensures r.receipt == q.receipt
  {
    if r.receipt.ResourcePayload? {
      R.EncodingInjective(r.receipt.resource, q.receipt.resource);
    } else {
      F.EncodingInjective(c.sha, r.receipt.refinement, q.receipt.refinement);
    }
  }

  /** Two accepted records with the same HMAC are the same record, and were accepted at the same anchor. */
  lemma RecordDetermined(c: Crypto, key: seq<byte>, a: Anchor, r: Record, b: Anchor, q: Record)
    requires c.Digests() && c.HashesReceipts() && NoCollision(c, key, r, q) && ShortPaths(r) && ShortPaths(q)
    requires VerifySelf(c, key, a, r).Ok? && VerifySelf(c, key, b, q).Ok?
    requires r.h.thisHmac == q.h.thisHmac
    ensures r == q && a == b
  {
    AcceptedFacts(c, key, a, r);
    AcceptedFacts(c, key, b, q);
    SameMaterial(r, q);
    PayloadDetermined(c, key, r, q);
  }

  /** No two records of the histories witness a collision, and every path length survives its prefix. */
  ghost predicate Apart(c: Crypto, key: seq<byte>, rs: seq<Record>, qs: seq<Record>) {
    && (forall r, q :: r in rs && q in qs ==> NoCollision(c, key, r, q))
    && (forall r :: r in rs ==> ShortPaths(r))
    && (forall q :: q in qs ==> ShortPaths(q))
  }

  lemma ApartParts(c: Crypto, key: seq<byte>, rs: seq<Record>, r: Record, qs: seq<Record>, q: Record)
    requires Apart(c, key, rs + [r], qs + [q])
    ensures Apart(c, key, rs, qs) && NoCollision(c, key, r, q) && ShortPaths(r) && ShortPaths(q)
  {
    hide NoCollision, ShortPaths;
    assert r in rs + [r] && q in qs + [q];
  }

  /** Two histories that verify from the same start to the same anchor are equal, element by element. */
  lemma {:induction false} HeadDeterminesHistory(c: Crypto, key: seq<byte>, start: Anchor, rs: seq<Record>, qs: seq<Record>)
    requires c.Digests() && c.HashesReceipts() && Apart(c, key, rs, qs)
    requires VerifyAll(c, key, start, rs).Some? && VerifyAll(c, key, start, rs) == VerifyAll(c, key, start, qs)
    ensures rs == qs
  {
    hide NoCollision, Verify, ShortPaths;
    VerifyAllAnchor(c, key, start, rs);
    VerifyAllAnchor(c, key, start, qs);
    if rs != [] {
      var before, r := Unsnoc(rs);
      var others, q := Unsnoc(qs);
      ApartParts(c, key, before, r, others, q);
      var a, b := VerifyAll(c, key, start, before).value, VerifyAll(c, key, start, others).value;
      RecordDetermined(c, key, a, r, b, q);
      HeadDeterminesHistory(c, key, start, before, others);
    }
  }

  // ----- the objects that hold a chain and an anchor

  /** `receipt_audit_chain`: the sequence and the head advance in place with every envelope produced. */
  class Chain {
    const crypto: Crypto
    const key: seq<byte>
    const keyId: seq<byte>
    var sequence: u64
    var head: seq<byte>

    ghost predicate Valid() { keyId == KeyId(crypto, key) }

    function At(): Anchor
      reads this
    {
      Anchor(keyId, sequence, head)
    }

    constructor (c: Crypto, k: seq<byte>)
      ensures Valid() && crypto == c && key == k && At() == Genesis(c, k)
    {
      crypto, key, keyId := c, k, KeyId(c, k);
      sequence, head := 0, ZeroDigest();
    }

    /** `append` and `append_refinement`: one more envelope, or a refusal that changes nothing. */
    method Append(sessionId: seq<byte>, planDigest: seq<byte>, receipt: Payload) returns (r: Result<Record, Error>)
      modifies this
      ensures r == Produce(crypto, key, old(At()), sessionId, planDigest, receipt)
      ensures At() == if r.Ok? then Anchor(keyId, old(sequence) + 1, r.value.h.thisHmac) else old(At())
    {
      if !R.ValidIdentifier(sessionId) || !ValidDigest(planDigest) || sequence == U64_MAX {
        if receipt.RefinementPayload? { return Err(InvalidRefinementIdentity); }
        if !R.ValidIdentifier(sessionId) { return Err(InvalidSession); }
        if !ValidDigest(planDigest) { return Err(InvalidPlan); }
        return Err(SequenceExhausted);
      }
      var digest := crypto.digest(receipt);
      if digest.None? { return Err(InvalidReceipt); }
      var next := sequence + 1;
      var draft := Record(Header(1, next, keyId, sessionId, planDigest, digest.value, head, []), receipt);
      var envelope := draft.(h := draft.h.(thisHmac := crypto.mac(key, Material(draft))));
      sequence := envelope.h.sequence;
      head := envelope.h.thisHmac;
      r := Ok(envelope);
    }
  }

  /** `receipt_audit_anchor`: a verifier's own sequence and head, advanced only by accepted envelopes. */
  class TrustedAnchor {
    const keyId: seq<byte>
    var sequence: u64
    var head: seq<byte>

    function At(): Anchor
      reads this
    {
      Anchor(keyId, sequence, head)
    }

    constructor (c: Crypto, key: seq<byte>)
      ensures At() == Genesis(c, key)
    {
      keyId := KeyId(c, key);
      sequence, head := 0, ZeroDigest();
    }

    /** Accept and advance, or refuse and stay. */
    method Advance(c: Crypto, key: seq<byte>, r: Record, sessionId: seq<byte>, planDigest: seq<byte>)
      returns (refused: Option<Error>)
      modifies this
      ensures match Verify(c, key, old(At()), r, sessionId, planDigest)
              case Ok(a) => refused == None && At() == a
              case Err(e) => refused == Some(e) && At() == old(At())
    {
      var expectedKey := KeyId(c, key);
      if r.h.schemaVersion != 1 { return Some(UnsupportedSchema); }
      if !R.ValidIdentifier(sessionId) || r.h.sessionId != sessionId { return Some(SessionMismatch); }
      if !ValidDigest(planDigest) || r.h.planDigest != planDigest { return Some(PlanMismatch); }
      if keyId != expectedKey || r.h.keyId != expectedKey { return Some(KeyMismatch); }
      if sequence == U64_MAX || r.h.sequence != sequence + 1 { return Some(SequenceMismatch); }
      if !DigestEqual(r.h.previousHmac, head) { return Some(PreviousMismatch); }
      var digest := c.digest(r.receipt);
      if digest.None? || !DigestEqual(r.h.receiptDigest, digest.value) { return Some(ReceiptDigestMismatch); }
      if !DigestEqual(r.h.thisHmac, c.mac(key, Material(r))) { return Some(HmacMismatch); }
      sequence, head := r.h.sequence, r.h.thisHmac;
      refused := None;
    }
  }
}
