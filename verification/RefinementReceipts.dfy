/** Refinement-evaluation receipts: what makes their evidence valid, and their canonical byte form. */
module RefinementReceipts {
  import opened Bytes
  import opened Canonical
  import opened Hex
  import Outcome
  import R = Receipts

  /** A hash that answers with a lowercase hex digest. */
  type Hash = seq<byte> -> seq<byte>

  datatype Variant = Base | Candidate

  datatype EvidenceStatus = ValidOutcome | InvalidOutcome

  datatype Projection = Projection(projectionId: seq<byte>, contentDigest: seq<byte>, destinationAlias: seq<byte>)

  datatype Commitment = Commitment(schema: seq<byte>, encoding: seq<byte>, digest: seq<byte>, byteLength: u64)

  datatype Transcript = Transcript(schema: seq<byte>, digest: seq<byte>, byteCount: u64, complete: bool)

  datatype Evaluator = Evaluator(
    schema: seq<byte>, fixtureComplete: bool, transcriptUtf8: bool, requiredLiterals: u32, forbiddenLiterals: u32)

  datatype RefinementReceipt = RefinementReceipt(
    schemaVersion: byte,
    runtimeTemplateId: seq<byte>,
    resource: R.ResourceReceipt,
    status: EvidenceStatus,
    variant: Variant,
    fixture: Projection,
    base: Projection,
    candidate: Projection,
    matchedContextDigest: seq<byte>,
    outcome: Commitment,
    evaluated: Option<Outcome.RefinementOutcome>,
    transcript: Transcript,
    evaluator: Evaluator)

  const RECEIPT_SCHEMA_VERSION: byte := 1

  function RuntimeTemplate(): seq<byte> { Ascii("refinement-eval-v1") }

  function TranscriptSchema(): seq<byte> { Ascii("glove.raw-pty-transcript-v1") }

  function EvaluatorSchema(): seq<byte> { Ascii("glove.declarative-refinement-evaluator-v1") }

  function StatusName(s: EvidenceStatus): seq<byte> {
    match s
    case ValidOutcome => Ascii("valid_outcome")
    case InvalidOutcome => Ascii("invalid_outcome")
  }

  function VariantName(v: Variant): seq<byte> {
    match v
    case Base => Ascii("base")
    case Candidate => Ascii("candidate")
  }

  predicate ValidToken(v: seq<byte>, maxBytes: nat) {
    0 < |v| <= maxBytes && forall i :: 0 <= i < |v| ==> v[i] >= 0x20 && v[i] != 0x7f
  }

  predicate ValidProjection(p: Projection) {
    ValidToken(p.projectionId, 128) && ValidDigest(p.contentDigest) && ValidToken(p.destinationAlias, 128)
  }

  function EmptyCommitment(sha: Hash): Commitment {
    Commitment(Outcome.OutcomeSchema(), Outcome.OutcomeEncoding(), sha([]), 0)
  }

  /** The commitment to an outcome; none when the outcome has no canonical form. */
  function OutcomeCommitment(sha: Hash, o: Outcome.RefinementOutcome): Option<Commitment> {
    match Outcome.CanonicalBytes(o)
    case None => None
    case Some(b) => Some(Commitment(o.schema, o.encoding, sha(b), |b|))
  }

  predicate ValidEvidence(sha: Hash, r: RefinementReceipt) {
    && r.schemaVersion == RECEIPT_SCHEMA_VERSION
    && r.runtimeTemplateId == RuntimeTemplate()
    && ValidProjection(r.fixture)
    && ValidProjection(r.base)
    && ValidProjection(r.candidate)
    && ValidDigest(r.matchedContextDigest)
    && r.outcome.schema == Outcome.OutcomeSchema()
    && r.outcome.encoding == Outcome.OutcomeEncoding()
    && ValidDigest(r.outcome.digest)
    && r.outcome.byteLength <= Outcome.MAX_FIXTURE_BYTES
    && r.transcript.schema == TranscriptSchema()
    && ValidDigest(r.transcript.digest)
    && r.transcript.byteCount == r.resource.observed.terminalOutputBytes
    && r.evaluator.schema == EvaluatorSchema()
    && match r.status {
         case ValidOutcome =>
           && r.evaluated.Some?
           && r.transcript.complete
           && r.evaluator.fixtureComplete
           && r.evaluator.transcriptUtf8
           && r.outcome.byteLength != 0
           && OutcomeCommitment(sha, r.evaluated.value) == Some(r.outcome)
         case InvalidOutcome =>
           && r.evaluated.None?
           && r.outcome == EmptyCommitment(sha)
           && (!r.transcript.complete || !r.evaluator.transcriptUtf8)
       }
  }

  // ----- canonical form

  function HeadTokens(resourceDigest: seq<byte>, r: RefinementReceipt): seq<Token> {
    [Str(Ascii("glove.refinement-evaluation-receipt")), U8(2), U8(r.schemaVersion), Str(r.runtimeTemplateId),
     Str(resourceDigest), Str(StatusName(r.status)), Str(VariantName(r.variant))]
  }

  function ProjectionTokens(p: Projection): seq<Token> {
    [Str(p.projectionId), Str(p.contentDigest), Str(p.destinationAlias)]
  }

  function OutcomeTokens(r: RefinementReceipt): seq<Token> {
    [Str(r.matchedContextDigest), Str(r.outcome.schema), Str(r.outcome.encoding), Str(r.outcome.digest),
     U64(r.outcome.byteLength), R.Flag(r.evaluated.Some?)]
  }

  function EvaluatedTokens(o: Option<Outcome.RefinementOutcome>): seq<Token>
    requires o.Some? ==> Outcome.CanonicalBytes(o.value).Some?
  {
    if o.None? then [] else [Str(Outcome.CanonicalBytes(o.value).value)]
  }

  function TranscriptTokens(t: Transcript): seq<Token> {
    [Str(t.schema), Str(t.digest), U64(t.byteCount), R.Flag(t.complete)]
  }

  function EvaluatorTokens(e: Evaluator): seq<Token> {
    [Str(e.schema), R.Flag(e.fixtureComplete), R.Flag(e.transcriptUtf8), U32(e.requiredLiterals),
     U32(e.forbiddenLiterals)]
  }

  function FromOutcome(r: RefinementReceipt): seq<byte>
    requires r.evaluated.Some? ==> Outcome.CanonicalBytes(r.evaluated.value).Some?
  {
    Encode(OutcomeTokens(r)) + (Encode(EvaluatedTokens(r.evaluated)) + (Encode(TranscriptTokens(r.transcript))
      + Encode(EvaluatorTokens(r.evaluator))))
  }

  function Canonicalize(resourceDigest: seq<byte>, r: RefinementReceipt): seq<byte>
    requires r.evaluated.Some? ==> Outcome.CanonicalBytes(r.evaluated.value).Some?
  {
    Encode(HeadTokens(resourceDigest, r)) + (Encode(ProjectionTokens(r.fixture)) + (Encode(ProjectionTokens(r.base))
      + (Encode(ProjectionTokens(r.candidate)) + FromOutcome(r))))
  }

  /** The bytes hashed by `refinement_evaluation_receipt_digest`. */
  function EncodeRefinement(sha: Hash, r: RefinementReceipt): Option<seq<byte>> {
    var resource := R.EncodeReceipt(r.resource);
    if resource.None? || !ValidEvidence(sha, r) then None
    else Some(Canonicalize(sha(resource.value), r))
  }

  // ----- injectivity

  lemma ProjectionCancel(p: Projection, s: seq<byte>, q: Projection, t: seq<byte>)
    requires ValidProjection(p) && ValidProjection(q)
    requires Encode(ProjectionTokens(p)) + s == Encode(ProjectionTokens(q)) + t
    ensures p == q && s == t
  {
    var a, b := ProjectionTokens(p), ProjectionTokens(q);
    ShapeCancel(a, s, b, t);
    assert a[0] == b[0] && a[1] == b[1] && a[2] == b[2];
  }

  lemma HeadCancel(d: seq<byte>, r: RefinementReceipt, s: seq<byte>, e: seq<byte>, q: RefinementReceipt, t: seq<byte>)
    requires |d| == |e| == 64 && |r.runtimeTemplateId| < 100 && |q.runtimeTemplateId| < 100
    requires Encode(HeadTokens(d, r)) + s == Encode(HeadTokens(e, q)) + t
    ensures d == e && r.schemaVersion == q.schemaVersion && r.runtimeTemplateId == q.runtimeTemplateId
    ensures r.status == q.status && r.variant == q.variant && s == t
  {
    var a, b := HeadTokens(d, r), HeadTokens(e, q);
    ShapeCancel(a, s, b, t);
    assert a[2] == b[2] && a[3] == b[3] && a[4] == b[4] && a[5] == b[5] && a[6] == b[6];
  }

  lemma OutcomeCancel(r: RefinementReceipt, s: seq<byte>, q: RefinementReceipt, t: seq<byte>)
    requires AllRepresentable(OutcomeTokens(r)) && AllRepresentable(OutcomeTokens(q))
    requires Encode(OutcomeTokens(r)) + s == Encode(OutcomeTokens(q)) + t
    ensures r.matchedContextDigest == q.matchedContextDigest && r.outcome == q.outcome
    ensures r.evaluated.Some? == q.evaluated.Some? && s == t
  {
    var a, b := OutcomeTokens(r), OutcomeTokens(q);
    ShapeCancel(a, s, b, t);
    assert a[0] == b[0] && a[1] == b[1] && a[2] == b[2] && a[3] == b[3] && a[4] == b[4] && a[5] == b[5];
  }

  lemma EvaluatedCancel(o: Option<Outcome.RefinementOutcome>, s: seq<byte>,
                        p: Option<Outcome.RefinementOutcome>, t: seq<byte>)
    requires o.Some? == p.Some?
    requires o.Some? ==> Outcome.CanonicalBytes(o.value).Some? && Outcome.CanonicalBytes(p.value).Some?
    requires Encode(EvaluatedTokens(o)) + s == Encode(EvaluatedTokens(p)) + t
    ensures o == p && s == t
  {
    ShapeCancel(EvaluatedTokens(o), s, EvaluatedTokens(p), t);
    if o.Some? {
      assert EvaluatedTokens(o)[0] == EvaluatedTokens(p)[0];
      Outcome.CanonicalInjective(o.value, p.value);
    }
  }

  lemma TranscriptCancel(x: Transcript, s: seq<byte>, y: Transcript, t: seq<byte>)
    requires AllRepresentable(TranscriptTokens(x)) && AllRepresentable(TranscriptTokens(y))
    requires Encode(TranscriptTokens(x)) + s == Encode(TranscriptTokens(y)) + t
    ensures x == y && s == t
  {
    var a, b := TranscriptTokens(x), TranscriptTokens(y);
    ShapeCancel(a, s, b, t);
    assert a[0] == b[0] && a[1] == b[1] && a[2] == b[2] && a[3] == b[3];
  }

  lemma EvaluatorInjective(x: Evaluator, y: Evaluator)
    requires AllRepresentable(EvaluatorTokens(x)) && AllRepresentable(EvaluatorTokens(y))
    requires Encode(EvaluatorTokens(x)) == Encode(EvaluatorTokens(y))
    ensures x == y
  {
    var a, b := EvaluatorTokens(x), EvaluatorTokens(y);
    assert Encode(a) + [] == Encode(a) && Encode(b) + [] == Encode(b);
    ShapeCancel(a, [], b, []);
    assert a[0] == b[0] && a[1] == b[1] && a[2] == b[2] && a[3] == b[3] && a[4] == b[4];
  }

  lemma EvidenceBounds(sha: Hash, r: RefinementReceipt)
    requires ValidEvidence(sha, r)
    ensures |r.runtimeTemplateId| < 100
    ensures AllRepresentable(OutcomeTokens(r)) && AllRepresentable(TranscriptTokens(r.transcript))
    ensures AllRepresentable(EvaluatorTokens(r.evaluator))
  {
  }

  lemma FromOutcomeInjective(sha: Hash, r: RefinementReceipt, q: RefinementReceipt)
    requires ValidEvidence(sha, r) && ValidEvidence(sha, q)
    requires FromOutcome(r) == FromOutcome(q)
    ensures r.matchedContextDigest == q.matchedContextDigest && r.outcome == q.outcome
    ensures r.evaluated == q.evaluated && r.transcript == q.transcript && r.evaluator == q.evaluator
  {
    EvidenceBounds(sha, r);
    EvidenceBounds(sha, q);
    var v, w := Encode(EvaluatorTokens(r.evaluator)), Encode(EvaluatorTokens(q.evaluator));
    var a, b := Encode(TranscriptTokens(r.transcript)) + v, Encode(TranscriptTokens(q.transcript)) + w;
    OutcomeCancel(r, Encode(EvaluatedTokens(r.evaluated)) + a, q, Encode(EvaluatedTokens(q.evaluated)) + b);
    EvaluatedCancel(r.evaluated, a, q.evaluated, b);
    TranscriptCancel(r.transcript, v, q.transcript, w);
    EvaluatorInjective(r.evaluator, q.evaluator);
  }

  /** No collision between the two inputs. */
  ghost predicate CollisionFree(h: Hash, x: seq<byte>, y: seq<byte>) {
    h(x) == h(y) ==> x == y
  }

  /** Refinement receipts with equal canonical bytes are equal, up to a hash collision of their resource receipts. */
  lemma EncodingInjective(sha: Hash, r: RefinementReceipt, q: RefinementReceipt)
    requires EncodeRefinement(sha, r).Some? && EncodeRefinement(sha, r) == EncodeRefinement(sha, q)
    requires R.ShortPaths(r.resource) && R.ShortPaths(q.resource)
    requires forall m :: ValidDigest(sha(m))
    requires CollisionFree(sha, R.Canonicalize(r.resource), R.Canonicalize(q.resource))
    ensures r == q
  {
    hide Encode, HeadTokens, ProjectionTokens, FromOutcome, R.Valid;
    EvidenceBounds(sha, r);
    EvidenceBounds(sha, q);
    var d, e := sha(R.Canonicalize(r.resource)), sha(R.Canonicalize(q.resource));
    var r3, q3 := Encode(ProjectionTokens(r.candidate)) + FromOutcome(r), Encode(ProjectionTokens(q.candidate)) + FromOutcome(q);
    var r2, q2 := Encode(ProjectionTokens(r.base)) + r3, Encode(ProjectionTokens(q.base)) + q3;
    HeadCancel(d, r, Encode(ProjectionTokens(r.fixture)) + r2, e, q, Encode(ProjectionTokens(q.fixture)) + q2);
    ProjectionCancel(r.fixture, r2, q.fixture, q2);
    ProjectionCancel(r.base, r3, q.base, q3);
    ProjectionCancel(r.candidate, FromOutcome(r), q.candidate, FromOutcome(q));
    FromOutcomeInjective(sha, r, q);
    R.EncodingInjective(r.resource, q.resource);
  }
}
