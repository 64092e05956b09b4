/** The transcript evaluator of refinement_protocol.cpp: streaming assertions and the verdict they lead to. */
module Evaluator {
  import opened Bytes
  import opened Hex
  import opened LiteralMatcher
  import F = RefinementReceipts
  import Outcome
  import R = Receipts
  import Utf8

  const MAX_LITERALS := 128
  const MAX_LITERAL_TOTAL_BYTES := 64 * 1024
  const I64_MAX: int := 0x7fff_ffff_ffff_ffff

  datatype Assertions = Assertions(
    expectedTermination: R.Termination,
    expectedExitCode: Option<int>,
    required: seq<seq<byte>>,
    forbidden: seq<seq<byte>>,
    maxLatencyMs: Option<u64>)

  const NO_ASSERTIONS := Assertions(R.Signaled, None, [], [], None)

  /** No more literals of either kind than a fixture may have. */
  type BoundedAssertions = a: Assertions | |a.required| <= MAX_LITERALS && |a.forbidden| <= MAX_LITERALS
    witness NO_ASSERTIONS

  /** The part of the execution binding a receipt repeats. */
  datatype Binding = Binding(
    variant: F.Variant, fixture: F.Projection, base: F.Projection, candidate: F.Projection, matchedContextDigest: seq<byte>)

  predicate ValidBinding(b: Binding) {
    && F.ValidProjection(b.fixture) && F.ValidProjection(b.base) && F.ValidProjection(b.candidate)
    && b.fixture.projectionId != b.base.projectionId
    && b.fixture.projectionId != b.candidate.projectionId
    && b.base.projectionId != b.candidate.projectionId
    && ValidDigest(b.matchedContextDigest)
  }

  // ----- literal sets

  function TotalSize(ls: seq<seq<byte>>): nat {
    if ls == [] then 0 else TotalSize(ls[..|ls| - 1]) + |ls[|ls| - 1]|
  }

  /** At most 128 well-formed non-empty literals, each above the one before, within the bytes that are left. */
  ghost predicate ValidLiterals(ls: seq<seq<byte>>, used: nat) {
    && |ls| <= MAX_LITERALS
    && (forall i :: 0 <= i < |ls| ==> 0 < |ls[i]| <= Utf8.MAX_LITERAL_BYTES && Utf8.WellFormed(ls[i]))
    && (forall i :: 0 < i < |ls| ==> R.Less(ls[i - 1], ls[i]))
    && used + TotalSize(ls) <= MAX_LITERAL_TOTAL_BYTES
  }

  ghost predicate ValidAssertions(a: Assertions) {
    && (a.expectedExitCode.Some? <==> a.expectedTermination == R.Exited)
    && (a.expectedExitCode.Some? ==> a.expectedExitCode.value >= 0)
    && ValidLiterals(a.required, 0)
    && ValidLiterals(a.forbidden, TotalSize(a.required))
    && (a.maxLatencyMs.Some? ==> a.maxLatencyMs.value != 0)
  }

  lemma {:induction false} TotalPrefix(ls: seq<seq<byte>>, n: nat)
    requires n <= |ls|
    ensures TotalSize(ls[..n]) <= TotalSize(ls)
  {
    if n < |ls| {
      TotalPrefix(ls[..|ls| - 1], n);
      assert ls[..|ls| - 1][..n] == ls[..n];
    } else {
      assert ls[..n] == ls;
    }
  }

  lemma TotalNext(ls: seq<seq<byte>>, i: nat)
    requires i < |ls|
    ensures TotalSize(ls[..i + 1]) == TotalSize(ls[..i]) + |ls[i]|
  {
    assert ls[..i + 1][..i] == ls[..i];
  }

  /** `valid_literal_set`, which threads the running total of both sets. */
  method CheckLiterals(ls: seq<seq<byte>>, used: nat) returns (ok: bool, total: nat)
    requires used <= MAX_LITERAL_TOTAL_BYTES
    ensures ok <==> ValidLiterals(ls, used)
    ensures ok ==> total == used + TotalSize(ls) <= MAX_LITERAL_TOTAL_BYTES
  {
    total := used;
    if |ls| > MAX_LITERALS { return false, total; }
    var previous: seq<byte> := [];
    for i := 0 to |ls|
      invariant total == used + TotalSize(ls[..i]) <= MAX_LITERAL_TOTAL_BYTES
      invariant previous == if i == 0 then [] else ls[i - 1]
      invariant forall j :: 0 <= j < i ==> 0 < |ls[j]| <= Utf8.MAX_LITERAL_BYTES && Utf8.WellFormed(ls[j])
      invariant forall j :: 0 < j < i ==> R.Less(ls[j - 1], ls[j])
    {
      TotalNext(ls, i);
      TotalPrefix(ls, i + 1);
      var wellFormed := Utf8.CheckLiteral(ls[i]);
      if !wellFormed { return false, total; }
      if previous != [] && !R.Less(previous, ls[i]) { return false, total; }
      if |ls[i]| > MAX_LITERAL_TOTAL_BYTES - total { return false, total; }
      total := total + |ls[i]|;
      previous := ls[i];
    }
    assert ls[..|ls|] == ls;
    ok := true;
  }

  // ----- the verdict on a transcript

  ghost function Missing(ls: seq<seq<byte>>, text: seq<byte>): (n: nat)
    ensures n <= |ls|
  {
    if ls == [] then 0 else Missing(ls[..|ls| - 1], text) + if Occurs(ls[|ls| - 1], text) then 0 else 1
  }

  ghost function Present(ls: seq<seq<byte>>, text: seq<byte>): (n: nat)
    ensures n <= |ls|
  {
    if ls == [] then 0 else Present(ls[..|ls| - 1], text) + if Occurs(ls[|ls| - 1], text) then 1 else 0
  }

  predicate TerminationMatches(a: Assertions, r: R.ResourceReceipt) { r.termination == a.expectedTermination }

  predicate ExitMatches(a: Assertions, r: R.ResourceReceipt) {
    a.expectedExitCode.Some? ==> r.exitCode == a.expectedExitCode
  }

  predicate LatencyMatches(a: Assertions, r: R.ResourceReceipt) {
    a.maxLatencyMs.Some? ==> r.observed.wallTimeMs <= a.maxLatencyMs.value
  }

  function One(failed: bool): nat { if failed then 1 else 0 }

  ghost function Failed(a: Assertions, text: seq<byte>, r: R.ResourceReceipt): (n: nat)
    ensures n <= |a.required| + |a.forbidden| + 3
  {
    Missing(a.required, text) + Present(a.forbidden, text)
      + One(!TerminationMatches(a, r)) + One(!ExitMatches(a, r)) + One(!LatencyMatches(a, r))
  }

  /** The wall time in microseconds, saturated at the largest signed 64-bit value. */
  function LatencyUs(wallMs: u64): (us: Outcome.i64)
    ensures us == if 1000 * wallMs > I64_MAX then I64_MAX else 1000 * wallMs
  {
    if wallMs > I64_MAX / 1000 then I64_MAX else wallMs * 1000
  }

  function FailedName(): seq<byte> { Ascii("failed_assertions") }

  function ForbiddenName(): seq<byte> { Ascii("forbidden_literals") }

  function LatencyName(): seq<byte> { Ascii("latency_us") }

  function PassedName(): seq<byte> { Ascii("passed") }

  function RequiredName(): seq<byte> { Ascii("required_literals") }

  /** The five metrics, in the order of the map. */
  function Metrics(failed: Outcome.i64, forbidden: Outcome.i64, latency: Outcome.i64, required: Outcome.i64)
    : Outcome.RefinementOutcome
  {
    Outcome.RefinementOutcome(Outcome.OutcomeSchema(), Outcome.OutcomeEncoding(),
      [Outcome.Metric(FailedName(), failed), Outcome.Metric(ForbiddenName(), forbidden),
       Outcome.Metric(LatencyName(), latency), Outcome.Metric(PassedName(), if failed == 0 then 1 else 0),
       Outcome.Metric(RequiredName(), required)])
  }

  ghost predicate Acceptable(r: R.ResourceReceipt, t: F.Transcript) {
    r.schemaVersion == 1 && t.schema == F.TranscriptSchema() && t.byteCount == r.observed.terminalOutputBytes
  }

  /** The receipt for an incomplete or malformed transcript, and the common part of every receipt. */
  function Blank(sha: F.Hash, b: Binding, required: u32, forbidden: u32, utf8: bool, r: R.ResourceReceipt, t: F.Transcript)
    : F.RefinementReceipt
  {
    F.RefinementReceipt(F.RECEIPT_SCHEMA_VERSION, F.RuntimeTemplate(), r, F.InvalidOutcome, b.variant, b.fixture, b.base,
      b.candidate, b.matchedContextDigest, F.EmptyCommitment(sha), None, t,
      F.Evaluator(F.EvaluatorSchema(), true, utf8, required, forbidden))
  }

  function WithOutcome(sha: F.Hash, blank: F.RefinementReceipt, o: Outcome.RefinementOutcome): F.RefinementReceipt {
    match F.OutcomeCommitment(sha, o)
    case None => blank
    case Some(c) => blank.(status := F.ValidOutcome, outcome := c, evaluated := Some(o))
  }

  /** The outcome of a complete transcript. */
  ghost function Scored(a: Assertions, text: seq<byte>, r: R.ResourceReceipt): Outcome.RefinementOutcome
    requires |a.required| <= MAX_LITERALS && |a.forbidden| <= MAX_LITERALS
  {
    Metrics(Failed(a, text, r), |a.forbidden|, LatencyUs(r.observed.wallTimeMs), |a.required|)
  }

  /** The receipt for a transcript, in terms of what the transcript is and contains. */
  ghost function Verdict(sha: F.Hash, b: Binding, a: Assertions, text: seq<byte>, r: R.ResourceReceipt, t: F.Transcript)
    : F.RefinementReceipt
    requires |a.required| <= MAX_LITERALS && |a.forbidden| <= MAX_LITERALS
  {
    var utf8 := Utf8.WellFormed(text);
    var blank := Blank(sha, b, |a.required|, |a.forbidden|, utf8, r, t);
    if !t.complete || !utf8 then blank
    else WithOutcome(sha, blank, Scored(a, text, r))
  }

  lemma {:induction false} MissingNone(ls: seq<seq<byte>>, text: seq<byte>)
    ensures Missing(ls, text) == 0 <==> forall i :: 0 <= i < |ls| ==> Occurs(ls[i], text)
  {
    if ls != [] {
      MissingNone(ls[..|ls| - 1], text);
      assert forall i :: 0 <= i < |ls| - 1 ==> ls[..|ls| - 1][i] == ls[i];
    }
  }

  lemma {:induction false} PresentNone(ls: seq<seq<byte>>, text: seq<byte>)
    ensures Present(ls, text) == 0 <==> forall i :: 0 <= i < |ls| ==> !Occurs(ls[i], text)
  {
    if ls != [] {
      PresentNone(ls[..|ls| - 1], text);
      assert forall i :: 0 <= i < |ls| - 1 ==> ls[..|ls| - 1][i] == ls[i];
    }
  }

  /** What a passing transcript is. */
  ghost predicate Passes(a: Assertions, text: seq<byte>, r: R.ResourceReceipt) {
    && (forall i :: 0 <= i < |a.required| ==> Occurs(a.required[i], text))
    && (forall i :: 0 <= i < |a.forbidden| ==> !Occurs(a.forbidden[i], text))
    && r.termination == a.expectedTermination
    && (a.expectedExitCode.None? || r.exitCode == a.expectedExitCode)
    && (a.maxLatencyMs.None? || r.observed.wallTimeMs <= a.maxLatencyMs.value)
  }

  lemma FailedNone(a: Assertions, text: seq<byte>, r: R.ResourceReceipt)
    ensures Failed(a, text, r) == 0 <==> Passes(a, text, r)
  {
    MissingNone(a.required, text);
    PresentNone(a.forbidden, text);
  }

  predicate NameChars(s: string) {
    forall i :: 0 <= i < |s| ==> 'a' <= s[i] <= 'z' || s[i] == '_'
  }

  lemma NameValid(s: string)
    requires 0 < |s| <= 64 && 'a' <= s[0] <= 'z' && NameChars(s)
    ensures Outcome.ValidMetricName(Ascii(s))
  {
  }

  lemma NamesValid()
    ensures Outcome.ValidMetricName(FailedName()) && Outcome.ValidMetricName(ForbiddenName())
    ensures Outcome.ValidMetricName(LatencyName()) && Outcome.ValidMetricName(PassedName())
    ensures Outcome.ValidMetricName(RequiredName())
  {
    NameValid("failed_assertions");
    NameValid("forbidden_literals");
    NameValid("latency_us");
    NameValid("passed");
    NameValid("required_literals");
  }

  lemma MetricsCommit(sha: F.Hash, failed: Outcome.i64, forbidden: Outcome.i64, latency: Outcome.i64, required: Outcome.i64)
    ensures var o := Metrics(failed, forbidden, latency, required);
            && F.OutcomeCommitment(sha, o).Some?
            && F.OutcomeCommitment(sha, o).value.byteLength != 0
  {
    NamesValid();
    Outcome.CanonicalExists(Metrics(failed, forbidden, latency, required));
  }

  ghost predicate IsMetric(m: Outcome.Metric, name: seq<byte>, value: int) { m.name == name && m.value == value }

  /**
   * What the five metrics say: how many assertions failed, how many literals there were of each kind, the latency, and
   * a pass exactly if nothing failed.
   */
  ghost predicate ExactOutcome(o: Outcome.RefinementOutcome, a: Assertions, text: seq<byte>, r: R.ResourceReceipt) {
    && |o.metrics| == 5
    && IsMetric(o.metrics[0], FailedName(), Failed(a, text, r))
    && IsMetric(o.metrics[1], ForbiddenName(), |a.forbidden|)
    && IsMetric(o.metrics[2], LatencyName(), LatencyUs(r.observed.wallTimeMs))
    && IsMetric(o.metrics[3], PassedName(), if Passes(a, text, r) then 1 else 0)
    && IsMetric(o.metrics[4], RequiredName(), |a.required|)
  }

  /** The outcome counts the failed assertions, and passes if and only if there are none. */
  lemma ScoredPasses(a: Assertions, text: seq<byte>, r: R.ResourceReceipt)
    requires |a.required| <= MAX_LITERALS && |a.forbidden| <= MAX_LITERALS
    ensures ExactOutcome(Scored(a, text, r), a, text, r)
  {
    FailedNone(a, text, r);
  }

  lemma ScoredCommits(sha: F.Hash, a: Assertions, text: seq<byte>, r: R.ResourceReceipt)
    requires |a.required| <= MAX_LITERALS && |a.forbidden| <= MAX_LITERALS
    ensures F.OutcomeCommitment(sha, Scored(a, text, r)).Some?
    ensures F.OutcomeCommitment(sha, Scored(a, text, r)).value.byteLength != 0
  {
    MetricsCommit(sha, Failed(a, text, r), |a.forbidden|, LatencyUs(r.observed.wallTimeMs), |a.required|);
  }

  /** The receipt repeats what it was given: each part of the binding, the resource receipt, the transcript, the counts. */
  ghost predicate Repeats(v: F.RefinementReceipt, b: Binding, a: Assertions, r: R.ResourceReceipt, t: F.Transcript) {
    && v.schemaVersion == 1 && v.runtimeTemplateId == F.RuntimeTemplate()
    && v.resource == r && v.transcript == t
    && v.variant == b.variant && v.fixture == b.fixture && v.base == b.base && v.candidate == b.candidate
    && v.matchedContextDigest == b.matchedContextDigest
    && v.evaluator.schema == F.EvaluatorSchema() && v.evaluator.fixtureComplete
    && v.evaluator.requiredLiterals == |a.required| && v.evaluator.forbiddenLiterals == |a.forbidden|
  }

  /** What the receipt for a transcript says of it. */
  ghost predicate Exact(sha: F.Hash, v: F.RefinementReceipt, b: Binding, a: Assertions, text: seq<byte>,
                        r: R.ResourceReceipt, t: F.Transcript)
  {
    && Repeats(v, b, a, r, t)
    && (v.status == F.ValidOutcome <==> t.complete && Utf8.WellFormed(text))
    && (v.status == F.ValidOutcome <==> v.evaluated.Some?)
    && (v.evaluator.transcriptUtf8 <==> Utf8.WellFormed(text))
    && match v.evaluated
       case None => v.outcome == F.EmptyCommitment(sha)
       case Some(o) => ExactOutcome(o, a, text, r) && F.OutcomeCommitment(sha, o) == Some(v.outcome)
  }

  /**
   * The verdict is exact: it repeats what it was given, and the outcome is valid if and only if the transcript is
   * complete and well-formed UTF-8; then it reports a pass if and only if every required literal occurs, no forbidden
   * one does, and termination, exit code and latency are as asserted.
   */
  lemma VerdictExact(sha: F.Hash, b: Binding, a: Assertions, text: seq<byte>, r: R.ResourceReceipt, t: F.Transcript)
    requires |a.required| <= MAX_LITERALS && |a.forbidden| <= MAX_LITERALS
    ensures Exact(sha, Verdict(sha, b, a, text, r, t), b, a, text, r, t)
  {
    hide Scored, ExactOutcome, Utf8.WellFormed, F.OutcomeCommitment, F.EmptyCommitment;
    ScoredPasses(a, text, r);
    ScoredCommits(sha, a, text, r);
  }

  lemma BlankIsEvidence(sha: F.Hash, b: Binding, required: u32, forbidden: u32, utf8: bool, r: R.ResourceReceipt,
                        t: F.Transcript)
    requires ValidBinding(b) && Acceptable(r, t) && ValidDigest(sha([]))
    requires !t.complete || !utf8
    ensures F.ValidEvidence(sha, Blank(sha, b, required, forbidden, utf8, r, t)) <==> ValidDigest(t.digest)
  {
    hide F.OutcomeCommitment, F.ValidProjection;
  }

  lemma CommitmentForm(sha: F.Hash, o: Outcome.RefinementOutcome)
    requires F.OutcomeCommitment(sha, o).Some? && forall m :: ValidDigest(sha(m))
    ensures var c := F.OutcomeCommitment(sha, o).value;
            && c.schema == Outcome.OutcomeSchema() && c.encoding == Outcome.OutcomeEncoding()
            && ValidDigest(c.digest) && c.byteLength <= Outcome.MAX_FIXTURE_BYTES
  {
  }

  lemma OutcomeIsEvidence(sha: F.Hash, b: Binding, required: u32, forbidden: u32, r: R.ResourceReceipt,
                          t: F.Transcript, o: Outcome.RefinementOutcome)
    requires ValidBinding(b) && Acceptable(r, t) && t.complete && forall m :: ValidDigest(sha(m))
    requires F.OutcomeCommitment(sha, o).Some? && F.OutcomeCommitment(sha, o).value.byteLength != 0
    ensures F.ValidEvidence(sha, WithOutcome(sha, Blank(sha, b, required, forbidden, true, r, t), o))
        <==> ValidDigest(t.digest)
  {
    hide F.ValidProjection, F.OutcomeCommitment, ValidDigest;
    CommitmentForm(sha, o);
  }

  /** Every receipt handed out carries valid evidence, provided the transcript digest it was given is a digest. */
  lemma VerdictIsEvidence(sha: F.Hash, b: Binding, a: Assertions, text: seq<byte>, r: R.ResourceReceipt, t: F.Transcript)
    requires |a.required| <= MAX_LITERALS && |a.forbidden| <= MAX_LITERALS
    requires ValidBinding(b) && Acceptable(r, t) && forall m :: ValidDigest(sha(m))
    ensures F.ValidEvidence(sha, Verdict(sha, b, a, text, r, t)) <==> ValidDigest(t.digest)
  {
    hide Scored, Utf8.WellFormed, F.ValidEvidence, F.OutcomeCommitment, Blank, ValidBinding, Acceptable;
    if t.complete && Utf8.WellFormed(text) {
      ScoredCommits(sha, a, text, r);
      OutcomeIsEvidence(sha, b, |a.required|, |a.forbidden|, r, t, Scored(a, text, r));
    } else {
      BlankIsEvidence(sha, b, |a.required|, |a.forbidden|, Utf8.WellFormed(text), r, t);
    }
  }

  /**
   * The inputs that are refused are those whose receipt could never be digested: a receipt can be digested if and only
   * if its resource receipt can, the input was acceptable, and the transcript digest is one.
   */
  lemma VerdictDigestible(sha: F.Hash, b: Binding, a: Assertions, text: seq<byte>, r: R.ResourceReceipt, t: F.Transcript)
    requires |a.required| <= MAX_LITERALS && |a.forbidden| <= MAX_LITERALS
    requires ValidBinding(b) && forall m :: ValidDigest(sha(m))
    ensures F.EncodeRefinement(sha, Verdict(sha, b, a, text, r, t)).Some?
        <==> R.EncodeReceipt(r).Some? && Acceptable(r, t) && ValidDigest(t.digest)
  {
    hide *;
    var v := Verdict(sha, b, a, text, r, t);
    VerdictExact(sha, b, a, text, r, t);
    VerdictRepeats(sha, v, b, a, text, r, t);
    Digestible(sha, v);
    if Acceptable(r, t) {
      VerdictIsEvidence(sha, b, a, text, r, t);
    } else {
      Unacceptable(sha, v, b, a, r, t);
    }
  }

  lemma VerdictRepeats(sha: F.Hash, v: F.RefinementReceipt, b: Binding, a: Assertions, text: seq<byte>,
                       r: R.ResourceReceipt, t: F.Transcript)
    requires Exact(sha, v, b, a, text, r, t)
    ensures Repeats(v, b, a, r, t) && v.resource == r
  {
    hide ExactOutcome, F.OutcomeCommitment, F.EmptyCommitment, Utf8.WellFormed;
  }

  lemma Digestible(sha: F.Hash, v: F.RefinementReceipt)
    ensures F.EncodeRefinement(sha, v).Some? <==> R.EncodeReceipt(v.resource).Some? && F.ValidEvidence(sha, v)
  {
    hide F.ValidEvidence, R.EncodeReceipt, F.Canonicalize;
  }

  lemma Unacceptable(sha: F.Hash, v: F.RefinementReceipt, b: Binding, a: Assertions, r: R.ResourceReceipt,
                     t: F.Transcript)
    requires Repeats(v, b, a, r, t) && !Acceptable(r, t)
    ensures !F.ValidEvidence(sha, v) || R.EncodeReceipt(r).None?
  {
    hide F.ValidProjection, F.OutcomeCommitment, F.EmptyCommitment, R.Canonicalize, R.ValidProjections, R.ValidChanges;
  }

  // ----- a receipt that is handed out although its evidence is refused

  function Named(id: string): F.Projection { F.Projection(Ascii(id), ZeroDigest(), Ascii("alias")) }

  const SOME_BINDING := Binding(F.Base, Named("fixture"), Named("base"), Named("other"), ZeroDigest())

  /**
   * Such an input: nothing is asserted, the binding is valid, the transcript is acceptable and has no digest at all.
   * For every hash, every text and every resource receipt the evaluation hands out a receipt that the validator refuses.
   */
  lemma DigestUnchecked(sha: F.Hash, text: seq<byte>, r: R.ResourceReceipt) returns (t: F.Transcript)
    requires r.schemaVersion == 1 && forall m :: ValidDigest(sha(m))
    ensures ValidBinding(SOME_BINDING) && ValidAssertions(NO_ASSERTIONS)
    ensures Acceptable(r, t) && t.complete && t.digest == []
    ensures !F.ValidEvidence(sha, Verdict(sha, SOME_BINDING, NO_ASSERTIONS, text, r, t))
  {
    t := F.Transcript(F.TranscriptSchema(), [], r.observed.terminalOutputBytes, true);
    BindingValid();
    VerdictIsEvidence(sha, SOME_BINDING, NO_ASSERTIONS, text, r, t);
  }

  lemma NamedValid(id: string)
    requires 0 < |id| <= 128 && NameChars(id)
    ensures F.ValidProjection(Named(id)) && |Named(id).projectionId| == |id|
  {
    assert F.ValidToken(Ascii("alias"), 128);
  }

  lemma BindingValid()
    ensures ValidBinding(SOME_BINDING)
  {
    hide F.ValidProjection;
    NamedValid("fixture");
    NamedValid("base");
    NamedValid("other");
  }
}
