/** The evaluator object of refinement_protocol.cpp: matchers and UTF-8 state fed byte by byte, finished once. */
module TranscriptEvaluator {
  import opened Bytes
  import opened LiteralMatcher
  import opened Evaluator
  import F = RefinementReceipts
  import Outcome
  import R = Receipts
  import Utf8

  datatype EvaluatorError = AlreadyFinished | InvalidTerminalInput

  /** One matcher per literal, each exact for the text fed so far. */
  ghost predicate Fed(ms: seq<Matcher>, ls: seq<seq<byte>>, text: seq<byte>)
    reads ms
  {
    && |ms| == |ls|
    && (forall i, j :: 0 <= i < j < |ms| ==> ms[i] != ms[j])
    && (forall i :: 0 <= i < |ms| ==> ms[i].Valid() && ms[i].literal == ls[i] && ms[i].consumed == text)
  }

  lemma FedExtend(ms: seq<Matcher>, ls: seq<seq<byte>>, text: seq<byte>, m: Matcher)
    requires Fed(ms, ls, text) && m.Valid() && m.consumed == text && m !in ms
    ensures Fed(ms + [m], ls + [m.literal], text)
  {
    hide Matcher.Valid;
    var ns := ms + [m];
    forall i | 0 <= i < |ns|
      ensures ns[i].Valid() && ns[i].literal == (ls + [m.literal])[i] && ns[i].consumed == text
    {
      if i < |ms| {
        assert ns[i] == ms[i];
      } else {
        assert ns[i] == m;
      }
    }
  }

  method AddMatcher(ms: seq<Matcher>, literal: seq<byte>, ghost ls: seq<seq<byte>>) returns (more: seq<Matcher>)
    requires Fed(ms, ls, []) && literal != []
    ensures Fed(more, ls + [literal], [])
    ensures |more| == |ms| + 1 && more[..|ms|] == ms && fresh(more[|ms|])
  {
    hide Matcher.Valid;
    var m := new Matcher(literal);
    FedExtend(ms, ls, [], m);
    more := ms + [m];
  }

  method BuildMatchers(ls: seq<seq<byte>>) returns (ms: seq<Matcher>)
    requires forall i :: 0 <= i < |ls| ==> ls[i] != []
    ensures Fed(ms, ls, []) && fresh(ms)
  {
    hide Matcher.Valid;
    ms := [];
    ghost var done: seq<seq<byte>> := [];
    for i := 0 to |ls|
      invariant |ms| == i && done == ls[..i] && Fed(ms, done, [])
      invariant forall j :: 0 <= j < i ==> fresh(ms[j])
    {
      var more := AddMatcher(ms, ls[i], done);
      assert forall j :: 0 <= j < i ==> more[j] == more[..i][j];
      ms, done := more, done + [ls[i]];
    }
    assert done == ls;
  }

  /** One byte to every matcher. */
  method FeedAll(ms: seq<Matcher>, b: byte, ghost ls: seq<seq<byte>>, ghost text: seq<byte>)
    requires Fed(ms, ls, text)
    modifies ms
    ensures Fed(ms, ls, text + [b])
  {
    hide Longest, Total, Occurs, IsBorderTable;
    for i := 0 to |ms|
      invariant forall j :: 0 <= j < |ms| ==> ms[j].Valid() && ms[j].literal == ls[j]
      invariant forall j :: 0 <= j < i ==> ms[j].consumed == text + [b]
      invariant forall j :: i <= j < |ms| ==> ms[j].consumed == text
    {
      ms[i].Consume(b);
    }
  }

  /** No matcher is in both lists. */
  ghost predicate Apart(ms: seq<Matcher>, ns: seq<Matcher>) {
    forall i, j :: 0 <= i < |ms| && 0 <= j < |ns| ==> ms[i] != ns[j]
  }

  /** One byte to both lists. */
  method FeedBoth(ms: seq<Matcher>, ns: seq<Matcher>, b: byte, ghost ls: seq<seq<byte>>, ghost ks: seq<seq<byte>>,
                  ghost text: seq<byte>)
    requires Fed(ms, ls, text) && Fed(ns, ks, text) && Apart(ms, ns)
    modifies ms, ns
    ensures Fed(ms, ls, text + [b]) && Fed(ns, ks, text + [b])
  {
    FeedAll(ms, b, ls, text);
    assert forall j :: 0 <= j < |ns| ==> ns[j].Valid() && ns[j].consumed == text;
    FeedAll(ns, b, ks, text);
  }

  /** How many matchers have not found their literal. */
  method CountMissing(ms: seq<Matcher>, ghost ls: seq<seq<byte>>, ghost text: seq<byte>) returns (n: nat)
    requires Fed(ms, ls, text)
    ensures n == Missing(ls, text) <= |ls|
  {
    n := 0;
    for i := 0 to |ms|
      invariant n == Missing(ls[..i], text)
    {
      assert ls[..i + 1][..i] == ls[..i];
      if !ms[i].found { n := n + 1; }
    }
    assert ls[..|ls|] == ls;
  }

  method CountPresent(ms: seq<Matcher>, ghost ls: seq<seq<byte>>, ghost text: seq<byte>) returns (n: nat)
    requires Fed(ms, ls, text)
    ensures n == Present(ls, text) <= |ls|
  {
    n := 0;
    for i := 0 to |ms|
      invariant n == Present(ls[..i], text)
    {
      assert ls[..i + 1][..i] == ls[..i];
      if ms[i].found { n := n + 1; }
    }
    assert ls[..|ls|] == ls;
  }

  class TranscriptEvaluator {
    const sha: F.Hash
    const binding: Binding
    const assertions: BoundedAssertions
    const required: seq<Matcher>
    const forbidden: seq<Matcher>
    var utf8: Utf8.State
    var finished: bool
    var receipt: Option<F.RefinementReceipt>
    ghost var text: seq<byte>

    /** Everything kept is a function of the text consumed so far. */
    ghost predicate Valid()
      reads this, required, forbidden
    {
      && Fed(required, assertions.required, text)
      && Fed(forbidden, assertions.forbidden, text)
      && Apart(required, forbidden)
      && utf8 == Utf8.Run(Utf8.START, text)
      && (receipt.Some? ==> finished)
    }

    /** `create`, once fixture and binding have passed their checks. */
    constructor (h: F.Hash, b: Binding, a: Assertions)
      requires ValidBinding(b) && ValidAssertions(a)
      ensures Valid() && fresh(required) && fresh(forbidden)
      ensures sha == h && binding == b && assertions == a && text == [] && !finished && receipt == None
    {
      hide Matcher.Valid, Utf8.WellFormed, ValidBinding;
      sha, binding, assertions := h, b, a;
      var r := BuildMatchers(a.required);
      var f := BuildMatchers(a.forbidden);
      required, forbidden := r, f;
      utf8, finished, receipt, text := Utf8.START, false, None, [];
    }

    method Consume(bytes: seq<byte>) returns (r: Result<(), EvaluatorError>)
      requires Valid()
      modifies this`utf8, this`text, required, forbidden
      ensures Valid()
      ensures r == if finished then Err(AlreadyFinished) else Ok(())
      ensures text == if finished then old(text) else old(text) + bytes
    {
      if finished { return Err(AlreadyFinished); }
      for i := 0 to |bytes|
        invariant Valid() && text == old(text) + bytes[..i]
      {
        ConsumeByte(bytes[i]);
        assert bytes[..i + 1] == bytes[..i] + [bytes[i]];
      }
      assert bytes[..|bytes|] == bytes;
      r := Ok(());
    }

    method ConsumeByte(b: byte)
      requires Valid()
      modifies this`utf8, this`text, required, forbidden
      ensures Valid() && text == old(text) + [b]
    {
      hide Matcher.Valid, Utf8.Run;
      FeedBoth(required, forbidden, b, assertions.required, assertions.forbidden, text);
      Utf8.RunSnoc(Utf8.START, text, b);
      utf8 := Utf8.Step(utf8, b);
      text := text + [b];
    }

    /** The verdict on the text consumed so far, which repeats its inputs and says exactly what the text is. */
    ghost predicate Decided(v: F.RefinementReceipt, resource: R.ResourceReceipt, transcript: F.Transcript)
      reads this
    {
      && v == Verdict(sha, binding, assertions, text, resource, transcript)
      && Exact(sha, v, binding, assertions, text, resource, transcript)
    }

    /** The first call decides; every later call repeats its receipt, whatever it is given. */
    method Finish(resource: R.ResourceReceipt, transcript: F.Transcript) returns (r: Result<F.RefinementReceipt, EvaluatorError>)
      requires Valid()
      modifies this`finished, this`receipt
      ensures Valid()
      ensures old(receipt).Some? ==> r == Ok(old(receipt).value) && receipt == old(receipt)
      ensures old(receipt).None? && (old(finished) || !Acceptable(resource, transcript)) ==>
                r == Err(InvalidTerminalInput) && receipt == None && finished == old(finished)
      ensures old(receipt).None? && !old(finished) && Acceptable(resource, transcript) ==>
                && r.Ok? && receipt == Some(r.value) && finished
                && Decided(r.value, resource, transcript)
    {
      hide Fed, Verdict, Exact, Utf8.Run;
      if receipt.Some? { return Ok(receipt.value); }
      if finished || resource.schemaVersion != 1 || transcript.schema != F.TranscriptSchema()
         || transcript.byteCount != resource.observed.terminalOutputBytes {
        return Err(InvalidTerminalInput);
      }
      finished := true;
      var verdict := Decide(resource, transcript);
      VerdictExact(sha, binding, assertions, text, resource, transcript);
      receipt := Some(verdict);
      r := Ok(verdict);
    }

    method Decide(resource: R.ResourceReceipt, transcript: F.Transcript) returns (verdict: F.RefinementReceipt)
      requires Valid()
      ensures verdict == Verdict(sha, binding, assertions, text, resource, transcript)
    {
      hide Failed, Utf8.WellFormed, Utf8.Run, WithOutcome, LatencyUs, Matcher.Valid, Apart;
      Utf8.RunExact(Utf8.START, text);
      var complete := utf8.valid && utf8.remaining == 0;
      verdict := F.RefinementReceipt(
        F.RECEIPT_SCHEMA_VERSION, F.RuntimeTemplate(), resource, F.InvalidOutcome, binding.variant, binding.fixture,
        binding.base, binding.candidate, binding.matchedContextDigest, F.EmptyCommitment(sha), None, transcript,
        F.Evaluator(F.EvaluatorSchema(), true, complete, |required|, |forbidden|));
      if transcript.complete && complete {
        var failed := Judge(resource);
        var outcome := Outcome.RefinementOutcome(
          Outcome.OutcomeSchema(), Outcome.OutcomeEncoding(),
          [Outcome.Metric(FailedName(), failed), Outcome.Metric(ForbiddenName(), |forbidden|),
           Outcome.Metric(LatencyName(), LatencyUs(resource.observed.wallTimeMs)),
           Outcome.Metric(PassedName(), if failed == 0 then 1 else 0), Outcome.Metric(RequiredName(), |required|)]);
        verdict := WithOutcome(sha, verdict, outcome);
      }
    }

    /** The number of failed assertions. */
    method Judge(resource: R.ResourceReceipt) returns (failed: nat)
      requires Valid()
      ensures failed == Failed(assertions, text, resource) <= 2 * MAX_LITERALS + 3
    {
      var missing := CountMissing(required, assertions.required, text);
      var present := CountPresent(forbidden, assertions.forbidden, text);
      failed := missing + present;
      if resource.termination != assertions.expectedTermination { failed := failed + 1; }
      if assertions.expectedExitCode.Some? && resource.exitCode != assertions.expectedExitCode { failed := failed + 1; }
      if assertions.maxLatencyMs.Some? && resource.observed.wallTimeMs > assertions.maxLatencyMs.value {
        failed := failed + 1;
      }
    }
  }
}
