/** The idempotency table shared by the session mutations of receipt_session_handlers.cpp. */
module MutationTable {
  import opened Bytes

  const MAX_RECORDS := 1024

  type Digest = seq<byte> -> Option<seq<byte>>

  /** What is kept of a mutation that succeeded. */
  datatype MutationRecord = MutationRecord(verb: seq<byte>, digest: seq<byte>, result: seq<byte>)

  type Table = map<seq<byte>, MutationRecord>

  /**
   * One request, with what its operation and the encoding of its result would come to if they were run: the operation
   * itself is a foreign call.
   */
  datatype Call = Call(key: seq<byte>, verb: seq<byte>, payload: seq<byte>, succeeds: bool, encoded: Option<seq<byte>>)

  datatype Answer =
    | Success(result: seq<byte>)
    | Unauthorized
    | Conflict
    | NoCapacity
    | OperationFailed
    | EncodingFailed

  /** `mutation_payload_digest` hashes this. */
  function Material(verb: seq<byte>, payload: seq<byte>): seq<byte> { verb + [0] + payload }

  /** Method names contain no zero byte, so the material determines both parts. */
  lemma MaterialInjective(m: seq<byte>, p: seq<byte>, n: seq<byte>, q: seq<byte>)
    requires 0 !in m && 0 !in n && Material(m, p) == Material(n, q)
    ensures m == n && p == q
  {
    CancelUntil(m, p, n, q, 0);
  }

  /** The table, the answer, and whether the operation was run. */
  function Mutate(d: Digest, t: Table, c: Call): (Table, Answer, bool) {
    match d(Material(c.verb, c.payload))
    case None => (t, Unauthorized, false)
    case Some(digest) =>
      if c.key in t then
        if t[c.key].verb != c.verb || t[c.key].digest != digest then (t, Conflict, false)
        else (t, Success(t[c.key].result), false)
      else if |t| >= MAX_RECORDS then (t, NoCapacity, false)
      else if !c.succeeds then (t, OperationFailed, true)
      else if c.encoded.None? then (t, EncodingFailed, true)
      else (t[c.key := MutationRecord(c.verb, digest, c.encoded.value)], Success(c.encoded.value), true)
  }

  class SessionMutations {
    const digest: Digest
    var records: Table

    constructor (d: Digest)
      ensures digest == d && records == map[]
    {
      digest, records := d, map[];
    }

    /** `handle_idempotent_session_mutation`, and the same steps in the two handlers that repeat them. */
    method Handle(c: Call) returns (a: Answer, ran: bool)
      modifies this
      ensures (records, a, ran) == Mutate(digest, old(records), c)
    {
      ran := false;
      var payloadDigest := digest(Material(c.verb, c.payload));
      if payloadDigest.None? { return Unauthorized, ran; }
      if c.key in records {
        var existing := records[c.key];
        if existing.verb != c.verb || existing.digest != payloadDigest.value { return Conflict, ran; }
        return Success(existing.result), ran;
      }
      if |records| >= MAX_RECORDS { return NoCapacity, ran; }
      ran := true;
      if !c.succeeds { return OperationFailed, ran; }
      if c.encoded.None? { return EncodingFailed, ran; }
      records := records[c.key := MutationRecord(c.verb, payloadDigest.value, c.encoded.value)];
      a := Success(c.encoded.value);
    }
  }

  // ----- runs

  function Run(d: Digest, calls: seq<Call>): Table {
    if calls == [] then map[] else Mutate(d, Run(d, calls[..|calls| - 1]), calls[|calls| - 1]).0
  }

  /** Call `i` of the run ran its operation, and it succeeded. */
  predicate Executes(d: Digest, calls: seq<Call>, i: nat)
    requires i < |calls|
  {
    calls[i].succeeds && Mutate(d, Run(d, calls[..i]), calls[i]).2
  }

  lemma {:induction false} RunBounded(d: Digest, calls: seq<Call>)
    ensures |Run(d, calls)| <= MAX_RECORDS
  {
    if calls != [] {
      RunBounded(d, calls[..|calls| - 1]);
    }
  }

  /** A record, once there, never changes. */
  lemma {:induction false} RecordStays(d: Digest, calls: seq<Call>, i: nat, key: seq<byte>)
    requires i <= |calls| && key in Run(d, calls[..i])
    ensures key in Run(d, calls) && Run(d, calls)[key] == Run(d, calls[..i])[key]
    decreases |calls|
  {
    if i == |calls| {
      assert calls[..i] == calls;
    } else {
      assert calls[..|calls| - 1][..i] == calls[..i];
      RecordStays(d, calls[..|calls| - 1], i, key);
    }
  }

  /** A successful operation is recorded at once, if its result can be encoded. */
  lemma ExecutionRecorded(d: Digest, calls: seq<Call>, i: nat)
    requires i < |calls| && Executes(d, calls, i) && calls[i].encoded.Some?
    ensures calls[i].key in Run(d, calls[..i + 1])
    ensures Run(d, calls[..i + 1])[calls[i].key].result == calls[i].encoded.value
  {
    assert calls[..i + 1][..i] == calls[..i];
  }

  /** At most once, over every run: behind a successful operation whose result was encoded, its key runs no other. */
  lemma AtMostOnce(d: Digest, calls: seq<Call>, i: nat, j: nat)
    requires i < j < |calls| && calls[i].key == calls[j].key
    requires Executes(d, calls, i) && calls[i].encoded.Some?
    ensures !Mutate(d, Run(d, calls[..j]), calls[j]).2
  {
    ExecutionRecorded(d, calls, i);
    assert calls[..j][..i + 1] == calls[..i + 1];
    RecordStays(d, calls[..j], i + 1, calls[i].key);
  }

  /** An identical retry, any time later, gets the recorded result and runs nothing. */
  lemma RetryRepeats(d: Digest, calls: seq<Call>, i: nat, retry: Call)
    requires i < |calls| && Executes(d, calls, i) && calls[i].encoded.Some?
    requires retry.key == calls[i].key && retry.verb == calls[i].verb && retry.payload == calls[i].payload
    ensures Mutate(d, Run(d, calls), retry) == (Run(d, calls), Success(calls[i].encoded.value), false)
  {
    ExecutionRecorded(d, calls, i);
    assert calls[..i + 1][..i] == calls[..i];
    RecordStays(d, calls, i + 1, calls[i].key);
  }

  /** A later request with the same key but another method or payload is refused and runs nothing. */
  lemma ChangeRefused(d: Digest, calls: seq<Call>, i: nat, other: Call)
    requires i < |calls| && Executes(d, calls, i) && calls[i].encoded.Some?
    requires other.key == calls[i].key && (other.verb != calls[i].verb || other.payload != calls[i].payload)
    requires 0 !in other.verb && 0 !in calls[i].verb
    requires var x, y := Material(other.verb, other.payload), Material(calls[i].verb, calls[i].payload);
             d(x).Some? && (d(x) == d(y) ==> x == y)
    ensures Mutate(d, Run(d, calls), other) == (Run(d, calls), Conflict, false)
  {
    ExecutionRecorded(d, calls, i);
    assert calls[..i + 1][..i] == calls[..i];
    RecordStays(d, calls, i + 1, calls[i].key);
    if d(Material(other.verb, other.payload)) == d(Material(calls[i].verb, calls[i].payload)) {
      MaterialInjective(other.verb, other.payload, calls[i].verb, calls[i].payload);
    }
  }

  /** However the run goes on, no later operation of this key succeeds. */
  ghost predicate NeverAgain(d: Digest, calls: seq<Call>, key: seq<byte>) {
    forall more: seq<Call>, j: nat ::
      |calls| <= j < |calls + more| && (calls + more)[j].key == key ==> !Executes(d, calls + more, j)
  }

  /**
   * When the table gives at-most-once: after any run that ends with a successful operation, its key never runs another
   * one, whatever follows, if and only if the encoder accepted the result.
   */
  lemma AtMostOnceExact(d: Digest, calls: seq<Call>, c: Call)
    requires Executes(d, calls + [c], |calls|)
    ensures NeverAgain(d, calls + [c], c.key) <==> c.encoded.Some?
  {
    if c.encoded.Some? {
      forall more: seq<Call>, j: nat
        | |calls + [c]| <= j < |calls + [c] + more| && (calls + [c] + more)[j].key == c.key
        ensures !Executes(d, calls + [c] + more, j)
      {
        var all := calls + [c] + more;
        assert all[..|calls|] == (calls + [c])[..|calls|];
        AtMostOnce(d, all, |calls|, j);
      }
    } else {
      RunsTwice(d, calls, c);
    }
  }

  /** If the encoder refuses the result of a successful operation, the same request sent once more runs it again. */
  lemma RunsTwice(d: Digest, calls: seq<Call>, c: Call)
    requires Executes(d, calls + [c], |calls|) && c.encoded.None?
    ensures Executes(d, calls + [c] + [c], |calls| + 1) && !NeverAgain(d, calls + [c], c.key)
  {
    var all := calls + [c] + [c];
    assert (calls + [c])[..|calls|] == calls && all[..|calls| + 1] == calls + [c];
    assert Run(d, calls + [c]) == Run(d, calls);
    assert all[|calls| + 1] == c;
  }

  // ----- every answer, in terms of the calls before

  /** Call `i` of the run left a record: its operation ran, succeeded, and its result was encoded. */
  predicate Recorded(d: Digest, calls: seq<Call>, i: nat)
    requires i < |calls|
  {
    Executes(d, calls, i) && calls[i].encoded.Some?
  }

  /** The calls that left a record. */
  function Records(d: Digest, calls: seq<Call>): seq<Call> {
    if calls == [] then []
    else
      Records(d, calls[..|calls| - 1]) + if Recorded(d, calls, |calls| - 1) then [calls[|calls| - 1]] else []
  }

  function RecordOf(d: Digest, c: Call): MutationRecord
    requires d(Material(c.verb, c.payload)).Some? && c.encoded.Some?
  {
    MutationRecord(c.verb, d(Material(c.verb, c.payload)).value, c.encoded.value)
  }

  ghost predicate HasKey(rs: seq<Call>, key: seq<byte>) { exists i :: 0 <= i < |rs| && rs[i].key == key }

  /** The table holds just these calls, one for each key. */
  ghost predicate Holds(d: Digest, t: Table, rs: seq<Call>) {
    && |t| == |rs|
    && (forall i :: 0 <= i < |rs| ==>
          && rs[i].encoded.Some? && d(Material(rs[i].verb, rs[i].payload)).Some?
          && rs[i].key in t && t[rs[i].key] == RecordOf(d, rs[i]))
    && (forall key :: key in t ==> HasKey(rs, key))
  }

  lemma HoldsSnoc(d: Digest, t: Table, rs: seq<Call>, c: Call)
    requires Holds(d, t, rs) && c.key !in t && c.encoded.Some? && d(Material(c.verb, c.payload)).Some?
    ensures Holds(d, t[c.key := RecordOf(d, c)], rs + [c])
  {
    var u, qs := t[c.key := RecordOf(d, c)], rs + [c];
    assert qs[|rs|] == c;
    forall key | key in u
      ensures HasKey(qs, key)
    {
      if key in t {
        var i :| 0 <= i < |rs| && rs[i].key == key;
        assert qs[i].key == key;
      }
    }
  }

  /** After every run the table is the calls that left a record. */
  lemma {:induction false} TableExact(d: Digest, calls: seq<Call>)
    ensures Holds(d, Run(d, calls), Records(d, calls))
  {
    if calls != [] {
      var before, c := calls[..|calls| - 1], calls[|calls| - 1];
      TableExact(d, before);
      if Recorded(d, calls, |calls| - 1) {
        HoldsSnoc(d, Run(d, before), Records(d, before), c);
      } else {
        assert Records(d, before) + [] == Records(d, before);
      }
    }
  }

  /** What a call does and answers, given the digest of its material and the calls that left a record. */
  ghost predicate Answers(d: Digest, rs: seq<Call>, c: Call, a: Answer, ran: bool) {
    var digest := d(Material(c.verb, c.payload));
    && (ran <==> digest.Some? && !HasKey(rs, c.key) && |rs| < MAX_RECORDS)
    && (a == Unauthorized <==> digest.None?)
    && (a == OperationFailed <==> ran && !c.succeeds)
    && (a == EncodingFailed <==> ran && c.succeeds && c.encoded.None?)
    && (a == NoCapacity <==> digest.Some? && !HasKey(rs, c.key) && |rs| >= MAX_RECORDS)
    && (ran && c.succeeds && c.encoded.Some? ==> a == Success(c.encoded.value))
    && (a.Success? && !ran ==> HasKey(rs, c.key))
    && (digest.Some? ==> forall i :: 0 <= i < |rs| && rs[i].key == c.key ==>
          && rs[i].encoded.Some?
          && a == if rs[i].verb == c.verb && d(Material(rs[i].verb, rs[i].payload)) == digest
                  then Success(rs[i].encoded.value) else Conflict)
  }

  /**
   * Every answer over every run. An operation runs exactly if its material can be digested, no call of its key has left
   * a record, and there is room. It is a success exactly if it ran, succeeded and was encoded, with its own result; or
   * if the recorded call of its key was the same, with that call's result. Every other answer has its own case.
   */
  lemma AnswerExact(d: Digest, calls: seq<Call>, c: Call)
    ensures var (t, a, ran) := Mutate(d, Run(d, calls), c);
            && Answers(d, Records(d, calls), c, a, ran)
            && Holds(d, t, if ran && c.succeeds && c.encoded.Some? then Records(d, calls) + [c] else Records(d, calls))
  {
    TableExact(d, calls);
    var t, rs := Run(d, calls), Records(d, calls);
    assert HasKey(rs, c.key) <==> c.key in t;
    if c.key !in t && c.encoded.Some? && d(Material(c.verb, c.payload)).Some? {
      HoldsSnoc(d, t, rs, c);
    }
  }
}
