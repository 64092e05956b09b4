/** The durable receipt journal of receipt_journal.cpp: creating, opening and appending under faults. */
module Journal {
  import opened Bytes
  import opened Hex
  import opened AuditChain
  import opened Framing
  import opened Histories
  import R = Receipts
  import F = RefinementReceipts

  const HEADER_BYTES := 72
  const MIN_JOURNAL_BYTES := 1024
  const DEFAULT_JOURNAL_BYTES := 64 * 1024 * 1024

  datatype ReadError = RecordDecodeFailed | ChainVerificationFailed(cause: AuditChain.Error)

  datatype JournalError =
    | Poisoned
    | StatFailed
    | SizeChanged
    | ChainError(cause: AuditChain.Error)
    | EncodeFailed
    | CapacityExhausted
    | WriteFailed
    | SyncFailed
    | BoundInvalid
    | FileSizeInvalid
    | HeaderMismatch
    | RecoveryFailed(frame: FrameError<ReadError>)
    | AnchorNotPrefix
    | TornTailNeedsAnchor
    | RepairTruncateFailed
    | RepairSyncFailed

  // ----- record payloads

  /** The tagged wire record: a kind and two optional envelopes. */
  datatype RawRecord = RawRecord(
    kind: seq<byte>, resource: Option<(Header, R.ResourceReceipt)>, refinement: Option<(Header, F.RefinementReceipt)>)

  /** The JSON codec, which is a foreign library: a writer, and a reader for each of the two record formats. */
  datatype Codec = Codec(
    write: RawRecord -> Option<seq<byte>>,
    readTagged: seq<byte> -> Option<RawRecord>,
    readLegacy: seq<byte> -> Option<(Header, R.ResourceReceipt)>)
  {
    ghost predicate RoundTrips() {
      forall raw :: write(raw).Some? ==> readTagged(write(raw).value) == Some(raw)
    }
  }

  /** Everything a journal is opened with, besides its file; the header is derived from the key once and for all. */
  datatype Context = Context(crypto: Crypto, key: seq<byte>, codec: Codec, header: seq<byte>)
  {
    ghost predicate Sound() { crypto.Digests() && codec.RoundTrips() && |header| == HEADER_BYTES }

    function KeyIdentity(): seq<byte> { KeyId(crypto, key) }

    function Start(): Anchor { Genesis(crypto, key) }
  }

  /** The magic and the key identity, as `create_new` writes and `validate_header` compares them. */
  function FileHeader(keyId: seq<byte>): seq<byte> { Ascii("GLVRJNL1") + keyId }

  function ContextFor(crypto: Crypto, key: seq<byte>, codec: Codec): Context {
    Context(crypto, key, codec, FileHeader(KeyId(crypto, key)))
  }

  /** Every context made for a key is sound, and another key identity gives another header. */
  lemma ContextSound(crypto: Crypto, key: seq<byte>, codec: Codec, other: seq<byte>)
    requires crypto.Digests() && codec.RoundTrips()
    ensures ContextFor(crypto, key, codec).Sound()
    ensures ContextFor(crypto, key, codec).header == ContextFor(crypto, other, codec).header
        ==> KeyId(crypto, key) == KeyId(crypto, other)
  {
    if FileHeader(KeyId(crypto, key)) == FileHeader(KeyId(crypto, other)) {
      Cancel(Ascii("GLVRJNL1"), KeyId(crypto, key), Ascii("GLVRJNL1"), KeyId(crypto, other));
    }
  }

  function ResourceKind(): seq<byte> { Ascii("resource_enforcement_v1") }

  function RefinementKind(): seq<byte> { Ascii("refinement_evaluation_v1") }

  function ToRaw(r: Record): RawRecord {
    match r.receipt
    case ResourcePayload(p) => RawRecord(ResourceKind(), Some((r.h, p)), None)
    case RefinementPayload(p) => RawRecord(RefinementKind(), None, Some((r.h, p)))
  }

  /** `valid_record`: the kind names the one envelope that is present. */
  function FromRaw(w: RawRecord): Option<Record> {
    if w.kind == ResourceKind() && w.resource.Some? && w.refinement.None? then
      Some(Record(w.resource.value.0, ResourcePayload(w.resource.value.1)))
    else if w.kind == RefinementKind() && w.resource.None? && w.refinement.Some? then
      Some(Record(w.refinement.value.0, RefinementPayload(w.refinement.value.1)))
    else None
  }

  function EncodeRecord(codec: Codec, r: Record): Option<seq<byte>> {
    match codec.write(ToRaw(r))
    case None => None
    case Some(p) => if GoodSize(p) then Some(p) else None
  }

  /** The tagged format first; only text that is not tagged at all is tried as a naked resource envelope. */
  function DecodeRecord(codec: Codec, payload: seq<byte>): Option<Record> {
    match codec.readTagged(payload)
    case Some(w) => FromRaw(w)
    case None =>
      match codec.readLegacy(payload)
      case Some(e) => Some(Record(e.0, ResourcePayload(e.1)))
      case None => None
  }

  lemma DecodeEncode(codec: Codec, r: Record)
    requires codec.RoundTrips() && EncodeRecord(codec, r).Some?
    ensures DecodeRecord(codec, EncodeRecord(codec, r).value) == Some(r)
  {
    var raw := ToRaw(r);
    assert codec.write(raw).Some?;
    assert |ResourceKind()| != |RefinementKind()|;
  }

  /** What is decoded: the tagged form of a record, or text that is not tagged at all and is a legacy envelope. */
  lemma DecodeExact(codec: Codec, payload: seq<byte>, r: Record)
    ensures DecodeRecord(codec, payload) == Some(r)
        <==> codec.readTagged(payload) == Some(ToRaw(r))
             || (codec.readTagged(payload).None? && r.receipt.ResourcePayload?
                 && codec.readLegacy(payload) == Some((r.h, r.receipt.resource)))
  {
    assert |ResourceKind()| != |RefinementKind()|;
  }

  /** What recovery does with one payload: decode it, and verify it after the anchor reached so far. */
  function ReadRecord(ctx: Context, a: Anchor, payload: seq<byte>): Result<(Record, Anchor), ReadError> {
    match DecodeRecord(ctx.codec, payload)
    case None => Err(RecordDecodeFailed)
    case Some(r) =>
      match VerifySelf(ctx.crypto, ctx.key, a, r)
      case Err(e) => Err(ChainVerificationFailed(e))
      case Ok(b) => Ok((r, b))
  }

  function Reading(ctx: Context): Reader<Anchor, Record, ReadError> {
    (a, payload) => ReadRecord(ctx, a, payload)
  }

  function ReadHistory(ctx: Context, ps: seq<seq<byte>>): Option<(seq<Record>, Anchor)> {
    ReadAll(Reading(ctx), ctx.Start(), ps)
  }

  /** The records read are a history that verifies to the anchor read. */
  lemma {:induction false} ReadAllVerifies(ctx: Context, a: Anchor, ps: seq<seq<byte>>)
    requires ReadAll(Reading(ctx), a, ps).Some?
    ensures var (rs, b) := ReadAll(Reading(ctx), a, ps).value; VerifyAll(ctx.crypto, ctx.key, a, rs) == Some(b)
    decreases |ps|
  {
    if ps != [] {
      var (r, b) := ReadRecord(ctx, a, ps[0]).value;
      var rest := ReadAll(Reading(ctx), b, ps[1..]).value.0;
      ReadAllVerifies(ctx, b, ps[1..]);
      AcceptSplit(Verifier(ctx.crypto, ctx.key), a, [r], rest);
      AcceptAppend(Verifier(ctx.crypto, ctx.key), a, [], r);
      assert [] + [r] == [r];
    }
  }

  // ----- the file

  /** The journal file that holds exactly these payloads. */
  function Image(ctx: Context, ps: seq<seq<byte>>): seq<byte> { ctx.header + Frames(ps) }

  lemma ImageAppend(ctx: Context, ps: seq<seq<byte>>, p: seq<byte>)
    ensures Image(ctx, ps + [p]) == Image(ctx, ps) + Frame(p)
  {
    FramesAppend(ps, p);
    Associate(ctx.header, Frames(ps), Frame(p));
  }

  // ----- the journal's state

  datatype State = State(
    file: seq<byte>,
    records: seq<Record>,
    sequence: u64,
    head: seq<byte>,
    durable: nat,
    maxSize: nat,
    repaired: bool,
    poisoned: bool)

  function Local(ctx: Context, s: State): Anchor { Anchor(ctx.KeyIdentity(), s.sequence, s.head) }

  predicate GoodBound(maxBytes: nat) { MIN_JOURNAL_BYTES <= maxBytes <= DEFAULT_JOURNAL_BYTES }

  /**
   * The state agrees with its file. The first `durable` bytes are the header and the frames of `ps`; records,
   * sequence and head are what recovery reads from them; and behind them stands at most a part of one further frame,
   * whose payload would extend the same history. Nothing at all stands there unless the journal is poisoned.
   */
  ghost predicate Backed(ctx: Context, s: State, ps: seq<seq<byte>>, pending: seq<seq<byte>>) {
    && |pending| <= 1
    && ReadHistory(ctx, ps) == Some((s.records, Local(ctx, s)))
    && ReadHistory(ctx, ps + pending).Some?
    && s.durable == |Image(ctx, ps)| <= |s.file|
    && s.file <= Image(ctx, ps + pending)
    && (!s.poisoned ==> |s.file| == s.durable)
    && |s.file| <= s.maxSize
    && GoodBound(s.maxSize)
    && ValidDigest(s.head)
  }

  /** The head determines the journal: without collisions, two journals of one key with one head hold the same records. */
  lemma HeadDeterminesJournal(ctx: Context, s: State, ps: seq<seq<byte>>, pending: seq<seq<byte>>,
                              t: State, qs: seq<seq<byte>>, rest: seq<seq<byte>>)
    requires ctx.Sound() && ctx.crypto.HashesReceipts()
    requires Backed(ctx, s, ps, pending) && Backed(ctx, t, qs, rest)
    requires Apart(ctx.crypto, ctx.key, s.records, t.records)
    ensures Local(ctx, s) == Local(ctx, t) <==> s.records == t.records
  {
    hide Apart, Image, VerifySelf, KeyId;
    ReadAllVerifies(ctx, ctx.Start(), ps);
    ReadAllVerifies(ctx, ctx.Start(), qs);
    if Local(ctx, s) == Local(ctx, t) {
      HeadDeterminesHistory(ctx.crypto, ctx.key, ctx.Start(), s.records, t.records);
    }
  }

  function CreateState(ctx: Context, maxBytes: nat): Result<State, JournalError> {
    if !GoodBound(maxBytes) then Err(BoundInvalid)
    else Ok(State(ctx.header, [], 0, ZeroDigest(), HEADER_BYTES, maxBytes, false, false))
  }

  lemma CreateBacked(ctx: Context, maxBytes: nat)
    requires ctx.Sound() && GoodBound(maxBytes)
    ensures Backed(ctx, CreateState(ctx, maxBytes).value, [], [])
  {
    assert Image(ctx, []) == ctx.header;
  }

  // ----- appending under faults

  /** How the write of a record ends: fully, or refused after some bytes have reached the file. */
  datatype WriteOutcome = Written | Stopped(after: nat)

  /** The system calls of one append, each of which may fail. */
  datatype AppendFaults = AppendFaults(
    statFails: bool, write: WriteOutcome, syncFails: bool, truncateFails: bool, rollbackSyncFails: bool)

  /** Truncate back to the durable size and sync; a journal whose rollback fails is poisoned. */
  function Rollback(s: State, dirty: seq<byte>, io: AppendFaults): State
    requires s.durable <= |dirty|
  {
    if io.truncateFails then s.(file := dirty, poisoned := true)
    else s.(file := dirty[..s.durable], poisoned := s.poisoned || io.rollbackSyncFails)
  }

  function BytesWritten(frame: seq<byte>, w: WriteOutcome): (n: nat)
    ensures n <= |frame|
  {
    if w.Written? then |frame| else if w.after < |frame| then w.after else if |frame| > 0 then |frame| - 1 else 0
  }

  /** The fate of a record that passed every check. */
  function Commit(s: State, r: Record, frame: seq<byte>, io: AppendFaults): (State, Result<Record, JournalError>)
    requires |s.file| == s.durable
  {
    var dirty := s.file + frame[..BytesWritten(frame, io.write)];
    if io.write.Stopped? then (Rollback(s, dirty, io), Err(WriteFailed))
    else if io.syncFails then (Rollback(s, dirty, io), Err(SyncFailed))
    else
      (s.(file := dirty, records := s.records + [r], sequence := r.h.sequence, head := r.h.thisHmac,
          durable := s.durable + |frame|), Ok(r))
  }

  /** The record an append would write and its payload, or why there is none. */
  function Prepare(ctx: Context, s: State, q: Request): Result<(Record, seq<byte>), JournalError> {
    match Produce(ctx.crypto, ctx.key, Local(ctx, s), q.sessionId, q.planDigest, q.payload)
    case Err(e) => Err(ChainError(e))
    case Ok(r) =>
      match EncodeRecord(ctx.codec, r)
      case None => Err(EncodeFailed)
      case Some(p) => Ok((r, p))
  }

  /** The checks before and after the preparation, and the write. */
  function AppendPrepared(s: State, prepared: Result<(Record, seq<byte>), JournalError>, io: AppendFaults)
    : (State, Result<Record, JournalError>)
  {
    if s.poisoned then (s, Err(Poisoned))
    else if io.statFails then (s.(poisoned := true), Err(StatFailed))
    else if |s.file| != s.durable then (s.(poisoned := true), Err(SizeChanged))
    else
      match prepared
      case Err(e) => (s, Err(e))
      case Ok((r, p)) =>
        if |Frame(p)| > s.maxSize - s.durable then (s, Err(CapacityExhausted)) else Commit(s, r, Frame(p), io)
  }

  /** `append` and `append_refinement`. */
  function AppendStep(ctx: Context, s: State, q: Request, io: AppendFaults): (State, Result<Record, JournalError>) {
    AppendPrepared(s, Prepare(ctx, s, q), io)
  }

  /** An append has something to write exactly if the chain grants an envelope whose encoding fits the payload bound. */
  lemma PrepareExact(ctx: Context, s: State, q: Request)
    ensures var produced := Produce(ctx.crypto, ctx.key, Local(ctx, s), q.sessionId, q.planDigest, q.payload);
            && (Prepare(ctx, s, q).Ok? <==>
                  produced.Ok? && ctx.codec.write(ToRaw(produced.value)).Some?
                  && 0 < |ctx.codec.write(ToRaw(produced.value)).value| <= MAX_PAYLOAD_BYTES)
            && (Prepare(ctx, s, q).Ok? ==>
                  Prepare(ctx, s, q).value == (produced.value, ctx.codec.write(ToRaw(produced.value)).value))
            && (Prepare(ctx, s, q).Err? ==>
                  Prepare(ctx, s, q).error == if produced.Err? then ChainError(produced.error) else EncodeFailed)
  {
    hide Produce, KeyId, ToRaw;
  }

  /** Nothing stands in the way of writing the prepared frame. */
  predicate Attempted(s: State, prepared: Result<(Record, seq<byte>), JournalError>, io: AppendFaults) {
    && !s.poisoned && !io.statFails && |s.file| == s.durable
    && prepared.Ok? && |prepared.value.1| + 8 <= s.maxSize - s.durable
  }

  /** What an append answers, in terms of its inputs alone. */
  ghost predicate Answers(s: State, prepared: Result<(Record, seq<byte>), JournalError>, io: AppendFaults,
                          r: Result<Record, JournalError>)
  {
    && (r.Ok? <==> Attempted(s, prepared, io) && io.write.Written? && !io.syncFails)
    && (r == Err(WriteFailed) <==> Attempted(s, prepared, io) && io.write.Stopped?)
    && (r == Err(SyncFailed) <==> Attempted(s, prepared, io) && io.write.Written? && io.syncFails)
    && (r == Err(Poisoned) <==> s.poisoned)
    && (r == Err(StatFailed) <==> !s.poisoned && io.statFails)
    && (r == Err(SizeChanged) <==> !s.poisoned && !io.statFails && |s.file| != s.durable)
    && (!s.poisoned && !io.statFails && |s.file| == s.durable ==>
          && (prepared.Err? ==> r == Err(prepared.error))
          && (r == Err(CapacityExhausted) <==> prepared.Ok? && |prepared.value.1| + 8 > s.maxSize - s.durable))
  }

  /** The bytes that reach the file. */
  function Touched(s: State, prepared: Result<(Record, seq<byte>), JournalError>, io: AppendFaults): seq<byte> {
    if Attempted(s, prepared, io) then s.file + Frame(prepared.value.1)[..BytesWritten(Frame(prepared.value.1), io.write)]
    else s.file
  }

  /** What it leaves, in terms of its inputs alone. */
  ghost predicate Leaves(s: State, prepared: Result<(Record, seq<byte>), JournalError>, io: AppendFaults, t: State) {
    var attempted, done := Attempted(s, prepared, io), io.write.Written? && !io.syncFails;
    && t.maxSize == s.maxSize && t.repaired == s.repaired
    && t.file == (if !attempted || done || io.truncateFails then Touched(s, prepared, io) else s.file)
    && (t.poisoned <==> s.poisoned || io.statFails || |s.file| != s.durable
                        || (attempted && !done && (io.truncateFails || io.rollbackSyncFails)))
    && (attempted && done ==>
          && t.records == s.records + [prepared.value.0]
          && t.sequence == prepared.value.0.h.sequence && t.head == prepared.value.0.h.thisHmac
          && t.durable == |t.file| == |s.file| + |prepared.value.1| + 8)
    && (!(attempted && done) ==>
          t.records == s.records && t.sequence == s.sequence && t.head == s.head && t.durable == s.durable)
  }

  /**
   * When an append succeeds: if and only if the journal is up and unchanged, there is a record to write which fits, and
   * both the write and the sync succeed. A failed write or sync is reported as such, rolled back, and poisons the
   * journal exactly if the rollback fails.
   */
  lemma AppendExact(ctx: Context, s: State, q: Request, io: AppendFaults)
    ensures var (t, r) := AppendStep(ctx, s, q, io);
            && Answers(s, Prepare(ctx, s, q), io, r)
            && Leaves(s, Prepare(ctx, s, q), io, t)
            && (r.Ok? ==> r.value == Prepare(ctx, s, q).value.0)
  {
    hide Produce, KeyId, ToRaw;
    PrepareExact(ctx, s, q);
    PreparedAnswers(s, Prepare(ctx, s, q), io);
  }

  lemma PreparedAnswers(s: State, prepared: Result<(Record, seq<byte>), JournalError>, io: AppendFaults)
    requires prepared.Err? ==> prepared.error.ChainError? || prepared.error.EncodeFailed?
    ensures var (t, r) := AppendPrepared(s, prepared, io);
            && Answers(s, prepared, io, r) && Leaves(s, prepared, io, t)
            && (r.Ok? ==> r.value == prepared.value.0)
  {
    if Attempted(s, prepared, io) {
      assert Touched(s, prepared, io)[..s.durable] == s.file;
    }
  }

  /** The payload prepared extends the history read so far by exactly the record prepared. */
  lemma PreparedExtends(ctx: Context, s: State, ps: seq<seq<byte>>, q: Request)
    requires ctx.Sound() && ReadHistory(ctx, ps) == Some((s.records, Local(ctx, s))) && ValidDigest(s.head)
    requires Prepare(ctx, s, q).Ok?
    ensures var (r, p) := Prepare(ctx, s, q).value;
            && GoodSize(p)
            && ReadHistory(ctx, ps + [p]) == Some((s.records + [r], AnchorOf(r)))
            && AnchorOf(r).keyId == ctx.KeyIdentity()
            && ValidDigest(r.h.thisHmac)
  {
    var (r, p) := Prepare(ctx, s, q).value;
    DecodeEncode(ctx.codec, r);
    ProducedIsAccepted(ctx.crypto, ctx.key, Local(ctx, s), q.sessionId, q.planDigest, q.payload);
    VerifiedAnchor(ctx.crypto, ctx.key, Local(ctx, s), r);
    assert Reading(ctx)(Local(ctx, s), p) == Ok((r, AnchorOf(r)));
    ReadAllAppend(Reading(ctx), ctx.Start(), ps, p);
  }

  /** What is on disk after any part of the frame has been written is a prefix of the extended image. */
  lemma PartlyWritten(ctx: Context, s: State, ps: seq<seq<byte>>, p: seq<byte>, n: nat)
    requires s.file == Image(ctx, ps) && n <= |Frame(p)|
    ensures s.file + Frame(p)[..n] <= Image(ctx, ps + [p])
    ensures (s.file + Frame(p)[..n])[..|s.file|] == s.file
    ensures n == |Frame(p)| ==> s.file + Frame(p)[..n] == Image(ctx, ps + [p])
  {
    ImageAppend(ctx, ps, p);
  }

  /** Committing keeps the agreement, whatever fails. */
  lemma CommitBacked(ctx: Context, s: State, ps: seq<seq<byte>>, r: Record, p: seq<byte>, io: AppendFaults)
    requires Backed(ctx, s, ps, []) && !s.poisoned && |Frame(p)| <= s.maxSize - s.durable
    requires ReadHistory(ctx, ps + [p]) == Some((s.records + [r], AnchorOf(r)))
    requires AnchorOf(r).keyId == ctx.KeyIdentity() && ValidDigest(r.h.thisHmac)
    ensures var (t, result) := Commit(s, r, Frame(p), io);
            if result.Ok? then Backed(ctx, t, ps + [p], [])
            else Backed(ctx, t, ps, if t.file == s.file then [] else [p])
  {
    var n := BytesWritten(Frame(p), io.write);
    assert ps + [] == ps && ps + [p] + [] == ps + [p];
    assert s.file == Image(ctx, ps);
    PartlyWritten(ctx, s, ps, p, n);
  }

  lemma DropPending(ctx: Context, s: State, ps: seq<seq<byte>>, pending: seq<seq<byte>>)
    requires Backed(ctx, s, ps, pending) && |s.file| == s.durable
    ensures Backed(ctx, s, ps, [])
  {
    assert ps + [] == ps;
    if pending != [] {
      assert pending == [pending[0]];
      ImageAppend(ctx, ps, pending[0]);
    }
  }

  /** The record and payload prepared extend the history of `ps` by one. */
  ghost predicate Extends(ctx: Context, s: State, ps: seq<seq<byte>>, r: Record, p: seq<byte>) {
    && ReadHistory(ctx, ps + [p]) == Some((s.records + [r], AnchorOf(r)))
    && AnchorOf(r).keyId == ctx.KeyIdentity()
    && ValidDigest(r.h.thisHmac)
  }

  lemma PreparedKeeps(ctx: Context, s: State, ps: seq<seq<byte>>, pending: seq<seq<byte>>,
                      prepared: Result<(Record, seq<byte>), JournalError>, io: AppendFaults)
    returns (qs: seq<seq<byte>>, rest: seq<seq<byte>>)
    requires Backed(ctx, s, ps, pending)
    requires prepared.Ok? ==> Extends(ctx, s, ps, prepared.value.0, prepared.value.1)
    ensures var (t, result) := AppendPrepared(s, prepared, io);
            Backed(ctx, t, qs, rest) && Kept(s, t, result) && Grown(ps, qs, rest, t, result)
  {
    hide ReadHistory, Frames;
    qs, rest := ps, pending;
    if !s.poisoned && !io.statFails && |s.file| == s.durable && prepared.Ok? {
      var (r, p) := prepared.value;
      if |Frame(p)| <= s.maxSize - s.durable {
        DropPending(ctx, s, ps, pending);
        CommitBacked(ctx, s, ps, r, p, io);
        var (t, result) := Commit(s, r, Frame(p), io);
        if result.Ok? {
          qs, rest := ps + [p], [];
        } else {
          rest := if t.file == s.file then [] else [p];
        }
      }
    }
  }

  /** What an append does to the state: success adds the record returned, failure touches neither chain nor records. */
  predicate Kept(s: State, t: State, result: Result<Record, JournalError>) {
    match result
    case Ok(r) => t.records == s.records + [r] && !t.poisoned && t.maxSize == s.maxSize
    case Err(_) =>
      && t == s.(file := t.file, poisoned := t.poisoned)
      && (s.poisoned ==> t.poisoned)
      && (!t.poisoned ==> t.file == s.file)
      && s.file <= t.file
  }

  /** What it does to the payloads on disk. */
  predicate Grown(ps: seq<seq<byte>>, qs: seq<seq<byte>>, rest: seq<seq<byte>>, t: State,
                  result: Result<Record, JournalError>) {
    if result.Ok? then |qs| == |ps| + 1 && ps <= qs && rest == [] else qs == ps
  }

  /**
   * One append, under any faults: on success the history grows by the record returned; on failure records, sequence,
   * head and durable size are untouched, and unless the journal is now poisoned the file is too.
   */
  lemma AppendKeeps(ctx: Context, s: State, ps: seq<seq<byte>>, pending: seq<seq<byte>>, q: Request, io: AppendFaults)
    returns (qs: seq<seq<byte>>, rest: seq<seq<byte>>)
    requires ctx.Sound() && Backed(ctx, s, ps, pending)
    ensures var (t, result) := AppendStep(ctx, s, q, io);
            Backed(ctx, t, qs, rest) && Kept(s, t, result) && Grown(ps, qs, rest, t, result)
  {
    if Prepare(ctx, s, q).Ok? {
      PreparedExtends(ctx, s, ps, q);
    }
    qs, rest := PreparedKeeps(ctx, s, ps, pending, Prepare(ctx, s, q), io);
  }

  /** A run of appends, each with its own faults. */
  function AppendRun(ctx: Context, s: State, run: seq<(Request, AppendFaults)>): State {
    if run == [] then s
    else AppendStep(ctx, AppendRun(ctx, s, run[..|run| - 1]), run[|run| - 1].0, run[|run| - 1].1).0
  }

  /** The records returned by the successful appends of a run, in order. */
  function Appended(ctx: Context, s: State, run: seq<(Request, AppendFaults)>): seq<Record> {
    if run == [] then []
    else
      var before := run[..|run| - 1];
      match AppendStep(ctx, AppendRun(ctx, s, before), run[|run| - 1].0, run[|run| - 1].1).1
      case Ok(r) => Appended(ctx, s, before) + [r]
      case Err(_) => Appended(ctx, s, before)
  }

  lemma RecordsStep(base: seq<Record>, got: seq<Record>, s: State, t: State, result: Result<Record, JournalError>)
    requires Kept(s, t, result) && s.records == base + got
    ensures t.records == base + match result case Ok(r) => got + [r] case Err(_) => got
  {
    if result.Ok? {
      Associate(base, got, [result.value]);
    }
  }

  /** Over every run the state agrees with its file, and it gains exactly the records returned, in order. */
  lemma {:induction false} RunKeeps(ctx: Context, s: State, ps: seq<seq<byte>>, pending: seq<seq<byte>>,
                                    run: seq<(Request, AppendFaults)>)
    returns (qs: seq<seq<byte>>, rest: seq<seq<byte>>)
    requires ctx.Sound() && Backed(ctx, s, ps, pending)
    ensures Backed(ctx, AppendRun(ctx, s, run), qs, rest)
    ensures AppendRun(ctx, s, run).records == s.records + Appended(ctx, s, run)
  {
    qs, rest := ps, pending;
    if run == [] {
      assert s.records + [] == s.records;
    } else {
      var before := run[..|run| - 1];
      var (q, io) := run[|run| - 1];
      qs, rest := RunKeeps(ctx, s, ps, pending, before);
      var last := AppendRun(ctx, s, before);
      qs, rest := AppendKeeps(ctx, last, qs, rest, q, io);
      RecordsStep(s.records, Appended(ctx, s, before), last, AppendStep(ctx, last, q, io).0, AppendStep(ctx, last, q, io).1);
    }
  }

  // ----- capacity

  function Capacity(s: State): int { s.maxSize - s.durable }

  /** `remaining_capacity`: a journal found changed is poisoned. */
  function ReadCapacity(s: State, statFails: bool): (State, Option<nat>) {
    if s.poisoned then (s, None)
    else if statFails || |s.file| != s.durable then (s.(poisoned := true), None)
    else if Capacity(s) < 0 then (s, None)
    else (s, Some(Capacity(s)))
  }

  /** The capacity is known exactly as long as the file can be checked and is as it was left. */
  lemma ReadCapacityExact(s: State, statFails: bool)
    requires s.durable <= s.maxSize
    ensures var bad := s.poisoned || statFails || |s.file| != s.durable;
            ReadCapacity(s, statFails) == (s.(poisoned := bad), if bad then None else Some(s.maxSize - s.durable))
  {
  }

  // ----- opening

  /** `anchor_is_prefix`: the peer's head is the head of one of the journal's prefixes. */
  predicate AnchorIsPrefix(peer: Anchor, keyId: seq<byte>, records: seq<Record>) {
    && peer.keyId == keyId
    && peer.sequence <= |records|
    && peer.head == if peer.sequence == 0 then ZeroDigest() else records[peer.sequence - 1].h.thisHmac
  }

  datatype OpenFaults = OpenFaults(truncateFails: bool, syncFails: bool)

  const NO_FAULTS := OpenFaults(false, false)

  /** What opening makes of a successful scan, and the file it leaves behind. */
  function Adopt(ctx: Context, file: seq<byte>, peer: Option<Anchor>, maxBytes: nat, io: OpenFaults,
                 s: Scanned<Anchor, Record, ReadError>): (Result<State, JournalError>, seq<byte>)
    requires s.Found? && HEADER_BYTES + s.bytes <= |file|
  {
    var durable := HEADER_BYTES + s.bytes;
    var state := State(file[..durable], s.records, s.anchor.sequence, s.anchor.head, durable, maxBytes, s.torn, false);
    if peer.Some? && !AnchorIsPrefix(peer.value, ctx.KeyIdentity(), s.records) then (Err(AnchorNotPrefix), file)
    else if !s.torn then (Ok(state.(file := file)), file)
    else if peer.None? then (Err(TornTailNeedsAnchor), file)
    else if io.truncateFails then (Err(RepairTruncateFailed), file)
    else if io.syncFails then (Err(RepairSyncFailed), file[..durable])
    else (Ok(state), file[..durable])
  }

  lemma ScanWithin(ctx: Context, file: seq<byte>)
    requires HEADER_BYTES <= |file| && Scan(Reading(ctx), file[HEADER_BYTES..], ctx.Start()).Found?
    ensures HEADER_BYTES + Scan(Reading(ctx), file[HEADER_BYTES..], ctx.Start()).bytes <= |file|
  {
    var ps := ScanSound(Reading(ctx), file[HEADER_BYTES..], ctx.Start());
  }

  /** `open_existing` on a file's contents. */
  ghost function Open(ctx: Context, file: seq<byte>, peer: Option<Anchor>, maxBytes: nat, io: OpenFaults)
    : (Result<State, JournalError>, seq<byte>)
  {
    if !GoodBound(maxBytes) then (Err(BoundInvalid), file)
    else if |file| < HEADER_BYTES || |file| > maxBytes then (Err(FileSizeInvalid), file)
    else if file[..HEADER_BYTES] != ctx.header then (Err(HeaderMismatch), file)
    else
      var s := Scan(Reading(ctx), file[HEADER_BYTES..], ctx.Start());
      if s.Corrupt? then (Err(RecoveryFailed(s.error)), file)
      else
        ScanWithin(ctx, file);
        Adopt(ctx, file, peer, maxBytes, io, s)
  }

  /** The code of `open_existing`, with the recovery loop and the repair of a torn tail. */
  method OpenExisting(ctx: Context, file: seq<byte>, peer: Option<Anchor>, maxBytes: nat, io: OpenFaults)
    returns (r: Result<State, JournalError>, after: seq<byte>)
    ensures (r, after) == Open(ctx, file, peer, maxBytes, io)
  {
    hide Scan, Reading, AnchorIsPrefix, KeyId;
    after := file;
    if !GoodBound(maxBytes) { return Err(BoundInvalid), file; }
    if |file| < HEADER_BYTES || |file| > maxBytes { return Err(FileSizeInvalid), file; }
    if file[..HEADER_BYTES] != ctx.header { return Err(HeaderMismatch), file; }
    var recovered := RecoverRecords(Reading(ctx), file, HEADER_BYTES, ctx.Start());
    if recovered.Corrupt? { return Err(RecoveryFailed(recovered.error)), file; }
    ScanWithin(ctx, file);
    var durable := HEADER_BYTES + recovered.bytes;
    if peer.Some? && !AnchorIsPrefix(peer.value, ctx.KeyIdentity(), recovered.records) {
      return Err(AnchorNotPrefix), file;
    }
    if recovered.torn {
      if peer.None? { return Err(TornTailNeedsAnchor), file; }
      if io.truncateFails { return Err(RepairTruncateFailed), file; }
      after := file[..durable];
      if io.syncFails { return Err(RepairSyncFailed), after; }
    }
    r := Ok(State(after, recovered.records, recovered.anchor.sequence, recovered.anchor.head, durable, maxBytes,
                  recovered.torn, false));
  }

  // ----- crash recovery

  /** The state opening arrives at when the file holds exactly the payloads `ps`. */
  ghost function Reopened(ctx: Context, ps: seq<seq<byte>>, maxBytes: nat, repaired: bool): State
    requires ReadHistory(ctx, ps).Some?
  {
    var (rs, a) := ReadHistory(ctx, ps).value;
    State(Image(ctx, ps), rs, a.sequence, a.head, |Image(ctx, ps)|, maxBytes, repaired, false)
  }

  /** A history is read to an anchor of its own key with a well-formed head. */
  lemma {:induction false} ReadAnchor(ctx: Context, a: Anchor, ps: seq<seq<byte>>)
    requires ReadAll(Reading(ctx), a, ps).Some? && ValidDigest(a.head)
    ensures var b := ReadAll(Reading(ctx), a, ps).value.1; b.keyId == a.keyId && ValidDigest(b.head)
    decreases |ps|
  {
    if ps != [] {
      var (r, b) := ReadRecord(ctx, a, ps[0]).value;
      VerifiedAnchor(ctx.crypto, ctx.key, a, r);
      ReadAnchor(ctx, b, ps[1..]);
    }
  }

  lemma ReopenedBacked(ctx: Context, ps: seq<seq<byte>>, maxBytes: nat, repaired: bool)
    requires ctx.Sound() && ReadHistory(ctx, ps).Some? && GoodBound(maxBytes) && |Image(ctx, ps)| <= maxBytes
    ensures Backed(ctx, Reopened(ctx, ps, maxBytes, repaired), ps, [])
  {
    ReadAnchor(ctx, ctx.Start(), ps);
    assert ps + [] == ps;
  }

  /** What opening answers for a file whose records are intact: the repair, if one is due, and its faults. */
  ghost function Repaired(ctx: Context, file: seq<byte>, ps: seq<seq<byte>>, peer: Option<Anchor>, maxBytes: nat,
                          io: OpenFaults): (Result<State, JournalError>, seq<byte>)
    requires ReadHistory(ctx, ps).Some?
  {
    var torn := file != Image(ctx, ps);
    var t := Reopened(ctx, ps, maxBytes, torn);
    if peer.Some? && !AnchorIsPrefix(peer.value, ctx.KeyIdentity(), t.records) then (Err(AnchorNotPrefix), file)
    else if torn && peer.None? then (Err(TornTailNeedsAnchor), file)
    else if torn && io.truncateFails then (Err(RepairTruncateFailed), file)
    else if torn && io.syncFails then (Err(RepairSyncFailed), t.file)
    else (Ok(t), t.file)
  }

  /** The file may be a journal of this key. */
  predicate Headed(ctx: Context, file: seq<byte>, maxBytes: nat) {
    GoodBound(maxBytes) && HEADER_BYTES <= |file| <= maxBytes && file[..HEADER_BYTES] == ctx.header
  }

  ghost predicate IntactJournal(ctx: Context, file: seq<byte>, ps: seq<seq<byte>>) {
    HEADER_BYTES <= |file| && Intact(Reading(ctx), ctx.Start(), file[HEADER_BYTES..], ps)
  }

  ghost predicate DamagedJournal(ctx: Context, file: seq<byte>, ps: seq<seq<byte>>, e: FrameError<ReadError>) {
    HEADER_BYTES <= |file| && Damaged(Reading(ctx), ctx.Start(), file[HEADER_BYTES..], ps, e)
  }

  /** A fault is reported, and only a fault. */
  lemma OpenReports(ctx: Context, file: seq<byte>, peer: Option<Anchor>, maxBytes: nat, io: OpenFaults)
    requires ctx.Sound() && Headed(ctx, file, maxBytes)
    ensures var s, (r, after) := Scan(Reading(ctx), file[HEADER_BYTES..], ctx.Start()), Open(ctx, file, peer, maxBytes, io);
            && (s.Corrupt? ==> (r, after) == (Err(RecoveryFailed(s.error)), file))
            && (s.Found? && r.Err? ==> !r.error.RecoveryFailed?)
  {
    hide Reading, Scan, AnchorIsPrefix, KeyId;
  }

  lemma ScanJournal(ctx: Context, file: seq<byte>)
    requires HEADER_BYTES <= |file|
    ensures var s := Scan(Reading(ctx), file[HEADER_BYTES..], ctx.Start());
            && (forall e :: s == Corrupt(e) <==> exists ps :: DamagedJournal(ctx, file, ps, e))
            && (s.Found? <==> exists ps :: IntactJournal(ctx, file, ps))
            && (forall ps :: IntactJournal(ctx, file, ps) ==>
                  && ReadHistory(ctx, ps).Some? && Frames(ps) <= file[HEADER_BYTES..]
                  && s == Found(ReadHistory(ctx, ps).value.0, |Frames(ps)|, ReadHistory(ctx, ps).value.1,
                                file[HEADER_BYTES..] != Frames(ps)))
  {
    hide Reading, Scan, KeyId, Fault, TornTail, ReadAll;
    var bytes, read, a := file[HEADER_BYTES..], Reading(ctx), ctx.Start();
    ScanExact(read, bytes, a);
    var s := Scan(read, bytes, a);
    forall e
      ensures s == Corrupt(e) <==> exists ps :: DamagedJournal(ctx, file, ps, e)
    {
      if ps :| Damaged(read, a, bytes, ps, e) { assert DamagedJournal(ctx, file, ps, e); }
      if ps :| DamagedJournal(ctx, file, ps, e) { assert Damaged(read, a, bytes, ps, e); }
    }
    if ps :| Intact(read, a, bytes, ps) { assert IntactJournal(ctx, file, ps); }
  }

  /** What opening answers when the records are intact, or damaged. */
  lemma OpenScanned(ctx: Context, file: seq<byte>, peer: Option<Anchor>, maxBytes: nat, io: OpenFaults)
    requires ctx.Sound() && Headed(ctx, file, maxBytes)
    ensures var (r, after) := Open(ctx, file, peer, maxBytes, io);
            && (forall ps :: IntactJournal(ctx, file, ps) ==>
                  ReadHistory(ctx, ps).Some? && (r, after) == Repaired(ctx, file, ps, peer, maxBytes, io))
            && (forall e :: r == Err(RecoveryFailed(e)) <==> exists ps :: DamagedJournal(ctx, file, ps, e))
            && ((exists ps :: IntactJournal(ctx, file, ps)) || (r.Err? && r.error.RecoveryFailed? && after == file))
  {
    hide Reading, Scan, AnchorIsPrefix, KeyId, IntactJournal, DamagedJournal, Open, ReadHistory;
    ScanJournal(ctx, file);
    OpenReports(ctx, file, peer, maxBytes, io);
    forall ps | IntactJournal(ctx, file, ps)
      ensures Open(ctx, file, peer, maxBytes, io) == Repaired(ctx, file, ps, peer, maxBytes, io)
    {
      assert file == ctx.header + file[HEADER_BYTES..];
      OpenIntact(ctx, file[HEADER_BYTES..], ps, peer, maxBytes, io);
    }
    var s, r := Scan(Reading(ctx), file[HEADER_BYTES..], ctx.Start()), Open(ctx, file, peer, maxBytes, io).0;
    forall e
      ensures r == Err(RecoveryFailed(e)) <==> exists ps :: DamagedJournal(ctx, file, ps, e)
    {
      assert s == Corrupt(e) <==> exists ps :: DamagedJournal(ctx, file, ps, e);
    }
  }

  lemma OpenIntact(ctx: Context, bytes: seq<byte>, ps: seq<seq<byte>>, peer: Option<Anchor>, maxBytes: nat, io: OpenFaults)
    requires ctx.Sound() && HEADER_BYTES + |bytes| <= maxBytes && GoodBound(maxBytes)
    requires ReadHistory(ctx, ps).Some? && Frames(ps) <= bytes
    requires Scan(Reading(ctx), bytes, ctx.Start())
          == Found(ReadHistory(ctx, ps).value.0, |Frames(ps)|, ReadHistory(ctx, ps).value.1, bytes != Frames(ps))
    ensures var file := ctx.header + bytes;
            Open(ctx, file, peer, maxBytes, io) == Repaired(ctx, file, ps, peer, maxBytes, io)
  {
    hide Scan, Reading, AnchorIsPrefix, KeyId, ReadHistory, Frames;
    var file := ctx.header + bytes;
    BehindHeader(ctx.header, bytes, Frames(ps));
    assert file[..|file|] == file;
    assert file[..HEADER_BYTES + |Frames(ps)|] == Image(ctx, ps);
    assert file == Image(ctx, ps) <==> bytes == Frames(ps);
  }

  /**
   * Opening, on every file: it is refused exactly for its bound, its size, its header, or a fault behind the frames of
   * accepted payloads, and then it is left alone; otherwise the records in front are recovered, and only a torn tail
   * behind them is ever cut off, for a peer that knows a prefix of them.
   */
  lemma OpenExact(ctx: Context, file: seq<byte>, peer: Option<Anchor>, maxBytes: nat, io: OpenFaults)
    requires ctx.Sound()
    ensures var (r, after) := Open(ctx, file, peer, maxBytes, io);
            && (r == Err(BoundInvalid) <==> !GoodBound(maxBytes))
            && (r == Err(FileSizeInvalid) <==> GoodBound(maxBytes) && !(HEADER_BYTES <= |file| <= maxBytes))
            && (r == Err(HeaderMismatch) <==>
                  GoodBound(maxBytes) && HEADER_BYTES <= |file| <= maxBytes && file[..HEADER_BYTES] != ctx.header)
            && (forall e :: r == Err(RecoveryFailed(e)) <==>
                  Headed(ctx, file, maxBytes) && exists ps :: DamagedJournal(ctx, file, ps, e))
            && (forall ps :: Headed(ctx, file, maxBytes) && IntactJournal(ctx, file, ps) ==>
                  ReadHistory(ctx, ps).Some? && (r, after) == Repaired(ctx, file, ps, peer, maxBytes, io))
            && (r.Ok? ==> Headed(ctx, file, maxBytes) && exists ps :: IntactJournal(ctx, file, ps))
            && (r.Err? && r.error != RepairSyncFailed ==> after == file)
  {
    hide Scan, Reading, AnchorIsPrefix, KeyId, IntactJournal, DamagedJournal, ReadHistory;
    if Headed(ctx, file, maxBytes) {
      OpenScanned(ctx, file, peer, maxBytes, io);
    }
  }

  lemma KeptIsRead(ctx: Context, ps: seq<seq<byte>>, kept: seq<seq<byte>>) returns (rs: seq<Record>, b: Anchor)
    requires ReadHistory(ctx, ps).Some? && |kept| <= |ps| && kept == ps[..|kept|]
    ensures ReadHistory(ctx, kept) == Some((rs, b))
  {
    ReadAllPrefix(Reading(ctx), ctx.Start(), ps, |kept|);
    rs, b := ReadHistory(ctx, kept).value.0, ReadHistory(ctx, kept).value.1;
  }

  /** What a scan of a cut journal finds. */
  lemma CutKept(ctx: Context, ps: seq<seq<byte>>, kept: seq<seq<byte>>, cut: seq<byte>)
    requires ReadHistory(ctx, ps).Some? && cut <= Frames(ps) && kept == ps[..Fit(ps, |cut|)]
    ensures ReadHistory(ctx, kept).Some? && Frames(kept) <= cut
    ensures Scan(Reading(ctx), cut, ctx.Start())
         == Found(ReadHistory(ctx, kept).value.0, |Frames(kept)|, ReadHistory(ctx, kept).value.1, |cut| != |Frames(kept)|)
  {
    var rs, b := KeptIsRead(ctx, ps, kept);
    CutFinds(Reading(ctx), ctx.Start(), ps, kept, cut, rs, b);
  }

  /** Opening, once the scan is known. */
  lemma OpenFound(ctx: Context, cut: seq<byte>, kept: seq<seq<byte>>, peer: Option<Anchor>, maxBytes: nat)
    requires ctx.Sound() && HEADER_BYTES + |cut| <= maxBytes && GoodBound(maxBytes)
    requires ReadHistory(ctx, kept).Some? && Frames(kept) <= cut
    requires Scan(Reading(ctx), cut, ctx.Start())
          == Found(ReadHistory(ctx, kept).value.0, |Frames(kept)|, ReadHistory(ctx, kept).value.1, |cut| != |Frames(kept)|)
    ensures var t, file := Reopened(ctx, kept, maxBytes, |cut| != |Frames(kept)|), ctx.header + cut;
            Open(ctx, file, peer, maxBytes, NO_FAULTS)
              == if peer.Some? && !AnchorIsPrefix(peer.value, ctx.KeyIdentity(), t.records) then (Err(AnchorNotPrefix), file)
                 else if t.repaired && peer.None? then (Err(TornTailNeedsAnchor), file)
                 else (Ok(t), t.file)
  {
    hide Scan, Reading, AnchorIsPrefix, KeyId, ReadHistory, Frames;
    var file := ctx.header + cut;
    BehindHeader(ctx.header, cut, Frames(kept));
    assert file[..|file|] == file;
    assert file[..HEADER_BYTES + |Frames(kept)|] == Image(ctx, kept);
  }

  lemma ImageCut(ctx: Context, ps: seq<seq<byte>>, c: nat)
    requires ctx.Sound() && HEADER_BYTES <= c <= |Image(ctx, ps)|
    ensures c - HEADER_BYTES <= |Frames(ps)|
    ensures Image(ctx, ps)[..c] == ctx.header + Frames(ps)[..c - HEADER_BYTES]
  {
  }

  /**
   * Crash recovery at every byte: cut the file of any accepted history at any offset at or past the header, and
   * opening it never reports corruption. It recovers exactly the records whose frames fit wholly, needs a peer anchor
   * that is a prefix of them if and only if the cut is off a frame boundary, and leaves a file without a torn tail.
   */
  lemma OpenCut(ctx: Context, ps: seq<seq<byte>>, c: nat, peer: Option<Anchor>, maxBytes: nat)
    returns (t: State, kept: seq<seq<byte>>)
    requires ctx.Sound() && ReadHistory(ctx, ps).Some?
    requires HEADER_BYTES <= c <= |Image(ctx, ps)| && c <= maxBytes && GoodBound(maxBytes)
    ensures kept == ps[..Fit(ps, c - HEADER_BYTES)] && ReadHistory(ctx, kept).Some?
    ensures t == Reopened(ctx, kept, maxBytes, c != |Image(ctx, kept)|) && Backed(ctx, t, kept, [])
    ensures Open(ctx, Image(ctx, ps)[..c], peer, maxBytes, NO_FAULTS)
         == if peer.Some? && !AnchorIsPrefix(peer.value, ctx.KeyIdentity(), t.records)
              then (Err(AnchorNotPrefix), Image(ctx, ps)[..c])
            else if t.repaired && peer.None? then (Err(TornTailNeedsAnchor), Image(ctx, ps)[..c])
            else (Ok(t), t.file)
  {
    ImageCut(ctx, ps, c);
    var cut := Frames(ps)[..c - HEADER_BYTES];
    kept := ps[..Fit(ps, |cut|)];
    CutKept(ctx, ps, kept, cut);
    t := Reopened(ctx, kept, maxBytes, |cut| != |Frames(kept)|);
    ReopenedBacked(ctx, kept, maxBytes, |cut| != |Frames(kept)|);
    OpenFound(ctx, cut, kept, peer, maxBytes);
  }
}
