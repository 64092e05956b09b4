/** What a restart recovers after a crash, and what survives every life of a journal (receipt_journal.cpp). */
module CrashRecovery {
  import opened Bytes
  import opened AuditChain
  import opened Framing
  import opened Journal

  /** Frames that fit wholly stay counted when more follow. */
  lemma {:induction false} FitAppend(ps: seq<seq<byte>>, more: seq<seq<byte>>, m: nat)
    requires |Frames(ps)| <= m
    ensures Fit(ps + more, m) == |ps| + Fit(more, m - |Frames(ps)|)
  {
    if ps == [] {
      assert ps + more == more;
    } else {
      assert (ps + more)[1..] == ps[1..] + more;
      FitAppend(ps[1..], more, m - |Frame(ps[0])|);
    }
  }

  /** A peer that knows a prefix of the records knows a prefix of every extension. */
  lemma PrefixOfExtension(peer: Anchor, keyId: seq<byte>, rs: seq<Record>, qs: seq<Record>)
    requires AnchorIsPrefix(peer, keyId, rs) && rs <= qs
    ensures AnchorIsPrefix(peer, keyId, qs)
  {
  }

  /** The kept payloads of a cut at or past the durable size: those of the journal, and possibly the pending one. */
  lemma KeptPayloads(ps: seq<seq<byte>>, pending: seq<seq<byte>>, m: nat, extra: nat)
    requires |pending| <= 1 && m == |Frames(ps)| + extra
    ensures (ps + pending)[..Fit(ps + pending, m)] == if extra < |Frames(pending)| then ps else ps + pending
  {
    FitAppend(ps, pending, m);
    if pending != [] {
      assert pending == [pending[0]] && pending[1..] == [];
      assert Frames(pending) == Frame(pending[0]) + [];
    }
  }

  lemma KeptRecords(ctx: Context, s: State, ps: seq<seq<byte>>, pending: seq<seq<byte>>, kept: seq<seq<byte>>)
    requires Backed(ctx, s, ps, pending) && (kept == ps || kept == ps + pending)
    ensures ReadHistory(ctx, kept).Some?
    ensures var rs := ReadHistory(ctx, kept).value.0;
            s.records <= rs && |rs| == |kept| && (kept == ps ==> rs == s.records)
  {
    ReadAllLength(Reading(ctx), ctx.Start(), kept);
    ReadAllPrefix(Reading(ctx), ctx.Start(), ps + pending, |ps|);
    assert (ps + pending)[..|ps|] == ps;
  }

  /** What a restart finds of a file cut at `c`. */
  lemma CutOfBacked(ctx: Context, s: State, ps: seq<seq<byte>>, pending: seq<seq<byte>>, c: nat)
    requires ctx.Sound() && Backed(ctx, s, ps, pending) && s.durable <= c <= |s.file|
    ensures c - HEADER_BYTES == |Frames(ps)| + (c - s.durable) && HEADER_BYTES <= c <= |Image(ctx, ps + pending)|
    ensures ReadHistory(ctx, ps + pending).Some? && c <= s.maxSize && GoodBound(s.maxSize) && |pending| <= 1
    ensures s.file[..c] == Image(ctx, ps + pending)[..c]
  {
  }

  /** Opening after a crash: everything durable, and the pending record if the crash left its whole frame. */
  lemma OpenCrashed(ctx: Context, s: State, ps: seq<seq<byte>>, pending: seq<seq<byte>>, c: nat, peer: Anchor)
    returns (t: State, kept: seq<seq<byte>>)
    requires ctx.Sound() && Backed(ctx, s, ps, pending) && s.durable <= c <= |s.file|
    ensures kept == if c - s.durable < |Frames(pending)| then ps else ps + pending
    ensures ReadHistory(ctx, kept).Some?
    ensures t == Reopened(ctx, kept, s.maxSize, c != |Image(ctx, kept)|)
    ensures Backed(ctx, t, kept, [])
    ensures Open(ctx, s.file[..c], Some(peer), s.maxSize, NO_FAULTS)
         == if AnchorIsPrefix(peer, ctx.KeyIdentity(), t.records) then (Ok(t), t.file)
            else (Err(AnchorNotPrefix), s.file[..c])
  {
    hide Open, ReadHistory, AnchorIsPrefix, Frames;
    CutOfBacked(ctx, s, ps, pending, c);
    KeptPayloads(ps, pending, c - HEADER_BYTES, c - s.durable);
    t, kept := OpenCut(ctx, ps + pending, c, Some(peer), s.maxSize);
  }

  /** Opening the file of an undamaged journal changes nothing. */
  lemma ReopenClean(ctx: Context, s: State, ps: seq<seq<byte>>, peer: Anchor)
    requires ctx.Sound() && Backed(ctx, s, ps, []) && !s.poisoned
    requires AnchorIsPrefix(peer, ctx.KeyIdentity(), s.records)
    ensures Open(ctx, s.file, Some(peer), s.maxSize, NO_FAULTS) == (Ok(s.(repaired := false)), s.file)
  {
    assert s.file[..|s.file|] == s.file;
    assert ps + [] == ps;
    var t, kept := OpenCrashed(ctx, s, ps, [], |s.file|, peer);
  }

  /** The records after a restart. */
  lemma CrashedRecords(ctx: Context, s: State, ps: seq<seq<byte>>, pending: seq<seq<byte>>, t: State, kept: seq<seq<byte>>)
    requires Backed(ctx, s, ps, pending) && (kept == ps || kept == ps + pending) && Backed(ctx, t, kept, [])
    ensures s.records <= t.records && |t.records| == |s.records| + |kept| - |ps|
  {
    KeptRecords(ctx, s, ps, pending, kept);
    KeptRecords(ctx, s, ps, pending, ps);
  }

  /**
   * Restart after any crash: whatever part of the bytes behind the durable size survived, a peer holding the head of
   * any prefix gets the journal open, with every record, at most one more, and nothing torn; a second restart is clean.
   */
  lemma RestartRecovers(ctx: Context, s: State, ps: seq<seq<byte>>, pending: seq<seq<byte>>, c: nat, peer: Anchor)
    returns (t: State, kept: seq<seq<byte>>)
    requires ctx.Sound() && Backed(ctx, s, ps, pending) && s.durable <= c <= |s.file|
    requires AnchorIsPrefix(peer, ctx.KeyIdentity(), s.records)
    ensures Open(ctx, s.file[..c], Some(peer), s.maxSize, NO_FAULTS) == (Ok(t), t.file)
    ensures Backed(ctx, t, kept, []) && !t.poisoned && t.maxSize == s.maxSize
    ensures s.records <= t.records
    ensures |t.records| == |s.records| + if c - s.durable < |Frames(pending)| then 0 else |pending|
    ensures t.repaired <==> c != t.durable
    ensures Open(ctx, t.file, Some(peer), s.maxSize, NO_FAULTS) == (Ok(t.(repaired := false)), t.file)
  {
    t, kept := OpenCrashed(ctx, s, ps, pending, c, peer);
    CrashedRecords(ctx, s, ps, pending, t, kept);
    PrefixOfExtension(peer, ctx.KeyIdentity(), s.records, t.records);
    ReopenClean(ctx, t, kept, peer);
  }

  /**
   * A crash during an append, after any number of bytes of the frame: the restart finds the old records, or the old
   * records and the new one exactly if the whole frame was written.
   */
  lemma CrashDuringAppend(ctx: Context, s: State, ps: seq<seq<byte>>, q: Request, n: nat, peer: Anchor)
    returns (t: State)
    requires ctx.Sound() && Backed(ctx, s, ps, []) && !s.poisoned && Prepare(ctx, s, q).Ok?
    requires |Frame(Prepare(ctx, s, q).value.1)| <= s.maxSize - s.durable
    requires n <= |Frame(Prepare(ctx, s, q).value.1)| && AnchorIsPrefix(peer, ctx.KeyIdentity(), s.records)
    ensures var (r, p) := Prepare(ctx, s, q).value;
            && Open(ctx, s.file + Frame(p)[..n], Some(peer), s.maxSize, NO_FAULTS) == (Ok(t), t.file)
            && t.records == (if n == |Frame(p)| then s.records + [r] else s.records)
            && t.file == (if n == |Frame(p)| then s.file + Frame(p) else s.file)
            && (t.repaired <==> 0 < n < |Frame(p)|) && !t.poisoned
  {
    var (r, p) := Prepare(ctx, s, q).value;
    PreparedExtends(ctx, s, ps, q);
    t := CrashDuringWrite(ctx, s, ps, r, p, n, peer);
  }

  /** The state of a process that died in the middle of a write. */
  lemma CrashedBacked(ctx: Context, s: State, ps: seq<seq<byte>>, r: Record, p: seq<byte>, n: nat)
    requires ctx.Sound() && Backed(ctx, s, ps, []) && !s.poisoned && Extends(ctx, s, ps, r, p)
    requires |Frame(p)| <= s.maxSize - s.durable && n <= |Frame(p)|
    ensures Backed(ctx, s.(file := s.file + Frame(p)[..n], poisoned := true), ps, [p])
    ensures s.file == Image(ctx, ps) && s.file + Frame(p) == Image(ctx, ps + [p])
    ensures |Frames([p])| == |Frame(p)|
  {
    assert ps + [] == ps;
    PartlyWritten(ctx, s, ps, p, n);
    ImageAppend(ctx, ps, p);
    assert [p][1..] == [] && Frames([p]) == Frame(p) + [];
  }

  lemma CrashDuringWrite(ctx: Context, s: State, ps: seq<seq<byte>>, r: Record, p: seq<byte>, n: nat, peer: Anchor)
    returns (t: State)
    requires ctx.Sound() && Backed(ctx, s, ps, []) && !s.poisoned && Extends(ctx, s, ps, r, p)
    requires |Frame(p)| <= s.maxSize - s.durable && n <= |Frame(p)|
    requires AnchorIsPrefix(peer, ctx.KeyIdentity(), s.records)
    ensures Open(ctx, s.file + Frame(p)[..n], Some(peer), s.maxSize, NO_FAULTS) == (Ok(t), t.file)
    ensures t.records == if n == |Frame(p)| then s.records + [r] else s.records
    ensures t.file == if n == |Frame(p)| then s.file + Frame(p) else s.file
    ensures (t.repaired <==> 0 < n < |Frame(p)|) && !t.poisoned
  {
    CrashedBacked(ctx, s, ps, r, p, n);
    var dirty := s.file + Frame(p)[..n];
    assert dirty[..|dirty|] == dirty;
    var kept;
    t, kept := OpenCrashed(ctx, s.(file := dirty, poisoned := true), ps, [p], |dirty|, peer);
    PrefixOfExtension(peer, ctx.KeyIdentity(), s.records, t.records);
  }

  // ----- what recovery finds in some bytes

  ghost function Recovered(ctx: Context, file: seq<byte>): seq<Record> {
    if |file| < HEADER_BYTES then []
    else match Scan(Reading(ctx), file[HEADER_BYTES..], ctx.Start())
         case Found(rs, _, _, _) => rs
         case Corrupt(_) => []
  }

  /** The file is a part of a journal, cut anywhere behind the header. */
  ghost predicate Readable(ctx: Context, file: seq<byte>) {
    HEADER_BYTES <= |file| && exists ps :: ReadHistory(ctx, ps).Some? && file <= Image(ctx, ps)
  }

  lemma RecoveredIs(ctx: Context, ps: seq<seq<byte>>, c: nat)
    requires ctx.Sound() && ReadHistory(ctx, ps).Some? && HEADER_BYTES <= c <= |Image(ctx, ps)|
    ensures ReadHistory(ctx, ps[..Fit(ps, c - HEADER_BYTES)]).Some?
    ensures Recovered(ctx, Image(ctx, ps)[..c]) == ReadHistory(ctx, ps[..Fit(ps, c - HEADER_BYTES)]).value.0
  {
    hide Scan, Reading, Frames, ReadHistory, KeyId;
    ImageCut(ctx, ps, c);
    var cut := Frames(ps)[..c - HEADER_BYTES];
    CutKept(ctx, ps, ps[..Fit(ps, |cut|)], cut);
    assert (ctx.header + cut)[HEADER_BYTES..] == cut;
  }

  lemma {:induction false} FitGrows(ps: seq<seq<byte>>, m: nat, n: nat)
    requires m <= n
    ensures Fit(ps, m) <= Fit(ps, n)
  {
    if ps != [] && |Frame(ps[0])| <= m {
      FitGrows(ps[1..], m - |Frame(ps[0])|, n - |Frame(ps[0])|);
    }
  }

  /** More of a journal never recovers less. */
  lemma RecoveredGrows(ctx: Context, file: seq<byte>, a: nat, b: nat)
    requires ctx.Sound() && Readable(ctx, file) && HEADER_BYTES <= a <= b <= |file|
    ensures Recovered(ctx, file[..a]) <= Recovered(ctx, file[..b])
  {
    hide Recovered, Image, ReadHistory;
    var ps :| ReadHistory(ctx, ps).Some? && file <= Image(ctx, ps);
    assert file[..a] == Image(ctx, ps)[..a] && file[..b] == Image(ctx, ps)[..b];
    RecoveredIs(ctx, ps, a);
    RecoveredIs(ctx, ps, b);
    KeptGrows(ctx, ps, Fit(ps, a - HEADER_BYTES), Fit(ps, b - HEADER_BYTES)) by {
      FitGrows(ps, a - HEADER_BYTES, b - HEADER_BYTES);
    }
  }

  lemma KeptGrows(ctx: Context, ps: seq<seq<byte>>, k: nat, n: nat)
    requires k <= n <= |ps| && ReadHistory(ctx, ps[..n]).Some?
    ensures ReadHistory(ctx, ps[..k]).Some?
    ensures ReadHistory(ctx, ps[..k]).value.0 <= ReadHistory(ctx, ps[..n]).value.0
  {
    assert ps[..n][..k] == ps[..k];
    ReadAllPrefix(Reading(ctx), ctx.Start(), ps[..n], k);
  }

  /** Of a whole journal everything is recovered. */
  lemma RecoveredWhole(ctx: Context, ps: seq<seq<byte>>)
    requires ctx.Sound() && ReadHistory(ctx, ps).Some?
    ensures Recovered(ctx, Image(ctx, ps)) == ReadHistory(ctx, ps).value.0
  {
    hide Recovered, ReadHistory;
    var c := |Image(ctx, ps)|;
    assert Image(ctx, ps)[..c] == Image(ctx, ps);
    assert ps + [] == ps;
    FitAppend(ps, [], |Frames(ps)|);
    assert ps[..|ps|] == ps;
    RecoveredIs(ctx, ps, c);
  }

  lemma RecoveredBacked(ctx: Context, s: State, ps: seq<seq<byte>>)
    requires ctx.Sound() && Backed(ctx, s, ps, []) && !s.poisoned
    ensures Recovered(ctx, s.file) == s.records && s.file == Image(ctx, ps) && Readable(ctx, s.file)
  {
    hide ReadHistory, Recovered;
    assert ps + [] == ps;
    assert s.file == Image(ctx, ps);
    RecoveredWhole(ctx, ps);
  }

  // ----- every life of a journal

  /**
   * A journal and the disk under it: the contents the disk may hold after a power loss, each of them or a part of it,
   * and how many bytes are synced and so in all of them.
   */
  datatype Machine = Machine(journal: State, disks: seq<seq<byte>>, synced: nat)

  /** An append with its faults; a loss of power, which leaves a part of one of the contents; or a new process. */
  datatype Event =
    | Append(q: Request, io: AppendFaults)
    | PowerLoss(disk: nat, cut: nat, peer: Anchor, repair: OpenFaults)
    | ProcessRestart(peer: Anchor, repair: OpenFaults)

  /** What is synced follows from the system calls alone: a sync that succeeds covers the file as it is then. */
  function AppendLife(ctx: Context, m: Machine, q: Request, io: AppendFaults): Machine {
    var t, prepared := AppendStep(ctx, m.journal, q, io).0, Prepare(ctx, m.journal, q);
    if !Attempted(m.journal, prepared, io) then Machine(t, m.disks, m.synced)
    else if io.write.Written? && !io.syncFails then Machine(t, [t.file], |t.file|)
    else if io.truncateFails || io.rollbackSyncFails then
      Machine(t, m.disks + [Touched(m.journal, prepared, io)], m.synced)
    else Machine(t, [t.file], |t.file|)
  }

  /** What a power loss leaves: a part of one of the contents, with all that was synced; and nothing else any more. */
  function Powerless(m: Machine, disk: nat, cut: nat): Machine {
    var d := if disk < |m.disks| then m.disks[disk] else m.journal.file;
    var c := if cut > |d| then |d| else if cut < m.synced <= |d| then m.synced else cut;
    Machine(m.journal.(file := d[..c], poisoned := true), [d[..c]], c)
  }

  /** Opening syncs only if it repairs; a repair whose sync failed may be undone. */
  ghost function Reopen(ctx: Context, m: Machine, peer: Anchor, repair: OpenFaults): Machine {
    Adopted(m, Open(ctx, m.journal.file, Some(peer), m.journal.maxSize, repair))
  }

  function Adopted(m: Machine, outcome: (Result<State, JournalError>, seq<byte>)): Machine {
    match outcome.0
    case Ok(t) => if t.repaired then Machine(t, [t.file], |t.file|) else Machine(t, m.disks, m.synced)
    case Err(_) =>
      Machine(m.journal.(file := outcome.1, poisoned := true), m.disks + [m.journal.file],
              if |outcome.1| < m.synced then |outcome.1| else m.synced)
  }

  ghost function LifeStep(ctx: Context, m: Machine, e: Event): Machine {
    match e
    case Append(q, io) => AppendLife(ctx, m, q, io)
    case PowerLoss(disk, cut, peer, repair) => Reopen(ctx, Powerless(m, disk, cut), peer, repair)
    case ProcessRestart(peer, repair) => Reopen(ctx, m, peer, repair)
  }

  ghost function Life(ctx: Context, m: Machine, events: seq<Event>): Machine {
    if events == [] then m else LifeStep(ctx, Life(ctx, m, events[..|events| - 1]), events[|events| - 1])
  }

  /** The records whose append reported success. */
  ghost function Acknowledged(ctx: Context, m: Machine, events: seq<Event>): seq<Record> {
    if events == [] then []
    else
      var before, e := events[..|events| - 1], events[|events| - 1];
      Acknowledged(ctx, m, before) + Reported(ctx, Life(ctx, m, before).journal, e)
  }

  function Reported(ctx: Context, s: State, e: Event): seq<Record> {
    if !e.Append? then []
    else match AppendStep(ctx, s, e.q, e.io).1 case Ok(r) => [r] case Err(_) => []
  }

  /** The records that recovery finds in the synced bytes alone. */
  ghost function Firm(ctx: Context, m: Machine): seq<Record>
    requires m.synced <= |m.journal.file|
  {
    Recovered(ctx, m.journal.file[..m.synced])
  }

  /** Contents that the disk may hold: a part of a journal that agrees with the file as far as it is synced. */
  ghost predicate MayHold(ctx: Context, m: Machine, d: seq<byte>) {
    && Readable(ctx, d) && m.synced <= |d| <= m.journal.maxSize
    && m.synced <= |m.journal.file| && d[..m.synced] == m.journal.file[..m.synced]
  }

  /** The file and all that the disk may hold instead are parts of journals that agree as far as they are synced. */
  ghost predicate Sane(ctx: Context, m: Machine) {
    && HEADER_BYTES <= m.synced && GoodBound(m.journal.maxSize)
    && MayHold(ctx, m, m.journal.file)
    && forall i :: 0 <= i < |m.disks| ==> MayHold(ctx, m, m.disks[i])
  }

  /** A journal that is up agrees with its file. */
  ghost predicate Up(ctx: Context, s: State) {
    !s.poisoned ==> exists ps :: Backed(ctx, s, ps, [])
  }

  /** The record stands where its sequence number says. */
  predicate StandsIn(r: Record, rs: seq<Record>) { 0 < r.h.sequence <= |rs| && rs[r.h.sequence - 1] == r }

  lemma StandsInExtension(r: Record, rs: seq<Record>, qs: seq<Record>)
    requires StandsIn(r, rs) && rs <= qs
    ensures StandsIn(r, qs)
  {
  }

  lemma LastStands(ctx: Context, s: State, ps: seq<seq<byte>>, pending: seq<seq<byte>>, r: Record)
    requires Backed(ctx, s, ps, pending) && s.records != [] && s.records[|s.records| - 1] == r
    ensures StandsIn(r, s.records)
  {
    ReadAllVerifies(ctx, ctx.Start(), ps);
    VerifyAllSequence(ctx.crypto, ctx.key, ctx.Start(), s.records, |s.records| - 1);
  }

  /** The faults of a repair: the torn tail stays, or is gone but may come back. */
  lemma OpenFaulty(ctx: Context, file: seq<byte>, peer: Anchor, maxBytes: nat, io: OpenFaults)
    ensures var (r, after) := Open(ctx, file, Some(peer), maxBytes, NO_FAULTS);
            Open(ctx, file, Some(peer), maxBytes, io)
              == if r.Ok? && r.value.repaired && io.truncateFails then (Err(RepairTruncateFailed), file)
                 else if r.Ok? && r.value.repaired && io.syncFails then (Err(RepairSyncFailed), after)
                 else (r, after)
  {
    hide Scan, Reading, AnchorIsPrefix, KeyId;
  }

  /** Opening leaves no more than it found. */
  lemma OpenShortens(ctx: Context, file: seq<byte>, peer: Option<Anchor>, maxBytes: nat, io: OpenFaults)
    ensures Open(ctx, file, peer, maxBytes, io).1 <= file
  {
    hide Scan, Reading, AnchorIsPrefix, KeyId;
    if HEADER_BYTES <= |file| && Scan(Reading(ctx), file[HEADER_BYTES..], ctx.Start()).Found? {
      ScanWithin(ctx, file);
    }
  }

  lemma PartReadable(ctx: Context, d: seq<byte>, c: nat)
    requires Readable(ctx, d) && HEADER_BYTES <= c <= |d|
    ensures Readable(ctx, d[..c])
  {
    var ps :| ReadHistory(ctx, ps).Some? && d <= Image(ctx, ps);
    assert d[..c] <= Image(ctx, ps);
  }

  lemma PowerlessKeeps(ctx: Context, m: Machine, disk: nat, cut: nat)
    requires ctx.Sound() && Sane(ctx, m)
    ensures Sane(ctx, Powerless(m, disk, cut)) && Firm(ctx, m) <= Firm(ctx, Powerless(m, disk, cut))
  {
    hide Recovered, Readable;
    var n := Powerless(m, disk, cut);
    var d := if disk < |m.disks| then m.disks[disk] else m.journal.file;
    PartReadable(ctx, d, n.synced);
    assert n.journal.file == d[..n.synced] && n.journal.file[..n.synced] == d[..n.synced];
    RecoveredGrows(ctx, d, m.synced, n.synced);
  }

  /** Opening a part of a journal: refused for the peer's anchor, or up with all that is recovered of it. */
  lemma OpenReadable(ctx: Context, file: seq<byte>, peer: Anchor, maxBytes: nat, repair: OpenFaults) returns (t: State)
    requires ctx.Sound() && Readable(ctx, file) && |file| <= maxBytes && GoodBound(maxBytes)
    ensures Up(ctx, t) && !t.poisoned && t.maxSize == maxBytes && Readable(ctx, t.file) && HEADER_BYTES <= |t.file|
    ensures t.records == Recovered(ctx, file) == Recovered(ctx, t.file)
    ensures t.file <= file && (t.repaired <==> t.file != file)
    ensures Open(ctx, file, Some(peer), maxBytes, repair)
         == if !AnchorIsPrefix(peer, ctx.KeyIdentity(), t.records) then (Err(AnchorNotPrefix), file)
            else if t.repaired && repair.truncateFails then (Err(RepairTruncateFailed), file)
            else if t.repaired && repair.syncFails then (Err(RepairSyncFailed), t.file)
            else (Ok(t), t.file)
  {
    hide Recovered, ReadHistory, Open, AnchorIsPrefix, Image;
    var ps :| ReadHistory(ctx, ps).Some? && file <= Image(ctx, ps);
    var kept;
    assert file == Image(ctx, ps)[..|file|];
    t, kept := OpenCut(ctx, ps, |file|, Some(peer), maxBytes);
    OpenFaulty(ctx, file, peer, maxBytes, repair);
    RecoveredIs(ctx, ps, |file|);
    RecoveredBacked(ctx, t, kept);
    OpenedPart(ctx, ps, kept, |file|);
  }

  lemma OpenedPart(ctx: Context, ps: seq<seq<byte>>, kept: seq<seq<byte>>, c: nat)
    requires ctx.Sound() && HEADER_BYTES <= c <= |Image(ctx, ps)| && kept == ps[..Fit(ps, c - HEADER_BYTES)]
    ensures Image(ctx, kept) <= Image(ctx, ps)[..c]
  {
    FramesPrefix(ps, Fit(ps, c - HEADER_BYTES));
    FitIsExact(ps, c - HEADER_BYTES);
  }

  lemma ReopenKeeps(ctx: Context, m: Machine, peer: Anchor, repair: OpenFaults)
    requires ctx.Sound() && Sane(ctx, m)
    ensures var n := Reopen(ctx, m, peer, repair);
            Sane(ctx, n) && Up(ctx, n.journal) && Firm(ctx, m) <= Firm(ctx, n)
  {
    hide Recovered, Readable, Open, Backed, AnchorIsPrefix;
    var file := m.journal.file;
    var t := OpenReadable(ctx, file, peer, m.journal.maxSize, repair);
    assert t.file[..|t.file|] == t.file && file[..|file|] == file;
    RecoveredGrows(ctx, file, m.synced, |file|);
    var n := Reopen(ctx, m, peer, repair);
    if n.synced <= m.synced {
      assert n.journal.file[..n.synced] == file[..n.synced];
      forall i | 0 <= i < |m.disks|
        ensures MayHold(ctx, n, m.disks[i])
      {
        HoldsLess(ctx, m, n, m.disks[i]);
      }
      HoldsLess(ctx, m, n, file);
    }
  }

  /** Less that is synced has less to agree on. */
  lemma HoldsLess(ctx: Context, m: Machine, n: Machine, d: seq<byte>)
    requires MayHold(ctx, m, d) && n.synced <= m.synced && n.synced <= |n.journal.file|
    requires n.journal.maxSize == m.journal.maxSize && n.journal.file[..n.synced] == m.journal.file[..n.synced]
    ensures MayHold(ctx, n, d)
  {
    assert d[..n.synced] == d[..m.synced][..n.synced];
    assert m.journal.file[..n.synced] == m.journal.file[..m.synced][..n.synced];
  }

  lemma BackedSequence(ctx: Context, s: State, ps: seq<seq<byte>>)
    requires Backed(ctx, s, ps, [])
    ensures s.sequence == |s.records| && AnchorIsPrefix(Local(ctx, s), ctx.KeyIdentity(), s.records)
  {
    ReadAllVerifies(ctx, ctx.Start(), ps);
    VerifyAllAnchor(ctx.crypto, ctx.key, ctx.Start(), s.records);
  }

  /** A life step that is an append. */
  lemma AppendLifeKeeps(ctx: Context, m: Machine, q: Request, io: AppendFaults)
    requires ctx.Sound() && Sane(ctx, m) && Up(ctx, m.journal)
    ensures var n := AppendLife(ctx, m, q, io);
            Sane(ctx, n) && Up(ctx, n.journal) && Firm(ctx, m) <= Firm(ctx, n)
    ensures forall r :: r in Reported(ctx, m.journal, Append(q, io)) ==>
              Sane(ctx, AppendLife(ctx, m, q, io)) && StandsIn(r, Firm(ctx, AppendLife(ctx, m, q, io)))
  {
    hide Recovered, Readable, Prepare, AppendStep, Backed, StandsIn;
    var s := m.journal;
    AppendExact(ctx, s, q, io);
    if Attempted(s, Prepare(ctx, s, q), io) {
      var ps :| Backed(ctx, s, ps, []);
      if io.write.Written? && !io.syncFails {
        AppendDone(ctx, m, ps, q, io);
      } else {
        AppendUndone(ctx, m, ps, q, io);
      }
    } else {
      assert AppendLife(ctx, m, q, io).journal == s.(poisoned := AppendLife(ctx, m, q, io).journal.poisoned);
    }
  }

  /** The write and the sync succeeded: everything is firm. */
  lemma AppendDone(ctx: Context, m: Machine, ps: seq<seq<byte>>, q: Request, io: AppendFaults)
    requires ctx.Sound() && Sane(ctx, m) && Backed(ctx, m.journal, ps, []) && !m.journal.poisoned
    requires Attempted(m.journal, Prepare(ctx, m.journal, q), io) && io.write.Written? && !io.syncFails
    ensures var n := AppendLife(ctx, m, q, io);
            && Sane(ctx, n) && Up(ctx, n.journal) && Firm(ctx, m) <= Firm(ctx, n)
            && forall r :: r in Reported(ctx, m.journal, Append(q, io)) ==> StandsIn(r, Firm(ctx, n))
  {
    hide Recovered, Readable, Prepare, AppendStep, Image, ReadHistory;
    var s := m.journal;
    AppendExact(ctx, s, q, io);
    var (t, result) := AppendStep(ctx, s, q, io);
    var qs, rest := AppendKeeps(ctx, s, ps, [], q, io);
    RecoveredBacked(ctx, s, ps);
    RecoveredBacked(ctx, t, qs);
    RecoveredGrows(ctx, s.file, m.synced, |s.file|);
    LastStands(ctx, t, qs, rest, result.value);
    assert s.file[..|s.file|] == s.file && t.file[..|t.file|] == t.file;
  }

  /** The write or the sync failed: what was synced stays so, and if the rollback succeeds all that is left is. */
  lemma AppendUndone(ctx: Context, m: Machine, ps: seq<seq<byte>>, q: Request, io: AppendFaults)
    requires ctx.Sound() && Sane(ctx, m) && Backed(ctx, m.journal, ps, []) && !m.journal.poisoned
    requires Attempted(m.journal, Prepare(ctx, m.journal, q), io) && !(io.write.Written? && !io.syncFails)
    ensures var n := AppendLife(ctx, m, q, io);
            Sane(ctx, n) && Up(ctx, n.journal) && Firm(ctx, m) <= Firm(ctx, n)
  {
    hide Recovered, Readable, Prepare, AppendStep, Backed, ReadHistory;
    var s, dirty := m.journal, Touched(m.journal, Prepare(ctx, m.journal, q), io);
    AppendExact(ctx, s, q, io);
    TouchedReadable(ctx, s, ps, q, io);
    RecoveredGrows(ctx, s.file, m.synced, |s.file|);
    assert s.file[..|s.file|] == s.file;
    assert dirty[..m.synced] == s.file[..m.synced];
    var n := AppendLife(ctx, m, q, io);
    if !n.journal.poisoned {
      assert n.journal == s;
    } else {
      assert n.journal.file[..m.synced] == s.file[..m.synced];
      assert n.disks[|m.disks|] == dirty;
    }
  }

  lemma TouchedReadable(ctx: Context, s: State, ps: seq<seq<byte>>, q: Request, io: AppendFaults)
    requires ctx.Sound() && Backed(ctx, s, ps, []) && Attempted(s, Prepare(ctx, s, q), io)
    ensures var dirty := Touched(s, Prepare(ctx, s, q), io);
            Readable(ctx, dirty) && s.file <= dirty && |dirty| <= s.maxSize
  {
    hide Prepare, ReadHistory;
    var (r, p) := Prepare(ctx, s, q).value;
    PreparedExtends(ctx, s, ps, q);
    assert ps + [] == ps;
    PartlyWritten(ctx, s, ps, p, BytesWritten(Frame(p), io.write));
  }

  lemma EventKeeps(ctx: Context, m: Machine, e: Event)
    requires ctx.Sound() && Sane(ctx, m) && Up(ctx, m.journal)
    ensures var n := LifeStep(ctx, m, e);
            && Sane(ctx, n) && Up(ctx, n.journal) && Firm(ctx, m) <= Firm(ctx, n)
            && forall r :: r in Reported(ctx, m.journal, e) ==> StandsIn(r, Firm(ctx, n))
  {
    hide Up, AppendLife, Powerless, Reopen, StandsIn, Recovered, Readable;
    match e {
      case Append(q, io) => AppendLifeKeeps(ctx, m, q, io);
      case PowerLoss(disk, cut, peer, repair) =>
        PowerlessKeeps(ctx, m, disk, cut);
        ReopenKeeps(ctx, Powerless(m, disk, cut), peer, repair);
      case ProcessRestart(peer, repair) => ReopenKeeps(ctx, m, peer, repair);
    }
  }

  /**
   * Durability over every life: through any mix of appends, faults, losses of power and restarts with faults of their
   * own, what is recovered from the synced bytes is never lost or changed, and every record that was ever reported as
   * appended stands there at its sequence number.
   */
  lemma {:induction false} DurableForever(ctx: Context, m: Machine, events: seq<Event>)
    requires ctx.Sound() && Sane(ctx, m) && Up(ctx, m.journal)
    ensures var n := Life(ctx, m, events);
            && Sane(ctx, n) && Up(ctx, n.journal) && Firm(ctx, m) <= Firm(ctx, n)
            && forall r :: r in Acknowledged(ctx, m, events) ==> StandsIn(r, Firm(ctx, n))
  {
    hide Sane, Up, LifeStep, Firm, Reported;
    if events != [] {
      var before, e := events[..|events| - 1], events[|events| - 1];
      DurableForever(ctx, m, before);
      EventKeeps(ctx, Life(ctx, m, before), e) by { SaneSynced(ctx, Life(ctx, m, before)); }
      SaneSynced(ctx, Life(ctx, m, before));
      SaneSynced(ctx, Life(ctx, m, events));
      SaneSynced(ctx, m);
      forall r | r in Acknowledged(ctx, m, before)
        ensures StandsIn(r, Firm(ctx, Life(ctx, m, events)))
      {
        StandsInExtension(r, Firm(ctx, Life(ctx, m, before)), Firm(ctx, Life(ctx, m, events)));
      }
    }
  }

  lemma SaneSynced(ctx: Context, m: Machine)
    requires Sane(ctx, m)
    ensures m.synced <= |m.journal.file|
  {
  }

  /** A journal that is up holds all firm records, and no others if and only if its whole file is synced. */
  lemma UpHoldsFirm(ctx: Context, m: Machine)
    requires ctx.Sound() && Sane(ctx, m) && Up(ctx, m.journal) && !m.journal.poisoned
    ensures Firm(ctx, m) <= m.journal.records
    ensures Firm(ctx, m) == m.journal.records <==> m.synced == |m.journal.file|
  {
    hide Recovered, Readable, ReadHistory;
    var s := m.journal;
    var ps :| Backed(ctx, s, ps, []);
    RecoveredBacked(ctx, s, ps);
    RecoveredGrows(ctx, s.file, m.synced, |s.file|);
    assert s.file[..|s.file|] == s.file;
    if m.synced < |s.file| { FewerFirm(ctx, ps, m.synced); }
  }

  lemma FewerFirm(ctx: Context, ps: seq<seq<byte>>, c: nat)
    requires ctx.Sound() && ReadHistory(ctx, ps).Some? && HEADER_BYTES <= c < |Image(ctx, ps)|
    ensures |Recovered(ctx, Image(ctx, ps)[..c])| < |ReadHistory(ctx, ps).value.0|
  {
    hide Recovered, ReadHistory;
    var k := Fit(ps, c - HEADER_BYTES);
    RecoveredIs(ctx, ps, c);
    FitIsExact(ps, c - HEADER_BYTES);
    assert ps[..|ps|] == ps;
    HistoryLength(ctx, ps);
    HistoryLength(ctx, ps[..k]);
  }

  lemma HistoryLength(ctx: Context, ps: seq<seq<byte>>)
    requires ReadHistory(ctx, ps).Some?
    ensures |ReadHistory(ctx, ps).value.0| == |ps|
  {
    ReadAllLength(Reading(ctx), ctx.Start(), ps);
  }

  // ----- lives without a new process on an old file

  predicate NoProcessRestart(events: seq<Event>) { forall i :: 0 <= i < |events| ==> !events[i].ProcessRestart? }

  /** Everything is synced whenever the journal is up. */
  predicate Solid(m: Machine) { !m.journal.poisoned ==> m.synced == |m.journal.file| }

  lemma EventSolid(ctx: Context, m: Machine, e: Event)
    requires ctx.Sound() && Sane(ctx, m) && Solid(m) && !e.ProcessRestart?
    ensures Solid(LifeStep(ctx, m, e))
  {
    hide Recovered, Readable, Prepare, AppendStep, Backed, Open, AnchorIsPrefix;
    match e {
      case Append(q, io) => AppendExact(ctx, m.journal, q, io);
      case PowerLoss(disk, cut, peer, repair) =>
        PowerlessKeeps(ctx, m, disk, cut);
        var t := OpenReadable(ctx, Powerless(m, disk, cut).journal.file, peer, m.journal.maxSize, repair);
    }
  }

  lemma {:induction false} SolidForever(ctx: Context, m: Machine, events: seq<Event>)
    requires ctx.Sound() && Sane(ctx, m) && Up(ctx, m.journal) && Solid(m) && NoProcessRestart(events)
    ensures Solid(Life(ctx, m, events))
  {
    hide Sane, Up, LifeStep, Solid;
    if events != [] {
      var before, e := events[..|events| - 1], events[|events| - 1];
      assert NoProcessRestart(before) && !e.ProcessRestart?;
      SolidForever(ctx, m, before);
      DurableForever(ctx, m, before);
      EventSolid(ctx, Life(ctx, m, before), e);
    }
  }

  /** From its creation on, whatever happens, a journal holds every record that was ever reported as appended. */
  lemma DurableFromCreation(ctx: Context, maxBytes: nat, events: seq<Event>) returns (n: Machine)
    requires ctx.Sound() && GoodBound(maxBytes)
    ensures CreateState(ctx, maxBytes).Ok?
    ensures var m := Machine(CreateState(ctx, maxBytes).value, [ctx.header], HEADER_BYTES);
            && n == Life(ctx, m, events) && Sane(ctx, n)
            && (forall r :: r in Acknowledged(ctx, m, events) ==> StandsIn(r, Firm(ctx, n)))
            && (!n.journal.poisoned ==> Firm(ctx, n) <= n.journal.records)
            && (!n.journal.poisoned && NoProcessRestart(events) ==> Firm(ctx, n) == n.journal.records)
  {
    hide Life, LifeStep, Acknowledged, StandsIn, Recovered;
    var m := Machine(CreateState(ctx, maxBytes).value, [ctx.header], HEADER_BYTES);
    CreatedSane(ctx, maxBytes, m);
    DurableForever(ctx, m, events);
    n := Life(ctx, m, events);
    if !n.journal.poisoned { UpHoldsFirm(ctx, n); }
    if NoProcessRestart(events) { SolidForever(ctx, m, events); }
  }

  lemma CreatedSane(ctx: Context, maxBytes: nat, m: Machine)
    requires ctx.Sound() && GoodBound(maxBytes)
    requires m == Machine(CreateState(ctx, maxBytes).value, [ctx.header], HEADER_BYTES)
    ensures Sane(ctx, m) && Up(ctx, m.journal) && Solid(m)
  {
    CreateBacked(ctx, maxBytes);
    RecoveredBacked(ctx, m.journal, []);
    assert m.journal.file[..HEADER_BYTES] == ctx.header;
  }

  // ----- a record that is taken up without being synced

  /** Write a record, fail to sync it, fail to truncate; then start a new process. */
  function TakenUp(q: Request, before: Anchor): seq<Event> {
    [Append(q, AppendFaults(false, Written, true, true, false)), ProcessRestart(before, NO_FAULTS)]
  }

  /**
   * Opening does not sync a file that is not torn. So it takes up a record that was written and not synced, and whose
   * append was reported as failed; the record is in the journal like any other. After a loss of power it may be gone,
   * and a peer that has got it in between is refused for good.
   */
  lemma UnsyncedTakenUp(ctx: Context, m: Machine, ps: seq<seq<byte>>, q: Request) returns (r: Record)
    requires ctx.Sound() && Sane(ctx, m) && Backed(ctx, m.journal, ps, []) && !m.journal.poisoned && Solid(m)
    requires Attempted(m.journal, Prepare(ctx, m.journal, q), AppendFaults(false, Written, true, true, false))
    ensures var n := Life(ctx, m, TakenUp(q, Local(ctx, m.journal)));
            && Acknowledged(ctx, m, TakenUp(q, Local(ctx, m.journal))) == []
            && !n.journal.poisoned && n.journal.records == m.journal.records + [r]
            && Sane(ctx, n) && Firm(ctx, n) == m.journal.records
            && LifeStep(ctx, n, PowerLoss(|n.disks|, m.synced, Local(ctx, n.journal), NO_FAULTS)).journal.poisoned
  {
    hide Recovered, Readable, Prepare, AppendStep, ReadHistory, Open, AnchorIsPrefix, Image;
    r := Prepare(ctx, m.journal, q).value.0;
    var s, io := m.journal, AppendFaults(false, Written, true, true, false);
    var a, b := Append(q, io), ProcessRestart(Local(ctx, s), NO_FAULTS);
    assert [a, b][..1] == [a] && [a][..0] == [];
    var up, n := LifeStep(ctx, m, a), LifeStep(ctx, LifeStep(ctx, m, a), b);
    EventKeeps(ctx, m, a);
    EventKeeps(ctx, up, b);
    AppendExact(ctx, s, q, io);
    assert Acknowledged(ctx, m, [a]) == [];
    BackedSequence(ctx, s, ps);
    var t := TakenUpWhole(ctx, s, ps, q, io);
    assert n == Machine(t, up.disks, m.synced);
    RecoveredBacked(ctx, s, ps);
    assert n.journal.file[..m.synced] == s.file;
    Forgotten(ctx, n, s.records);
  }

  lemma TakenUpWhole(ctx: Context, s: State, ps: seq<seq<byte>>, q: Request, io: AppendFaults) returns (t: State)
    requires ctx.Sound() && Backed(ctx, s, ps, []) && Attempted(s, Prepare(ctx, s, q), io) && io.write.Written?
    requires AnchorIsPrefix(Local(ctx, s), ctx.KeyIdentity(), s.records)
    ensures var dirty := Touched(s, Prepare(ctx, s, q), io);
            && Open(ctx, dirty, Some(Local(ctx, s)), s.maxSize, NO_FAULTS) == (Ok(t), dirty)
            && t.records == s.records + [Prepare(ctx, s, q).value.0] && !t.repaired && !t.poisoned
            && t.file == dirty && dirty[..|s.file|] == s.file
  {
    hide Prepare, ReadHistory, Recovered, Open, Image, AnchorIsPrefix;
    var p := Prepare(ctx, s, q).value.1;
    t := CrashDuringAppend(ctx, s, ps, q, |Frame(p)|, Local(ctx, s));
    assert Frame(p)[..|Frame(p)|] == Frame(p);
  }

  /** A peer that stands behind what is firm is refused after the loss of what is not. */
  lemma Forgotten(ctx: Context, n: Machine, rs: seq<Record>)
    requires ctx.Sound() && Sane(ctx, n) && Up(ctx, n.journal) && !n.journal.poisoned
    requires Firm(ctx, n) == rs && |rs| < |n.journal.records|
    ensures LifeStep(ctx, n, PowerLoss(|n.disks|, n.synced, Local(ctx, n.journal), NO_FAULTS)).journal.poisoned
  {
    hide Recovered, Readable, ReadHistory, Open, Image;
    var qs :| Backed(ctx, n.journal, qs, []);
    BackedSequence(ctx, n.journal, qs);
    var m := Powerless(n, |n.disks|, n.synced);
    PowerlessKeeps(ctx, n, |n.disks|, n.synced);
    var t := OpenReadable(ctx, m.journal.file, Local(ctx, n.journal), m.journal.maxSize, NO_FAULTS);
    assert !AnchorIsPrefix(Local(ctx, n.journal), ctx.KeyIdentity(), t.records);
  }
}
