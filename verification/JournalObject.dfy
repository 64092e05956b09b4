/** The journal object of receipt_journal.cpp: one file, one chain, and methods that update both in place. */
module JournalObject {
  import opened Bytes
  import opened Hex
  import opened AuditChain
  import opened Framing
  import opened Journal
  import opened Merging
  import opened Reconcile
  import R = Receipts

  /** What a lookup binds an execution to. */
  datatype Execution = Execution(sessionId: seq<byte>, planDigest: seq<byte>, profileDigest: seq<byte>)

  datatype LookupError = BindingInvalid | LookupPoisoned | LookupSizeChanged | SeveralMatches

  function ProfileOf(p: Payload): seq<byte> {
    match p
    case ResourcePayload(r) => r.profileDigest
    case RefinementPayload(r) => r.resource.profileDigest
  }

  /** The terminal record of this kind for this execution. */
  predicate IsTerminal(r: Record, resource: bool, e: Execution) {
    && IsResource(r) == resource
    && r.h.sessionId == e.sessionId && r.h.planDigest == e.planDigest && ProfileOf(r.receipt) == e.profileDigest
  }

  class ReceiptJournal {
    const ctx: Context
    const chain: Chain
    const maxSize: nat
    const repaired: bool
    var file: seq<byte>
    var records: seq<Record>
    var durable: nat
    var poisoned: bool

    ghost predicate Valid() {
      chain.crypto == ctx.crypto && chain.key == ctx.key && chain.Valid()
    }

    /** The abstract state. */
    function View(): State
      reads this, chain
    {
      State(file, records, chain.sequence, chain.head, durable, maxSize, repaired, poisoned)
    }

    /** The object `create_new` and `open_existing` hand out, holding the state they arrived at. */
    constructor (c: Context, s: State)
      ensures Valid() && ctx == c && View() == s && fresh(chain)
    {
      ctx := c;
      maxSize, repaired := s.maxSize, s.repaired;
      file, records, durable, poisoned := s.file, s.records, s.durable, s.poisoned;
      chain := new Chain(c.crypto, c.key);
      new;
      chain.sequence, chain.head := s.sequence, s.head;
    }

    /** `write_at`: each system call writes some part of what is left, until all is written or one fails. */
    method WriteAt(bytes: seq<byte>, w: WriteOutcome) returns (ok: bool)
      modifies this`file
      ensures file == old(file) + bytes[..BytesWritten(bytes, w)]
      ensures ok == w.Written?
    {
      var goal := BytesWritten(bytes, w);
      var written := 0;
      while written < goal
        invariant written <= goal && file == old(file) + bytes[..written]
      {
        var n: nat :| 0 < n <= goal - written;
        assert bytes[..written] + bytes[written..written + n] == bytes[..written + n];
        file := file + bytes[written..written + n];
        written := written + n;
      }
      ok := w.Written?;
    }

    /** `rollback`: truncate to the durable size and sync, or poison the journal. */
    method Restore(io: AppendFaults)
      requires durable <= |file|
      modifies this`file, this`poisoned
      ensures View() == Rollback(old(View()), old(file), io)
    {
      if io.truncateFails {
        poisoned := true;
        return;
      }
      file := file[..durable];
      if io.rollbackSyncFails {
        poisoned := true;
      }
    }

    /** `append` and `append_refinement`: any fault leaves the abstract state where `AppendStep` says. */
    method Append(q: Request, io: AppendFaults) returns (r: Result<Record, JournalError>)
      requires Valid()
      modifies this, chain
      ensures Valid() && (View(), r) == AppendStep(ctx, old(View()), q, io)
    {
      if poisoned { return Err(Poisoned); }
      if io.statFails {
        poisoned := true;
        return Err(StatFailed);
      }
      if |file| != durable {
        poisoned := true;
        return Err(SizeChanged);
      }
      var previousSequence, previousHead := chain.sequence, chain.head;
      var envelope := chain.Append(q.sessionId, q.planDigest, q.payload);
      if envelope.Err? { return Err(ChainError(envelope.error)); }
      chain.sequence, chain.head := previousSequence, previousHead;
      var payload := EncodeRecord(ctx.codec, envelope.value);
      if payload.None? { return Err(EncodeFailed); }
      r := Store(envelope.value, Frame(payload.value), io);
    }

    /** The second half of an append: the record is counted, written and synced, and only then becomes the head. */
    method Store(envelope: Record, frame: seq<byte>, io: AppendFaults) returns (r: Result<Record, JournalError>)
      requires |file| == durable
      modifies this, chain
      ensures (View(), r) == if |frame| > maxSize - old(durable) then (old(View()), Err(CapacityExhausted))
                             else Commit(old(View()), envelope, frame, io)
    {
      if |frame| > maxSize - durable { return Err(CapacityExhausted); }
      records := records + [envelope];
      assert records[..|records| - 1] == old(records);
      var written := WriteAt(frame, io.write);
      if !written {
        records := records[..|records| - 1];
        Restore(io);
        return Err(WriteFailed);
      }
      if io.syncFails {
        records := records[..|records| - 1];
        Restore(io);
        return Err(SyncFailed);
      }
      chain.sequence, chain.head := envelope.h.sequence, envelope.h.thisHmac;
      durable := durable + |frame|;
      r := Ok(envelope);
    }

    /** `remaining_capacity`. */
    method Remaining(statFails: bool) returns (r: Option<nat>)
      requires durable <= maxSize
      modifies this`poisoned
      ensures (View(), r) == ReadCapacity(old(View()), statFails)
    {
      if poisoned { return None; }
      if statFails || |file| != durable {
        poisoned := true;
        return None;
      }
      r := Some(maxSize - durable);
    }

    /** `page_after`: the next records, dealt out to two lists. */
    method Page(peer: Anchor, limit: nat, statFails: bool) returns (r: Result<Page, PageError>)
      requires Valid()
      modifies this`poisoned
      ensures (View(), r) == PageRead(ctx, old(View()), peer, limit, statFails)
    {
      if limit == 0 || limit > MAX_PAGE { return Err(LimitInvalid); }
      if poisoned { return Err(JournalPoisoned); }
      if statFails || |file| != durable {
        poisoned := true;
        return Err(JournalSizeChanged);
      }
      if !AnchorIsPrefix(peer, chain.keyId, records) { return Err(NotAPrefix); }
      var begin: nat := peer.sequence;
      var remaining := |records| - begin;
      var count := if limit < remaining then limit else remaining;
      var resources, refinements := Deal(IsResource, records, begin, begin + count);
      r := Ok(Reconcile.Page(resources, refinements, count < remaining, chain.At()));
    }

    /** `contains_exact`: the sequence number alone says where an envelope would have to stand. */
    method ContainsExact(r: Record, statFails: bool, ghost ps: seq<seq<byte>>) returns (found: Result<bool, LookupError>)
      requires ReadHistory(ctx, ps).Some? && ReadHistory(ctx, ps).value.0 == records
      modifies this`poisoned
      ensures found == if old(poisoned) then Err(LookupPoisoned)
                       else if statFails || |file| != durable then Err(LookupSizeChanged)
                       else Ok(r in records)
      ensures poisoned == (old(poisoned) || statFails || |file| != durable)
    {
      if poisoned { return Err(LookupPoisoned); }
      if statFails || |file| != durable {
        poisoned := true;
        return Err(LookupSizeChanged);
      }
      SequenceIsPosition(ctx, records, ps, r);
      found := Ok(0 < r.h.sequence <= |records| && records[r.h.sequence - 1] == r);
    }

    /** `terminal_for_execution` and its refinement twin: the only match, or none, or an error when there are several. */
    method TerminalFor(e: Execution, resource: bool, statFails: bool) returns (r: Result<Option<Record>, LookupError>)
      modifies this`poisoned
      ensures poisoned == (old(poisoned) || (!BadBinding(e) && (statFails || |file| != durable)))
      ensures BadBinding(e) <==> r == Err(BindingInvalid)
      ensures !BadBinding(e) ==> (old(poisoned) <==> r == Err(LookupPoisoned))
      ensures !BadBinding(e) && !old(poisoned) ==> (statFails || |file| != durable <==> r == Err(LookupSizeChanged))
      ensures r == Err(SeveralMatches) ==> exists i, j :: 0 <= i < j < |records| && IsTerminal(records[i], resource, e)
                                                   && IsTerminal(records[j], resource, e)
      ensures r == Ok(None) ==> forall i :: 0 <= i < |records| ==> !IsTerminal(records[i], resource, e)
      ensures r.Ok? && r.value.Some? ==>
                exists i :: 0 <= i < |records| && records[i] == r.value.value && IsTerminal(records[i], resource, e)
                         && forall j :: 0 <= j < |records| && j != i ==> !IsTerminal(records[j], resource, e)
    {
      if BadBinding(e) { return Err(BindingInvalid); }
      if poisoned { return Err(LookupPoisoned); }
      if statFails || |file| != durable {
        poisoned := true;
        return Err(LookupSizeChanged);
      }
      var found: Option<Record> := None;
      ghost var at := 0;
      for index := 0 to |records|
        invariant found.None? ==> forall i :: 0 <= i < index ==> !IsTerminal(records[i], resource, e)
        invariant found.Some? ==> 0 <= at < index && records[at] == found.value && IsTerminal(records[at], resource, e)
        invariant found.Some? ==> forall i :: 0 <= i < index && i != at ==> !IsTerminal(records[i], resource, e)
      {
        if IsTerminal(records[index], resource, e) {
          if found.Some? { return Err(SeveralMatches); }
          found := Some(records[index]);
          at := index;
        }
      }
      r := Ok(found);
    }
  }

  predicate BadBinding(e: Execution) {
    !R.ValidIdentifier(e.sessionId) || !ValidDigest(e.planDigest) || !ValidDigest(e.profileDigest)
  }

  /** Among the records read an envelope is present exactly if it stands where its sequence number says. */
  lemma SequenceIsPosition(ctx: Context, rs: seq<Record>, ps: seq<seq<byte>>, r: Record)
    requires ReadHistory(ctx, ps).Some? && ReadHistory(ctx, ps).value.0 == rs
    ensures r in rs <==> 0 < r.h.sequence <= |rs| && rs[r.h.sequence - 1] == r
  {
    if r in rs {
      var i :| 0 <= i < |rs| && rs[i] == r;
      ReadAllVerifies(ctx, ctx.Start(), ps);
      VerifyAllSequence(ctx.crypto, ctx.key, ctx.Start(), rs, i);
    }
  }
}
