/** The producer and its move-only reservations (receipt_producer.cpp), as objects that one thread at a time updates. */
module ProducerObject {
  import opened Bytes
  import opened AuditChain
  import opened Framing
  import opened Journal
  import opened JournalObject
  import opened Reservations
  import Reconcile

  datatype ReserveError = ReserveBindingInvalid | ReconciliationRequired | CapacityUnknown | CapacityUnavailable

  datatype CommitError = ForeignReservation | ExecutionMismatch | AppendFailed(cause: JournalError)

  class Reservation {
    var owner: AuditProducer?
    const binding: Option<Execution>

    constructor (o: AuditProducer, b: Option<Execution>)
      ensures owner == o && binding == b
    {
      owner, binding := o, b;
    }

    ghost function Owners(): set<object>
      reads this
    {
      if owner == null then {} else {owner}
    }

    /** The reservation is counted by its owner, if it still has one. */
    ghost predicate Live()
      reads this, owner, if owner == null then {} else owner.Footprint()
    {
      owner != null ==> owner.Valid() && this in owner.holding + owner.releasing
    }

    /** `release`, which the destructor runs too: the first call gives the bytes back, later ones do nothing. */
    method Release()
      requires Live()
      modifies this, Owners()
      ensures owner == null
      ensures old(owner) != null ==> old(owner).Valid()
      ensures old(owner) != null ==>
                old(owner.View()).reserved >= MAX_RECORD_BYTES && old(owner).View() == GivenBack(old(owner.View()), this)
    {
      if owner != null {
        owner.ReleaseReservation(this);
        owner := null;
      }
    }
  }

  // ----- what one uninterrupted call does to the abstract producer

  /** A reservation granted to `id`, or refused after the capacity was read. */
  function Reserved<Id>(p: Producer<Id>, statFails: bool, granted: Option<Id>): Producer<Id> {
    var q := p.(journal := ReadCapacity(p.journal, statFails).0);
    if granted.None? then q
    else q.(reserved := p.reserved + MAX_RECORD_BYTES, holding := p.holding + {granted.value})
  }

  /** A reservation given back. */
  function GivenBack<Id>(p: Producer<Id>, id: Id): (q: Producer<Id>)
    requires p.reserved >= MAX_RECORD_BYTES
  {
    p.(reserved := p.reserved - MAX_RECORD_BYTES, holding := p.holding - {id}, releasing := p.releasing - {id})
  }

  function WithJournal<Id>(p: Producer<Id>, j: State): Producer<Id> { p.(journal := j) }

  /** Reserving is the steps of the reserving thread, and keeps the invariant. */
  lemma ReservedSteps<Id>(ctx: Context, p: Producer<Id>, statFails: bool, id: Id)
    requires Inv(p) && p.mutex == Free && p.reconciled && id !in p.holding + p.releasing
    requires ReadCapacity(p.journal, statFails).1.Some?
    requires p.reserved + MAX_RECORD_BYTES <= ReadCapacity(p.journal, statFails).1.value
    ensures Reserved(p, statFails, Some(id)) == Step(ctx, Step(ctx, p, ReserveRead(statFails)), ReserveGrant(id))
    ensures Inv(Reserved(p, statFails, Some(id)))
  {
    StepKeeps(ctx, p, ReserveRead(statFails));
    AfterGrant(Step(ctx, p, ReserveRead(statFails)), id);
  }

  lemma RefusedSteps<Id>(ctx: Context, p: Producer<Id>, statFails: bool)
    requires Inv(p) && p.mutex == Free && p.reconciled
    ensures Reserved(p, statFails, None) == Step(ctx, p, ReserveRead(statFails)).(mutex := Free)
    ensures Inv(Reserved(p, statFails, None))
  {
  }

  /** Giving back is the steps of the committing thread after its append, and keeps the invariant. */
  lemma GivenBackSteps<Id>(ctx: Context, p: Producer<Id>, id: Id)
    requires Inv(p) && p.mutex == Free && id in p.holding + p.releasing
    ensures p.reserved >= MAX_RECORD_BYTES
    ensures GivenBack(p, id) == Step(ctx, Step(ctx, p, Abandon(id)), Event.Release(id))
    ensures Inv(GivenBack(p, id))
  {
    hide Inv, Step;
    InvFacts(p);
    AbandonStep(ctx, p, id);
    StepKeeps(ctx, p, Abandon(id));
    var q := Step(ctx, p, Abandon(id));
    AfterRelease(q, id);
    ReleaseStep(ctx, q, id);
    assert q.holding == p.holding - {id} && q.releasing - {id} == p.releasing - {id};
  }

  /** Abandoning moves a holder, and leaves a releaser where it is. */
  lemma AbandonStep<Id>(ctx: Context, p: Producer<Id>, id: Id)
    requires id in p.holding + p.releasing && p.holding !! p.releasing
    ensures Step(ctx, p, Abandon(id)) == p.(holding := p.holding - {id}, releasing := p.releasing + {id})
  {
    if id in p.releasing {
      assert p.holding - {id} == p.holding && p.releasing + {id} == p.releasing;
    }
  }

  lemma ReleaseStep<Id>(ctx: Context, p: Producer<Id>, id: Id)
    requires p.mutex == Free && id in p.releasing && p.reserved >= MAX_RECORD_BYTES
    ensures Step(ctx, p, Event.Release(id))
         == p.(reserved := p.reserved - MAX_RECORD_BYTES, releasing := p.releasing - {id})
  {
  }

  lemma InvFacts<Id>(p: Producer<Id>)
    requires Inv(p)
    ensures p.holding !! p.releasing && p.journal.durable <= p.journal.maxSize
  {
  }

  lemma GivenBackOnce<Id>(p: Producer<Id>, j: State, id: Id)
    requires p.reserved >= MAX_RECORD_BYTES
    ensures GivenBack(p.(journal := j, holding := p.holding - {id}, releasing := p.releasing + {id}), id)
         == GivenBack(WithJournal(p, j), id)
  {
    assert p.holding - {id} - {id} == p.holding - {id};
    assert p.releasing + {id} - {id} == p.releasing - {id};
  }

  /** Spending is an append and then giving back. */
  lemma SpentSteps<Id>(ctx: Context, p: Producer<Id>, id: Id, q: Request, io: AppendFaults)
    requires Inv(p) && p.mutex == Free && id in p.holding
    ensures AppendStep(ctx, p.journal, q, io).1 != Err(CapacityExhausted)
    ensures p.reserved >= MAX_RECORD_BYTES
    ensures var r := Step(ctx, p, Event.Append(id, q, io));
            && r == p.(journal := AppendStep(ctx, p.journal, q, io).0, holding := p.holding - {id},
                       releasing := p.releasing + {id})
            && Inv(r)
            && GivenBack(WithJournal(p, AppendStep(ctx, p.journal, q, io).0), id) == Step(ctx, r, Event.Release(id))
  {
    HolderFits(p, id);
    FitsNeverExhausts(ctx, p.journal, q, io);
    StepKeeps(ctx, p, Event.Append(id, q, io));
    AfterRelease(Step(ctx, p, Event.Append(id, q, io)), id);
    assert p.releasing + {id} - {id} == p.releasing - {id};
  }

  class AuditProducer {
    const journal: ReceiptJournal
    var reserved: nat
    var reconciled: bool
    ghost var holding: set<Reservation>
    ghost var releasing: set<Reservation>

    ghost function Footprint(): set<object>
    {
      {this, journal, journal.chain}
    }

    /** The abstract producer between two calls, when the mutex is free. */
    ghost function View(): Producer<Reservation>
      reads this, journal, journal.chain
    {
      Producer(journal.View(), reserved, reconciled, Free, holding, releasing, false)
    }

    ghost predicate Valid()
      reads this, Footprint()
    {
      journal.Valid() && Inv(View())
    }

    /** `recover`: reconciled from the start exactly if the peer already has the head. */
    constructor (j: ReceiptJournal, peer: Option<Anchor>)
      requires j.Valid() && GoodBound(j.maxSize) && j.durable <= j.maxSize
      ensures Valid() && journal == j && View() == Start(j.ctx, j.View(), peer)
    {
      journal := j;
      reserved, reconciled := 0, peer == Some(j.chain.At());
      holding, releasing := {}, {};
    }

    /** `acknowledge_bootstrap` */
    method AcknowledgeBootstrap(peer: Anchor) returns (ok: bool)
      requires Valid()
      modifies this`reconciled
      ensures Valid() && ok == (peer == Local(journal.ctx, journal.View()))
      ensures View() == Step(journal.ctx, Step(journal.ctx, old(View()), AcknowledgeRead(peer)), AcknowledgeSet)
    {
      if peer != journal.chain.At() { return false; }
      reconciled := true;
      ok := true;
    }

    /** `page_after`, which does not take the mutex. */
    method PageAfter(peer: Anchor, limit: nat, statFails: bool)
      returns (r: Result<Reconcile.Page, Reconcile.PageError>)
      requires Valid()
      modifies journal`poisoned
      ensures Valid() && View() == Step(journal.ctx, old(View()), ReadPage(peer, limit, statFails))
      ensures r == Reconcile.PageRead(journal.ctx, old(journal.View()), peer, limit, statFails).1
    {
      hide Inv, Local, Reconcile.PageRead;
      StepKeeps(journal.ctx, View(), ReadPage(peer, limit, statFails));
      r := journal.Page(peer, limit, statFails);
    }

    /** `reserve_terminal`: with the mutex held, read the capacity and count one maximal record, or refuse. */
    method ReserveTerminal(binding: Option<Execution>, statFails: bool) returns (r: Result<Reservation, ReserveError>)
      requires Valid()
      modifies this`reserved, this`holding, journal`poisoned
      ensures Valid()
      ensures r.Ok? ==> fresh(r.value) && r.value.owner == this && r.value.binding == binding
      ensures binding.Some? && BadBinding(binding.value) <==> r == Err(ReserveBindingInvalid)
      ensures r == Err(ReserveBindingInvalid) || r == Err(ReconciliationRequired) ==> View() == old(View())
      ensures r != Err(ReserveBindingInvalid) ==> (r == Err(ReconciliationRequired) <==> !old(reconciled))
      ensures r.Ok? || r == Err(CapacityUnknown) || r == Err(CapacityUnavailable) ==>
                View() == Reserved(old(View()), statFails, if r.Ok? then Some(r.value) else None)
      ensures !(binding.Some? && BadBinding(binding.value)) && old(reconciled) ==>
                var known := !old(journal.poisoned) && !statFails && |journal.file| == journal.durable;
                && (r == Err(CapacityUnknown) <==> !known)
                && (r.Ok? <==> known && old(reserved) + MAX_RECORD_BYTES <= journal.maxSize - journal.durable)
    {
      hide Inv, AppendStep, Local, Step, BadBinding, ReadCapacity;
      if binding.Some? && BadBinding(binding.value) { return Err(ReserveBindingInvalid); }
      if !reconciled { return Err(ReconciliationRequired); }
      InvFacts(View());
      ReadCapacityExact(journal.View(), statFails);
      RefusedSteps(journal.ctx, View(), statFails);
      var remaining := journal.Remaining(statFails);
      if remaining.None? { return Err(CapacityUnknown); }
      if reserved > remaining.value || MAX_RECORD_BYTES > remaining.value - reserved {
        return Err(CapacityUnavailable);
      }
      var reservation := new Reservation(this, binding);
      ReservedSteps(journal.ctx, old(View()), statFails, reservation);
      reserved := reserved + MAX_RECORD_BYTES;
      holding := holding + {reservation};
      r := Ok(reservation);
    }

    /** `release_reservation`: the branch that would end the process is dead. */
    method ReleaseReservation(r: Reservation)
      requires Valid() && r in holding + releasing
      modifies this`reserved, this`holding, this`releasing
      ensures old(View()).reserved >= MAX_RECORD_BYTES && Valid() && View() == GivenBack(old(View()), r)
    {
      hide Inv, AppendStep, Local, ReadCapacity, Step;
      GivenBackSteps(journal.ctx, View(), r);
      if reserved < MAX_RECORD_BYTES {
        assert false;
      }
      reserved, holding, releasing := reserved - MAX_RECORD_BYTES, holding - {r}, releasing - {r};
    }

    /** Whether the reservation may be spent on this request. */
    predicate Matches(binding: Option<Execution>, q: Request) {
      binding.Some? ==> binding.value == Execution(q.sessionId, q.planDigest, ProfileOf(q.payload))
    }

    /**
     * `commit_terminal` and `commit_refinement_terminal`: spend the reservation, by an append if it is this producer's
     * and matches, and give its bytes back in every case. The append never fails for want of capacity.
     */
    method Commit(r: Reservation, q: Request, io: AppendFaults) returns (result: Result<Record, CommitError>)
      requires Valid() && r.Live() && (r.owner == this ==> r in holding)
      modifies this, journal, journal.chain, r, r.Owners()
      ensures r.owner == null
      ensures old(r.owner) != this ==> result == Err(ForeignReservation) && View() == old(View())
      ensures old(r.owner) == this ==> Valid()
      ensures old(r.owner) == this && !Matches(r.binding, q) ==>
                && result == Err(ExecutionMismatch)
                && old(View()).reserved >= MAX_RECORD_BYTES && View() == GivenBack(old(View()), r)
      ensures old(r.owner) == this && Matches(r.binding, q) ==>
                && old(View()).reserved >= MAX_RECORD_BYTES
                && View() == GivenBack(WithJournal(old(View()), AppendStep(journal.ctx, old(journal.View()), q, io).0), r)
                && result == Committed(AppendStep(journal.ctx, old(journal.View()), q, io).1)
      ensures result != Err(AppendFailed(CapacityExhausted))
      ensures result == Err(ExecutionMismatch)
          <==> old(r.owner) == this && r.binding.Some?
               && (r.binding.value.sessionId != q.sessionId || r.binding.value.planDigest != q.planDigest
                   || r.binding.value.profileDigest != ProfileOf(q.payload))
    {
      hide Inv, AppendStep, Local, ReadCapacity, Step;
      if r.owner != this {
        r.Release();
        return Err(ForeignReservation);
      }
      if !Matches(r.binding, q) {
        r.Release();
        return Err(ExecutionMismatch);
      }
      result := Spend(r, q, io);
    }

    method Spend(r: Reservation, q: Request, io: AppendFaults) returns (result: Result<Record, CommitError>)
      requires Valid() && r in holding && r.owner == this
      modifies this, journal, journal.chain, r
      ensures r.owner == null && Valid()
      ensures old(View()).reserved >= MAX_RECORD_BYTES
      ensures View() == GivenBack(WithJournal(old(View()), AppendStep(journal.ctx, old(journal.View()), q, io).0), r)
      ensures result == Committed(AppendStep(journal.ctx, old(journal.View()), q, io).1)
      ensures result != Err(AppendFailed(CapacityExhausted))
    {
      hide Inv, AppendStep, Local, ReadCapacity, Step;
      SpentSteps(journal.ctx, View(), r, q, io);
      var appended := journal.Append(q, io);
      GivenBackOnce(old(View()), journal.View(), r);
      holding, releasing := holding - {r}, releasing + {r};
      r.Release();
      result := Committed(appended);
    }
  }

  function Committed(r: Result<Record, JournalError>): Result<Record, CommitError> {
    match r
    case Ok(e) => Ok(e)
    case Err(c) => Err(AppendFailed(c))
  }
}
