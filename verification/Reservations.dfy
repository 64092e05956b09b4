/**
 Terminal reservations of receipt_producer.cpp: every interleaving of reserving, committing and releasing threads.
 A reserving thread holds the producer's mutex from reading the journal's capacity to counting the reservation;
 a committing thread appends without the mutex and takes it only to release. Pages are read without it at any time.
 */
module Reservations {
  import opened Bytes
  import opened AuditChain
  import opened Framing
  import opened Journal
  import Reconcile

  /** Who holds the producer's mutex across a step, and what it has read. */
  datatype Mutex = Free | Reserving(remaining: nat) | Acknowledging(matches: bool)

  /**
   * A producer and its threads: reservations still to be committed, and reservations whose append (or refusal) is over
   * but whose bytes are not yet given back.
   */
  datatype Producer<Id> = Producer(
    journal: State,
    reserved: nat,
    reconciled: bool,
    mutex: Mutex,
    holding: set<Id>,
    releasing: set<Id>,
    terminated: bool)

  datatype Event<Id> =
    | AcknowledgeRead(peer: Anchor)
    | AcknowledgeSet
    | ReserveRead(statFails: bool)
    | ReserveGrant(id: Id)
    | Append(id: Id, q: Request, io: AppendFaults)
    | Abandon(id: Id)
    | Release(id: Id)
    | ReadPage(peer: Anchor, limit: nat, statFails: bool)

  /** `initialize` leaves the flag unset; `recover` sets it when the peer already has the head. */
  function Start<Id>(ctx: Context, s: State, peer: Option<Anchor>): Producer<Id> {
    Producer(s, 0, peer == Some(Local(ctx, s)), Free, {}, {}, false)
  }

  /** One step of some thread; an event that is not enabled changes nothing. */
  function Step<Id>(ctx: Context, p: Producer<Id>, e: Event<Id>): Producer<Id> {
    match e
    case AcknowledgeRead(peer) =>
      if p.mutex != Free then p else p.(mutex := Acknowledging(peer == Local(ctx, p.journal)))
    case AcknowledgeSet =>
      if !p.mutex.Acknowledging? then p
      else p.(mutex := Free, reconciled := p.reconciled || p.mutex.matches)
    case ReserveRead(statFails) =>
      if p.mutex != Free || !p.reconciled then p
      else
        var (j, remaining) := ReadCapacity(p.journal, statFails);
        p.(journal := j, mutex := if remaining.None? then Free else Reserving(remaining.value))
    case ReserveGrant(id) =>
      if !p.mutex.Reserving? || id in p.holding + p.releasing then p
      else if p.reserved > p.mutex.remaining || MAX_RECORD_BYTES > p.mutex.remaining - p.reserved then p.(mutex := Free)
      else p.(mutex := Free, reserved := p.reserved + MAX_RECORD_BYTES, holding := p.holding + {id})
    case Append(id, q, io) =>
      if id !in p.holding then p
      else
        p.(journal := AppendStep(ctx, p.journal, q, io).0, holding := p.holding - {id}, releasing := p.releasing + {id})
    case Abandon(id) =>
      if id !in p.holding then p else p.(holding := p.holding - {id}, releasing := p.releasing + {id})
    case Release(id) =>
      if p.mutex != Free || id !in p.releasing then p
      else if p.reserved < MAX_RECORD_BYTES then p.(terminated := true)
      else p.(reserved := p.reserved - MAX_RECORD_BYTES, releasing := p.releasing - {id})
    case ReadPage(peer, limit, statFails) =>
      p.(journal := Reconcile.PageRead(ctx, p.journal, peer, limit, statFails).0)
  }

  /** What every step keeps. */
  ghost predicate Inv<Id>(p: Producer<Id>) {
    && !p.terminated
    && p.holding !! p.releasing
    && p.reserved == MAX_RECORD_BYTES * (|p.holding| + |p.releasing|)
    && MAX_RECORD_BYTES * |p.holding| <= Capacity(p.journal)
    && (p.mutex.Reserving? ==> p.mutex.remaining <= Capacity(p.journal) + MAX_RECORD_BYTES * |p.releasing|)
    && (p.mutex.Reserving? ==> p.mutex.remaining <= p.journal.maxSize)
    && p.reserved <= MAX_RECORD_BYTES + p.journal.maxSize
    && GoodBound(p.journal.maxSize)
    && (!p.reconciled ==> p.holding == {} && p.releasing == {} && !p.mutex.Reserving?)
  }

  /** How an append moves the durable size: by at most one record, and never past the bound. */
  lemma AppendSize(s: State, prepared: Result<(Record, seq<byte>), JournalError>, io: AppendFaults)
    requires prepared.Ok? ==> GoodSize(prepared.value.1)
    ensures var (t, r) := AppendPrepared(s, prepared, io);
            && t.maxSize == s.maxSize
            && s.durable <= t.durable <= s.durable + MAX_RECORD_BYTES
            && (r.Err? ==> t.durable == s.durable)
            && (MAX_RECORD_BYTES <= Capacity(s) && r.Err? && r.error == CapacityExhausted ==>
                  prepared == Err(CapacityExhausted))
  {
  }

  lemma PreparedSize(ctx: Context, s: State, q: Request)
    ensures Prepare(ctx, s, q).Ok? ==> GoodSize(Prepare(ctx, s, q).value.1)
    ensures Prepare(ctx, s, q) != Err(CapacityExhausted)
  {
  }

  /** Moving one reservation from the holders to the releasers. */
  lemma Moved<Id>(holding: set<Id>, releasing: set<Id>, id: Id)
    requires id in holding && holding !! releasing
    ensures |holding - {id}| == |holding| - 1 && |releasing + {id}| == |releasing| + 1
    ensures holding - {id} !! releasing + {id}
  {
  }

  lemma AfterAppend<Id>(p: Producer<Id>, id: Id, j: State)
    requires Inv(p) && id in p.holding
    requires j.maxSize == p.journal.maxSize && p.journal.durable <= j.durable <= p.journal.durable + MAX_RECORD_BYTES
    ensures Inv(p.(journal := j, holding := p.holding - {id}, releasing := p.releasing + {id}))
  {
    Moved(p.holding, p.releasing, id);
  }

  lemma AfterRelease<Id>(p: Producer<Id>, id: Id)
    requires Inv(p) && id in p.releasing && p.mutex == Free
    ensures p.reserved >= MAX_RECORD_BYTES
    ensures Inv(p.(reserved := p.reserved - MAX_RECORD_BYTES, releasing := p.releasing - {id}))
  {
    assert |p.releasing - {id}| == |p.releasing| - 1;
    assert p.releasing == p.releasing - {id} + {id};
  }

  lemma Added<Id>(holding: set<Id>, releasing: set<Id>, id: Id)
    requires id !in holding + releasing && holding !! releasing
    ensures |holding + {id}| == |holding| + 1 && holding + {id} !! releasing
  {
  }

  lemma AfterGrant<Id>(p: Producer<Id>, id: Id)
    requires Inv(p) && p.mutex.Reserving? && id !in p.holding + p.releasing
    requires p.reserved <= p.mutex.remaining && MAX_RECORD_BYTES <= p.mutex.remaining - p.reserved
    ensures Inv(p.(mutex := Free, reserved := p.reserved + MAX_RECORD_BYTES, holding := p.holding + {id}))
  {
    var h, r := |p.holding|, |p.releasing|;
    Added(p.holding, p.releasing, id);
    assert MAX_RECORD_BYTES * (h + 1 + r) == MAX_RECORD_BYTES * (h + r) + MAX_RECORD_BYTES;
    assert MAX_RECORD_BYTES * (h + 1) == MAX_RECORD_BYTES * h + MAX_RECORD_BYTES;
  }

  /** The mutex changes hands, or the flag is set. */
  lemma AfterControl<Id>(p: Producer<Id>, m: Mutex, reconciled: bool)
    requires Inv(p) && !m.Reserving? && (p.reconciled ==> reconciled)
    ensures Inv(p.(mutex := m, reconciled := reconciled))
  {
  }

  lemma AfterRead<Id>(p: Producer<Id>, statFails: bool)
    requires Inv(p) && p.reconciled
    ensures var (j, remaining) := ReadCapacity(p.journal, statFails);
            Inv(p.(journal := j, mutex := if remaining.None? then Free else Reserving(remaining.value)))
  {
  }

  /** Reading a page may poison the journal, which changes none of its sizes. */
  lemma AfterPage<Id>(ctx: Context, p: Producer<Id>, peer: Anchor, limit: nat, statFails: bool)
    requires Inv(p)
    ensures Inv(p.(journal := Reconcile.PageRead(ctx, p.journal, peer, limit, statFails).0))
  {
    hide AnchorIsPrefix, Reconcile.Next, Reconcile.OfKind;
  }

  /** What an append may do to the size of the journal. */
  lemma AppendStays(ctx: Context, s: State, q: Request, io: AppendFaults)
    ensures var t := AppendStep(ctx, s, q, io).0;
            t.maxSize == s.maxSize && s.durable <= t.durable <= s.durable + MAX_RECORD_BYTES
  {
    hide AppendPrepared, Prepare;
    PreparedSize(ctx, s, q);
    AppendSize(s, Prepare(ctx, s, q), io);
  }

  /** The steps of a thread that acknowledges or reserves. */
  lemma ControlKeeps<Id>(ctx: Context, p: Producer<Id>, e: Event<Id>)
    requires Inv(p) && (e.AcknowledgeRead? || e.AcknowledgeSet? || e.ReserveRead? || e.ReserveGrant?)
    ensures Inv(Step(ctx, p, e))
  {
    hide Inv, AppendStep, Local, ReadCapacity, Reconcile.PageRead;
    match e {
      case AcknowledgeRead(peer) => AfterControl(p, Acknowledging(peer == Local(ctx, p.journal)), p.reconciled);
      case AcknowledgeSet =>
        if p.mutex.Acknowledging? { AfterControl(p, Free, p.reconciled || p.mutex.matches); }
      case ReserveRead(statFails) =>
        if p.reconciled { AfterRead(p, statFails); }
      case ReserveGrant(id) =>
        if p.mutex.Reserving? && id !in p.holding + p.releasing {
          if p.reserved <= p.mutex.remaining && MAX_RECORD_BYTES <= p.mutex.remaining - p.reserved {
            AfterGrant(p, id);
          } else {
            AfterControl(p, Free, p.reconciled);
          }
        }
    }
  }

  /** The steps of a thread that commits, gives back or reads a page. */
  lemma DataKeeps<Id>(ctx: Context, p: Producer<Id>, e: Event<Id>)
    requires Inv(p) && (e.Append? || e.Abandon? || e.Release? || e.ReadPage?)
    ensures Inv(Step(ctx, p, e))
  {
    hide Inv, AppendStep, Local, ReadCapacity, Reconcile.PageRead;
    match e {
      case Append(id, q, io) =>
        if id in p.holding {
          AppendStays(ctx, p.journal, q, io);
          AfterAppend(p, id, AppendStep(ctx, p.journal, q, io).0);
        }
      case Abandon(id) =>
        if id in p.holding { AfterAppend(p, id, p.journal); }
      case Release(id) =>
        if p.mutex == Free && id in p.releasing { AfterRelease(p, id); }
      case ReadPage(peer, limit, statFails) =>
        AfterPage(ctx, p, peer, limit, statFails);
    }
  }

  /** The invariant holds through every step of every thread. */
  lemma StepKeeps<Id>(ctx: Context, p: Producer<Id>, e: Event<Id>)
    requires Inv(p)
    ensures Inv(Step(ctx, p, e))
  {
    hide Inv, Step;
    if e.Append? || e.Abandon? || e.Release? || e.ReadPage? {
      DataKeeps(ctx, p, e);
    } else {
      ControlKeeps(ctx, p, e);
    }
  }

  function Run<Id>(ctx: Context, p: Producer<Id>, run: seq<Event<Id>>): Producer<Id> {
    if run == [] then p else Step(ctx, Run(ctx, p, run[..|run| - 1]), run[|run| - 1])
  }

  /**
   * Reservation safety over every run: what is reserved is exactly one maximal record per live reservation, the
   * holders' records always fit, `std::terminate` is never reached and the counter never overflows.
   */
  lemma {:induction false} RunKeeps<Id>(ctx: Context, s: State, peer: Option<Anchor>, run: seq<Event<Id>>)
    requires GoodBound(s.maxSize) && s.durable <= s.maxSize
    ensures Inv(Run(ctx, Start(ctx, s, peer), run))
    ensures Run(ctx, Start(ctx, s, peer), run).reserved <= U64_MAX
  {
    if run != [] {
      RunKeeps(ctx, s, peer, run[..|run| - 1]);
      StepKeeps(ctx, Run(ctx, Start(ctx, s, peer), run[..|run| - 1]), run[|run| - 1]);
    }
  }

  /** Every holder's maximal record fits. */
  lemma HolderFits<Id>(p: Producer<Id>, id: Id)
    requires Inv(p) && id in p.holding
    ensures MAX_RECORD_BYTES <= Capacity(p.journal)
  {
    Moved(p.holding, p.releasing, id);
  }

  lemma FitsNeverExhausts(ctx: Context, s: State, q: Request, io: AppendFaults)
    requires MAX_RECORD_BYTES <= Capacity(s)
    ensures AppendStep(ctx, s, q, io).1 != Err(CapacityExhausted)
  {
    PreparedSize(ctx, s, q);
    AppendSize(s, Prepare(ctx, s, q), io);
  }

  /** No holder's commit ever fails for want of capacity, whatever the other threads do. */
  lemma HolderNeverExhausts<Id>(ctx: Context, s: State, peer: Option<Anchor>, run: seq<Event<Id>>, id: Id, q: Request,
                                io: AppendFaults)
    requires GoodBound(s.maxSize) && s.durable <= s.maxSize
    requires id in Run(ctx, Start(ctx, s, peer), run).holding
    ensures AppendStep(ctx, Run(ctx, Start(ctx, s, peer), run).journal, q, io).1 != Err(CapacityExhausted)
  {
    RunKeeps(ctx, s, peer, run);
    HolderFits(Run(ctx, Start(ctx, s, peer), run), id);
    FitsNeverExhausts(ctx, Run(ctx, Start(ctx, s, peer), run).journal, q, io);
  }

  // ----- the reconciliation gate

  /** Nothing the chain or the records consist of has moved. */
  predicate SameHistory(s: State, t: State) {
    s.records == t.records && s.sequence == t.sequence && s.head == t.head && s.durable == t.durable && s.file == t.file
  }

  /** As long as the peer has not acknowledged, the head it has to acknowledge is the one the journal was opened at. */
  ghost predicate Gate<Id>(ctx: Context, s: State, p: Producer<Id>, acked: Option<Anchor>) {
    && Inv(p)
    && (!p.reconciled ==> SameHistory(s, p.journal))
    && (!p.reconciled && p.mutex.Acknowledging? && p.mutex.matches ==> acked == Some(Local(ctx, s)))
    && (p.reconciled ==> acked == Some(Local(ctx, s)))
  }

  /** The anchor of the acknowledgement under way or accepted before reconciliation. */
  function Acked<Id>(p: Producer<Id>, e: Event<Id>, acked: Option<Anchor>): Option<Anchor> {
    if e.AcknowledgeRead? && p.mutex == Free && !p.reconciled then Some(e.peer) else acked
  }

  lemma GateStep<Id>(ctx: Context, s: State, p: Producer<Id>, e: Event<Id>, acked: Option<Anchor>)
    requires Gate(ctx, s, p, acked)
    ensures Gate(ctx, s, Step(ctx, p, e), Acked(p, e, acked))
  {
    StepKeeps(ctx, p, e);
  }

  function LastAcked<Id(==)>(ctx: Context, s: State, peer: Option<Anchor>, run: seq<Event<Id>>): Option<Anchor> {
    if run == [] then peer
    else
      var before := run[..|run| - 1];
      Acked(Run(ctx, Start(ctx, s, peer), before), run[|run| - 1], LastAcked(ctx, s, peer, before))
  }

  /**
   * The gate over every run: before reconciliation no reservation is granted and the journal does not move; and the
   * anchor that opened the gate was the journal's head.
   */
  lemma {:induction false} GateHolds<Id>(ctx: Context, s: State, peer: Option<Anchor>, run: seq<Event<Id>>)
    requires GoodBound(s.maxSize) && s.durable <= s.maxSize
    ensures var p := Run(ctx, Start(ctx, s, peer), run);
            && Gate(ctx, s, p, LastAcked(ctx, s, peer, run))
            && (!p.reconciled ==> p.holding == {} && SameHistory(s, p.journal))
            && (p.reconciled ==> LastAcked(ctx, s, peer, run) == Some(Local(ctx, s)))
  {
    if run != [] {
      var before := run[..|run| - 1];
      GateHolds(ctx, s, peer, before);
      GateStep(ctx, s, Run(ctx, Start(ctx, s, peer), before), run[|run| - 1], LastAcked(ctx, s, peer, before));
    }
  }

  /** A producer begins reconciled exactly if the peer already has the head; with nothing reserved in either case. */
  lemma StartExact<Id>(ctx: Context, s: State, peer: Option<Anchor>)
    ensures var p := Start<Id>(ctx, s, peer);
            && (p.reconciled <==> peer.Some? && Local(ctx, s) == peer.value)
            && p.journal == s && p.reserved == 0 && p.holding == {} && p.releasing == {} && p.mutex == Free
  {
    hide Local;
  }

  /** And the head, once acknowledged without other threads in the way, opens it. */
  lemma HeadOpensGate<Id>(ctx: Context, p: Producer<Id>, peer: Anchor)
    requires p.mutex == Free
    ensures Step(ctx, Step(ctx, p, AcknowledgeRead(peer)), AcknowledgeSet).reconciled
        <==> p.reconciled || peer == Local(ctx, p.journal)
  {
  }
}
