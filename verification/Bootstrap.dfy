/** Recovering a producer: the peer pages up to a head that cannot move, and its acknowledgement opens the gate. */
module Bootstrap {
  import opened Bytes
  import opened AuditChain
  import opened Journal
  import opened Reconcile
  import opened Reservations

  /**
   * Before reconciliation every page read at any moment of any interleaving is a page of the journal as it was opened,
   * or refused because some earlier check of its file has failed.
   */
  lemma PagesFixed<Id>(ctx: Context, s: State, peer: Option<Anchor>, run: seq<Event<Id>>, asked: Anchor, limit: nat)
    requires GoodBound(s.maxSize) && s.durable <= s.maxSize && !s.poisoned
    requires !Run(ctx, Start(ctx, s, peer), run).reconciled
    ensures var now := Run(ctx, Start(ctx, s, peer), run).journal;
            PageAfter(ctx, now, asked, limit)
              == if now.poisoned && 0 < limit <= MAX_PAGE then Err(JournalPoisoned) else PageAfter(ctx, s, asked, limit)
  {
    hide Inv, Run, Step;
    GateHolds(ctx, s, peer, run);
    var now := Run(ctx, Start(ctx, s, peer), run).journal;
    assert SameHistory(s, now);
    assert Local(ctx, now) == Local(ctx, s);
  }

  // ----- a peer among the threads

  /** The anchor a peer stands at, which verifies every page that it is answered and asks for the next from there. */
  function PeerAt<Id(==)>(ctx: Context, s: State, peer: Anchor, run: seq<Event<Id>>): Anchor {
    if run == [] then peer
    else
      var before := run[..|run| - 1];
      PeerStep(ctx, Run(ctx, Start(ctx, s, Some(peer)), before), PeerAt(ctx, s, peer, before), run[|run| - 1])
  }

  /** Reading a page from where the peer stands moves it, if the page is answered and verifies. */
  function PeerStep<Id>(ctx: Context, p: Producer<Id>, at: Anchor, e: Event<Id>): Anchor {
    if Answered(ctx, p, at, e) then
      match Take(ctx, at, PageRead(ctx, p.journal, at, e.limit, e.statFails).1)
      case Some(a) => a
      case None => at
    else at
  }

  predicate Answered<Id>(ctx: Context, p: Producer<Id>, at: Anchor, e: Event<Id>) {
    e.ReadPage? && e.peer == at && PageRead(ctx, p.journal, at, e.limit, e.statFails).1.Ok?
  }

  /** How many records the pages answered had room for. */
  function Served<Id(==)>(ctx: Context, s: State, peer: Anchor, run: seq<Event<Id>>): nat {
    if run == [] then 0
    else
      var before, e := run[..|run| - 1], run[|run| - 1];
      Served(ctx, s, peer, before)
        + if Answered(ctx, Run(ctx, Start(ctx, s, Some(peer)), before), PeerAt(ctx, s, peer, before), e) then e.limit
          else 0
  }

  lemma StaysReconciled<Id>(ctx: Context, p: Producer<Id>, e: Event<Id>)
    ensures p.reconciled ==> Step(ctx, p, e).reconciled
  {
  }

  /** One page, read at some moment before reconciliation: the peer moves on by what the page had room for. */
  lemma PeerMoves<Id>(ctx: Context, s: State, ps: seq<seq<byte>>, peer: Anchor, run: seq<Event<Id>>, at: Anchor,
                      e: Event<Id>)
    requires Backed(ctx, s, ps, []) && !s.poisoned && AnchorIsPrefix(at, ctx.KeyIdentity(), s.records)
    requires !Run(ctx, Start(ctx, s, Some(peer)), run).reconciled
    requires Answered(ctx, Run(ctx, Start(ctx, s, Some(peer)), run), at, e)
    ensures var a := PeerStep(ctx, Run(ctx, Start(ctx, s, Some(peer)), run), at, e);
            && AnchorIsPrefix(a, ctx.KeyIdentity(), s.records)
            && a.sequence == at.sequence + Count(s.records, at, e.limit)
  {
    hide Inv, Run, Step, Backed, InOrder, VerifyAll, Next;
    BackedBounds(ctx, s, ps);
    PagesFixed(ctx, s, Some(peer), run, at, e.limit);
    var a := PageAdvances(ctx, s, ps, [], at, e.limit);
  }

  /**
   * Recovery converges over every interleaving: as long as the producer is not reconciled, the peer stands at a prefix
   * anchor, further on by exactly what its pages had room for; and once they cover what was missing it stands at the
   * anchor which the producer accepts, which no other prefix anchor is.
   */
  lemma {:induction false} BootstrapConverges<Id>(ctx: Context, s: State, ps: seq<seq<byte>>, peer: Anchor,
                                                  run: seq<Event<Id>>)
    requires Backed(ctx, s, ps, []) && !s.poisoned && AnchorIsPrefix(peer, ctx.KeyIdentity(), s.records)
    requires !Run(ctx, Start(ctx, s, Some(peer)), run).reconciled
    ensures var a := PeerAt(ctx, s, peer, run);
            && AnchorIsPrefix(a, ctx.KeyIdentity(), s.records)
            && a.sequence == peer.sequence + Count(s.records, peer, Served(ctx, s, peer, run))
            && (a == Local(ctx, s) <==> peer.sequence + Served(ctx, s, peer, run) >= |s.records|)
  {
    hide Inv, Step, Backed, PeerStep, Answered, Local;
    if run != [] {
      var before, e := run[..|run| - 1], run[|run| - 1];
      var p, at := Run(ctx, Start(ctx, s, Some(peer)), before), PeerAt(ctx, s, peer, before);
      StaysReconciled(ctx, p, e);
      BootstrapConverges(ctx, s, ps, peer, before);
      if Answered(ctx, p, at, e) {
        PeerMoves(ctx, s, ps, peer, before, at, e);
      } else {
        PeerWaits(ctx, p, at, e);
      }
    }
    HeadIsLast(ctx, s, ps, [], PeerAt(ctx, s, peer, run));
  }

  lemma PeerWaits<Id>(ctx: Context, p: Producer<Id>, at: Anchor, e: Event<Id>)
    requires !Answered(ctx, p, at, e)
    ensures PeerStep(ctx, p, at, e) == at
  {
  }

  /** And whenever no thread is in the way, acknowledging where the peer stands opens the gate exactly then. */
  lemma BootstrapCompletes<Id>(ctx: Context, s: State, ps: seq<seq<byte>>, peer: Anchor, run: seq<Event<Id>>)
    requires Backed(ctx, s, ps, []) && !s.poisoned && AnchorIsPrefix(peer, ctx.KeyIdentity(), s.records)
    requires !Run(ctx, Start(ctx, s, Some(peer)), run).reconciled
    requires Run(ctx, Start(ctx, s, Some(peer)), run).mutex == Free
    ensures var p, a := Run(ctx, Start(ctx, s, Some(peer)), run), PeerAt(ctx, s, peer, run);
            Step(ctx, Step(ctx, p, AcknowledgeRead(a)), AcknowledgeSet).reconciled
            <==> peer.sequence + Served(ctx, s, peer, run) >= |s.records|
  {
    hide Inv, Run, Step, Backed;
    BootstrapConverges(ctx, s, ps, peer, run);
    BackedBounds(ctx, s, ps);
    GateHolds(ctx, s, Some(peer), run);
    var p := Run(ctx, Start(ctx, s, Some(peer)), run);
    assert Local(ctx, p.journal) == Local(ctx, s);
    HeadOpensGate(ctx, p, PeerAt(ctx, s, peer, run));
  }

  lemma BackedBounds(ctx: Context, s: State, ps: seq<seq<byte>>)
    requires Backed(ctx, s, ps, [])
    ensures GoodBound(s.maxSize) && s.durable <= s.maxSize
  {
  }
}
