/** First-cause arbitration and output accounting of resource_monitor.cpp. */
module ResourceMonitor {
  import opened Bytes
  import R = Receipts

  /** The state the mutex guards, and the causes the termination callback has been called with. */
  datatype Monitor = Monitor(
    finished: bool,
    output: u64,
    forced: Option<R.Termination>,
    callbackFailed: bool,
    called: seq<R.Termination>)

  const START := Monitor(false, 0, None, false, [])

  /** Calls of the other threads and the watchdog's deadline; each says whether a termination callback would throw. */
  datatype Event =
    | Account(bytes: u64, throws: bool)
    | Request(cause: R.Termination, throws: bool)
    | Deadline(throws: bool)
    | Finish

  function Saturated(a: nat): u64 { if a > U64_MAX then U64_MAX else a }

  /** `request_termination_locked` */
  function Terminate(m: Monitor, cause: R.Termination, throws: bool): Monitor {
    if m.finished || m.forced.Some? then m
    else m.(forced := Some(if throws then R.SupervisorError else cause), callbackFailed := throws,
            called := m.called + [cause])
  }

  /** One call, and what it answers. */
  function Step(limit: u64, m: Monitor, e: Event): (Monitor, bool) {
    match e
    case Account(bytes, throws) =>
      if m.finished then (m, false)
      else
        var counted := m.(output := Saturated(m.output + bytes));
        var after := if counted.forced.None? && counted.output > limit then Terminate(counted, R.TerminalOutputLimit, throws)
                     else counted;
        (after, after.forced.None?)
    case Request(cause, throws) =>
      if cause in {R.Exited, R.Signaled} || m.finished || m.forced.Some? then (m, false)
      else (Terminate(m, cause, throws), true)
    case Deadline(throws) => (Terminate(m, R.WallTimeLimit, throws), true)
    case Finish => (m.(finished := true), true)
  }

  class WallOutputMonitor {
    const limit: u64
    var finished: bool
    var output: u64
    var forced: Option<R.Termination>
    var callbackFailed: bool
    ghost var called: seq<R.Termination>

    ghost function View(): Monitor
      reads this
    {
      Monitor(finished, output, forced, callbackFailed, called)
    }

    constructor (max: u64)
      ensures limit == max && View() == START
    {
      limit := max;
      finished, output, forced, callbackFailed, called := false, 0, None, false, [];
    }

    method RequestLocked(cause: R.Termination, throws: bool)
      modifies this
      ensures View() == Terminate(old(View()), cause, throws)
    {
      if finished || forced.Some? { return; }
      forced := Some(cause);
      called := called + [cause];
      callbackFailed := false;
      if throws {
        forced := Some(R.SupervisorError);
        callbackFailed := true;
      }
    }

    method AccountTerminalOutput(bytes: u64, throws: bool) returns (ok: bool)
      modifies this
      ensures (View(), ok) == Step(limit, old(View()), Account(bytes, throws))
    {
      if finished { return false; }
      if bytes > U64_MAX - output {
        output := U64_MAX;
      } else {
        output := output + bytes;
      }
      if forced.None? && output > limit {
        RequestLocked(R.TerminalOutputLimit, throws);
      }
      ok := forced.None?;
    }

    method RequestTermination(cause: R.Termination, throws: bool) returns (ok: bool)
      modifies this
      ensures (View(), ok) == Step(limit, old(View()), Request(cause, throws))
    {
      if cause == R.Exited || cause == R.Signaled { return false; }
      if finished || forced.Some? { return false; }
      RequestLocked(cause, throws);
      ok := true;
    }

    /** `finish` */
    method MarkFinished()
      modifies this
      ensures View() == Step(limit, old(View()), Finish).0
    {
      finished := true;
    }

    /** `watchdog_loop`, once its wait is over: the deadline has passed, unless something ended the wait before. */
    method DeadlinePassed(throws: bool)
      modifies this
      ensures View() == Step(limit, old(View()), Deadline(throws)).0
    {
      var stopped := finished || forced.Some?;
      if !stopped { RequestLocked(R.WallTimeLimit, throws); }
    }
  }

  // ----- every run

  function Run(limit: u64, run: seq<Event>): Monitor {
    if run == [] then START else Step(limit, Run(limit, run[..|run| - 1]), run[|run| - 1]).0
  }

  /** The events before the first `finish`: the only ones that count. */
  function Live(run: seq<Event>): seq<Event> {
    if run == [] then []
    else
      var before, e := run[..|run| - 1], run[|run| - 1];
      if Finish in before || e == Finish then Live(before) else before + [e]
  }

  /** The bytes accounted, without any bound. */
  function Total(live: seq<Event>): nat {
    if live == [] then 0
    else
      var e := live[|live| - 1];
      Total(live[..|live| - 1]) + if e.Account? then e.bytes else 0
  }

  /** The cause this event brings forward, given the bytes accounted up to and including it. */
  function Claim(limit: u64, total: nat, e: Event): Option<R.Termination> {
    match e
    case Account(_, _) => if Saturated(total) > limit then Some(R.TerminalOutputLimit) else None
    case Request(cause, _) => if cause in {R.Exited, R.Signaled} then None else Some(cause)
    case Deadline(_) => Some(R.WallTimeLimit)
    case Finish => None
  }

  function ClaimAt(limit: u64, live: seq<Event>, i: nat): Option<R.Termination>
    requires i < |live|
  {
    Claim(limit, Total(live[..i + 1]), live[i])
  }

  function Throws(e: Event): bool { !e.Finish? && e.throws }

  /** Event `i` is the first to bring a cause forward. */
  ghost predicate FirstClaim(limit: u64, live: seq<Event>, i: nat) {
    i < |live| && ClaimAt(limit, live, i).Some? && NoClaim(limit, live, i)
  }

  ghost predicate NoClaim(limit: u64, live: seq<Event>, n: nat)
    requires n <= |live|
  {
    forall j :: 0 <= j < n ==> ClaimAt(limit, live, j).None?
  }

  /** What the events before the finish are to lead to; `first` is the one that wins, if there is one. */
  ghost predicate Arbitrated(limit: u64, live: seq<Event>, m: Monitor, first: Option<nat>) {
    && m.output == Saturated(Total(live))
    && match first
       case None => NoClaim(limit, live, |live|) && m.forced == None && m.called == [] && !m.callbackFailed
       case Some(i) =>
         && FirstClaim(limit, live, i)
         && m.called == [ClaimAt(limit, live, i).value]
         && m.callbackFailed == Throws(live[i])
         && m.forced == Some(if Throws(live[i]) then R.SupervisorError else m.called[0])
  }

  lemma TotalSnoc(live: seq<Event>, e: Event)
    ensures Total(live + [e]) == Total(live) + if e.Account? then e.bytes else 0
  {
    assert (live + [e])[..|live|] == live;
  }

  /** Claims are judged on what came before, and stay. */
  lemma ClaimStays(limit: u64, live: seq<Event>, e: Event, i: nat)
    requires i < |live|
    ensures ClaimAt(limit, live + [e], i) == ClaimAt(limit, live, i)
  {
    assert (live + [e])[..i + 1] == live[..i + 1];
  }

  lemma ClaimLast(limit: u64, live: seq<Event>, e: Event)
    ensures ClaimAt(limit, live + [e], |live|) == Claim(limit, Total(live + [e]), e)
  {
    assert (live + [e])[..|live| + 1] == live + [e];
  }

  lemma NoClaimStays(limit: u64, live: seq<Event>, e: Event, n: nat)
    requires n <= |live| && NoClaim(limit, live, n)
    ensures NoClaim(limit, live + [e], n)
  {
    forall j | 0 <= j < n
      ensures ClaimAt(limit, live + [e], j).None?
    {
      ClaimStays(limit, live, e, j);
    }
  }

  /** One more event, while nothing has finished. */
  lemma StepArbitrates(limit: u64, live: seq<Event>, m: Monitor, first: Option<nat>, e: Event) returns (winner: Option<nat>)
    requires Arbitrated(limit, live, m, first) && !m.finished && e != Finish
    ensures Arbitrated(limit, live + [e], Step(limit, m, e).0, winner) && !Step(limit, m, e).0.finished
    ensures first.Some? ==> winner == first
  {
    TotalSnoc(live, e);
    ClaimLast(limit, live, e);
    match first {
      case Some(i) =>
        winner := first;
        ClaimStays(limit, live, e, i);
        NoClaimStays(limit, live, e, i);
      case None =>
        NoClaimStays(limit, live, e, |live|);
        winner := if Claim(limit, Total(live + [e]), e).Some? then Some(|live|) else None;
    }
  }

  /**
   * First cause wins, over every run: the callback is called at most once, with the cause of the first event that
   * brings one forward; a throwing callback turns it into a supervisor error; later causes, bytes and the finish change
   * nothing; and the count is the sum of the bytes accounted, saturated.
   */
  lemma {:induction false} RunArbitrates(limit: u64, run: seq<Event>) returns (first: Option<nat>)
    ensures Run(limit, run).finished == (Finish in run)
    ensures Arbitrated(limit, Live(run), Run(limit, run), first)
    ensures Finish !in run ==> Live(run) == run
  {
    if run == [] {
      first := None;
    } else {
      var before, e := run[..|run| - 1], run[|run| - 1];
      assert run == before + [e];
      first := RunArbitrates(limit, before);
      if Finish !in before && e != Finish {
        first := StepArbitrates(limit, before, Run(limit, before), first, e);
      }
    }
  }

  /** A cause is forced exactly if some event has brought one forward. */
  lemma ForcedExact(limit: u64, run: seq<Event>)
    ensures Run(limit, run).forced.None? <==> NoClaim(limit, Live(run), |Live(run)|)
    ensures Run(limit, run).called == [] <==> NoClaim(limit, Live(run), |Live(run)|)
  {
    var first := RunArbitrates(limit, run);
  }

  /**
   * Accounting answers true exactly while it matters: nothing has finished, no event has brought a cause forward, and
   * all bytes accounted, these included, are not above the limit.
   */
  lemma AccountAnswers(limit: u64, run: seq<Event>, bytes: u64, throws: bool)
    ensures Step(limit, Run(limit, run), Account(bytes, throws)).1
        <==> Finish !in run && NoClaim(limit, run, |run|) && Saturated(Total(run) + bytes) <= limit
  {
    var first := RunArbitrates(limit, run);
    ForcedExact(limit, run);
  }

  /** A request answers true exactly if it is the one that ends the child: not natural, not late, and the first. */
  lemma RequestAnswers(limit: u64, run: seq<Event>, cause: R.Termination, throws: bool)
    ensures var (m, ok) := Step(limit, Run(limit, run), Request(cause, throws));
            && (ok <==> cause !in {R.Exited, R.Signaled} && Finish !in run && NoClaim(limit, run, |run|))
            && (ok ==> m.called == [cause] && m.forced == Some(if throws then R.SupervisorError else cause))
            && (!ok ==> m == Run(limit, run))
  {
    var first := RunArbitrates(limit, run);
    ForcedExact(limit, run);
  }
}
