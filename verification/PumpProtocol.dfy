/**
 The output pump of output_pump.cpp: one worker that reads, frames and queues stdout, and receivers that take frames
 while it runs. Every step below is one hold of the state mutex, or one system call between two holds.
 */
module PumpProtocol {
  import opened Bytes
  import opened Lines

  const CHUNK_BYTES := 4096
  /** The longest string there can be; appending beyond it throws, which the worker turns into a supervisor failure. */
  const STRING_MAX: int := 0x7fff_ffff_ffff_ffff
  const SIZE_MAX: int := U64_MAX

  datatype Error =
    | NoError
    | Stopped
    | PollFailed
    | StdoutReadFailed
    | StderrReadFailed
    | OutputLimit
    | FrameLimit
    | UnterminatedFrame
    | StderrCallbackFailed
    | SupervisorFailure
    | StdoutEof

  datatype Options = Options(maxFrame: nat, maxQueued: nat, discard: bool)
  {
    predicate Valid() { 0 < maxFrame <= SIZE_MAX && 0 < maxQueued <= SIZE_MAX }
  }

  /** Where the worker stands; between a check and the reads it has decided on it does not hold the mutex. */
  datatype Worker = Checking | Polling(stdout: bool, stderr: bool) | Reading(stdout: bool, stderr: bool) | Done

  datatype Pump = Pump(
    buffer: seq<byte>,
    frames: seq<seq<byte>>,
    queued: nat,
    error: Error,
    stdoutEof: bool,
    stderrEof: bool,
    stop: bool,
    worker: Worker,
    delivered: seq<seq<byte>>,
    input: seq<byte>)

  const START := Pump([], [], 0, NoError, false, false, false, Checking, [], [])

  function SetError(p: Pump, e: Error): Pump { if p.error == NoError then p.(error := e) else p }

  // ----- frames

  /** A frame of `wire` bytes has to wait. */
  predicate Blocked(o: Options, p: Pump, wire: nat) {
    p.frames != [] && (p.queued >= o.maxQueued || wire > o.maxQueued - p.queued)
  }

  function Enqueue(p: Pump, i: nat): Pump
    requires i < |p.buffer|
  {
    p.(frames := p.frames + [p.buffer[..i]], buffer := p.buffer[i + 1..], queued := p.queued + i + 1)
  }

  /** One turn of the queueing loop, and whether there is another. */
  function Turn(o: Options, p: Pump): (Pump, bool) {
    var i := Find(p.buffer);
    if i == |p.buffer| then (if i > o.maxFrame then SetError(p, FrameLimit) else p, false)
    else if i > o.maxFrame then (SetError(p, FrameLimit), false)
    else if Blocked(o, p, i + 1) then (p, false)
    else if i + 1 > SIZE_MAX - p.queued then (SetError(p.(buffer := p.buffer[i + 1..]), SupervisorFailure), false)
    else (Enqueue(p, i), true)
  }

  /** `queue_buffered_frames_locked` */
  function QueueBuffered(o: Options, p: Pump): Pump
    decreases |p.buffer|
  {
    var (q, more) := Turn(o, p);
    if more then QueueBuffered(o, q) else q
  }

  // ----- the steps

  /** `stdout_poll_enabled_locked`: the state after queueing, and whether stdout may be polled. */
  function PollEnabled(o: Options, p: Pump): (Pump, bool) {
    if p.stdoutEof then (p, false)
    else if o.discard then (p, true)
    else
      var q := QueueBuffered(o, p);
      (q, q.error == NoError && NEWLINE !in q.buffer && (q.buffer != [] || q.frames == [] || q.queued < o.maxQueued))
  }

  datatype ReadResult = Interrupted | Failed | Eof | Data(bytes: seq<byte>, accounted: bool)

  datatype StderrResult = ErrInterrupted | ErrFailed | ErrEof | ErrData(accounted: bool, sinkThrows: bool)

  datatype Event =
    | Check
    | PollReturns(failed: bool, interrupted: bool, stdoutReady: bool, stderrReady: bool)
    | ReadStdout(r: ReadResult)
    | ReadStderr(e: StderrResult)
    | Receive
    | Stop

  function CheckStep(o: Options, p: Pump): Pump {
    if p.stop || p.error != NoError then p.(worker := Done)
    else
      var (q, stdout) := PollEnabled(o, p);
      if q.error != NoError || (!stdout && q.stdoutEof && q.stderrEof) then q.(worker := Done)
      else q.(worker := Polling(stdout, !q.stderrEof))
  }

  function PollStep(p: Pump, failed: bool, interrupted: bool, stdoutReady: bool, stderrReady: bool): Pump
    requires p.worker.Polling?
  {
    if interrupted then p.(worker := Checking)
    else if failed then SetError(p, PollFailed).(worker := Done)
    else if p.stop then p.(worker := Done)
    else p.(worker := Next(p.worker.stdout && stdoutReady, p.worker.stderr && stderrReady))
  }

  /** The worker checks again when nothing is left to read. */
  function Next(stdout: bool, stderr: bool): Worker { if !stdout && !stderr then Checking else Reading(stdout, stderr) }

  /** `read_stdout_once` has returned, leaving `q`: go on with stderr if it is due, or end the worker. */
  function Continue(q: Pump, stderr: bool, ok: bool): Pump {
    q.(worker := if ok then Next(false, stderr) else Done)
  }

  function ReadStdoutStep(o: Options, p: Pump, r: ReadResult): Pump
    requires p.worker.Reading?
  {
    var due := p.worker.stderr;
    match r
    case Interrupted => Continue(p, due, true)
    case Failed => Continue(SetError(p, StdoutReadFailed), due, false)
    case Eof =>
      var q := EndOfStdout(o, p.(stdoutEof := true));
      Continue(q, due, o.discard || q.error == NoError)
    case Data(bytes, accounted) =>
      if !accounted then Continue(SetError(p, OutputLimit), due, false)
      else if o.discard then Continue(p, due, true)
      else if |p.buffer| + |bytes| > STRING_MAX then Continue(SetError(p, SupervisorFailure), due, false)
      else
        var q := QueueBuffered(o, p.(buffer := p.buffer + bytes, input := p.input + bytes));
        Continue(q, due, q.error == NoError)
  }

  function EndOfStdout(o: Options, p: Pump): Pump {
    if o.discard then p
    else
      var q := QueueBuffered(o, p);
      if q.error == NoError && q.buffer != [] then SetError(q, UnterminatedFrame)
      else if q.error == NoError && q.frames == [] then SetError(q, StdoutEof)
      else q
  }

  function ReadStderrStep(p: Pump, e: StderrResult): Pump
    requires p.worker.Reading?
  {
    match e
    case ErrInterrupted => p.(worker := Checking)
    case ErrFailed => SetError(p, StderrReadFailed).(worker := Done)
    case ErrEof => p.(stderrEof := true, worker := Checking)
    case ErrData(accounted, sinkThrows) =>
      if !accounted then SetError(p, OutputLimit).(worker := Done)
      else if sinkThrows then SetError(p, StderrCallbackFailed).(worker := Done)
      else p.(worker := Checking)
  }

  /** `recv_frame`, once its wait is over; while there is nothing to say it changes nothing. */
  function ReceiveStep(p: Pump): Pump {
    if p.stop || p.frames == [] then p
    else
      p.(frames := p.frames[1..], delivered := p.delivered + [p.frames[0]],
         queued := if |p.frames[0]| + 1 <= p.queued then p.queued - (|p.frames[0]| + 1) else 0)
  }

  /** One step of the worker, of a receiver, or of `stop`; an event that is not enabled changes nothing. */
  function Step(o: Options, p: Pump, e: Event): Pump {
    match e
    case Check => if p.worker != Checking then p else CheckStep(o, p)
    case PollReturns(f, i, a, b) => if !p.worker.Polling? then p else PollStep(p, f, i, a, b)
    case ReadStdout(r) =>
      if !(p.worker.Reading? && p.worker.stdout) || (r.Data? && !(0 < |r.bytes| <= CHUNK_BYTES)) then p
      else ReadStdoutStep(o, p, r)
    case ReadStderr(r) =>
      if !(p.worker.Reading? && !p.worker.stdout && p.worker.stderr) then p else ReadStderrStep(p, r)
    case Receive => ReceiveStep(p)
    case Stop => SetError(p, Stopped).(stop := true)
  }

  // ----- what every step keeps

  /** Nothing lost and nothing invented: what was delivered, what is queued and what is buffered is what was read. */
  ghost predicate Conserved(p: Pump) {
    Wire(p.delivered) + (Wire(p.frames) + p.buffer) == p.input
  }

  ghost predicate Frames(o: Options, fs: seq<seq<byte>>) {
    forall i :: 0 <= i < |fs| ==> |fs[i]| <= o.maxFrame && NEWLINE !in fs[i]
  }

  ghost predicate Bounded(o: Options, p: Pump) {
    && p.queued == |Wire(p.frames)|
    && (|p.frames| >= 2 ==> p.queued <= o.maxQueued)
    && |p.buffer| <= o.maxFrame + CHUNK_BYTES
    && |p.buffer| <= STRING_MAX
  }

  /** No newline in the buffer, and no more than one frame's worth. */
  ghost predicate Partial(o: Options, p: Pump) { NEWLINE !in p.buffer && |p.buffer| <= o.maxFrame }

  /** The worker is going to read stdout. */
  predicate MayRead(p: Pump) { (p.worker.Polling? || p.worker.Reading?) && p.worker.stdout }

  /** The data: what is held, and how much of it. */
  ghost predicate Held(o: Options, p: Pump) {
    && Conserved(p)
    && Frames(o, p.delivered) && Frames(o, p.frames)
    && Bounded(o, p)
    && (o.discard ==> p.buffer == [] && p.frames == [])
  }

  /** The control: when stdout may be read, what the end of stdout leaves, and how the worker ends. */
  ghost predicate Flow(o: Options, p: Pump) {
    && (MayRead(p) ==> Partial(o, p) && !p.stdoutEof && p.error in {NoError, Stopped})
    && (p.stdoutEof ==> p.buffer == [] || p.error in {UnterminatedFrame, Stopped})
    && (p.error == UnterminatedFrame ==> p.stdoutEof && p.buffer != [])
    && (p.error == Stopped ==> p.stop)
    && (p.error == SupervisorFailure ==> p.worker == Done && |p.buffer| + CHUNK_BYTES > STRING_MAX)
    && (p.worker == Done && !p.stop && p.error == NoError ==> p.stdoutEof && p.stderrEof)
  }

  ghost predicate Inv(o: Options, p: Pump) { Held(o, p) && Flow(o, p) }

  // ----- queueing

  /** Moving one frame from the buffer to the queue. */
  lemma EnqueueKeeps(o: Options, p: Pump)
    requires Conserved(p) && Frames(o, p.frames) && Bounded(o, p)
    requires Find(p.buffer) < |p.buffer| && Find(p.buffer) <= o.maxFrame && !Blocked(o, p, Find(p.buffer) + 1)
    ensures var q := Enqueue(p, Find(p.buffer));
            Conserved(q) && Frames(o, q.frames) && Bounded(o, q)
  {
    hide Wire;
    var i := Find(p.buffer);
    var f, rest := p.buffer[..i], p.buffer[i + 1..];
    assert p.buffer == f + [NEWLINE] + rest;
    WireAppend(p.frames, f);
    Associate(Wire(p.frames), f + [NEWLINE], rest);
  }

  /** The branch that guards the byte count against overflow is never taken. */
  lemma NoOverflow(o: Options, p: Pump)
    requires o.Valid() && Bounded(o, p) && Find(p.buffer) < |p.buffer| && !Blocked(o, p, Find(p.buffer) + 1)
    ensures Find(p.buffer) + 1 <= SIZE_MAX - p.queued
  {
    if p.frames == [] { assert Wire(p.frames) == []; }
  }

  /** There is no room for one more frame, nor for one of the length that waits. */
  ghost predicate Full(o: Options, p: Pump) { p.frames != [] && p.queued + Find(p.buffer) + 1 > o.maxQueued }

  /** What queueing leaves alone, and what it stops at: a part of a frame, too long a frame, or a full queue. */
  ghost predicate Queueing(o: Options, p: Pump, q: Pump) {
    && (p.error == NoError ==> (q.error == FrameLimit <==> Find(q.buffer) > o.maxFrame))
    && (q.error == NoError && NEWLINE in q.buffer ==> Full(o, q))
    && q == p.(buffer := q.buffer, frames := q.frames, queued := q.queued, error := q.error)
    && (q.error == p.error || (p.error == NoError && q.error == FrameLimit))
    && (p.error == NoError && q.error == NoError && NEWLINE !in q.buffer ==> Partial(o, q))
    && (NEWLINE !in p.buffer && |p.buffer| <= o.maxFrame ==> q == p)
  }

  /** A turn that moves a frame, and a turn that does not. */
  lemma TurnMoves(o: Options, p: Pump)
    requires o.Valid() && Bounded(o, p) && Turn(o, p).1
    ensures Turn(o, p).0 == Enqueue(p, Find(p.buffer)) && NEWLINE in p.buffer
    ensures Find(p.buffer) <= o.maxFrame && !Blocked(o, p, Find(p.buffer) + 1)
  {
  }

  lemma TurnStops(o: Options, p: Pump)
    requires o.Valid() && Bounded(o, p) && !Turn(o, p).1
    ensures var q := Turn(o, p).0; Queueing(o, p, q) && q == p.(error := q.error)
  {
    var i := Find(p.buffer);
    if i < |p.buffer| && i <= o.maxFrame && !Blocked(o, p, i + 1) {
      NoOverflow(o, p);
    }
  }

  lemma {:induction false} QueueKeeps(o: Options, p: Pump)
    requires o.Valid() && Conserved(p) && Frames(o, p.frames) && Bounded(o, p)
    ensures var q := QueueBuffered(o, p);
            Conserved(q) && Frames(o, q.frames) && Bounded(o, q) && Queueing(o, p, q)
    decreases |p.buffer|
  {
    if Turn(o, p).1 {
      TurnMoves(o, p);
      EnqueueKeeps(o, p);
      QueueKeeps(o, Turn(o, p).0);
    } else {
      TurnStops(o, p);
    }
  }

  // ----- every step, every run

  /** A step that only moves the control keeps the data. */
  lemma HeldStays(o: Options, p: Pump, q: Pump)
    requires Held(o, p)
    requires q.buffer == p.buffer && q.frames == p.frames && q.queued == p.queued
    requires q.delivered == p.delivered && q.input == p.input
    ensures Held(o, q)
  {
  }

  lemma CheckKeeps(o: Options, p: Pump)
    requires o.Valid() && Inv(o, p) && p.worker == Checking
    ensures Inv(o, CheckStep(o, p))
  {
    hide QueueBuffered, Wire;
    var q := CheckStep(o, p);
    if p.stop || p.error != NoError || p.stdoutEof || o.discard {
      HeldStays(o, p, q);
    } else {
      QueueKeeps(o, p);
      HeldStays(o, QueueBuffered(o, p), q);
    }
  }

  lemma DataHeld(o: Options, p: Pump, bytes: seq<byte>)
    requires Held(o, p) && Partial(o, p) && !o.discard
    requires |bytes| <= CHUNK_BYTES && |p.buffer| + |bytes| <= STRING_MAX
    ensures Held(o, p.(buffer := p.buffer + bytes, input := p.input + bytes))
  {
    Associate(Wire(p.frames), p.buffer, bytes);
    Associate(Wire(p.delivered), Wire(p.frames) + p.buffer, bytes);
  }

  lemma DataKeeps(o: Options, p: Pump, bytes: seq<byte>, accounted: bool)
    requires o.Valid() && Inv(o, p) && p.worker.Reading? && p.worker.stdout && 0 < |bytes| <= CHUNK_BYTES
    ensures Inv(o, ReadStdoutStep(o, p, Data(bytes, accounted)))
  {
    var t := ReadStdoutStep(o, p, Data(bytes, accounted));
    if !accounted || o.discard || |p.buffer| + |bytes| > STRING_MAX {
      HeldStays(o, p, t);
    } else {
      DataHeld(o, p, bytes);
      var q := p.(buffer := p.buffer + bytes, input := p.input + bytes);
      QueueKeeps(o, q);
      HeldStays(o, QueueBuffered(o, q), t);
    }
  }

  /**
   * The end of stdout finds no whole frame: what is left is unterminated, or nothing is; and the worker goes on, to
   * drain stderr, exactly if frames are still queued (or stdout is discarded).
   */
  lemma EndExact(o: Options, p: Pump)
    requires o.Valid() && Inv(o, p) && p.worker.Reading? && p.worker.stdout
    ensures EndOfStdout(o, p.(stdoutEof := true))
         == if o.discard || p.error != NoError then p.(stdoutEof := true)
            else p.(stdoutEof := true, error := if p.buffer != [] then UnterminatedFrame
                                                else if p.frames == [] then StdoutEof else NoError)
    ensures ReadStdoutStep(o, p, Eof).worker != Done
        <==> o.discard || (p.error == NoError && p.buffer == [] && p.frames != [])
  {
    QueueKeeps(o, p.(stdoutEof := true));
  }

  lemma EndKeeps(o: Options, p: Pump)
    requires o.Valid() && Inv(o, p) && p.worker.Reading? && p.worker.stdout
    ensures Inv(o, ReadStdoutStep(o, p, Eof))
  {
    EndExact(o, p);
    HeldStays(o, p, ReadStdoutStep(o, p, Eof));
  }

  /** The head of the queue, moved to the end of what was delivered, leaves the bytes where they were. */
  lemma WireMoves(ds: seq<seq<byte>>, fs: seq<seq<byte>>, rest: seq<byte>)
    requires fs != []
    ensures Wire(ds + [fs[0]]) + (Wire(fs[1..]) + rest) == Wire(ds) + (Wire(fs) + rest)
  {
    var f, gs := fs[0] + [NEWLINE], fs[1..];
    WireAppend(ds, fs[0]);
    assert fs == [fs[0]] + gs;
    WireSplit([fs[0]], gs);
    WireAppend([], fs[0]);
    assert [] + [fs[0]] == [fs[0]] && [] + f == f;
    Associate(f, Wire(gs), rest);
    Associate(Wire(ds), f, Wire(gs) + rest);
  }

  lemma ReceiveHeld(o: Options, p: Pump)
    requires Held(o, p) && !p.stop && p.frames != []
    ensures Held(o, ReceiveStep(p))
  {
    WireHead(p.frames);
    WireMoves(p.delivered, p.frames, p.buffer);
  }

  lemma PollKeeps(o: Options, p: Pump, failed: bool, interrupted: bool, stdoutReady: bool, stderrReady: bool)
    requires Inv(o, p) && p.worker.Polling?
    ensures Inv(o, PollStep(p, failed, interrupted, stdoutReady, stderrReady))
  {
    HeldStays(o, p, PollStep(p, failed, interrupted, stdoutReady, stderrReady));
  }

  lemma ReadStderrFlow(o: Options, p: Pump, e: StderrResult)
    requires Flow(o, p) && p.worker.Reading? && !p.worker.stdout
    ensures Flow(o, ReadStderrStep(p, e))
  {
  }

  lemma ReadStderrData(p: Pump, e: StderrResult)
    requires p.worker.Reading?
    ensures var q := ReadStderrStep(p, e); q == p.(error := q.error, worker := q.worker, stderrEof := q.stderrEof)
  {
  }

  lemma ReadStderrKeeps(o: Options, p: Pump, e: StderrResult) returns (q: Pump)
    requires Inv(o, p) && p.worker.Reading? && !p.worker.stdout
    ensures q == ReadStderrStep(p, e) && Inv(o, q)
  {
    q := ReadStderrStep(p, e);
    ReadStderrFlow(o, p, e);
    ReadStderrData(p, e);
    HeldStays(o, p, q);
  }

  lemma StopKeeps(o: Options, p: Pump)
    requires Inv(o, p)
    ensures Inv(o, SetError(p, Stopped).(stop := true))
  {
    HeldStays(o, p, SetError(p, Stopped).(stop := true));
  }

  /** Receiving touches neither the buffer nor the control. */
  lemma ReceiveKeeps(o: Options, p: Pump)
    requires Inv(o, p)
    ensures Inv(o, ReceiveStep(p))
  {
    if !p.stop && p.frames != [] { ReceiveHeld(o, p); }
  }

  lemma ReadKeeps(o: Options, p: Pump, r: ReadResult)
    requires o.Valid() && Inv(o, p) && p.worker.Reading? && p.worker.stdout
    requires r.Data? ==> 0 < |r.bytes| <= CHUNK_BYTES
    ensures Inv(o, ReadStdoutStep(o, p, r))
  {
    match r {
      case Data(bytes, accounted) => DataKeeps(o, p, bytes, accounted);
      case Eof => EndKeeps(o, p);
      case Interrupted => HeldStays(o, p, ReadStdoutStep(o, p, r));
      case Failed => HeldStays(o, p, ReadStdoutStep(o, p, r));
    }
  }

  lemma StepKeeps(o: Options, p: Pump, e: Event)
    requires o.Valid() && Inv(o, p)
    ensures Inv(o, Step(o, p, e))
  {
    match e {
      case Check => if p.worker == Checking { CheckKeeps(o, p); }
      case PollReturns(f, i, a, b) => if p.worker.Polling? { PollKeeps(o, p, f, i, a, b); }
      case ReadStdout(r) => if Step(o, p, e) != p { ReadKeeps(o, p, r); }
      case ReadStderr(r) => if Step(o, p, e) != p { var _ := ReadStderrKeeps(o, p, r); }
      case Receive => ReceiveKeeps(o, p);
      case Stop => StopKeeps(o, p);
    }
  }

  function Run(o: Options, run: seq<Event>): Pump {
    if run == [] then START else Step(o, Run(o, run[..|run| - 1]), run[|run| - 1])
  }

  lemma {:induction false} RunKeeps(o: Options, run: seq<Event>)
    requires o.Valid()
    ensures Inv(o, Run(o, run))
  {
    if run != [] {
      RunKeeps(o, run[..|run| - 1]);
      StepKeeps(o, Run(o, run[..|run| - 1]), run[|run| - 1]);
    }
  }

  // ----- what a receiver gets

  /** The lines read are the frames delivered, then the frames queued, then the lines still in the buffer. */
  lemma LinesAccounted(o: Options, p: Pump)
    requires Held(o, p)
    ensures Split(p.input) == p.delivered + (p.frames + Split(p.buffer))
    ensures NEWLINE !in p.buffer ==> Split(p.input) == p.delivered + p.frames
  {
    SplitWire(p.delivered, Wire(p.frames) + p.buffer);
    SplitWire(p.frames, p.buffer);
    if NEWLINE !in p.buffer { assert p.frames + [] == p.frames; }
  }

  /**
   * Framing over every run: whatever the chunks, the readiness and the receivers, the frames delivered and then the
   * frames queued are the first lines of what was read, and all of its lines once the buffer holds none.
   */
  lemma RunFrames(o: Options, run: seq<Event>)
    requires o.Valid()
    ensures var p := Run(o, run);
            && Split(p.input) == p.delivered + (p.frames + Split(p.buffer))
            && (NEWLINE !in p.buffer ==> Split(p.input) == p.delivered + p.frames)
            && (p.error == UnterminatedFrame ==> p.buffer != [] && p.stdoutEof)
            && (p.stdoutEof && !p.stop ==> (p.error == UnterminatedFrame <==> p.buffer != []))
  {
    RunKeeps(o, run);
    LinesAccounted(o, Run(o, run));
  }

  /** Receivers get the lines in order: the next one is the line behind those delivered. */
  lemma ReceivesInOrder(o: Options, run: seq<Event>)
    requires o.Valid()
    ensures var p, q := Run(o, run), Step(o, Run(o, run), Receive);
            if p.stop || p.frames == [] then q == p
            else
              && |p.delivered| < |Split(p.input)|
              && q.delivered == p.delivered + [Split(p.input)[|p.delivered|]]
              && q.frames == p.frames[1..] && q.queued == |Wire(q.frames)|
              && q == p.(frames := q.frames, queued := q.queued, delivered := q.delivered)
  {
    hide Inv, Wire, Split;
    var p := Run(o, run);
    RunKeeps(o, run);
    StepKeeps(o, p, Receive);
    CountKept(o, p);
    CountKept(o, Step(o, p, Receive));
    LinesAccounted(o, p) by { InvHeld(o, p); }
    if p.frames != [] { NextLine(p.delivered, p.frames, Split(p.buffer)); }
  }

  lemma InvHeld(o: Options, p: Pump)
    requires Inv(o, p)
    ensures Held(o, p)
  {
  }

  lemma CountKept(o: Options, p: Pump)
    requires Inv(o, p)
    ensures p.queued == |Wire(p.frames)|
  {
  }

  lemma NextLine<T>(before: seq<T>, queue: seq<T>, rest: seq<T>)
    requires queue != []
    ensures |before| < |before + (queue + rest)| && (before + (queue + rest))[|before|] == queue[0]
  {
  }

  // ----- back-pressure and causes

  /**
   * When stdout is polled: unless a whole frame waits, or nothing is buffered and the queue is full. So it is held back
   * only while a receiver can take a frame.
   */
  lemma PollExact(o: Options, p: Pump)
    requires o.Valid() && Inv(o, p) && !p.stdoutEof && !o.discard && p.error == NoError
    ensures var (q, enabled) := PollEnabled(o, p);
            && q.error in {NoError, FrameLimit}
            && (q.error == FrameLimit <==> Find(q.buffer) > o.maxFrame)
            && (enabled <==> q.error == NoError && NEWLINE !in q.buffer
                             && !(q.buffer == [] && q.frames != [] && q.queued >= o.maxQueued))
            && (q.error == NoError && !enabled ==> Full(o, q))
  {
    hide QueueBuffered;
    QueueKeeps(o, p);
  }

  /**
   * The worker ends exactly at a stop, at an error, or at the ends of both streams. As long as it goes on, stderr stays
   * in the poll set until its end, and the worker waits for nothing but its wake-up only if the queue is full.
   */
  lemma CheckExact(o: Options, p: Pump)
    requires o.Valid() && Inv(o, p) && p.worker == Checking
    ensures var q := CheckStep(o, p);
            && (q.worker == Done <==> p.stop || q.error != NoError || (p.stdoutEof && p.stderrEof))
            && (q.worker != Done ==> q.worker.Polling? && (q.worker.stderr <==> !p.stderrEof))
            && (q.worker != Done && o.discard ==> (q.worker.stdout <==> !p.stdoutEof))
            && (q.worker != Done && !q.worker.stdout && !p.stdoutEof ==> Full(o, q))
  {
    hide QueueBuffered, PollEnabled;
    if !p.stop && p.error == NoError {
      if !p.stdoutEof && !o.discard { PollExact(o, p); }
      PollEasy(o, p);
    }
  }

  lemma PollEasy(o: Options, p: Pump)
    ensures p.stdoutEof ==> PollEnabled(o, p) == (p, false)
    ensures !p.stdoutEof && o.discard ==> PollEnabled(o, p) == (p, true)
    ensures var q := PollEnabled(o, p).0;
            q == p.(buffer := q.buffer, frames := q.frames, queued := q.queued, error := q.error)
  {
    QueueLeaves(o, p);
  }

  lemma {:induction false} QueueLeaves(o: Options, p: Pump)
    ensures var q := QueueBuffered(o, p);
            q == p.(buffer := q.buffer, frames := q.frames, queued := q.queued, error := q.error)
    decreases |p.buffer|
  {
    if Turn(o, p).1 { QueueLeaves(o, Turn(o, p).0); }
  }

  /** The first error stays, and a stop is final. */
  lemma FirstErrorStays(o: Options, p: Pump, e: Event)
    requires o.Valid() && Inv(o, p)
    ensures p.error != NoError ==> Step(o, p, e).error == p.error
    ensures Step(o, p, e).stop <==> p.stop || e == Stop
  {
    hide QueueBuffered, EndOfStdout, Wire;
    match e {
      case Check => QueueKeeps(o, p);
      case ReadStdout(r) =>
        if ReadsStdout(p, e) {
          match r {
            case Data(bytes, accounted) => DataFirstError(o, p, bytes, accounted);
            case Eof => EndExact(o, p);
            case Interrupted =>
            case Failed =>
          }
        }
      case PollReturns(f, i, a, b) =>
      case ReadStderr(r) =>
      case Receive =>
      case Stop =>
    }
  }

  lemma DataFirstError(o: Options, p: Pump, bytes: seq<byte>, accounted: bool)
    requires o.Valid() && Inv(o, p) && ReadsStdout(p, ReadStdout(Data(bytes, accounted)))
    ensures var q := ReadStdoutStep(o, p, Data(bytes, accounted));
            (p.error != NoError ==> q.error == p.error) && q.stop == p.stop
  {
    hide QueueBuffered, EndOfStdout;
    if accounted && !o.discard && |p.buffer| + |bytes| <= STRING_MAX {
      DataHeld(o, p, bytes);
      QueueKeeps(o, p.(buffer := p.buffer + bytes, input := p.input + bytes));
    }
  }

  /**
   * After the poll the worker reads each stream that was polled and is ready, stdout first; after reading it turns to
   * stderr if that is due, and ends exactly at an error of its own, or a failed or stopped poll.
   */
  lemma TurnsExact(o: Options, p: Pump, e: Event)
    requires o.Valid() && Inv(o, p) && Ending(p) && p.error == NoError
    ensures p.worker.Polling? && e.PollReturns? ==>
              Step(o, p, e).worker
                == if e.interrupted then Checking
                   else if e.failed then Done
                   else if (p.worker.stdout && e.stdoutReady) || (p.worker.stderr && e.stderrReady) then
                     Reading(p.worker.stdout && e.stdoutReady, p.worker.stderr && e.stderrReady)
                   else Checking
    ensures ReadsStdout(p, e) ==>
              Step(o, p, e).worker
                == if Step(o, p, e).error != NoError then Done
                   else if p.worker.stderr then Reading(false, true) else Checking
    ensures ReadsStderr(p, e) ==>
              Step(o, p, e).worker == if Step(o, p, e).error != NoError then Done else Checking
  {
    hide QueueBuffered, EndOfStdout, Held;
    if ReadsStdout(p, e) && e.r == Eof { EndExact(o, p); }
  }

  predicate ReadsStdout(p: Pump, e: Event) {
    p.worker.Reading? && p.worker.stdout && e.ReadStdout? && (e.r.Data? ==> 0 < |e.r.bytes| <= CHUNK_BYTES)
  }

  predicate ReadsStderr(p: Pump, e: Event) {
    p.worker.Reading? && !p.worker.stdout && p.worker.stderr && e.ReadStderr?
  }

  /** Bytes that are read, accounted and kept. */
  predicate Keeps(o: Options, p: Pump, e: Event) {
    ReadsStdout(p, e) && e.r.Data? && e.r.accounted && !o.discard && |p.buffer| + |e.r.bytes| <= STRING_MAX
  }

  /** The cause of every error but the frame limit, which `PollExact` and `QueueKeeps` give. */
  ghost predicate Caused(o: Options, p: Pump, e: Event, error: Error) {
    && (error == Stopped <==> e == Stop)
    && (error == PollFailed <==> p.worker.Polling? && e.PollReturns? && e.failed && !e.interrupted)
    && (error == StdoutReadFailed <==> ReadsStdout(p, e) && e.r == Failed)
    && (error == StderrReadFailed <==> ReadsStderr(p, e) && e.e == ErrFailed)
    && (error == OutputLimit <==> (ReadsStdout(p, e) && e.r.Data? && !e.r.accounted)
                                  || (ReadsStderr(p, e) && e.e.ErrData? && !e.e.accounted))
    && (error == StderrCallbackFailed <==> ReadsStderr(p, e) && e.e == ErrData(true, true))
    && (error == UnterminatedFrame <==> ReadsStdout(p, e) && e.r == Eof && !o.discard && p.buffer != [])
    && (error == StdoutEof <==> ReadsStdout(p, e) && e.r == Eof && !o.discard && p.buffer == [] && p.frames == [])
    && (error == FrameLimit ==> (p.worker == Checking && e == Check) || Keeps(o, p, e))
  }

  /** The first error says what happened; bytes enter exactly when they are read, accounted and kept. */
  lemma CauseExact(o: Options, p: Pump, e: Event)
    requires o.Valid() && Inv(o, p) && Ending(p) && p.error == NoError
    ensures Caused(o, p, e, Step(o, p, e).error)
    ensures Step(o, p, e).input == if Keeps(o, p, e) then p.input + e.r.bytes else p.input
    ensures Step(o, p, e).stdoutEof <==> p.stdoutEof || (ReadsStdout(p, e) && e.r == Eof)
    ensures Step(o, p, e).stderrEof <==> p.stderrEof || (ReadsStderr(p, e) && e.e == ErrEof)
  {
    hide QueueBuffered, Held;
    match e {
      case Check => if p.worker == Checking { CheckCause(o, p); }
      case ReadStdout(r) => if ReadsStdout(p, e) { ReadCause(o, p, r); }
      case PollReturns(f, i, a, b) =>
      case ReadStderr(r) =>
      case Receive =>
      case Stop =>
    }
  }

  lemma CheckCause(o: Options, p: Pump)
    requires o.Valid() && Inv(o, p) && p.worker == Checking && p.error == NoError
    ensures var q := CheckStep(o, p);
            && q.error in {NoError, FrameLimit}
            && q.input == p.input && q.stdoutEof == p.stdoutEof && q.stderrEof == p.stderrEof
  {
    hide QueueBuffered;
    QueueKeeps(o, p);
  }

  lemma ReadCause(o: Options, p: Pump, r: ReadResult)
    requires o.Valid() && Inv(o, p) && p.error == NoError && ReadsStdout(p, ReadStdout(r))
    ensures var q, e := ReadStdoutStep(o, p, r), ReadStdout(r);
            && Caused(o, p, e, q.error)
            && q.input == (if Keeps(o, p, e) then p.input + e.r.bytes else p.input)
            && (q.stdoutEof <==> p.stdoutEof || r == Eof) && q.stderrEof == p.stderrEof
  {
    hide QueueBuffered, EndOfStdout, Inv, Find;
    match r {
      case Data(bytes, accounted) => DataCause(o, p, bytes, accounted);
      case Eof => EndExact(o, p);
      case Interrupted =>
      case Failed =>
    }
  }

  lemma DataCause(o: Options, p: Pump, bytes: seq<byte>, accounted: bool)
    requires o.Valid() && Inv(o, p) && p.error == NoError && ReadsStdout(p, ReadStdout(Data(bytes, accounted)))
    ensures var q := ReadStdoutStep(o, p, Data(bytes, accounted));
            && q.error == (if !accounted then OutputLimit
                           else if o.discard then NoError
                           else if |p.buffer| + |bytes| > STRING_MAX then SupervisorFailure
                           else if Find(q.buffer) > o.maxFrame then FrameLimit
                           else NoError)
            && q.input == (if accounted && !o.discard && |p.buffer| + |bytes| <= STRING_MAX then p.input + bytes
                           else p.input)
            && q.stdoutEof == p.stdoutEof && q.stderrEof == p.stderrEof
  {
    hide QueueBuffered, EndOfStdout;
    if accounted && !o.discard && |p.buffer| + |bytes| <= STRING_MAX {
      DataHeld(o, p, bytes);
      QueueKeeps(o, p.(buffer := p.buffer + bytes, input := p.input + bytes));
    }
  }

  /** A worker that ends without error or stop has read both streams to their ends, and no byte of stdout is missing. */
  lemma RunLosesNothing(o: Options, run: seq<Event>)
    requires o.Valid() && !o.discard
    ensures var p := Run(o, run);
            p.worker == Done && !p.stop && p.error in {NoError, StdoutEof} ==>
              && (p.error == NoError ==> p.stdoutEof && p.stderrEof)
              && (p.stdoutEof ==> Wire(p.delivered + p.frames) == p.input)
  {
    RunKeeps(o, run);
    var p := Run(o, run);
    if p.stdoutEof && p.buffer == [] {
      WireSplit(p.delivered, p.frames);
      assert Wire(p.frames) + [] == Wire(p.frames);
    }
  }

  /**
   * Memory over every run: the count is exact, the queue and the buffer are bounded, and the guard against an overflow
   * of the count never fires: the only supervisor failure is a string too long to exist.
   */
  lemma RunBounded(o: Options, run: seq<Event>)
    requires o.Valid()
    ensures var p := Run(o, run);
            && p.queued == |Wire(p.frames)|
            && (|p.frames| >= 2 ==> p.queued <= o.maxQueued)
            && (|p.frames| == 1 ==> p.queued <= o.maxFrame + 1)
            && (p.frames == [] ==> p.queued == 0)
            && |p.buffer| <= o.maxFrame + CHUNK_BYTES
            && (p.error == SupervisorFailure ==> o.maxFrame + 2 * CHUNK_BYTES > STRING_MAX)
  {
    RunKeeps(o, run);
    var p := Run(o, run);
    if |p.frames| == 1 {
      assert p.frames == [] + [p.frames[0]];
      WireAppend([], p.frames[0]);
    }
  }

  // ----- draining

  /** What `finish_draining` promises once the worker has ended: both streams were read to their ends. */
  predicate Drained(p: Pump) { p.stdoutEof && p.stderrEof }

  /** `finish_draining`, once the worker has ended: the error it reports, if any. */
  function FinishDraining(p: Pump): Option<Error> {
    if p.error in {NoError, OutputLimit} then None else Some(p.error)
  }

  /** The errors of limits, failed calls and failed callbacks, at which the worker gives up. */
  predicate Failure(e: Error) {
    e in {PollFailed, StdoutReadFailed, StderrReadFailed, OutputLimit, FrameLimit, StderrCallbackFailed, SupervisorFailure}
  }

  /** Nothing is lost when stdout ends in this state: stderr has ended, or the worker will go on to drain it. */
  predicate EndsWell(o: Options, p: Pump) {
    o.discard || p.stderrEof || (p.buffer == [] && p.frames != [])
  }

  /** The state in which a run has read the end of stdout. */
  function BeforeEnd(o: Options, run: seq<Event>): Option<Pump> {
    if run == [] then None
    else
      var before := run[..|run| - 1];
      Remember(Run(o, before), Run(o, run), BeforeEnd(o, before))
  }

  function Remember(p: Pump, q: Pump, end: Option<Pump>): Option<Pump> {
    if !p.stdoutEof && q.stdoutEof then Some(p) else end
  }

  /** What ends the worker, and what it polls. */
  ghost predicate Ending(p: Pump) {
    && (p.stop ==> p.error != NoError)
    && (p.error !in {NoError, Stopped} ==> p.worker == Done)
    && (Failure(p.error) ==> !Drained(p))
    && (p.worker.Polling? ==> !Drained(p))
    && ((p.worker.Polling? || p.worker.Reading?) && p.worker.stderr ==> !p.stderrEof)
  }

  /** How the end of stdout, read in state `end`, shows later. */
  ghost predicate Remembers(o: Options, p: Pump, end: Option<Pump>) {
    && (p.stdoutEof <==> end.Some?)
    && (p.error in {StdoutEof, UnterminatedFrame} ==>
          && end.Some? && !o.discard && p.stderrEof == end.value.stderrEof
          && (end.value.buffer != [] || end.value.frames == []))
    && (p.error == NoError && end.Some? ==> o.discard || (end.value.buffer == [] && end.value.frames != []))
  }

  /** Queueing leaves the control alone, but for a frame limit. */
  lemma QueueControl(o: Options, p: Pump)
    requires o.Valid() && Inv(o, p)
    ensures Queueing(o, p, QueueBuffered(o, p))
  {
    QueueKeeps(o, p);
  }

  lemma CheckDrains(o: Options, p: Pump, end: Option<Pump>)
    requires o.Valid() && Inv(o, p) && Ending(p) && Remembers(o, p, end) && p.worker == Checking
    ensures Ending(CheckStep(o, p)) && Remembers(o, CheckStep(o, p), end) && CheckStep(o, p).stdoutEof == p.stdoutEof
  {
    hide QueueBuffered, Held;
    QueueControl(o, p);
  }

  lemma DataDrains(o: Options, p: Pump, bytes: seq<byte>, accounted: bool, end: Option<Pump>)
    requires o.Valid() && Inv(o, p) && Ending(p) && Remembers(o, p, end)
    requires p.worker.Reading? && p.worker.stdout && 0 < |bytes| <= CHUNK_BYTES
    ensures var q := ReadStdoutStep(o, p, Data(bytes, accounted));
            Ending(q) && Remembers(o, q, end) && q.stdoutEof == p.stdoutEof
  {
    hide QueueBuffered;
    if accounted && !o.discard && |p.buffer| + |bytes| <= STRING_MAX {
      DataHeld(o, p, bytes);
      QueueKeeps(o, p.(buffer := p.buffer + bytes, input := p.input + bytes));
    }
  }

  lemma EndDrains(o: Options, p: Pump, end: Option<Pump>)
    requires o.Valid() && Inv(o, p) && Ending(p) && Remembers(o, p, end) && p.worker.Reading? && p.worker.stdout
    ensures var q := ReadStdoutStep(o, p, Eof); q.stdoutEof && Ending(q) && Remembers(o, q, Some(p))
  {
    hide EndOfStdout, Held;
    EndExact(o, p);
  }

  lemma ReadDrains(o: Options, p: Pump, r: ReadResult, end: Option<Pump>)
    requires o.Valid() && Inv(o, p) && Ending(p) && Remembers(o, p, end) && p.worker.Reading? && p.worker.stdout
    requires r.Data? ==> 0 < |r.bytes| <= CHUNK_BYTES
    ensures var q := ReadStdoutStep(o, p, r); Ending(q) && Remembers(o, q, Remember(p, q, end))
  {
    match r {
      case Data(bytes, accounted) => DataDrains(o, p, bytes, accounted, end);
      case Eof => EndDrains(o, p, end);
      case Interrupted =>
      case Failed =>
    }
  }

  lemma ReadStderrDrains(o: Options, p: Pump, e: StderrResult, end: Option<Pump>)
    requires Flow(o, p) && Ending(p) && Remembers(o, p, end)
    requires p.worker.Reading? && !p.worker.stdout && p.worker.stderr
    ensures var q := ReadStderrStep(p, e); Ending(q) && Remembers(o, q, end) && q.stdoutEof == p.stdoutEof
  {
  }

  lemma PollDrains(o: Options, p: Pump, failed: bool, interrupted: bool, stdoutReady: bool, stderrReady: bool,
                   end: Option<Pump>)
    requires Ending(p) && Remembers(o, p, end) && p.worker.Polling?
    ensures var q := PollStep(p, failed, interrupted, stdoutReady, stderrReady);
            Ending(q) && Remembers(o, q, end) && q.stdoutEof == p.stdoutEof
  {
  }

  lemma StepDrains(o: Options, p: Pump, e: Event, end: Option<Pump>)
    requires o.Valid() && Inv(o, p) && Ending(p) && Remembers(o, p, end)
    ensures var q := Step(o, p, e); Ending(q) && Remembers(o, q, Remember(p, q, end))
  {
    hide Held, CheckStep, PollStep, ReadStdoutStep, ReadStderrStep;
    match e {
      case Check => if p.worker == Checking { CheckDrains(o, p, end); }
      case PollReturns(f, i, a, b) => if p.worker.Polling? { PollDrains(o, p, f, i, a, b, end); }
      case ReadStdout(r) => if Step(o, p, e) != p { ReadDrains(o, p, r, end); }
      case ReadStderr(r) => if Step(o, p, e) != p { ReadStderrDrains(o, p, r, end); }
      case Receive =>
      case Stop =>
    }
  }

  lemma {:induction false} RunDrains(o: Options, run: seq<Event>)
    requires o.Valid()
    ensures Ending(Run(o, run)) && Remembers(o, Run(o, run), BeforeEnd(o, run))
  {
    hide Inv, Ending, Remembers, Step;
    if run == [] {
      StartDrains(o);
    } else {
      var before := run[..|run| - 1];
      RunDrains(o, before);
      RunKeeps(o, before);
      StepDrains(o, Run(o, before), run[|run| - 1], BeforeEnd(o, before));
    }
  }

  lemma StartDrains(o: Options)
    ensures Ending(START) && Remembers(o, START, None)
  {
  }

  /**
   * When draining keeps its promise, over every run without a stop: a worker that gave up at a failure has not read
   * both streams to their ends. Any other has read the end of stdout, and both streams to their ends if and only if in
   * that moment stderr had ended, or stdout was discarded, or whole frames and nothing else were still queued.
   */
  lemma DrainedExact(o: Options, run: seq<Event>)
    requires o.Valid()
    ensures var q, end := Run(o, run), BeforeEnd(o, run);
            q.worker == Done && !q.stop ==>
              && (Failure(q.error) ==> !Drained(q))
              && (!Failure(q.error) ==> end.Some? && (Drained(q) <==> EndsWell(o, end.value)))
              && (FinishDraining(q) == None && q.error != OutputLimit ==> Drained(q))
  {
    hide Held;
    RunKeeps(o, run);
    RunDrains(o, run);
  }

  /**
   * What `finish_draining` promises does not hold of stderr: when stdout ends while no frame is queued, the worker ends
   * too, although stderr is open and readable. `DrainedExact` says exactly when.
   */
  lemma StderrLeftUnread(o: Options)
    requires o.Valid() && !o.discard
    ensures var p := Run(o, [Check, PollReturns(false, false, true, true), ReadStdout(Eof)]);
            p.worker == Done && !p.stop && p.error == StdoutEof && !Drained(p)
  {
    var a, b, c := Check, PollReturns(false, false, true, true), ReadStdout(Eof);
    assert [a, b, c][..2] == [a, b] && [a, b][..1] == [a] && [a][..0] == [];
    assert Run(o, [a]) == START.(worker := Polling(true, true));
    assert Run(o, [a, b]) == START.(worker := Reading(true, true));
  }
}
