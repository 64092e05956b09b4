/** The pump object of output_pump.cpp: the loops and branches behind the protocol's steps, updating fields in place. */
module PumpObject {
  import opened Bytes
  import opened Lines
  import opened PumpProtocol

  class OutputPump {
    const options: Options
    var buffer: seq<byte>
    var frames: seq<seq<byte>>
    var queued: nat
    var error: Error
    var stdoutEof: bool
    var stderrEof: bool
    var stop: bool
    var worker: Worker
    ghost var delivered: seq<seq<byte>>
    ghost var input: seq<byte>

    /** The abstract state; the two histories are ghosts. */
    ghost function View(): Pump
      reads this
    {
      Pump(buffer, frames, queued, error, stdoutEof, stderrEof, stop, worker, delivered, input)
    }

    constructor (o: Options)
      ensures options == o && View() == START
    {
      options := o;
      buffer, frames, queued, error := [], [], 0, NoError;
      stdoutEof, stderrEof, stop, worker := false, false, false, Checking;
      delivered, input := [], [];
    }

    /** `set_error_locked`: the first error stays. */
    method Fail(e: Error)
      modifies this`error
      ensures View() == SetError(old(View()), e)
    {
      if error == NoError { error := e; }
    }

    /** `std::string::find` */
    method FindNewline() returns (i: nat)
      ensures i == Find(buffer)
    {
      i := 0;
      while i < |buffer| && buffer[i] != NEWLINE
        invariant i <= |buffer| && NEWLINE !in buffer[..i]
      {
        assert buffer[..i + 1] == buffer[..i] + [buffer[i]];
        i := i + 1;
      }
      FindIs(buffer, i);
    }

    /** `queue_buffered_frames_locked`: the loop that moves frames until none is whole or one has to wait. */
    method QueueBufferedFrames()
      modifies this`buffer, this`frames, this`queued, this`error
      ensures View() == QueueBuffered(options, old(View()))
    {
      var more := true;
      while more
        invariant QueueBuffered(options, old(View())) == if more then QueueBuffered(options, View()) else View()
        decreases more, |buffer|
      {
        more := QueueFrame();
      }
    }

    /** The body of that loop. */
    method QueueFrame() returns (more: bool)
      modifies this`buffer, this`frames, this`queued, this`error
      ensures (View(), more) == Turn(options, old(View()))
    {
      var newline := FindNewline();
      if newline == |buffer| {
        if |buffer| > options.maxFrame { Fail(FrameLimit); }
        return false;
      }
      if newline > options.maxFrame {
        Fail(FrameLimit);
        return false;
      }
      var wire := newline + 1;
      if frames != [] && (queued >= options.maxQueued || wire > options.maxQueued - queued) { return false; }
      var content := buffer[..newline];
      buffer := buffer[wire..];
      if wire > SIZE_MAX - queued {
        Fail(SupervisorFailure);
        return false;
      }
      frames := frames + [content];
      queued := queued + wire;
      more := true;
    }

    /** `stdout_poll_enabled_locked` */
    method StdoutPollEnabled() returns (enabled: bool)
      modifies this`buffer, this`frames, this`queued, this`error
      ensures (View(), enabled) == PollEnabled(options, old(View()))
    {
      if stdoutEof { return false; }
      if options.discard { return true; }
      QueueBufferedFrames();
      if error != NoError { return false; }
      var newline := FindNewline();
      if newline != |buffer| { return false; }
      enabled := buffer != [] || frames == [] || queued < options.maxQueued;
    }

    /** `read_stdout_once`, given what the system call and the accounting answered; false ends the worker. */
    method ReadStdoutOnce(r: ReadResult) returns (ok: bool)
      requires worker.Reading?
      modifies this`buffer, this`frames, this`queued, this`error, this`stdoutEof, this`input
      ensures Continue(View(), worker.stderr, ok) == ReadStdoutStep(options, old(View()), r)
    {
      match r {
        case Interrupted => return true;
        case Failed =>
          Fail(StdoutReadFailed);
          return false;
        case Eof =>
          stdoutEof := true;
          if options.discard { return true; }
          QueueBufferedFrames();
          if error == NoError && buffer != [] {
            Fail(UnterminatedFrame);
          } else if error == NoError && frames == [] {
            Fail(StdoutEof);
          }
          return error == NoError;
        case Data(bytes, accounted) =>
          if !accounted {
            Fail(OutputLimit);
            return false;
          }
          if options.discard { return true; }
          if |buffer| + |bytes| > STRING_MAX {
            Fail(SupervisorFailure);
            return false;
          }
          buffer, input := buffer + bytes, input + bytes;
          QueueBufferedFrames();
          return error == NoError;
      }
    }

    /** The top of `drain_loop`: decide under the mutex whether to end, and what to poll. */
    method CheckOnce()
      requires worker == Checking
      modifies this`buffer, this`frames, this`queued, this`error, this`worker
      ensures View() == Step(options, old(View()), Check)
    {
      if stop || error != NoError {
        worker := Done;
        return;
      }
      var pollStdout := StdoutPollEnabled();
      var pollStderr := !stderrEof;
      if error != NoError || (!pollStdout && stdoutEof && stderrEof) {
        worker := Done;
        return;
      }
      worker := Polling(pollStdout, pollStderr);
    }

    /** What `drain_loop` makes of the answer of the poll. */
    method PollAnswered(failed: bool, interrupted: bool, stdoutReady: bool, stderrReady: bool)
      requires worker.Polling?
      modifies this`error, this`worker
      ensures View() == Step(options, old(View()), PollReturns(failed, interrupted, stdoutReady, stderrReady))
    {
      if interrupted {
        worker := Checking;
        return;
      }
      if failed {
        Fail(PollFailed);
        worker := Done;
        return;
      }
      if stop {
        worker := Done;
        return;
      }
      var readStdout, readStderr := worker.stdout && stdoutReady, worker.stderr && stderrReady;
      worker := if readStdout || readStderr then Reading(readStdout, readStderr) else Checking;
    }

    /** `read_stderr_once`, given what the system call, the accounting and the callback answered. */
    method ReadStderrOnce(e: StderrResult)
      requires worker.Reading? && !worker.stdout && worker.stderr
      modifies this`error, this`stderrEof, this`worker
      ensures View() == Step(options, old(View()), ReadStderr(e))
    {
      worker := Done;
      match e {
        case ErrInterrupted => worker := Checking;
        case ErrFailed => Fail(StderrReadFailed);
        case ErrEof =>
          stderrEof := true;
          worker := Checking;
        case ErrData(accounted, sinkThrows) =>
          if !accounted {
            Fail(OutputLimit);
          } else if sinkThrows {
            Fail(StderrCallbackFailed);
          } else {
            worker := Checking;
          }
      }
    }

    /** `stop` */
    method RequestStop()
      requires stop ==> error != NoError
      modifies this`error, this`stop
      ensures View() == Step(options, old(View()), Stop)
    {
      if !stop {
        stop := true;
        Fail(Stopped);
      }
    }

    /** `recv_frame` once its wait is over: the oldest frame, or the error once there are no more. */
    method ReceiveFrame() returns (r: Result<seq<byte>, Error>)
      requires frames != [] || error != NoError || stop || worker == Done
      requires frames != [] ==> |frames[0]| + 1 <= queued
      modifies this`frames, this`queued, this`delivered
      ensures View() == ReceiveStep(old(View()))
      ensures r == if stop || old(frames) == [] then Err(error) else Ok(old(frames)[0])
    {
      if stop { return Err(error); }
      if frames != [] {
        var frame := frames[0];
        frames, queued, delivered := frames[1..], queued - (|frame| + 1), delivered + [frame];
        return Ok(frame);
      }
      return Err(error);
    }
  }
}
