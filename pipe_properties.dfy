/** What read and write guarantee, proved about PipeSpec's functions for
    every environment script. */
module PipeProperties {
  import opened PipeEnv
  import opened PipeSpec

  // ---------------------------------------------------------------------
  // The read request length

  /** For a non-negative budget the corrected request length is exactly
      what the code computes. */
  lemma RequestLengthMatchesSource(max: Option<int>, count: nat)
    requires max.None? || count <= max.value
    ensures RequestLength(max, count) == SourceRequestLength(max, count)
  {
  }

  /** With `max: -1` the code asks read(2) for -1 bytes, which the C
      `size_t` parameter receives as a count far beyond the 8192-byte
      buffer; the corrected length asks for nothing. */
  lemma NegativeMaxRequestsHugeCount()
    ensures SourceRequestLength(Some(-1), 0) == -1
    ensures AsSizeT(SourceRequestLength(Some(-1), 0)) > BufferSize
    ensures RequestLength(Some(-1), 0) == 0
  {
  }

  // ---------------------------------------------------------------------
  // The read loop

  /** Nothing is dropped or reordered: the bytes the loop has accumulated
      are always exactly the bytes the kernel has handed over, so what a
      read returns is the front of the pipe's byte stream. */
  lemma {:induction false} ReadLoopTakesPrefix(min: int, max: Option<int>, deadline: Option<int>, env: ReadEnv,
                                               calls: nat, ticks: nat, pos: nat, data: seq<byte>)
    requires pos <= |env.stream| && data == env.stream[..pos]
    ensures var r := ReadLoop(min, max, deadline, env, calls, ticks, pos, data);
      && pos <= r.consumed <= |env.stream|
      && calls <= r.calls
      && (calls <= |env.replies| ==> r.calls <= |env.replies|)
      && (r.outcome.Returned? ==> r.outcome.value == env.stream[..r.consumed])
    decreases |env.replies| - calls, 1
  {
    if calls < |env.replies| {
      var reply := env.replies[calls];
      if !(reply.ReadFailed? && reply.errno.Other?) {
        var chunk := Chunk(reply, RequestLength(max, |data|), env.stream[pos..]);
        assert data + chunk == env.stream[..pos + |chunk|];
        ReadDecideTakesPrefix(min, max, deadline, env, calls + 1, ticks, pos + |chunk|, data + chunk,
                              AfterRead(min, max, |chunk|, |data| + |chunk|));
      }
    }
  }

  /** The same for the second half of a round. */
  lemma {:induction false} ReadDecideTakesPrefix(min: int, max: Option<int>, deadline: Option<int>, env: ReadEnv,
                                                 calls: nat, ticks: nat, pos: nat, data: seq<byte>, control: Control)
    requires pos <= |env.stream| && data == env.stream[..pos] && 0 < calls <= |env.replies|
    ensures var r := ReadDecide(min, max, deadline, env, calls, ticks, pos, data, control);
      && pos <= r.consumed <= |env.stream|
      && calls <= r.calls <= |env.replies|
      && (r.outcome.Returned? ==> r.outcome.value == env.stream[..r.consumed])
    decreases |env.replies| - calls + 1, 0
  {
    if control != Stop {
      if deadline.None? {
        if control != Finish {
          ReadLoopTakesPrefix(min, max, deadline, env, calls, ticks, pos, data);
        }
      } else if ticks < |env.clock| && !(deadline.value < env.clock[ticks] || control == Finish) {
        ReadLoopTakesPrefix(min, max, deadline, env, calls, ticks + 1, pos, data);
      }
    }
  }

  /** The number of bytes taken out of the pipe never goes past `max` (nor
      past what had already been taken, when that was more). */
  lemma {:induction false} ReadLoopWithinMax(min: int, max: Option<int>, deadline: Option<int>, env: ReadEnv,
                                             calls: nat, ticks: nat, pos: nat, data: seq<byte>)
    requires pos <= |env.stream| && |data| == pos && max.Some?
    ensures ReadLoop(min, max, deadline, env, calls, ticks, pos, data).consumed
            <= if pos <= max.value then max.value else pos
    decreases |env.replies| - calls
  {
    if calls < |env.replies| {
      var reply := env.replies[calls];
      if !(reply.ReadFailed? && reply.errno.Other?) {
        var chunk := Chunk(reply, RequestLength(max, |data|), env.stream[pos..]);
        ReadLoopWithinMax(min, max, deadline, env, calls + 1, if deadline.Some? then ticks + 1 else ticks, pos + |chunk|, data + chunk);
      }
    }
  }

  /** The read loop throws only on a read(2) failure other than EINTR and
      EAGAIN, with that failure's text; in particular the deadline never
      makes it throw. */
  lemma {:induction false} ReadLoopThrowsOnlyHardFailures(min: int, max: Option<int>, deadline: Option<int>, env: ReadEnv,
                                                          calls: nat, ticks: nat, pos: nat, data: seq<byte>)
    requires pos <= |env.stream|
    ensures var r := ReadLoop(min, max, deadline, env, calls, ticks, pos, data);
      r.outcome.Threw? ==>
        exists i :: calls <= i < |env.replies| && env.replies[i].ReadFailed? && env.replies[i].errno.Other?
                    && r.outcome.detail == ReadFailure(env.replies[i].errno.description)
    decreases |env.replies| - calls
  {
    if calls < |env.replies| {
      var reply := env.replies[calls];
      if !(reply.ReadFailed? && reply.errno.Other?) {
        var chunk := Chunk(reply, RequestLength(max, |data|), env.stream[pos..]);
        ReadLoopThrowsOnlyHardFailures(min, max, deadline, env, calls + 1, if deadline.Some? then ticks + 1 else ticks, pos + |chunk|, data + chunk);
      }
    }
  }

  /** Conversely, a read(2) failure other than EINTR and EAGAIN throws
      "pipe read failed, …" with its text, right after that call. */
  lemma ReadHardFailureThrows(min: int, max: Option<int>, deadline: Option<int>, env: ReadEnv,
                              calls: nat, ticks: nat, pos: nat, data: seq<byte>, description: string)
    requires pos <= |env.stream| && calls < |env.replies|
    requires env.replies[calls] == ReadFailed(Other(description))
    ensures ReadLoop(min, max, deadline, env, calls, ticks, pos, data)
         == ReadRun(Threw(ReadFailure(description)), pos, calls + 1)
  {
  }

  /** A non-empty read ends the call, even short of `min` bytes, unless it
      filled the whole buffer with no `max` given. */
  lemma NonEmptyReadEndsCall(min: int, max: Option<int>, deadline: Option<int>, env: ReadEnv,
                             calls: nat, ticks: nat, pos: nat, data: seq<byte>)
    requires pos <= |env.stream| && calls < |env.replies| && env.replies[calls].Ready?
    requires var got := |Chunk(env.replies[calls], RequestLength(max, |data|), env.stream[pos..])|;
      got > 0 && !(max.None? && got == BufferSize)
    ensures var r := ReadLoop(min, max, deadline, env, calls, ticks, pos, data);
      && r.calls == calls + 1
      && (r.outcome.Returned? || r.outcome.Pending?)
      && (r.outcome.Returned? ==> r.outcome.value == data + Chunk(env.replies[calls], RequestLength(max, |data|), env.stream[pos..]))
  {
  }

  /** A read that obtains zero bytes (nothing available, EINTR or EAGAIN)
      returns at once what it has when that already meets `min` or `max`. */
  lemma ZeroBytesMeetingThresholdReturns(min: int, max: Option<int>, deadline: Option<int>, env: ReadEnv,
                                         calls: nat, ticks: nat, pos: nat, data: seq<byte>)
    requires pos <= |env.stream| && calls < |env.replies|
    requires !(env.replies[calls].ReadFailed? && env.replies[calls].errno.Other?)
    requires Chunk(env.replies[calls], RequestLength(max, |data|), env.stream[pos..]) == []
    requires |data| >= min || (max.Some? && |data| >= max.value)
    ensures ReadLoop(min, max, deadline, env, calls, ticks, pos, data) == ReadRun(Returned(data), pos, calls + 1)
  {
    assert data + [] == data;
  }

  /** The loop goes round again after a zero-byte iteration below both
      thresholds, or after a full buffer with no `max`, as long as the
      deadline has not passed; it then carries on with what it has. */
  lemma ReadGoesRoundAgain(min: int, max: Option<int>, deadline: Option<int>, env: ReadEnv,
                           calls: nat, ticks: nat, pos: nat, data: seq<byte>)
    requires pos <= |env.stream| && calls < |env.replies|
    requires !(env.replies[calls].ReadFailed? && env.replies[calls].errno.Other?)
    requires var chunk := Chunk(env.replies[calls], RequestLength(max, |data|), env.stream[pos..]);
      || (max.None? && |chunk| == BufferSize)
      || (chunk == [] && |data| < min && !(max.Some? && |data| >= max.value))
    requires deadline.Some? ==> ticks < |env.clock| && env.clock[ticks] <= deadline.value
    ensures var chunk := Chunk(env.replies[calls], RequestLength(max, |data|), env.stream[pos..]);
      ReadLoop(min, max, deadline, env, calls, ticks, pos, data)
      == ReadLoop(min, max, deadline, env, calls + 1, if deadline.Some? then ticks + 1 else ticks,
                  pos + |chunk|, data + chunk)
  {
  }

  /** The deadline is soft and checked only after the `max` and `min`
      rules: once the clock is past it, the call returns what it has. */
  lemma ReadSoftDeadline(min: int, max: Option<int>, deadline: Option<int>, env: ReadEnv,
                         calls: nat, ticks: nat, pos: nat, data: seq<byte>)
    requires pos <= |env.stream| && calls < |env.replies|
    requires !(env.replies[calls].ReadFailed? && env.replies[calls].errno.Other?)
    requires deadline.Some? && ticks < |env.clock| && deadline.value < env.clock[ticks]
    ensures ReadLoop(min, max, deadline, env, calls, ticks, pos, data).outcome
         == Returned(data + Chunk(env.replies[calls], RequestLength(max, |data|), env.stream[pos..]))
  {
  }

  /** A read with a deadline does not poll forever: once the clock reading
      `k` is past the deadline, the loop has returned at the latest after
      the read(2) call before that reading, provided no call fails hard. */
  lemma {:induction false} ReadTimesOut(min: int, max: Option<int>, t: int, env: ReadEnv,
                                        calls: nat, ticks: nat, pos: nat, data: seq<byte>, k: nat)
    requires pos <= |env.stream|
    requires ticks <= k < |env.clock| && t < env.clock[k]
    requires calls + (k - ticks) < |env.replies|
    requires forall i :: calls <= i < |env.replies| ==> !(env.replies[i].ReadFailed? && env.replies[i].errno.Other?)
    ensures var r := ReadLoop(min, max, Some(t), env, calls, ticks, pos, data);
      r.outcome.Returned? && r.calls <= calls + (k - ticks) + 1
    decreases k - ticks
  {
    var chunk := Chunk(env.replies[calls], RequestLength(max, |data|), env.stream[pos..]);
    var control := AfterRead(min, max, |chunk|, |data| + |chunk|);
    assert ReadLoop(min, max, Some(t), env, calls, ticks, pos, data)
        == ReadDecide(min, max, Some(t), env, calls + 1, ticks, pos + |chunk|, data + chunk, control);
    if control != Stop && env.clock[ticks] <= t && control != Finish {
      ReadTimesOut(min, max, t, env, calls + 1, ticks + 1, pos + |chunk|, data + chunk, k);
    }
  }

  /** With no `max`, when every read(2) call is offered a full buffer (or
      everything left, when that is less) and `min` is at most the stream's
      length, the loop reads the whole stream: it goes round again after
      each full buffer and stops after the first shorter chunk. */
  lemma {:induction false} ReadLoopDrainsStream(min: int, deadline: Option<int>, env: ReadEnv,
                                                calls: nat, ticks: nat, pos: nat, data: seq<byte>)
    requires pos <= |env.stream| && data == env.stream[..pos] && min <= |env.stream|
    requires calls + (|env.stream| - pos) / BufferSize < |env.replies|
    requires forall i :: calls <= i < |env.replies| ==>
               env.replies[i].Ready? && env.replies[i].available >= Min(BufferSize, |env.stream| - pos)
    requires deadline.Some? ==>
               && ticks + (|env.stream| - pos) / BufferSize <= |env.clock|
               && forall j :: ticks <= j < |env.clock| ==> env.clock[j] <= deadline.value
    ensures ReadLoop(min, None, deadline, env, calls, ticks, pos, data).outcome == Returned(env.stream)
    decreases |env.stream| - pos
  {
    var chunk := Chunk(env.replies[calls], BufferSize, env.stream[pos..]);
    var control := AfterRead(min, None, |chunk|, |data| + |chunk|);
    assert ReadLoop(min, None, deadline, env, calls, ticks, pos, data)
        == ReadDecide(min, None, deadline, env, calls + 1, ticks, pos + |chunk|, data + chunk, control);
    assert data + chunk == env.stream[..pos + |chunk|];
    if |env.stream| - pos >= BufferSize {
      assert |chunk| == BufferSize && control == Again;
      assert (|env.stream| - (pos + BufferSize)) / BufferSize == (|env.stream| - pos) / BufferSize - 1;
      ReadLoopDrainsStream(min, deadline, env, calls + 1, if deadline.Some? then ticks + 1 else ticks,
                           pos + BufferSize, data + chunk);
    } else {
      assert chunk == env.stream[pos..];
      assert data + chunk == env.stream;
    }
  }

  // ---------------------------------------------------------------------
  // read(min:max:timeout:) as a whole

  /** A plugged read end throws before any read(2) call. */
  lemma ReadPluggedThrows(min: int, max: Option<int>, timeout: Option<int>, env: ReadEnv)
    ensures ReadSpec(Plugged, min, max, timeout, env) == ReadRun(Threw(ReadPluggedMessage), 0, 0)
  {
  }

  /** What read returns is the front of the pipe's stream, at most `max`
      bytes long (nothing at all for a negative `max`); it throws only for a
      plugged end or a hard read(2) failure. */
  lemma ReadGuarantees(readFd: int, min: int, max: Option<int>, timeout: Option<int>, env: ReadEnv)
    ensures var r := ReadSpec(readFd, min, max, timeout, env);
      && r.consumed <= |env.stream|
      && r.calls <= |env.replies|
      && (r.outcome.Returned? ==> r.outcome.value == env.stream[..r.consumed] && |r.outcome.value| == r.consumed)
      && (r.outcome.Returned? && max.Some? ==> |r.outcome.value| <= if max.value < 0 then 0 else max.value)
      && (r.outcome.Threw? ==>
            (readFd == Plugged && r.outcome.detail == ReadPluggedMessage)
            || exists i :: 0 <= i < |env.replies| && env.replies[i].ReadFailed? && env.replies[i].errno.Other?
                           && r.outcome.detail == ReadFailure(env.replies[i].errno.description))
  {
    if readFd != Plugged && (timeout.None? || env.clock != []) {
      var deadline := if timeout.None? then None else Some(env.clock[0] + timeout.value);
      var ticks := if timeout.None? then 0 else 1;
      assert ReadSpec(readFd, min, max, timeout, env) == ReadLoop(min, max, deadline, env, 0, ticks, 0, []);
      ReadLoopTakesPrefix(min, max, deadline, env, 0, ticks, 0, []);
      ReadLoopThrowsOnlyHardFailures(min, max, deadline, env, 0, ticks, 0, []);
      if max.Some? {
        ReadLoopWithinMax(min, max, deadline, env, 0, ticks, 0, []);
      }
    }
  }

  /** A read with a timeout whose second clock reading is past the deadline
      makes exactly one read(2) call and does not stay in the loop: with
      `timeout: 0` on an empty pipe it returns nothing, without error. */
  lemma ReadTimeoutBoundsCalls(readFd: int, min: int, max: Option<int>, t: int, env: ReadEnv)
    requires readFd != Plugged
    requires |env.replies| >= 1 && !(env.replies[0].ReadFailed? && env.replies[0].errno.Other?)
    requires |env.clock| >= 2 && env.clock[0] + t < env.clock[1]
    ensures var r := ReadSpec(readFd, min, max, Some(t), env);
      r.calls == 1 && r.outcome.Returned?
    ensures env.stream == [] ==> ReadSpec(readFd, min, max, Some(t), env).outcome == Returned([])
  {
    var deadline := Some(env.clock[0] + t);
    var chunk := Chunk(env.replies[0], RequestLength(max, 0), env.stream[0..]);
    assert ReadSpec(readFd, min, max, Some(t), env)
        == ReadDecide(min, max, deadline, env, 1, 1, |chunk|, [] + chunk, AfterRead(min, max, |chunk|, |chunk|));
    assert [] + chunk == chunk;
  }

  /** A read with a timeout returns, without blocking indefinitely, once
      some clock reading after the start is past `start + timeout`, given
      enough read(2) calls that do not fail hard. */
  lemma ReadWithTimeoutReturns(readFd: int, min: int, max: Option<int>, t: int, env: ReadEnv, k: nat)
    requires readFd != Plugged
    requires 0 < k < |env.clock| && env.clock[0] + t < env.clock[k] && k <= |env.replies|
    requires forall i :: 0 <= i < |env.replies| ==> !(env.replies[i].ReadFailed? && env.replies[i].errno.Other?)
    ensures var r := ReadSpec(readFd, min, max, Some(t), env);
      r.outcome.Returned? && r.calls <= k
  {
    ReadTimesOut(min, max, env.clock[0] + t, env, 0, 1, 0, [], k);
  }

  // ---------------------------------------------------------------------
  // The write loop

  /** The bytes the kernel accepts are always a prefix of the payload, and a
      write returns normally exactly when all of it was accepted. */
  lemma {:induction false} WriteLoopDeliversPrefix(payload: seq<byte>, deadline: Option<int>, env: WriteEnv,
                                                   calls: nat, ticks: nat, bytesLeft: nat, delivered: seq<byte>)
    requires bytesLeft <= |payload| && delivered == payload[..|payload| - bytesLeft]
    ensures var r := WriteLoop(payload, deadline, env, calls, ticks, bytesLeft, delivered);
      && |delivered| <= |r.delivered| <= |payload|
      && r.delivered == payload[..|r.delivered|]
      && calls <= r.calls
      && (calls <= |env.replies| ==> r.calls <= |env.replies|)
      && (r.outcome.Returned? <==> r.delivered == payload)
    decreases |env.replies| - calls
  {
    if bytesLeft > 0 && !(deadline.Some? && (ticks >= |env.clock| || deadline.value < env.clock[ticks])) && calls < |env.replies| {
      var ticks' := if deadline.Some? then ticks + 1 else ticks;
      match env.replies[calls]
      case WriteFailed(e) =>
        if !e.Other? {
          WriteLoopDeliversPrefix(payload, deadline, env, calls + 1, ticks', bytesLeft, delivered);
        }
      case Accepts(room) =>
        var sent := Accepted(room, payload[|payload| - bytesLeft..]);
        assert delivered + sent == payload[..|payload| - (bytesLeft - |sent|)];
        WriteLoopDeliversPrefix(payload, deadline, env, calls + 1, ticks', bytesLeft - |sent|, delivered + sent);
    }
  }

  /** The write loop throws only "timeout" or a write(2) failure other than
      EINTR and EAGAIN, with that failure's text. */
  lemma {:induction false} WriteLoopThrowsOnlyTimeoutOrHardFailures(payload: seq<byte>, deadline: Option<int>, env: WriteEnv,
                                                                    calls: nat, ticks: nat, bytesLeft: nat, delivered: seq<byte>)
    requires bytesLeft <= |payload|
    ensures var r := WriteLoop(payload, deadline, env, calls, ticks, bytesLeft, delivered);
      r.outcome.Threw? ==>
        || (deadline.Some? && r.outcome.detail == TimeoutMessage)
        || exists i :: calls <= i < |env.replies| && env.replies[i].WriteFailed? && env.replies[i].errno.Other?
                       && r.outcome.detail == WriteFailure(env.replies[i].errno.description)
    decreases |env.replies| - calls
  {
    if bytesLeft > 0 && !(deadline.Some? && (ticks >= |env.clock| || deadline.value < env.clock[ticks])) && calls < |env.replies| {
      var ticks' := if deadline.Some? then ticks + 1 else ticks;
      match env.replies[calls]
      case WriteFailed(e) =>
        if !e.Other? {
          WriteLoopThrowsOnlyTimeoutOrHardFailures(payload, deadline, env, calls + 1, ticks', bytesLeft, delivered);
        }
      case Accepts(room) =>
        var sent := Accepted(room, payload[|payload| - bytesLeft..]);
        WriteLoopThrowsOnlyTimeoutOrHardFailures(payload, deadline, env, calls + 1, ticks', bytesLeft - |sent|, delivered + sent);
    }
  }

  /** EINTR and EAGAIN leave the unsent count as it was, and the loop tries again. */
  lemma WriteTransientRetries(payload: seq<byte>, deadline: Option<int>, env: WriteEnv,
                              calls: nat, ticks: nat, bytesLeft: nat, delivered: seq<byte>)
    requires 0 < bytesLeft <= |payload|
    requires calls < |env.replies| && env.replies[calls].WriteFailed? && !env.replies[calls].errno.Other?
    requires deadline.Some? ==> ticks < |env.clock| && env.clock[ticks] <= deadline.value
    ensures WriteLoop(payload, deadline, env, calls, ticks, bytesLeft, delivered)
         == WriteLoop(payload, deadline, env, calls + 1, if deadline.Some? then ticks + 1 else ticks, bytesLeft, delivered)
  {
  }

  /** The deadline is hard: once the clock is past it with bytes unsent, the
      loop throws "timeout" before making another write(2) call. */
  lemma WriteHardDeadline(payload: seq<byte>, t: int, env: WriteEnv,
                          calls: nat, ticks: nat, bytesLeft: nat, delivered: seq<byte>)
    requires 0 < bytesLeft <= |payload|
    requires ticks < |env.clock| && t < env.clock[ticks]
    ensures WriteLoop(payload, Some(t), env, calls, ticks, bytesLeft, delivered)
         == WriteRun(Threw(TimeoutMessage), delivered, calls)
  {
  }

  /** Conversely, a write(2) failure other than EINTR and EAGAIN, made while
      bytes are left and before the deadline, throws "pipe write failed, …"
      with its text, right after that call. */
  lemma WriteHardFailureThrows(payload: seq<byte>, deadline: Option<int>, env: WriteEnv,
                               calls: nat, ticks: nat, bytesLeft: nat, delivered: seq<byte>, description: string)
    requires 0 < bytesLeft <= |payload|
    requires calls < |env.replies| && env.replies[calls] == WriteFailed(Other(description))
    requires deadline.Some? ==> ticks < |env.clock| && env.clock[ticks] <= deadline.value
    ensures WriteLoop(payload, deadline, env, calls, ticks, bytesLeft, delivered)
         == WriteRun(Threw(WriteFailure(description)), delivered, calls + 1)
  {
  }

  /** A write with a deadline never retries forever: once the clock reading
      `k` is past the deadline, the loop has either delivered everything or
      thrown "timeout", provided no write(2) call fails hard; when every
      call is only interrupted or refused, it is "timeout". */
  lemma {:induction false} WriteTimesOut(payload: seq<byte>, t: int, env: WriteEnv,
                                         calls: nat, ticks: nat, bytesLeft: nat, delivered: seq<byte>, k: nat)
    requires bytesLeft <= |payload|
    requires ticks <= k < |env.clock| && t < env.clock[k]
    requires calls + (k - ticks) <= |env.replies|
    requires forall i :: calls <= i < |env.replies| ==> !(env.replies[i].WriteFailed? && env.replies[i].errno.Other?)
    ensures var r := WriteLoop(payload, Some(t), env, calls, ticks, bytesLeft, delivered);
      && (r.outcome.Returned? || r.outcome == Threw(TimeoutMessage))
      && r.calls <= calls + (k - ticks)
    ensures 0 < bytesLeft && (forall i :: calls <= i < |env.replies| ==> env.replies[i].WriteFailed?) ==>
      WriteLoop(payload, Some(t), env, calls, ticks, bytesLeft, delivered).outcome == Threw(TimeoutMessage)
    decreases k - ticks
  {
    if bytesLeft > 0 && env.clock[ticks] <= t {
      match env.replies[calls]
      case WriteFailed(e) =>
        WriteTimesOut(payload, t, env, calls + 1, ticks + 1, bytesLeft, delivered, k);
      case Accepts(room) =>
        var sent := Accepted(room, payload[|payload| - bytesLeft..]);
        WriteTimesOut(payload, t, env, calls + 1, ticks + 1, bytesLeft - |sent|, delivered + sent, k);
    }
  }

  // ---------------------------------------------------------------------
  // write(_:timeout:) as a whole

  /** A plugged write end throws before any write(2) call. */
  lemma WritePluggedThrows(payload: seq<byte>, timeout: Option<int>, env: WriteEnv)
    ensures WriteSpec(Plugged, payload, timeout, env) == WriteRun(Threw(WritePluggedMessage), [], 0)
  {
  }

  /** An empty payload makes no write(2) call and returns normally. */
  lemma WriteEmptyPayloadMakesNoCall(writeFd: int, timeout: Option<int>, env: WriteEnv)
    requires writeFd != Plugged && (timeout.Some? ==> env.clock != [])
    ensures WriteSpec(writeFd, [], timeout, env) == WriteRun(Returned(()), [], 0)
  {
  }

  /** On an open end, write returns normally exactly when the whole payload
      was accepted, in order; whatever the outcome, the accepted bytes are a
      prefix of the payload; it throws only "timeout" (with a timeout given)
      or a hard write(2) failure. */
  lemma WriteGuarantees(writeFd: int, payload: seq<byte>, timeout: Option<int>, env: WriteEnv)
    ensures var r := WriteSpec(writeFd, payload, timeout, env);
      && |r.delivered| <= |payload|
      && r.delivered == payload[..|r.delivered|]
      && r.calls <= |env.replies|
      && (r.outcome.Returned? ==> r.delivered == payload)
      && (writeFd != Plugged && (timeout.Some? ==> env.clock != []) && r.delivered == payload ==> r.outcome.Returned?)
      && (r.outcome.Threw? ==>
            || (writeFd == Plugged && r.outcome.detail == WritePluggedMessage)
            || (timeout.Some? && r.outcome.detail == TimeoutMessage)
            || exists i :: 0 <= i < |env.replies| && env.replies[i].WriteFailed? && env.replies[i].errno.Other?
                           && r.outcome.detail == WriteFailure(env.replies[i].errno.description))
  {
    if writeFd != Plugged && (timeout.None? || env.clock != []) {
      var deadline := if timeout.None? then None else Some(env.clock[0] + timeout.value);
      var ticks := if timeout.None? then 0 else 1;
      assert WriteSpec(writeFd, payload, timeout, env) == WriteLoop(payload, deadline, env, 0, ticks, |payload|, []);
      WriteLoopDeliversPrefix(payload, deadline, env, 0, ticks, |payload|, []);
      WriteLoopThrowsOnlyTimeoutOrHardFailures(payload, deadline, env, 0, ticks, |payload|, []);
    }
  }

  // ---------------------------------------------------------------------
  // Write, then read

  /** Bytes written without error, of any length, come back unchanged from
      a read with no `max` whose read(2) calls are each offered a full
      buffer (or the whole payload, when that is shorter), when `min` is at
      most their number and, with a timeout, the clock stays within the
      deadline. */
  lemma WriteThenReadRoundTrip(writeFd: int, readFd: int, payload: seq<byte>, writeTimeout: Option<int>, wenv: WriteEnv,
                               min: int, readTimeout: Option<int>, renv: ReadEnv)
    requires readFd != Plugged && min <= |payload|
    requires WriteSpec(writeFd, payload, writeTimeout, wenv).outcome == Returned(())
    requires renv.stream == WriteSpec(writeFd, payload, writeTimeout, wenv).delivered
    requires |payload| / BufferSize < |renv.replies|
    requires forall i :: 0 <= i < |renv.replies| ==>
               renv.replies[i].Ready? && renv.replies[i].available >= Min(BufferSize, |payload|)
    requires readTimeout.Some? ==>
               && |payload| / BufferSize < |renv.clock|
               && forall j :: 0 < j < |renv.clock| ==> renv.clock[j] <= renv.clock[0] + readTimeout.value
    ensures ReadSpec(readFd, min, None, readTimeout, renv).outcome == Returned(payload)
  {
    WriteGuarantees(writeFd, payload, writeTimeout, wenv);
    assert renv.stream == payload;
    assert renv.stream[..0] == [];
    var deadline := if readTimeout.None? then None else Some(renv.clock[0] + readTimeout.value);
    var ticks := if readTimeout.None? then 0 else 1;
    ReadLoopDrainsStream(min, deadline, renv, 0, ticks, 0, []);
  }
}
