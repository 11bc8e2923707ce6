/** The channel itself: class UniPipe with its two descriptors, the staging
    buffer, and the plug, read and write operations. */
module UniPipe {
  import opened PipeEnv
  import opened PipeSpec

  class UniPipe {
    /** fd[0] and fd[1] of the source: the descriptors of the two ends,
        `Plugged` once an end has been plugged. */
    var readFd: int
    var writeFd: int
    /** The staging buffer every read(2) call fills. */
    const buffer: array<byte>
    /** Every descriptor value passed to close(2) so far, in order. */
    ghost var closed: seq<int>

    ghost predicate Valid()
      reads this
    {
      && buffer.Length == BufferSize
      && (readFd == Plugged || readFd >= 0)
      && (writeFd == Plugged || writeFd >= 0)
      && (readFd >= 0 ==> readFd != writeFd && readFd !in closed)
      && (writeFd >= 0 ==> writeFd !in closed)
      // no real descriptor is ever closed twice
      && (forall i, j :: 0 <= i < j < |closed| && closed[i] >= 0 ==> closed[i] != closed[j])
    }

    /** The channel right after pipe(2) returned the two descriptors. */
    constructor (readEnd: int, writeEnd: int)
      requires readEnd >= 0 && writeEnd >= 0 && readEnd != writeEnd
      ensures Valid() && fresh(buffer)
      ensures readFd == readEnd && writeFd == writeEnd && closed == []
    {
      readFd, writeFd := readEnd, writeEnd;
      buffer := new byte[BufferSize];
      closed := [];
    }

    /** Closes and plugs every end whose keep-flag is false, whether or not
        it was plugged before; the other end is left alone. */
    method Plug(keepReadEnd: bool, keepWriteEnd: bool)
      requires Valid()
      modifies this
      ensures Valid()
      ensures readFd == if keepReadEnd then old(readFd) else Plugged
      ensures writeFd == if keepWriteEnd then old(writeFd) else Plugged
      ensures closed == old(closed) + (if keepReadEnd then [] else [old(readFd)])
                                    + (if keepWriteEnd then [] else [old(writeFd)])
    {
      if !keepReadEnd {
        closed := closed + [readFd];
        readFd := Plugged;
      }
      if !keepWriteEnd {
        closed := closed + [writeFd];
        writeFd := Plugged;
      }
    }

    /** One read(2) call into the staging buffer with request length
        `request`, answered by `reply` while `pending` is in the pipe. EINTR
        and EAGAIN count as zero bytes; any other failure is reported as the
        text read(min:max:timeout:) throws. */
    method ReadCall(reply: ReadReply, request: nat, pending: seq<byte>) returns (rc: nat, failure: Option<string>)
      requires buffer.Length == BufferSize && request <= BufferSize
      modifies buffer
      ensures failure.Some? <==> reply.ReadFailed? && reply.errno.Other?
      ensures failure.Some? ==> failure.value == ReadFailure(reply.errno.description)
      ensures rc <= buffer.Length && buffer[..rc] == Chunk(reply, request, pending)
      ensures buffer[rc..] == old(buffer[rc..])
    {
      failure := None;
      rc := 0;
      if reply.ReadFailed? {
        if reply.errno.Other? {
          failure := Some(ReadFailure(reply.errno.description));
        }
      } else {
        var chunk := Delivered(reply.available, request, pending);
        rc := |chunk|;
        forall k | 0 <= k < rc {
          buffer[k] := chunk[k];
        }
      }
    }

    /** read(min:max:timeout:). */
    method Read(min: int, max: Option<int>, timeout: Option<int>, env: ReadEnv) returns (run: ReadRun)
      requires buffer.Length == BufferSize
      modifies buffer
      ensures run == ReadSpec(readFd, min, max, timeout, env)
    {
      if readFd == Plugged {
        return ReadRun(Threw(ReadPluggedMessage), 0, 0);
      }
      var deadline: Option<int> := None;
      var ticks := 0;
      if timeout.Some? {
        if |env.clock| == 0 {
          return ReadRun(Pending, 0, 0);
        }
        deadline := Some(env.clock[0] + timeout.value);
        ticks := 1;
      }
      ghost var spec := ReadSpec(readFd, min, max, timeout, env);
      var rc := 0;
      var data: seq<byte> := [];
      var calls := 0;
      // The kernel's read offset in the pipe: how many bytes of the stream
      // read(2) has handed over so far.
      var pos := 0;
      while rc == 0
        invariant ticks <= |env.clock|
        invariant deadline.Some? == timeout.Some?
        invariant pos <= |env.stream|
        invariant rc == 0 ==> ReadLoop(min, max, deadline, env, calls, ticks, pos, data) == spec
        invariant rc != 0 ==> spec == ReadRun(Returned(data), pos, calls)
        decreases |env.replies| - calls
      {
        var limit := RequestLength(max, |data|);
        if calls >= |env.replies| {
          return ReadRun(Pending, pos, calls);
        }
        var reply := env.replies[calls];
        calls := calls + 1;
        var failure;
        rc, failure := ReadCall(reply, limit, env.stream[pos..]);
        if failure.Some? {
          return ReadRun(Threw(failure.value), pos, calls);
        }
        ghost var got := rc;
        data := data + buffer[..rc];
        pos := pos + rc;
        ghost var control := AfterRead(min, max, got, |data|);
        assert ReadDecide(min, max, deadline, env, calls, ticks, pos, data, control) == spec;
        if max.Some? && |data| >= max.value {
          break;
        } else if max.None? && rc == BufferSize {
          rc := 0;
        } else if |data| >= min {
          break;
        }
        assert control != Stop;
        if deadline.Some? {
          if ticks == |env.clock| {
            return ReadRun(Pending, pos, calls);
          }
          var now := env.clock[ticks];
          ticks := ticks + 1;
          if deadline.value < now {
            break;
          }
        }
      }
      return ReadRun(Returned(data), pos, calls);
    }

    /** write(_:timeout:). */
    method Write(payload: seq<byte>, timeout: Option<int>, env: WriteEnv) returns (run: WriteRun)
      ensures run == WriteSpec(writeFd, payload, timeout, env)
    {
      if writeFd == Plugged {
        return WriteRun(Threw(WritePluggedMessage), [], 0);
      }
      var deadline: Option<int> := None;
      var ticks := 0;
      if timeout.Some? {
        if |env.clock| == 0 {
          return WriteRun(Pending, [], 0);
        }
        deadline := Some(env.clock[0] + timeout.value);
        ticks := 1;
      }
      ghost var spec := WriteSpec(writeFd, payload, timeout, env);
      var bytesLeft := |payload|;
      var delivered: seq<byte> := [];
      var calls := 0;
      while bytesLeft > 0
        invariant 0 <= bytesLeft <= |payload|
        invariant ticks <= |env.clock|
        invariant deadline.Some? == timeout.Some?
        invariant WriteLoop(payload, deadline, env, calls, ticks, bytesLeft, delivered) == spec
        decreases |env.replies| - calls
      {
        if deadline.Some? {
          if ticks == |env.clock| {
            return WriteRun(Pending, delivered, calls);
          }
          var now := env.clock[ticks];
          ticks := ticks + 1;
          if deadline.value < now {
            return WriteRun(Threw(TimeoutMessage), delivered, calls);
          }
        }
        var bufferLeft := payload[|payload| - bytesLeft..];
        if calls >= |env.replies| {
          return WriteRun(Pending, delivered, calls);
        }
        var reply := env.replies[calls];
        calls := calls + 1;
        if reply.WriteFailed? {
          if reply.errno.Other? {
            return WriteRun(Threw(WriteFailure(reply.errno.description)), delivered, calls);
          }
        } else {
          var sent := Accepted(reply.room, bufferLeft);
          var rc := |sent|;
          delivered := delivered + sent;
          bytesLeft := bytesLeft - rc;
        }
      }
      return WriteRun(Returned(()), delivered, calls);
    }
  }
}
