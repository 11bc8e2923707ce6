/** What UniPipe's read and write calls do, as functions of the scripted
    environment. The methods of class UniPipe.UniPipe are proved to compute
    exactly these; the lemmas in PipeProperties say what they guarantee.
 */
module PipeSpec {
  import opened PipeEnv

  /** Capacity of the staging buffer, and the largest single read request. */
  const BufferSize: nat := 8192

  /** The descriptor value that marks a plugged end. */
  const Plugged: int := -1

  const ReadPluggedMessage := "read end has been plugged"
  const WritePluggedMessage := "write end has been plugged"
  const TimeoutMessage := "timeout"

  function ReadFailure(description: string): string { "pipe read failed, " + description }
  function WriteFailure(description: string): string { "pipe write failed, " + description }

  /** How a call ends: it returns a value, it throws UniPipeError.error with
      a detail text, or the script ran out while the call was still
      polling (the real call would still be running). */
  datatype Outcome<T> = Returned(value: T) | Threw(detail: string) | Pending

  datatype Option<T> = None | Some(value: T)

  /** A read call: how it ended, how many bytes the kernel handed over to
      it (also when it then threw and dropped them), how many read(2) calls
      it made. */
  datatype ReadRun = ReadRun(outcome: Outcome<seq<byte>>, consumed: nat, calls: nat)

  /** A write call: how it ended, the bytes the kernel accepted, in order,
      and how many write(2) calls it made. */
  datatype WriteRun = WriteRun(outcome: Outcome<()>, delivered: seq<byte>, calls: nat)

  /** The request length of the next read(2) call, after `count` bytes have
      been accumulated: the buffer capacity, cut down to what `max` still
      allows. Never negative (see SourceRequestLength for the code as written). */
  function RequestLength(max: Option<int>, count: nat): (r: nat)
    ensures r <= BufferSize
    ensures max.Some? && count <= max.value ==> count + r <= max.value
    ensures r == BufferSize || (max.Some? && (count + r == max.value || (r == 0 && max.value < count)))
    ensures max.Some? && max.value < count ==> r == 0
  {
    if max.Some? && max.value - count < BufferSize then
      (if max.value - count < 0 then 0 else max.value - count)
    else BufferSize
  }

  /** The request length exactly as the code computes it: `max - count`
      whenever that is below the buffer capacity, even when it is negative. */
  function SourceRequestLength(max: Option<int>, count: nat): (r: int)
    ensures r <= BufferSize
    ensures max.Some? && count <= max.value ==> 0 <= r && count + r <= max.value
  {
    if max.Some? && max.value - count < BufferSize then max.value - count else BufferSize
  }

  /** The value a C `size_t` parameter receives for the Swift `Int` `n` on a
      64-bit platform. */
  function AsSizeT(n: int): nat { n % 0x1_0000_0000_0000_0000 }

  /** What the read loop does after appending a chunk of `got` bytes, which
      brought the accumulated length to `count`. */
  datatype Control =
    | Stop    // break out of the loop now, before the deadline check
    | Again   // check the deadline, then read again
    | Finish  // check the deadline, then leave the loop (a non-empty read)

  function AfterRead(min: int, max: Option<int>, got: nat, count: nat): (c: Control)
    ensures c == Stop ==> (max.Some? && count >= max.value) || count >= min
    ensures c == Again ==> got == 0 || (max.None? && got == BufferSize)
    ensures c == Finish ==> got > 0 && count < min
    ensures max.Some? && count >= max.value ==> c == Stop
    ensures max.None? && got == BufferSize ==> c == Again
    ensures got == 0 && count < min && !(max.Some? && count >= max.value) ==> c == Again
    ensures !(max.None? && got == BufferSize) && count >= min ==> c == Stop
  {
    if max.Some? && count >= max.value then Stop
    else if max.None? && got == BufferSize then Again
    else if count >= min then Stop
    else if got == 0 then Again
    else Finish
  }

  /** What one read(2) call that does not fail hard adds to the result: the
      bytes handed over, or nothing after EINTR or EAGAIN. */
  function Chunk(reply: ReadReply, request: nat, pending: seq<byte>): (chunk: seq<byte>)
    ensures |chunk| <= request && |chunk| <= |pending| && chunk == pending[..|chunk|]
    ensures reply.ReadFailed? ==> chunk == []
  {
    if reply.Ready? then Delivered(reply.available, request, pending) else []
  }

  /** The read loop from the state where `calls` read(2) calls have been
      made, `ticks` clock values have been read, the kernel has handed over
      the first `pos` bytes of the stream and the loop has accumulated
      `data`. */
  function ReadLoop(min: int, max: Option<int>, deadline: Option<int>, env: ReadEnv,
                    calls: nat, ticks: nat, pos: nat, data: seq<byte>): ReadRun
    requires pos <= |env.stream|
    decreases |env.replies| - calls, 1
  {
    if calls >= |env.replies| then ReadRun(Pending, pos, calls)
    else
      var reply := env.replies[calls];
      if reply.ReadFailed? && reply.errno.Other? then
        ReadRun(Threw(ReadFailure(reply.errno.description)), pos, calls + 1)
      else
        var chunk := Chunk(reply, RequestLength(max, |data|), env.stream[pos..]);
        ReadDecide(min, max, deadline, env, calls + 1, ticks, pos + |chunk|, data + chunk,
                   AfterRead(min, max, |chunk|, |data| + |chunk|))
  }

  /** The rest of one round of the read loop, once a chunk has been appended
      and `calls` counts the read(2) call that produced it: stop, or check
      the deadline and then finish or go round again. */
  function ReadDecide(min: int, max: Option<int>, deadline: Option<int>, env: ReadEnv,
                      calls: nat, ticks: nat, pos: nat, data: seq<byte>, control: Control): ReadRun
    requires pos <= |env.stream| && 0 < calls <= |env.replies|
    decreases |env.replies| - calls + 1, 0
  {
    if control == Stop then ReadRun(Returned(data), pos, calls)
    else if deadline.None? then
      (if control == Finish then ReadRun(Returned(data), pos, calls)
       else ReadLoop(min, max, deadline, env, calls, ticks, pos, data))
    else if ticks >= |env.clock| then ReadRun(Pending, pos, calls)
    else if deadline.value < env.clock[ticks] || control == Finish then ReadRun(Returned(data), pos, calls)
    else ReadLoop(min, max, deadline, env, calls, ticks + 1, pos, data)
  }

  /** read(min:max:timeout:) on a pipe whose read descriptor is `readFd`. */
  function ReadSpec(readFd: int, min: int, max: Option<int>, timeout: Option<int>, env: ReadEnv): ReadRun
  {
    if readFd == Plugged then ReadRun(Threw(ReadPluggedMessage), 0, 0)
    else if timeout.None? then ReadLoop(min, max, None, env, 0, 0, 0, [])
    else if env.clock == [] then ReadRun(Pending, 0, 0)
    else ReadLoop(min, max, Some(env.clock[0] + timeout.value), env, 0, 1, 0, [])
  }

  /** The write loop with `bytesLeft` bytes of `payload` still unsent,
      `delivered` accepted so far, `calls` write(2) calls made and `ticks`
      clock values read. */
  function WriteLoop(payload: seq<byte>, deadline: Option<int>, env: WriteEnv, calls: nat, ticks: nat,
                     bytesLeft: nat, delivered: seq<byte>): WriteRun
    requires bytesLeft <= |payload|
    decreases |env.replies| - calls
  {
    if bytesLeft == 0 then WriteRun(Returned(()), delivered, calls)
    else if deadline.Some? && ticks >= |env.clock| then WriteRun(Pending, delivered, calls)
    else if deadline.Some? && deadline.value < env.clock[ticks] then WriteRun(Threw(TimeoutMessage), delivered, calls)
    else if calls >= |env.replies| then WriteRun(Pending, delivered, calls)
    else
      var ticks' := if deadline.Some? then ticks + 1 else ticks;
      match env.replies[calls]
      case WriteFailed(e) =>
        if e.Other? then WriteRun(Threw(WriteFailure(e.description)), delivered, calls + 1)
        else WriteLoop(payload, deadline, env, calls + 1, ticks', bytesLeft, delivered)
      case Accepts(room) =>
        var sent := Accepted(room, payload[|payload| - bytesLeft..]);
        WriteLoop(payload, deadline, env, calls + 1, ticks', bytesLeft - |sent|, delivered + sent)
  }

  /** write(_:timeout:) of `payload` on a pipe whose write descriptor is `writeFd`. */
  function WriteSpec(writeFd: int, payload: seq<byte>, timeout: Option<int>, env: WriteEnv): WriteRun
  {
    if writeFd == Plugged then WriteRun(Threw(WritePluggedMessage), [], 0)
    else if timeout.None? then WriteLoop(payload, None, env, 0, 0, |payload|, [])
    else if env.clock == [] then WriteRun(Pending, [], 0)
    else WriteLoop(payload, Some(env.clock[0] + timeout.value), env, 0, 1, |payload|, [])
  }
}
