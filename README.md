# UniPipe, modelled in Dafny

UniPipe wraps an anonymous OS pipe in one Swift class. By default both
ends are non-blocking descriptors (the initializer can leave either end
blocking). On top of them the class adds three operations:

- `plug`, which closes either end or both. A closed end is marked with the
  sentinel `-1`.
- `read(min:max:timeout:)`, a polling loop. It accumulates bytes with
  thresholds on the minimum and maximum byte counts and a soft deadline.
- `write(_:timeout:)`, a polling loop. It pushes the unsent suffix of the
  payload until the kernel has accepted it all, and has a hard deadline.

This project models that class and proves what its loops guarantee.

The operating system is replaced by a scripted environment (module `PipeEnv`):

- A read call sees:
  - `stream`: every byte the write side will put into the pipe, in order.
    The kernel's read offset into it is tracked on its own and advances by
    the count each read(2) call returns, so a loop that lost bytes would
    fall behind it;
  - one reply per read(2) call: `Ready(available)` or `ReadFailed(errno)`;
  - one clock value per time(3) call.
- A write call sees one reply per write(2) call, `Accepts(room)` or
  `WriteFailed(errno)`, and the clock.
- `errno` is `EINTR`, `EAGAIN` or `Other(description)`. The description
  stands for the text strerror(3) gives.
- The kernel never hands over or accepts more bytes than requested.
  Bytes always come from the front (`Delivered`, `Accepted`).
- A read or write ends as `Pending` when the script lacks a value the
  call needs: a reply for the next system call, or a clock value. This
  covers a loop that would go on polling (with no timeout given the real
  call can spin forever) without non-terminating loops. It also covers a
  call with a timeout whose clock script is empty, so that even the start
  time cannot be read; this includes a write of an empty payload, which
  then makes no system call either.

Module `PipeSpec` states each call as a function of its environment:
`ReadSpec` and `ReadLoop`, `WriteSpec` and `WriteLoop`. `ReadDecide` is the
part of a read round that comes after the chunk has been appended: the
stop rules and the deadline check.

Class `UniPipe.UniPipe` has:

- the two descriptor fields `readFd` and `writeFd` (`fd[0]` and `fd[1]` in
  the source);
- the 8192-byte staging `buffer`, an array;
- a ghost log of the descriptor values passed to close(2).

Its `Read` and `Write` methods run the source's `while` loops step by step.
`Read` changes only the buffer, so it keeps the descriptor invariant
`Valid()` without having to state it.
Each is proved to compute exactly `ReadSpec` or `WriteSpec`. Module
`PipeProperties` proves what those functions guarantee for every script.
Module `UniPipeTests` replays the repository's test scenarios through the
class's contracts.

Behaviours of the code that are easy to misread, which the model follows
as written:

- A non-empty read ends the call even when fewer than `min` bytes have
  accumulated. The only exception is a full 8192-byte chunk with no
  `max`.
- With `max` given, a full-buffer chunk does not defer the `min` check.
- Plugging an end that is already plugged calls close(-1) again. That call
  fails harmlessly, so no real descriptor is ever closed twice. `Valid()`
  states this as an invariant.

## Model

| member | source | states |
|---|---|---|
| `PipeEnv.Delivered` | Sources/UniPipe/UniPipe.swift:102 | one read(2) call hands over at most the requested number of bytes, taken from the front of what the pipe holds |
| `PipeEnv.Accepted` | Sources/UniPipe/UniPipe.swift:142 | one write(2) call accepts a prefix of the offered bytes, no longer than the kernel's room |
| `PipeSpec.RequestLength` | Sources/UniPipe/UniPipe.swift:98-101 | each read request is at most the buffer size and at most `max` minus what has accumulated; it is the largest length obeying both bounds, and 0 when `max` is below what has accumulated (the corrected half of Findings) |
| `PipeSpec.SourceRequestLength` | Sources/UniPipe/UniPipe.swift:98-101 | the request length as the code computes it; it is in range whenever `max` is not below what has accumulated |
| `PipeSpec.AfterRead` | Sources/UniPipe/UniPipe.swift:111-117 | after a chunk: stop once `max` is reached, or once `min` is met unless the chunk was a full buffer with no `max`; go round again only after zero bytes or a full buffer with no `max`, and always in those cases below both thresholds; otherwise a short non-empty read leaves the loop |
| `PipeSpec.Chunk` | Sources/UniPipe/UniPipe.swift:102-110 | EINTR and EAGAIN add zero bytes; a successful call adds what it handed over |
| `PipeSpec.ReadSpec` | Sources/UniPipe/UniPipe.swift:87-124 | read(min:max:timeout:) as a function of the script: the plugged guard, then the start time and the read loop; it has no contract of its own, and its properties are the `PipeProperties.Read…` rows |
| `PipeSpec.ReadLoop` | Sources/UniPipe/UniPipe.swift:97-110 | one round of the read loop up to the append: the capped request, a hard failure thrown, the chunk appended and the kernel offset advanced; no contract of its own, its properties are the `PipeProperties.ReadLoop…` rows |
| `PipeSpec.ReadDecide` | Sources/UniPipe/UniPipe.swift:111-121 | the rest of a round: the stop rules, then the deadline check; no contract of its own, its properties are `PipeProperties.ReadDecideTakesPrefix` and the read-loop rows |
| `PipeSpec.WriteSpec` | Sources/UniPipe/UniPipe.swift:126-155 | write(_:timeout:) as a function of the script: the plugged guard, then the start time and the write loop; no contract of its own, its properties are the `PipeProperties.Write…` rows |
| `PipeSpec.WriteLoop` | Sources/UniPipe/UniPipe.swift:134-154 | the write loop: the hard deadline, the unsent suffix offered, `bytesLeft` reduced by what was accepted, EINTR and EAGAIN retried; no contract of its own, its properties are the `PipeProperties.WriteLoop…` and `PipeProperties.Write…` rows |
| `UniPipe.UniPipe.constructor` | Sources/UniPipe/UniPipe.swift:45-47 | the state right after pipe(2): both ends open and distinct, a fresh 8192-byte buffer, nothing closed yet |
| `UniPipe.UniPipe.Plug` | Sources/UniPipe/UniPipe.swift:76-85 | an end whose keep-flag is false becomes `-1` (even if it already was) and its old value is passed to close(2); the other end is unchanged; no real descriptor is closed twice |
| `UniPipe.UniPipe.ReadCall` | Sources/UniPipe/UniPipe.swift:102-110 | one read(2) call: a failure other than EINTR or EAGAIN is reported as "pipe read failed, …" with its text (and only such a failure); otherwise the bytes it hands over land at the front of the staging buffer and EINTR or EAGAIN count as zero bytes |
| `UniPipe.UniPipe.Read` | Sources/UniPipe/UniPipe.swift:87-124 | the read loop computes exactly `ReadSpec`: the plugged guard, the start time, the capped requests and the append of every chunk, the retry of EINTR and EAGAIN, the stop rules and the soft deadline |
| `UniPipe.UniPipe.Write` | Sources/UniPipe/UniPipe.swift:126-155 | the write loop computes exactly `WriteSpec`: the plugged guard, the hard deadline checked before each attempt, the unsent suffix offered each time, `bytesLeft` reduced by exactly what was accepted, the retry of EINTR and EAGAIN |
| `PipeProperties.RequestLengthMatchesSource` | Sources/UniPipe/UniPipe.swift:98-101 | when `max` is absent or not below what has accumulated, the corrected request length equals the code's |
| `PipeProperties.NegativeMaxRequestsHugeCount` | Sources/UniPipe/UniPipe.swift:99-102 | with `max: -1` the code requests -1 bytes, which read(2)'s unsigned count receives as far more than the 8192-byte buffer holds; the corrected length requests nothing |
| `PipeProperties.ReadLoopTakesPrefix` | Sources/UniPipe/UniPipe.swift:97-122 | nothing is dropped or reordered: the accumulated data always equals the bytes up to the kernel's read offset, which advances by each read(2) count, so the returned data is the front of the pipe's stream |
| `PipeProperties.ReadDecideTakesPrefix` | Sources/UniPipe/UniPipe.swift:111-121 | the same invariant across the stop rules and the deadline check of a round |
| `PipeProperties.ReadLoopWithinMax` | Sources/UniPipe/UniPipe.swift:98-112 | the number of bytes taken out of the pipe never grows beyond `max` |
| `PipeProperties.ReadLoopThrowsOnlyHardFailures` | Sources/UniPipe/UniPipe.swift:103-109 | the loop throws only "pipe read failed, …" for an error other than EINTR or EAGAIN; the deadline never makes it throw |
| `PipeProperties.ReadHardFailureThrows` | Sources/UniPipe/UniPipe.swift:102-107 | conversely, a read(2) error other than EINTR or EAGAIN throws "pipe read failed, " with its text right after that call |
| `PipeProperties.NonEmptyReadEndsCall` | Sources/UniPipe/UniPipe.swift:97-117 | a non-empty chunk ends the call after that one read(2) call, even below `min`, unless it is a full buffer with no `max` |
| `PipeProperties.ZeroBytesMeetingThresholdReturns` | Sources/UniPipe/UniPipe.swift:111-116 | after zero bytes the call returns at once what it has when `min` is met or `max` reached |
| `PipeProperties.ReadGoesRoundAgain` | Sources/UniPipe/UniPipe.swift:111-121 | after zero bytes below both thresholds, or a full buffer with no `max`, the loop reads again with the deadline still ahead |
| `PipeProperties.ReadSoftDeadline` | Sources/UniPipe/UniPipe.swift:118-120 | once the clock is past the deadline the call returns what it has accumulated, never an error; the check comes after the `max` and `min` rules |
| `PipeProperties.ReadTimesOut` | Sources/UniPipe/UniPipe.swift:97-121 | with a deadline and no hard read(2) failure, once clock reading `k` is past the deadline the loop has returned (never `Pending`), after at most one read(2) call per clock reading up to `k` |
| `PipeProperties.ReadLoopDrainsStream` | Sources/UniPipe/UniPipe.swift:97-121 | with no `max`, when every read(2) call is offered a full buffer (or all that is left) and `min` is at most the stream length, the loop goes round again after each full buffer and returns the whole stream |
| `PipeProperties.ReadPluggedThrows` | Sources/UniPipe/UniPipe.swift:88-90 | a plugged read end throws "read end has been plugged" before any read(2) call |
| `PipeProperties.ReadGuarantees` | Sources/UniPipe/UniPipe.swift:87-124 | read returns the front of the pipe's stream, at most `max` bytes (none for a negative `max`); it throws only for a plugged end or a hard read(2) failure |
| `PipeProperties.ReadTimeoutBoundsCalls` | Sources/UniPipe/UniPipe.swift:91-94 | when the second clock reading is past `start + timeout`, the call makes exactly one read(2) call and returns; on an empty pipe it returns no bytes |
| `PipeProperties.ReadWithTimeoutReturns` | Sources/UniPipe/UniPipe.swift:87-124 | a read with a timeout returns without blocking indefinitely once some later clock reading is past `start + timeout`, given enough read(2) calls that do not fail hard |
| `PipeProperties.WriteLoopDeliversPrefix` | Sources/UniPipe/UniPipe.swift:134-154 | the accepted bytes are always a prefix of the payload, and the loop returns normally exactly when all of it was accepted |
| `PipeProperties.WriteLoopThrowsOnlyTimeoutOrHardFailures` | Sources/UniPipe/UniPipe.swift:136-147 | the loop throws only "timeout" or "pipe write failed, …" for an error other than EINTR or EAGAIN |
| `PipeProperties.WriteTransientRetries` | Sources/UniPipe/UniPipe.swift:143-147 | EINTR and EAGAIN leave `bytesLeft` unchanged and the loop tries again |
| `PipeProperties.WriteHardDeadline` | Sources/UniPipe/UniPipe.swift:136-139 | once the clock is past the deadline with bytes unsent, the loop throws "timeout" before another write(2) call |
| `PipeProperties.WriteHardFailureThrows` | Sources/UniPipe/UniPipe.swift:142-147 | conversely, a write(2) error other than EINTR or EAGAIN, made with bytes left and before the deadline, throws "pipe write failed, " with its text right after that call |
| `PipeProperties.WriteTimesOut` | Sources/UniPipe/UniPipe.swift:134-154 | with a deadline and no hard write(2) failure, once clock reading `k` is past the deadline the loop has delivered everything or thrown "timeout" (never `Pending`, never retrying forever); with only EINTR and EAGAIN replies it is "timeout" |
| `PipeProperties.WritePluggedThrows` | Sources/UniPipe/UniPipe.swift:127-129 | a plugged write end throws "write end has been plugged" before any write(2) call |
| `PipeProperties.WriteEmptyPayloadMakesNoCall` | Sources/UniPipe/UniPipe.swift:134-136 | an empty payload makes no write(2) call and returns normally |
| `PipeProperties.WriteGuarantees` | Sources/UniPipe/UniPipe.swift:126-155 | a normal return means the whole payload was accepted, in order; on an open end, full acceptance means a normal return; the accepted bytes are always a prefix; the only errors are the plugged end, "timeout" when a timeout was given, and hard write(2) failures |
| `PipeProperties.WriteThenReadRoundTrip` | Sources/UniPipe/UniPipe.swift:87-155 | bytes written without error, of any length, come back unchanged from a read with no `max` whose read(2) calls are each offered a full buffer (or the whole payload, if shorter), when `min` is at most their number and, with a timeout, the clock stays within the deadline |
| `UniPipeTests.PingRoundTrip` | Tests/UniPipeTests/UniPipeTests.swift:16-32 | writing "ping" and reading with `timeout: 0` returns "ping" |
| `UniPipeTests.PlugThenRead` | Tests/UniPipeTests/UniPipeTests.swift:34-49 | after `plug(keepWriteEnd: true)` a read throws "read end has been plugged" with no read(2) call |
| `UniPipeTests.PlugThenWrite` | Tests/UniPipeTests/UniPipeTests.swift:51-67 | after `plug(keepReadEnd: true)` writing "ping" throws "write end has been plugged" with no write(2) call |
| `UniPipeTests.PlugTwice` | Sources/UniPipe/UniPipe.swift:76-85 | plugging again with the same flags changes no descriptor; the second call passes only `-1` to close(2) |

## Left out

- PipeSpec.RequestLength / UniPipe.UniPipe.Read: the model departs from the code for a negative `max`. `ReadSpec` and `Read` use the corrected request length, clamped at zero, so such a read returns no bytes where the code passes a negative count to read(2); the code as written is modelled by `PipeSpec.SourceRequestLength` (see Findings).
- `init` (pipe(2), fcntl(2), buffer allocation) is not modelled. The constructor takes the two descriptors pipe(2) returned and starts from the state `init` leaves. The failure paths of `init` and their descriptor handling are not part of this model.
- `deinit` (closing the open ends, freeing the buffer) is not modelled: it is a foreign call plus memory management.
- close(2) itself is not modelled. `Plug` only records the descriptor value it passes in the ghost `closed` log.
- errno and strerror(3) formatting: errno is a datatype and the failure text is carried in `Other(description)`. The `?? ""` fallback for text that is not valid UTF-8 is not modelled.
- usleep(5000) is left out: in a single-threaded model it has no observable effect.
- time(3) is replaced by the scripted clock; nothing is assumed about its monotonicity.
- SIGPIPE delivery (Tests/UniPipeTests/UniPipeTests.swift:69-80) is left out: it is OS signal handling.
- The platform-conditional imports and Package.swift are build configuration and are left out.
- Concurrency is not modelled: the class has none.
- Integer width: descriptors (`Int32`), byte counts and times (`Int`) are unbounded integers. Two places depend on the width. The negative request length is listed under Findings. The deadline `time(nil) + t` is a Swift `Int` addition that traps when it overflows, i.e. when the timeout is within `time(nil)` of `Int.max`; the model's `clock[0] + timeout` never overflows, so that trap is not modelled.
- Blocking descriptors: with `nonblockReadEnd: false` or `nonblockWriteEnd: false` a system call waits instead of failing with EAGAIN. A scripted reply stands for whatever the call eventually returns, so the model does not distinguish the two modes.
- The public `readEnd`/`writeEnd` getters are the fields `readFd`/`writeFd` themselves.
- Non-termination: a loop that would poll forever becomes `Pending` once the finite script runs out. The model proves nothing about polling beyond the script.
- Bytes a read accumulated before it throws are lost to the caller. `ReadRun.consumed` counts them, but no property is stated about them.

## Findings

| source | as written | input that shows it | evidently intended | confidence | as-written member | corrected member |
|---|---|---|---|---|---|---|
| Sources/UniPipe/UniPipe.swift:99-102 | `limit = m - data.count` whenever that is below the buffer size, even when it is negative; the result is read(2)'s unsigned byte count | `read(max: -1)`: the first request is -1 bytes, which read(2) receives as 2^64 - 1 bytes for an 8192-byte buffer; POSIX leaves a count above SSIZE_MAX implementation-defined, and common kernels then fail the call, which the code throws as "pipe read failed, …" | the request length is never negative, so a negative `max` returns no bytes | not executed; medium | `PipeProperties.NegativeMaxRequestsHugeCount` | `PipeSpec.RequestLength` |
