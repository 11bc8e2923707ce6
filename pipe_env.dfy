/** The operating system as seen by a UniPipe: a scripted environment.

    The real channel calls read(2), write(2) and time(3) on descriptors
    that are non-blocking by default. Here each of those calls takes its
    answer from a finite script, so the control loops built on top of them
    become ordinary, checkable state updates.
 */
module PipeEnv {

  newtype byte = b: int | 0 <= b < 256

  /** What errno says after a failed call. EINTR and EAGAIN are the two
      conditions the channel retries; every other error carries the text
      strerror(3) gives for it. */
  datatype Errno = EINTR | EAGAIN | Other(description: string)

  /** The kernel's answer to one read(2) call: either some bytes are
      available (the call hands over at most that many), or it fails. */
  datatype ReadReply = Ready(available: nat) | ReadFailed(errno: Errno)

  /** The kernel's answer to one write(2) call: either there is room for
      that many bytes (the call accepts at most that many), or it fails. */
  datatype WriteReply = Accepts(room: nat) | WriteFailed(errno: Errno)

  /** Everything a read call can observe:
      - `stream`: every byte the write side will ever put into the pipe, in order;
      - `replies`: the answers of successive read(2) calls;
      - `clock`: the values of successive time(3) calls. */
  datatype ReadEnv = ReadEnv(stream: seq<byte>, replies: seq<ReadReply>, clock: seq<int>)

  /** Everything a write call can observe. */
  datatype WriteEnv = WriteEnv(replies: seq<WriteReply>, clock: seq<int>)

  function Min(a: int, b: int): int { if a <= b then a else b }

  /** The bytes a successful read(2) with request length `request` hands
      over when the kernel offers `available` bytes and `pending` is what is
      still in the pipe: never more than was requested, always taken from
      the front. */
  function Delivered(available: nat, request: nat, pending: seq<byte>): (chunk: seq<byte>)
    ensures |chunk| <= request && |chunk| <= available && |chunk| <= |pending|
    ensures chunk == pending[..|chunk|]
    ensures |chunk| == |pending| || |chunk| == request || |chunk| == available
  {
    pending[..Min(Min(available, request), |pending|)]
  }

  /** The bytes a successful write(2) of `offered` accepts when the kernel
      has room for `room` bytes: a prefix of what was offered. */
  function Accepted(room: nat, offered: seq<byte>): (sent: seq<byte>)
    ensures |sent| <= room && |sent| <= |offered|
    ensures sent == offered[..|sent|]
    ensures |sent| == |offered| || |sent| == room
  {
    offered[..Min(room, |offered|)]
  }
}
