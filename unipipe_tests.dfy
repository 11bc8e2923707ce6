/** The repository's test scenarios, run against the class through its
    contracts alone. */
module UniPipeTests {
  import opened PipeEnv
  import opened PipeSpec
  import opened UniPipe
  import PipeProperties

  /** "ping" in UTF-8. */
  const Ping: seq<byte> := [112, 105, 110, 103]

  /** testPing: write "ping", then read with `timeout: 0`, and get "ping"
      back, whenever the kernel has room for the four bytes and then offers
      them all to the first read(2) call. */
  method PingRoundTrip(readEnd: int, writeEnd: int, room: nat, available: nat, now: int)
    returns (response: Outcome<seq<byte>>)
    requires readEnd >= 0 && writeEnd >= 0 && readEnd != writeEnd
    requires room >= |Ping| && available >= |Ping|
    ensures response == Returned(Ping)
  {
    var pipe := new UniPipe(readEnd, writeEnd);
    var wenv := WriteEnv([Accepts(room)], []);
    var written := pipe.Write(Ping, None, wenv);
    assert Accepted(room, Ping[0..]) == Ping;
    assert WriteLoop(Ping, None, wenv, 0, 0, |Ping|, []) == WriteLoop(Ping, None, wenv, 1, 0, 0, Ping);
    assert written.outcome == Returned(());
    var renv := ReadEnv(written.delivered, [Ready(available)], [now]);
    var read := pipe.Read(1, None, Some(0), renv);
    PipeProperties.WriteThenReadRoundTrip(writeEnd, readEnd, Ping, None, wenv, 1, Some(0), renv);
    response := read.outcome;
  }

  /** testPlugRead: after plugging with `keepWriteEnd: true`, a read throws
      "read end has been plugged" without calling read(2). */
  method PlugThenRead(readEnd: int, writeEnd: int, env: ReadEnv) returns (run: ReadRun)
    requires readEnd >= 0 && writeEnd >= 0 && readEnd != writeEnd
    ensures run.outcome == Threw("read end has been plugged") && run.calls == 0
  {
    var pipe := new UniPipe(readEnd, writeEnd);
    pipe.Plug(false, true);
    run := pipe.Read(1, None, Some(0), env);
  }

  /** testPlugWrite: after plugging with `keepReadEnd: true`, writing "ping"
      throws "write end has been plugged" without calling write(2). */
  method PlugThenWrite(readEnd: int, writeEnd: int, env: WriteEnv) returns (run: WriteRun)
    requires readEnd >= 0 && writeEnd >= 0 && readEnd != writeEnd
    ensures run.outcome == Threw("write end has been plugged") && run.calls == 0 && run.delivered == []
  {
    var pipe := new UniPipe(readEnd, writeEnd);
    pipe.Plug(true, false);
    run := pipe.Write(Ping, None, env);
  }

  /** Plugging twice with the same flags leaves the descriptors as one
      plug leaves them; the second call passes only the sentinel to close(2). */
  method PlugTwice(pipe: UniPipe, keepReadEnd: bool, keepWriteEnd: bool)
    requires pipe.Valid()
    modifies pipe
    ensures pipe.Valid()
    ensures pipe.readFd == if keepReadEnd then old(pipe.readFd) else Plugged
    ensures pipe.writeFd == if keepWriteEnd then old(pipe.writeFd) else Plugged
    ensures var n := (if keepReadEnd then 0 else 1) + (if keepWriteEnd then 0 else 1);
      && |pipe.closed| == |old(pipe.closed)| + 2 * n
      && forall i :: |old(pipe.closed)| + n <= i < |pipe.closed| ==> pipe.closed[i] == Plugged
  {
    pipe.Plug(keepReadEnd, keepWriteEnd);
    var readFd, writeFd := pipe.readFd, pipe.writeFd;
    pipe.Plug(keepReadEnd, keepWriteEnd);
    assert pipe.readFd == readFd && pipe.writeFd == writeFd;
  }
}
