/** A client connection: input arrives in chunks, complete commands are dispatched in order. */
module Clients {
  import opened Orders
  import opened Resp
  import Aof

  const MAX_QUERY_BUF: nat := 0x400_0000

  /** What is left of a connection after draining: its unread bytes, or the reason it ended. */
  datatype Status = Open(unread: Bytes) | Closing | Failed

  datatype Outcome = Outcome(commands: seq<Command>, status: Status)

  /** All complete commands of a byte stream, up to the first that closes the connection or breaks the protocol. */
  function Drain(s: Bytes, quits: Command -> bool): (o: Outcome) {
    match ParseCommand(s)
    case More => Outcome([], Open(s))
    case Bad => Outcome([], Failed)
    case Done(size, argv) =>
      if quits(argv) then Outcome([argv], Closing)
      else
        var rest := Drain(s[size..], quits);
        Outcome([argv] + rest.commands, rest.status)
  }

  /** What arrives later does not change what was done earlier. */
  lemma {:induction false} DrainAppend(s: Bytes, t: Bytes, quits: Command -> bool)
    ensures var o := Drain(s, quits);
            Drain(s + t, quits) ==
              if o.status.Open? then
                var later := Drain(o.status.unread + t, quits);
                Outcome(o.commands + later.commands, later.status)
              else o
    decreases |s|
  {
    hide ParseCommand;
    match ParseCommand(s)
    case More =>
    case Bad =>
      CommandStable(s, t);
    case Done(size, argv) =>
      CommandStable(s, t);
      hide Drain;
      DrainDone(s, size, argv, quits);
      DrainDone(s + t, size, argv, quits);
      if !quits(argv) {
        assert (s + t)[size..] == s[size..] + t;
        DrainAppend(s[size..], t, quits);
      }
  }

  // ---- The frames of the stream ----

  /** The bytes from one offset to the other are a frame, and this is its command. */
  ghost predicate FrameAt(s: Bytes, start: nat, end: nat, argv: Command) {
    start <= end && start <= |s| && ParseCommand(s[start..]) == Done(end - start, argv)
  }

  /** The commands are the frames that lie end to end from the start of s, command i from offset at[i] to at[i + 1]:
      none is skipped and none comes twice. */
  ghost predicate Frames(s: Bytes, commands: seq<Command>, at: seq<nat>) {
    && |at| == |commands| + 1 && at[0] == 0
    && (forall i :: 0 <= i < |at| ==> at[i] <= |s|)
    && (forall i :: 0 <= i < |commands| ==> FrameAt(s, at[i], at[i + 1], commands[i]))
  }

  /** What stops the draining of s at offset n, after these commands. */
  ghost predicate Stops(s: Bytes, n: nat, o: Outcome, quits: Command -> bool)
    requires n <= |s|
  {
    var k := |o.commands|;
    && (forall i :: 0 <= i < k - 1 ==> !quits(o.commands[i]))
    && match o.status
       case Closing => k > 0 && quits(o.commands[k - 1])
       case Open(unread) => (k > 0 ==> !quits(o.commands[k - 1])) && ParseCommand(s[n..]).More? && unread == s[n..]
       case Failed => (k > 0 ==> !quits(o.commands[k - 1])) && ParseCommand(s[n..]).Bad?
  }

  /** Draining any stream dispatches its frames in order, each once, up to the first that quits, the first that is not
      whole, or the first that is malformed. */
  lemma {:induction false} DrainIsFrames(s: Bytes, quits: Command -> bool) returns (at: seq<nat>)
    ensures Frames(s, Drain(s, quits).commands, at) && Stops(s, at[|at| - 1], Drain(s, quits), quits)
    decreases |s|
  {
    hide ParseCommand;
    assert s[0..] == s;
    match ParseCommand(s)
    case More => at := [0];
    case Bad => at := [0];
    case Done(size, argv) =>
      if quits(argv) {
        at := [0, size];
      } else {
        var later := DrainIsFrames(s[size..], quits);
        at := FramesBehind(s, size, argv, Drain(s[size..], quits), later, quits);
      }
  }

  lemma FrameBehind(s: Bytes, size: nat, start: nat, end: nat, argv: Command)
    requires size <= |s| && FrameAt(s[size..], start, end, argv)
    ensures FrameAt(s, size + start, size + end, argv)
  {
    hide ParseCommand;
    assert s[size + start..] == s[size..][start..];
  }

  lemma FramesBehind(s: Bytes, size: nat, argv: Command, o: Outcome, later: seq<nat>, quits: Command -> bool)
    returns (at: seq<nat>)
    requires ParseCommand(s) == Done(size, argv) && !quits(argv) && size <= |s|
    requires Frames(s[size..], o.commands, later) && Stops(s[size..], later[|later| - 1], o, quits)
    ensures Frames(s, [argv] + o.commands, at)
    ensures Stops(s, at[|at| - 1], Outcome([argv] + o.commands, o.status), quits)
  {
    hide ParseCommand, Stops;
    at := [0] + seq(|later|, i requires 0 <= i < |later| => size + later[i]);
    assert FrameAt(s, 0, size, argv) by { assert s[0..] == s; }
    var all := [argv] + o.commands;
    assert Frames(s, all, at) by {
      hide FrameAt;
      forall i | 0 <= i < |all|
        ensures FrameAt(s, at[i], at[i + 1], all[i])
      {
        if i > 0 {
          FrameBehind(s, size, later[i - 1], later[i], all[i]);
        }
      }
    }
    StopsBehind(s, size, argv, o, later[|later| - 1], quits);
  }

  lemma StopsBehind(s: Bytes, size: nat, argv: Command, o: Outcome, n: nat, quits: Command -> bool)
    requires !quits(argv) && size <= |s| && n <= |s| - size && Stops(s[size..], n, o, quits)
    ensures Stops(s, size + n, Outcome([argv] + o.commands, o.status), quits)
  {
    hide ParseCommand;
    assert s[size..][n..] == s[size + n..];
    var all := [argv] + o.commands;
    forall i | 0 <= i < |all| - 1
      ensures !quits(all[i])
    {
      if i > 0 {
        assert all[i] == o.commands[i - 1];
      }
    }
  }

  lemma DrainDone(s: Bytes, size: nat, argv: Command, quits: Command -> bool)
    requires size <= |s| && ParseCommand(s) == Done(size, argv)
    ensures var o := Drain(s[size..], quits);
            Drain(s, quits) ==
              if quits(argv) then Outcome([argv], Closing) else Outcome([argv] + o.commands, o.status)
  {
    hide ParseCommand;
  }

  /** A client that sends whole commands, followed by anything, gets exactly those dispatched first. */
  lemma {:induction false} DrainCommands(cs: seq<Command>, t: Bytes, quits: Command -> bool)
    requires forall i :: 0 <= i < |cs| ==> Fits(cs[i]) && !quits(cs[i])
    ensures var o := Drain(t, quits);
            Drain(Aof.EncodeAll(cs) + t, quits) == Outcome(cs + o.commands, o.status)
  {
    hide ParseCommand, EncodeCommand, Fits, Drain, Aof.EncodeAll;
    if cs == [] {
      Aof.EncodeNone();
      assert [] + t == t && cs + Drain(t, quits).commands == Drain(t, quits).commands;
    } else {
      var e, rest := EncodeCommand(cs[0]), Aof.EncodeAll(cs[1..]) + t;
      Aof.EncodeFirst(cs);
      assert Aof.EncodeAll(cs) + t == e + rest;
      CommandRoundTrip(cs[0], rest);
      DrainDone(e + rest, |e|, cs[0], quits);
      DrainCommands(cs[1..], t, quits);
      assert (e + rest)[|e|..] == rest;
      assert [cs[0]] + (cs[1..] + Drain(t, quits).commands) == cs + Drain(t, quits).commands;
    }
  }

  /** The first command that quits is the last to be dispatched, whatever follows it. */
  lemma DrainUntilQuit(cs: seq<Command>, i: nat, t: Bytes, quits: Command -> bool)
    requires i < |cs| && quits(cs[i]) && Fits(cs[i]) && forall j :: 0 <= j < i ==> Fits(cs[j]) && !quits(cs[j])
    ensures Drain(Aof.EncodeAll(cs) + t, quits) == Outcome(cs[..i + 1], Closing)
  {
    hide ParseCommand, EncodeCommand, Fits;
    var rest := Aof.EncodeAll(cs[i + 1..]) + t;
    assert cs == cs[..i] + ([cs[i]] + cs[i + 1..]);
    assert Aof.EncodeAll([cs[i]] + cs[i + 1..]) == EncodeCommand(cs[i]) + Aof.EncodeAll(cs[i + 1..]) by {
      assert ([cs[i]] + cs[i + 1..])[1..] == cs[i + 1..];
    }
    Aof.EncodeAllAppend(cs[..i], [cs[i]] + cs[i + 1..]);
    var before, e := Aof.EncodeAll(cs[..i]), EncodeCommand(cs[i]);
    assert Aof.EncodeAll(cs) + t == before + (e + rest);
    DrainCommands(cs[..i], e + rest, quits);
    CommandRoundTrip(cs[i], rest);
    assert cs[..i] + [cs[i]] == cs[..i + 1];
  }

  // ---- Reading in chunks ----

  /** One successful recv: append, check the cap, drain. */
  function Receive(o: Outcome, chunk: Bytes, quits: Command -> bool): Outcome {
    if !o.status.Open? then o
    else
      var buf := o.status.unread + chunk;
      if |buf| > MAX_QUERY_BUF then o.(status := Failed)
      else
        var d := Drain(buf, quits);
        Outcome(o.commands + d.commands, d.status)
  }

  function ReceiveAll(chunks: seq<Bytes>, quits: Command -> bool): Outcome {
    if chunks == [] then Outcome([], Open([]))
    else Receive(ReceiveAll(chunks[..|chunks| - 1], quits), chunks[|chunks| - 1], quits)
  }

  function Joined(chunks: seq<Bytes>): Bytes {
    if chunks == [] then [] else Joined(chunks[..|chunks| - 1]) + chunks[|chunks| - 1]
  }

  /** The input buffer never outgrows the cap while these chunks are read. */
  ghost predicate CapNotReached(chunks: seq<Bytes>, quits: Command -> bool) {
    forall i :: 0 <= i < |chunks| ==>
      var before := ReceiveAll(chunks[..i], quits);
      before.status.Open? ==> |before.status.unread| + |chunks[i]| <= MAX_QUERY_BUF
  }

  lemma {:induction false} ChunksAreStream(chunks: seq<Bytes>, quits: Command -> bool)
    requires CapNotReached(chunks, quits)
    ensures ReceiveAll(chunks, quits) == Drain(Joined(chunks), quits)
  {
    if chunks != [] {
      var init, last := chunks[..|chunks| - 1], chunks[|chunks| - 1];
      assert forall i :: 0 <= i < |init| ==> init[..i] == chunks[..i];
      assert CapNotReached(init, quits);
      ChunksAreStream(init, quits);
      DrainAppend(Joined(init), last, quits);
      assert chunks[..|init|] == init;
    }
  }

  /** However a stream is cut into reads, the same commands are dispatched and the connection ends the same way. */
  lemma ChunkingIndependence(chunks: seq<Bytes>, chunks': seq<Bytes>, quits: Command -> bool)
    requires CapNotReached(chunks, quits) && CapNotReached(chunks', quits) && Joined(chunks) == Joined(chunks')
    ensures ReceiveAll(chunks, quits) == ReceiveAll(chunks', quits)
  {
    ChunksAreStream(chunks, quits);
    ChunksAreStream(chunks', quits);
  }

  /** Whatever the reads, a client that sends these commands and nothing else gets them executed in order, each once. */
  lemma ChunksOfCommands(chunks: seq<Bytes>, cs: seq<Command>, quits: Command -> bool)
    requires CapNotReached(chunks, quits) && Joined(chunks) == Aof.EncodeAll(cs)
    requires forall i :: 0 <= i < |cs| ==> Fits(cs[i]) && !quits(cs[i])
    ensures ReceiveAll(chunks, quits) == Outcome(cs, Open([]))
  {
    hide ParseCommand, EncodeCommand, Fits, CapNotReached;
    ChunksAreStream(chunks, quits);
    DrainCommands(cs, [], quits);
    assert Aof.EncodeAll(cs) + [] == Aof.EncodeAll(cs) && cs + [] == cs;
    assert Drain([], quits) == Outcome([], Open([])) by { NothingToDrain(quits); }
  }

  lemma NothingToDrain(quits: Command -> bool)
    ensures Drain([], quits) == Outcome([], Open([]))
  {
  }

  /** The connection object of the server, with the commands it has dispatched. */
  class Client {
    var inbuf: Bytes
    var closing: bool
    var dispatched: seq<Command>
    const quits: Command -> bool

    constructor (quits: Command -> bool)
      ensures inbuf == [] && !closing && dispatched == [] && this.quits == quits
    {
      this.quits := quits;
      inbuf, closing, dispatched := [], false, [];
    }

    /** The reading of one chunk in read_client; -1 drops the client. */
    method Read(chunk: Bytes) returns (rc: int)
      requires !closing
      modifies this
      ensures var o := Receive(Outcome(old(dispatched), Open(old(inbuf))), chunk, quits);
              && dispatched == o.commands
              && rc == (if o.status.Failed? then -1 else 0)
              && closing == o.status.Closing?
              && (o.status.Open? ==> inbuf == o.status.unread)
    {
      inbuf := inbuf + chunk;
      if |inbuf| > MAX_QUERY_BUF {
        return -1;
      }
      rc := DrainLoop();
    }

    /** The drain loop of read_client: dispatch every complete command and shift it out of the buffer. */
    method DrainLoop() returns (rc: int)
      requires !closing && |inbuf| <= MAX_QUERY_BUF
      modifies this
      ensures var o := Drain(old(inbuf), quits);
              && dispatched == old(dispatched) + o.commands
              && rc == (if o.status.Failed? then -1 else 0)
              && closing == o.status.Closing?
              && (o.status.Open? ==> inbuf == o.status.unread)
    {
      hide ParseCommand, Drain, Onto;
      ghost var goal := Onto(dispatched, Drain(inbuf, quits));
      OntoMeans(dispatched, Drain(inbuf, quits));
      while true
        invariant !closing && |inbuf| <= MAX_QUERY_BUF && Onto(dispatched, Drain(inbuf, quits)) == goal
        decreases |inbuf|
      {
        DrainStep(dispatched, inbuf, quits);
        var consumed, argv := ParseBuffer(inbuf);
        if consumed > 0 {
          dispatched := dispatched + [argv];
          closing := quits(argv);
          inbuf := inbuf[consumed..];
          if closing {
            return 0;
          }
          continue;
        }
        if consumed < 0 {
          return -1;
        }
        return 0;
      }
    }
  }

  /** What follows what has been dispatched already. */
  ghost function Onto(past: seq<Command>, o: Outcome): Outcome {
    Outcome(past + o.commands, o.status)
  }

  lemma OntoMeans(past: seq<Command>, o: Outcome)
    ensures Onto(past, o).commands == past + o.commands && Onto(past, o).status == o.status
  {
  }

  ghost function Turn(past: seq<Command>, s: Bytes, quits: Command -> bool): Outcome {
    match ParseCommand(s)
    case More => Outcome(past, Open(s))
    case Bad => Outcome(past, Failed)
    case Done(size, argv) =>
      if quits(argv) then Outcome(past + [argv], Closing) else Onto(past + [argv], Drain(s[size..], quits))
  }

  /** One turn of the drain loop. */
  lemma DrainStep(past: seq<Command>, s: Bytes, quits: Command -> bool)
    ensures Onto(past, Drain(s, quits)) == Turn(past, s, quits)
  {
    hide ParseCommand;
    assert past + [] == past;
    if ParseCommand(s).Done? {
      var argv := ParseCommand(s).argv;
      var rest := Drain(s[ParseCommand(s).size..], quits).commands;
      assert past + ([argv] + rest) == past + [argv] + rest;
    }
  }
}
