/** The append-only log: what is written, what replaying a file executes, and what a crash leaves. */
module Aof {
  import opened Orders
  import opened Ints
  import opened Resp
  import opened Keyspace
  import opened Requests

  // ---- Writing ----

  /** command_to_resp: arguments are logged up to their NUL terminator. */
  method CommandToResp(argv: Command) returns (out: Bytes)
    ensures out == EncodeCommand(CStrs(argv))
  {
    hide EncodeArg, PrintNat;
    ghost var a := CStrs(argv);
    out := "*" + PrintNat(|argv|) + CRLF;
    ghost var header := out;
    for i := 0 to |argv|
      invariant out == header + EncodeArgs(a[..i])
    {
      EncodeSnoc(a[..i], a[i]);
      assert a[..i + 1] == a[..i] + [a[i]];
      out := out + EncodeArg(CStr(argv[i]));
    }
    assert a[..|argv|] == a;
  }

  lemma {:induction false} EncodeSnoc(a: Command, x: Bytes)
    ensures EncodeArgs(a + [x]) == EncodeArgs(a) + EncodeArg(x)
  {
    hide EncodeArg;
    if a == [] {
      assert a + [x] == [x] && [x][1..] == [];
    } else {
      EncodeSnoc(a[1..], x);
      assert (a + [x])[1..] == a[1..] + [x];
    }
  }

  /** The file that holds these commands. */
  function EncodeAll(cs: seq<Command>): Bytes {
    if cs == [] then [] else EncodeCommand(cs[0]) + EncodeAll(cs[1..])
  }

  lemma EncodeFirst(cs: seq<Command>)
    requires cs != []
    ensures EncodeAll(cs) == EncodeCommand(cs[0]) + EncodeAll(cs[1..])
  {
    hide EncodeCommand;
  }

  lemma {:induction false} EncodeAllAppend(cs: seq<Command>, ds: seq<Command>)
    ensures EncodeAll(cs + ds) == EncodeAll(cs) + EncodeAll(ds)
  {
    hide EncodeCommand, EncodeAll;
    if cs == [] {
      assert cs + ds == ds && EncodeAll(cs) == [] by { EncodeNone(); }
    } else {
      EncodeAllAppend(cs[1..], ds);
      EncodeFirst(cs);
      EncodeFirst(cs + ds);
      assert (cs + ds)[1..] == cs[1..] + ds;
      var e, x, y := EncodeCommand(cs[0]), EncodeAll(cs[1..]), EncodeAll(ds);
      assert e + (x + y) == e + x + y;
    }
  }

  lemma EncodeNone()
    ensures EncodeAll([]) == []
  {
  }

  // ---- Replaying ----

  /** The commands that aof_replay executes, and whether it reports success. */
  datatype Replay = Replay(commands: seq<Command>, ok: bool)

  function ReplayOf(b: Bytes): Replay
    decreases |b|
  {
    if b == [] then Replay([], true)
    else
      match ParseCommand(b)
      case More => Replay([], true)
      case Bad => Replay([], false)
      case Done(size, argv) =>
        var consumed := ToInt32(size);
        if consumed == 0 then Replay([], true)
        else if consumed < 0 then Replay([], false)
        else
          var rest := ReplayOf(b[consumed..]);
          Replay([argv] + rest.commands, rest.ok)
  }

  /** Execute commands in order, reading the clock once per command. */
  ghost function ExecAll(s: Store, cs: seq<Command>, fl: Floats, clock: nat -> int): Store {
    if cs == [] then s
    else Exec(ExecAll(s, cs[..|cs| - 1], fl, clock), Decode(cs[|cs| - 1], fl), clock(|cs| - 1)).0
  }

  /** What is replayed after the commands in done, given what the rest replays to. */
  function Behind(done: seq<Command>, r: Replay): Replay {
    Replay(done + r.commands, r.ok)
  }

  /** One turn of the replay loop at position pos. */
  lemma ReplayTurn(b: Bytes, pos: nat, done: seq<Command>, consumed: int, argv: Command)
    requires pos < |b| && Parses(b[pos..], consumed, argv)
    ensures consumed <= |b| - pos
    ensures Behind(done, ReplayOf(b[pos..]))
         == if consumed > 0 then Behind(done + [argv], ReplayOf(b[pos + consumed..])) else Replay(done, consumed == 0)
  {
    hide ParseCommand, ToInt32;
    if consumed > 0 {
      assert b[pos..][consumed..] == b[pos + consumed..];
      var rest := ReplayOf(b[pos + consumed..]).commands;
      assert done + ([argv] + rest) == done + [argv] + rest;
    } else {
      assert done + [] == done;
    }
  }

  lemma ReplayEnds(b: Bytes, done: seq<Command>)
    ensures Behind([], ReplayOf(b)) == ReplayOf(b) && Behind(done, ReplayOf(b[|b|..])) == Replay(done, true)
  {
    hide ParseCommand, ToInt32;
    assert b[|b|..] == [] && done + [] == done && [] + ReplayOf(b).commands == ReplayOf(b).commands;
  }

  /** The loop of aof_replay over the bytes of a file: the commands handed to dispatch, and the return code. */
  method ReplayFile(b: Bytes) returns (commands: seq<Command>, rc: int)
    ensures commands == ReplayOf(b).commands && rc == if ReplayOf(b).ok then 0 else -1
  {
    hide Parses, ReplayOf, Behind;
    commands, rc := [], 0;
    var pos := 0;
    assert b[0..] == b;
    ReplayEnds(b, []);
    while pos < |b|
      invariant 0 <= pos <= |b| && rc == 0 && ReplayOf(b) == Behind(commands, ReplayOf(b[pos..]))
      decreases |b| - pos
    {
      var consumed, argv := ParseBuffer(b[pos..]);
      ReplayTurn(b, pos, commands, consumed, argv);
      if consumed > 0 {
        commands, pos := commands + [argv], pos + consumed;
      } else if consumed < 0 {
        return commands, -1;
      } else {
        return commands, 0;
      }
    }
    ReplayEnds(b, commands);
  }

  /** A command that the parser's caps and the int return value can carry. */
  predicate Carries(c: Command) {
    Fits(c) && |EncodeCommand(c)| < 0x8000_0000
  }

  /** Crash recovery: of any byte prefix of a log, replay executes exactly the commands wholly inside, in order, and
      succeeds. */
  lemma {:induction false} CrashRecovery(cs: seq<Command>, n: nat, k: nat)
    requires forall i :: 0 <= i < |cs| ==> Carries(cs[i])
    requires n <= |EncodeAll(cs)| && k <= |cs|
    requires |EncodeAll(cs[..k])| <= n && (k < |cs| ==> n < |EncodeAll(cs[..k + 1])|)
    ensures ReplayOf(EncodeAll(cs)[..n]) == Replay(cs[..k], true)
    decreases |cs|
  {
    hide ParseCommand, EncodeCommand, Carries, EncodeAll, ReplayOf;
    if k == 0 {
      CutFirst(cs, n);
    } else {
      var e, t := EncodeCommand(cs[0]), EncodeAll(cs[1..]);
      EncodeFirst(cs);
      FirstFrames(cs, k);
      CrashRecovery(cs[1..], n - |e|, k - 1);
      ReplayFirst(cs[0], t[..n - |e|]);
      assert (e + t)[..n] == e + t[..n - |e|];
      assert [cs[0]] + cs[1..][..k - 1] == cs[..k];
    }
  }

  lemma FirstFrames(cs: seq<Command>, k: nat)
    requires 0 < k <= |cs|
    ensures |EncodeAll(cs[..k])| == |EncodeCommand(cs[0])| + |EncodeAll(cs[1..][..k - 1])|
    ensures k < |cs| ==> |EncodeAll(cs[..k + 1])| == |EncodeCommand(cs[0])| + |EncodeAll(cs[1..][..k])|
  {
    hide EncodeCommand, EncodeAll;
    EncodeFirst(cs[..k]);
    assert cs[..k][1..] == cs[1..][..k - 1];
    if k < |cs| {
      EncodeFirst(cs[..k + 1]);
      assert cs[..k + 1][1..] == cs[1..][..k];
    }
  }

  /** A cut inside the first command. */
  lemma CutFirst(cs: seq<Command>, n: nat)
    requires forall i :: 0 <= i < |cs| ==> Carries(cs[i])
    requires n <= |EncodeAll(cs)| && (cs != [] ==> n < |EncodeAll(cs[..1])|)
    ensures ReplayOf(EncodeAll(cs)[..n]) == Replay([], true)
  {
    hide ParseCommand, EncodeCommand;
    if cs != [] {
      assert cs[..1] == [cs[0]] && EncodeAll(cs[..1]) == EncodeCommand(cs[0]);
      CommandRoundTrip(cs[0], EncodeAll(cs[1..]));
      StrictPrefixIsMore(EncodeAll(cs), n);
    }
  }

  lemma ReplayDone(b: Bytes, size: nat, argv: Command)
    requires 0 < size < 0x8000_0000 && size <= |b| && ParseCommand(b) == Done(size, argv)
    ensures var r := ReplayOf(b[size..]); ReplayOf(b) == Replay([argv] + r.commands, r.ok)
  {
    hide ParseCommand, ToInt32;
    SmallSize(size);
  }

  lemma ReplayFirst(c: Command, rest: Bytes)
    requires Carries(c)
    ensures var r := ReplayOf(rest); ReplayOf(EncodeCommand(c) + rest) == Replay([c] + r.commands, r.ok)
  {
    hide ParseCommand, EncodeCommand, ReplayOf;
    var b, e := EncodeCommand(c) + rest, EncodeCommand(c);
    CommandRoundTrip(c, rest);
    assert b[|e|..] == rest;
    ReplayDone(b, |e|, c);
  }

  /** A file that was not cut replays to exactly its commands. */
  lemma ReplayWhole(cs: seq<Command>)
    requires forall i :: 0 <= i < |cs| ==> Carries(cs[i])
    ensures ReplayOf(EncodeAll(cs)) == Replay(cs, true)
  {
    assert cs[..|cs|] == cs && EncodeAll(cs)[..|EncodeAll(cs)|] == EncodeAll(cs);
    CrashRecovery(cs, |EncodeAll(cs)|, |cs|);
  }

  /** Every prefix length lies in exactly one command's frame, so crash recovery covers every cut. */
  lemma {:induction false} FrameAt(cs: seq<Command>, n: nat) returns (k: nat)
    requires n <= |EncodeAll(cs)|
    ensures k <= |cs| && |EncodeAll(cs[..k])| <= n && (k < |cs| ==> n < |EncodeAll(cs[..k + 1])|)
    decreases |cs|
  {
    hide EncodeCommand, EncodeAll;
    EncodeNone();
    assert cs[..0] == [];
    if cs == [] {
      return 0;
    }
    EncodeFirst(cs);
    FirstFrames(cs, 1);
    assert cs[1..][..0] == [];
    var e := EncodeCommand(cs[0]);
    if n < |e| {
      return 0;
    }
    var j := FrameAt(cs[1..], n - |e|);
    FirstFrames(cs, j + 1);
    return j + 1;
  }

  /** Logging cuts arguments at their NUL, and so does execution: the logged command means what the given one did. */
  lemma LoggedMeansSame(argv: Command, fl: Floats)
    ensures Decode(CStrs(argv), fl) == Decode(argv, fl)
  {
    forall i | 0 <= i < |argv|
      ensures CStr(CStrs(argv)[i]) == CStr(argv[i])
    {
      CStrIsNulFree(argv[i]);
      CStrIsNulFree(CStr(argv[i]));
    }
    assert CStrs(CStrs(argv)) == CStrs(argv);
  }
}
