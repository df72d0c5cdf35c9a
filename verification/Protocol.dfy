/** The background rewrite: parent and child, the file swap and the mirror buffer, as a state machine over its steps. */
module Protocol {
  import opened Orders
  import opened Ints
  import opened Resp
  import opened Keyspace
  import opened Requests
  import opened Clocks
  import opened Aof
  import opened Rewrite
  import opened NulFreedom
  import opened Containers

  // ---- Clocks ----

  /** A safe log replays to the same store under every clock up to the horizon. */
  lemma {:induction false} AnyClock(s: Store, cs: seq<Command>, fl: Floats, clock: nat -> int, horizon: int)
    requires SafeStore(s, horizon) && SafeCommands(cs, fl, horizon) && forall i :: clock(i) <= horizon
    ensures ExecAll(s, cs, fl, clock) == Run(s, cs, fl, horizon) && SafeStore(Run(s, cs, fl, horizon), horizon)
    decreases |cs|
  {
    hide Exec, Decode, SafeStore, SafeRequest;
    if cs != [] {
      var n := |cs| - 1;
      AnyClock(s, cs[..n], fl, clock, horizon);
      ClockIrrelevant(Run(s, cs[..n], fl, horizon), Decode(cs[n], fl), horizon, clock(n), horizon);
    }
  }

  // ---- The state of the server's log ----

  /** The rewrite child: none, at work on the store as it was at the fork, done, or dead without having swapped the
      file. */
  datatype Child = NoChild | Working(snapshot: Store) | Swapped(snapshot: Store) | Dead(snapshot: Store)

  /** Where the parent's descriptor points: the file at the log's path, or one that a swap has unlinked. */
  datatype Descriptor = Current | Orphan(commands: seq<Command>)

  datatype Server = Server(live: Store, path: seq<Command>, fd: Descriptor, rewriting: bool,
                           mirror: seq<Command>, child: Child)

  datatype Step =
    | Execute(argv: Command, now: int)
    | Restart(clock: nat -> int)        // all processes are gone; the new parent replays the file at the path
    | Fork                              // BGREWRITEAOF
    | ChildRename(image: seq<Command>)  // the child swaps its file in
    | ChildDies
    | Reap                              // reap_children after any SIGCHLD
    | RewriteNow(image: seq<Command>)   // REWRITEAOF in the parent, a child having not yet opened its temporary file

  /** The commands are a rewrite of the store. */
  ghost predicate IsImage(cs: seq<Command>, s: Store, fl: Floats, horizon: int) {
    Run(map[], cs, fl, horizon) == s && SafeCommands(cs, fl, horizon)
  }

  ghost predicate Enabled(s: Server, step: Step, fl: Floats, horizon: int) {
    match step
    case Execute(argv, now) => now <= horizon && SafeRequest(Decode(argv, fl), horizon)
    case Restart(clock) => forall i :: clock(i) <= horizon
    case Fork => !s.rewriting && !s.child.Working?   // a second child, possible after an early reap, is not modelled
    case ChildRename(image) => s.child.Working? && IsImage(image, s.child.snapshot, fl, horizon)
    case ChildDies => s.child.Working?
    case Reap => true
    case RewriteNow(image) => IsImage(image, s.live, fl, horizon)
  }

  /** What dispatch_command logs of a command: its arguments up to their NUL, if it is a write. */
  function LogOf(argv: Command): seq<Command> {
    if IsWrite(argv) then [CStrs(argv)] else []
  }

  /** aof_reopen: point at the file on the path and flush the mirror buffer to it. */
  function Reopened(s: Server): Server {
    s.(fd := Current, path := s.path + s.mirror, mirror := [])
  }

  ghost function Next(s: Server, step: Step, fl: Floats): Server {
    match step
    case Execute(argv, now) =>
      var logged := LogOf(argv);
      s.(path := if s.fd.Current? then s.path + logged else s.path,
         fd := if s.fd.Current? then s.fd else Orphan(s.fd.commands + logged),
         mirror := if s.rewriting then s.mirror + logged else s.mirror,
         live := Exec(s.live, Decode(argv, fl), now).0)
    case Restart(clock) => Server(ExecAll(map[], s.path, fl, clock), s.path, Current, false, [], NoChild)
    case Fork => s.(rewriting := true, child := Working(s.live))
    case ChildRename(image) =>
      s.(path := image, fd := if s.fd.Current? then Orphan(s.path) else s.fd,
         child := if s.child.Working? then Swapped(s.child.snapshot) else s.child)
    case ChildDies => s.(child := if s.child.Working? then Dead(s.child.snapshot) else s.child)
    case Reap =>
      if s.rewriting
      then Reopened(s.(rewriting := false, child := if s.child.Working? then s.child else NoChild))
      else s
    case RewriteNow(image) => Reopened(s.(path := image))
  }

  /** What the code leaves unchecked: reap only after the rewrite child swapped the file; no REWRITEAOF in between. */
  predicate Guarded(s: Server, step: Step) {
    && (step.Reap? && s.rewriting ==> s.child.Swapped?)
    && (step.RewriteNow? ==> !s.rewriting)
  }

  ghost predicate Inv(s: Server, fl: Floats, horizon: int) {
    && SafeStore(s.live, horizon) && SafeCommands(s.path, fl, horizon) && SafeCommands(s.mirror, fl, horizon)
    && (!s.rewriting ==> s.child.NoChild? && s.mirror == [])
    && (s.rewriting ==> !s.child.NoChild?)
    && (!s.child.Swapped? ==> s.fd.Current? && Run(map[], s.path, fl, horizon) == s.live)
    && (!s.child.NoChild? ==> SafeStore(s.child.snapshot, horizon))
    && (!s.child.NoChild? ==> Run(s.child.snapshot, s.mirror, fl, horizon) == s.live)
    && (s.child.Swapped? ==> s.fd.Orphan? && Run(map[], s.path, fl, horizon) == s.child.snapshot)
  }

  // ---- Every guarded step keeps the invariant ----

  lemma RunSnoc(s: Store, cs: seq<Command>, c: Command, fl: Floats, now: int)
    ensures Run(s, cs + [c], fl, now) == Exec(Run(s, cs, fl, now), Decode(c, fl), now).0
  {
    hide Exec, Decode;
    RunAppend(s, cs, [c], fl, now);
    RunOne(Run(s, cs, fl, now), c, fl, now);
  }

  /** What is logged of a command does to a store what the command does, at any time up to the horizon. */
  lemma LoggedActs(s: Store, argv: Command, fl: Floats, now: int, horizon: int)
    requires SafeStore(s, horizon) && SafeRequest(Decode(argv, fl), horizon) && now <= horizon
    ensures Exec(s, Decode(argv, fl), now).0 == Run(s, LogOf(argv), fl, horizon)
    ensures SafeStore(Run(s, LogOf(argv), fl, horizon), horizon) && SafeCommands(LogOf(argv), fl, horizon)
  {
    hide Exec, Decode, Run, SafeRequest, SafeStore, CStrs, IsWrite;
    ClockIrrelevant(s, Decode(argv, fl), now, horizon, horizon);
    if IsWrite(argv) {
      LoggedMeansSame(argv, fl);
      RunOne(s, CStrs(argv), fl, horizon);
    } else {
      RunNothing(s, fl, horizon);
      UnloggedKeeps(s, argv, fl, horizon);
    }
  }

  lemma ExecuteKeeps(s: Server, argv: Command, now: int, fl: Floats, horizon: int)
    requires Inv(s, fl, horizon) && Enabled(s, Execute(argv, now), fl, horizon)
    ensures Inv(Next(s, Execute(argv, now), fl), fl, horizon)
  {
    hide Exec, Decode, Run, SafeRequest, SafeStore, LogOf;
    var cs := LogOf(argv);
    LoggedActs(s.live, argv, fl, now, horizon);
    RunAppend(map[], s.path, cs, fl, horizon);
    SafeAppend(s.path, cs, fl, horizon);
    SafeAppend(s.mirror, cs, fl, horizon);
    if !s.child.NoChild? {
      RunAppend(s.child.snapshot, s.mirror, cs, fl, horizon);
    }
  }

  lemma RestartKeeps(s: Server, clock: nat -> int, fl: Floats, horizon: int)
    requires Inv(s, fl, horizon) && Enabled(s, Restart(clock), fl, horizon)
    ensures Inv(Next(s, Restart(clock), fl), fl, horizon)
  {
    hide Exec, Run, SafeRequest;
    AnyClock(map[], s.path, fl, clock, horizon);
  }

  lemma ReapKeeps(s: Server, fl: Floats, horizon: int)
    requires Inv(s, fl, horizon) && Guarded(s, Reap)
    ensures Inv(Next(s, Reap, fl), fl, horizon)
  {
    hide Run, SafeStore, Exec;
    RunAppend(map[], s.path, s.mirror, fl, horizon);
    SafeAppend(s.path, s.mirror, fl, horizon);
  }

  lemma RunNothing(s: Store, fl: Floats, now: int)
    ensures Run(s, [], fl, now) == s
  {
  }

  lemma StepKeeps(s: Server, step: Step, fl: Floats, horizon: int)
    requires Inv(s, fl, horizon) && Enabled(s, step, fl, horizon) && Guarded(s, step)
    ensures Inv(Next(s, step, fl), fl, horizon)
  {
    hide Run, SafeStore, Exec, Decode, SafeRequest;
    match step
    case Execute(argv, now) => ExecuteKeeps(s, argv, now, fl, horizon);
    case Restart(clock) => RestartKeeps(s, clock, fl, horizon);
    case Reap => ReapKeeps(s, fl, horizon);
    case Fork => RunNothing(s.live, fl, horizon);
    case ChildRename(image) =>
    case ChildDies =>
    case RewriteNow(image) =>
      assert image + [] == image;
  }

  // ---- Whole runs ----

  ghost function AfterAll(s: Server, steps: seq<Step>, fl: Floats): Server {
    if steps == [] then s else Next(AfterAll(s, steps[..|steps| - 1], fl), steps[|steps| - 1], fl)
  }

  ghost predicate GuardedRun(s: Server, steps: seq<Step>, fl: Floats, horizon: int) {
    forall i :: 0 <= i < |steps| ==>
      Enabled(AfterAll(s, steps[..i], fl), steps[i], fl, horizon) && Guarded(AfterAll(s, steps[..i], fl), steps[i])
  }

  lemma {:induction false} RunKeeps(s: Server, steps: seq<Step>, fl: Floats, horizon: int)
    requires Inv(s, fl, horizon) && GuardedRun(s, steps, fl, horizon)
    ensures Inv(AfterAll(s, steps, fl), fl, horizon)
  {
    hide Inv, Enabled, Next, Guarded;
    if steps != [] {
      var n := |steps| - 1;
      assert forall i :: 0 <= i < n ==> steps[..n][..i] == steps[..i] && steps[..n][i] == steps[i];
      RunKeeps(s, steps[..n], fl, horizon);
      StepKeeps(AfterAll(s, steps[..n], fl), steps[n], fl, horizon);
    }
  }

  const START: Server := Server(map[], [], Current, false, [], NoChild)

  /** Over every guarded run: while a rewrite is in flight, snapshot plus mirror is the live store; outside one, and
      after every reap, the file replays to the live store under any clock; a crash in between the swap and the reap
      falls back to the snapshot. */
  lemma RewriteLosesNothing(steps: seq<Step>, fl: Floats, clock: nat -> int, horizon: int)
    requires GuardedRun(START, steps, fl, horizon) && forall i :: clock(i) <= horizon
    ensures var s := AfterAll(START, steps, fl);
            && (!s.child.NoChild? ==> Run(s.child.snapshot, s.mirror, fl, horizon) == s.live)
            && ExecAll(map[], s.path, fl, clock) == (if s.child.Swapped? then s.child.snapshot else s.live)
  {
    hide Next, Enabled, Guarded, Exec, Decode, SafeRequest;
    RunNothing(map[], fl, horizon);
    assert Inv(START, fl, horizon);
    RunKeeps(START, steps, fl, horizon);
    AnyClock(map[], AfterAll(START, steps, fl).path, fl, clock, horizon);
  }

  /** From the commands to the bytes: the file on the path, read back by aof_replay. */
  lemma FileReplays(s: Server, fl: Floats, clock: nat -> int, horizon: int)
    requires Inv(s, fl, horizon) && !s.child.Swapped? && (forall i :: clock(i) <= horizon)
    requires forall i :: 0 <= i < |s.path| ==> Carries(s.path[i])
    ensures ReplayOf(EncodeAll(s.path)).ok && ExecAll(map[], ReplayOf(EncodeAll(s.path)).commands, fl, clock) == s.live
  {
    hide Run, Exec, Decode, SafeRequest, ReplayOf, EncodeAll, Carries;
    ReplayWhole(s.path);
    AnyClock(map[], s.path, fl, clock, horizon);
  }

  /** What a snapshot holds: no NUL and no expiry before the horizon. */
  lemma SnapshotKept(s: Server, fl: Floats, horizon: int)
    requires Inv(s, fl, horizon)
    ensures NulFreeStore(s.live) && SafeStore(s.live, horizon)
  {
    hide Run, SafeStore, NulFreeStore, SafeCommands;
    ReplayIsNulFree(s.path, fl, horizon);
    if s.child.Swapped? {
      ReplayIsNulFree(s.path + s.mirror, fl, horizon);
      RunAppend(map[], s.path, s.mirror, fl, horizon);
    }
  }

  /** aof_rewrite on the store of any state of a guarded run gives an image of it exactly when the store holds no empty
      container, so that a fork followed by the child's rename is a step of the machine. */
  method WriteImage(store: Store, fl: Floats, ghost s: Server, ghost horizon: int)
    returns (file: Bytes, ghost image: seq<Command>)
    requires Inv(s, fl, horizon) && store == s.live && StoreFloatsOk(fl, store) && horizon >= 0
    ensures file == EncodeAll(image)
    ensures IsImage(image, store, fl, horizon) <==> NoEmpty(store)
  {
    hide Run, StoreFloatsOk, SafeCommands, NulFreeStore, EncodeAll, EmptyContainer, Inv;
    SnapshotKept(s, fl, horizon);
    assert forall k :: k in store ==> SafeTime(store[k].expireAt, horizon);
    file, image := RewriteExact(store, fl, horizon);
  }

  function ZAddInteger(k: Bytes, n: int, m: Bytes): Command {
    ["ZADD", k, PrintInt(n), m]
  }

  lemma ZAddIntegerDecodes(k: Bytes, n: int, m: Bytes)
    requires NulFree(k) && NulFree(m) && -LLONG_MAX <= n <= LLONG_MAX
    ensures Decode(ZAddInteger(k, n, m), INTEGERS) == OnKey(k, OpZAdd(PLAIN, [(Some(Finite(n as real)), m)]))
  {
    hide Decode, CStrs, Lower, PrintInt, ParseInt, ZAddFlags;
    var c := ZAddInteger(k, n, m);
    Names();
    IntegerText(n);
    assert NulFree(c[0]) by { assert c[0] == ["SET", "PXAT", "PEXPIREAT", "RPUSH", "HSET", "SADD", "ZADD"][6]; }
    DecodeArgs(c, INTEGERS);
    var rest := c[2..];
    assert rest == [PrintInt(n), m] && rest[2..] == [];
    NoFlags(rest, PLAIN);
    assert ScorePairs(rest[2..], INTEGERS) == [];
    assert ScorePairs(rest, INTEGERS) == [(ReadInteger(PrintInt(n)), m)];
  }

  lemma ZAddIntegerMeans(k: Bytes, score: Score, m: Bytes, now: int)
    ensures Exec(map[], OnKey(k, OpZAdd(PLAIN, [(Some(score), m)])), now).0 == map[k := Obj(ZSet(map[m := score]), -1)]
  {
    var es := [(Some(score), m)];
    assert es[1..] == [];
    var p := ZProgress(map[m := score], 1, 0, false);
    assert ZAddAll(p, PLAIN, es[1..]) == p;
    assert ZAddAll(ZProgress(map[], 0, 0, false), PLAIN, es) == p;
  }

  /** The results on images speak about something: a state with a sorted set is reached by a guarded run, and its store
      meets all that they ask of it. */
  lemma SortedSetReached(k: Bytes, n: int, m: Bytes)
    requires NulFree(k) && NulFree(m) && -LLONG_MAX <= n <= LLONG_MAX
    ensures var steps := [Execute(ZAddInteger(k, n, m), 0)];
            var s := AfterAll(START, steps, INTEGERS);
            && GuardedRun(START, steps, INTEGERS, 0) && Inv(s, INTEGERS, 0)
            && s.live == map[k := Obj(ZSet(map[m := Finite(n as real)]), -1)]
            && StoreFloatsOk(INTEGERS, s.live) && NoEmpty(s.live)
  {
    hide Decode, Exec, Run, ZAddInteger, CStrs, ScoreOk, StoreFloatsOk;
    var step := Execute(ZAddInteger(k, n, m), 0);
    ZAddIntegerDecodes(k, n, m);
    ZAddIntegerMeans(k, Finite(n as real), m, 0);
    RunNothing(map[], INTEGERS, 0);
    assert [step][..0] == [];
    assert AfterAll(START, [], INTEGERS) == START;
    StepKeeps(START, step, INTEGERS, 0);
    var s := Next(START, step, INTEGERS);
    assert AfterAll(START, [step], INTEGERS) == s;
    assert IntegerScore(Finite(n as real));
    IntegersOk(s.live);
    assert GuardedRun(START, [step], INTEGERS, 0) by {
      assert [step][..0] == [] && Guarded(START, step);
      assert Enabled(START, step, INTEGERS, 0);
    }
    assert Inv(s, INTEGERS, 0);
    assert m in s.live[k].value.scores;
  }

  // ---- The parent's variables, in bytes ----

  /** The globals of src/aof.c and the files they refer to; every method is one step of the machine above. */
  class Log {
    var file: Bytes                 // contents of the file at g_aof_path
    var unlinked: Option<Bytes>     // contents of the file g_aof_fd refers to, when a swap has unlinked it
    var rewriting: bool             // g_aof_rewriting
    var mirror: Bytes               // g_rewrite_buf

    /** The bytes are the encodings of the machine's commands. */
    ghost predicate Shows(s: Server)
      reads this
    {
      && file == EncodeAll(s.path) && mirror == EncodeAll(s.mirror) && rewriting == s.rewriting
      && unlinked == (if s.fd.Current? then None else Some(EncodeAll(s.fd.commands)))
    }

    constructor ()
      ensures Shows(START)
    {
      file, unlinked, rewriting, mirror := [], None, false, [];
    }

    /** aof_append_command, as dispatch_command calls it for a write before the command is executed. */
    method Append(argv: Command, ghost s: Server, ghost now: int, ghost fl: Floats)
      requires Shows(s)
      modifies this
      ensures Shows(Next(s, Execute(argv, now), fl))
    {
      hide EncodeAll, EncodeCommand, Exec, Decode, CStrs, IsWrite;
      if !IsWrite(argv) {
        NothingLogged(s, argv, now, fl);
        return;
      }
      var b := CommandToResp(argv);
      EncodeOne(CStrs(argv));
      EncodeAllAppend(s.path, [CStrs(argv)]);
      EncodeAllAppend(s.mirror, [CStrs(argv)]);
      if unlinked.None? {
        file := file + b;
      } else {
        EncodeAllAppend(s.fd.commands, [CStrs(argv)]);
        unlinked := Some(unlinked.value + b);
      }
      if rewriting {
        mirror := mirror + b;
      }
    }

    /** aof_reopen. */
    method Reopen(ghost s: Server)
      requires Shows(s)
      modifies this
      ensures Shows(Reopened(s))
    {
      EncodeAllAppend(s.path, s.mirror);
      unlinked := None;
      if |mirror| > 0 {
        file := file + mirror;
        mirror := [];
      }
    }

    /** cmd_bgrewriteaof in the parent: refused while a rewrite is in progress. */
    method BgRewrite(ghost s: Server, ghost fl: Floats) returns (started: bool)
      requires Shows(s)
      modifies this
      ensures started == !old(rewriting) && Shows(if started then Next(s, Fork, fl) else s)
    {
      started := !rewriting;
      rewriting := true;
    }

    /** aof_rewrite in the child, up to its rename: the file at the path is replaced, open descriptors keep the old
        one. */
    method Swap(image: seq<Command>, ghost s: Server, ghost fl: Floats)
      requires Shows(s)
      modifies this
      ensures Shows(Next(s, ChildRename(image), fl))
    {
      if unlinked.None? {
        unlinked := Some(file);
      }
      file := EncodeAll(image);
    }

    /** reap_children. */
    method ReapChildren(ghost s: Server, ghost fl: Floats)
      requires Shows(s)
      modifies this
      ensures Shows(Next(s, Reap, fl))
    {
      if rewriting {
        rewriting := false;
        Reopen(s.(rewriting := false, child := if s.child.Working? then s.child else NoChild));
      }
    }

    /** A new process starts from the file alone. */
    method StartOver(ghost s: Server, ghost fl: Floats, ghost clock: nat -> int)
      requires Shows(s)
      modifies this
      ensures Shows(Next(s, Restart(clock), fl))
    {
      unlinked, rewriting, mirror := None, false, [];
    }

    /** Startup: what replaying the log gives is the live store, whenever no swapped file is waiting to be reaped. */
    method Recover(ghost s: Server, ghost fl: Floats, ghost clock: nat -> int, ghost horizon: int)
      returns (commands: seq<Command>, rc: int)
      requires Shows(s) && Inv(s, fl, horizon) && !s.child.Swapped? && (forall i :: clock(i) <= horizon)
      requires forall i :: 0 <= i < |s.path| ==> Carries(s.path[i])
      ensures rc == 0 && ExecAll(map[], commands, fl, clock) == s.live
    {
      hide Inv, EncodeAll, ReplayOf, Carries, ExecAll;
      commands, rc := ReplayFile(file);
      FileReplays(s, fl, clock, horizon);
    }
  }

  lemma NothingLogged(s: Server, argv: Command, now: int, fl: Floats)
    requires !IsWrite(argv)
    ensures var t := Next(s, Execute(argv, now), fl);
            t.path == s.path && t.mirror == s.mirror && t.rewriting == s.rewriting && t.fd == s.fd
  {
    hide Exec, Decode, IsWrite;
    assert s.path + [] == s.path && s.mirror + [] == s.mirror;
    if s.fd.Orphan? {
      assert s.fd.commands + [] == s.fd.commands;
    }
  }

  lemma EncodeOne(c: Command)
    ensures EncodeAll([c]) == EncodeCommand(c)
  {
    assert [c][1..] == [];
  }
}
