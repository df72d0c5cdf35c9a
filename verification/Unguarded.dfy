/** The background rewrite without its guard: what a reap of the wrong child and a REWRITEAOF in between do. */
module Unguarded {
  import opened Orders
  import opened Resp
  import opened Keyspace
  import opened Requests
  import opened Clocks
  import opened Aof
  import opened Rewrite
  import opened Containers
  import opened Repeats
  import opened Protocol

  // ---- Runs of steps that may happen ----

  ghost predicate EnabledRun(s: Server, steps: seq<Step>, fl: Floats, horizon: int) {
    forall i :: 0 <= i < |steps| ==> Enabled(AfterAll(s, steps[..i], fl), steps[i], fl, horizon)
  }

  lemma {:induction false} AfterAppend(s: Server, a: seq<Step>, b: seq<Step>, fl: Floats)
    ensures AfterAll(s, a + b, fl) == AfterAll(AfterAll(s, a, fl), b, fl)
    decreases |b|
  {
    hide Next;
    if b == [] {
      assert a + b == a;
    } else {
      AfterAppend(s, a, b[..|b| - 1], fl);
      assert (a + b)[..|a + b| - 1] == a + b[..|b| - 1];
    }
  }

  lemma EnabledAppend(s: Server, a: seq<Step>, b: seq<Step>, fl: Floats, horizon: int)
    ensures EnabledRun(s, a + b, fl, horizon) <==>
              EnabledRun(s, a, fl, horizon) && EnabledRun(AfterAll(s, a, fl), b, fl, horizon)
    ensures AfterAll(s, a + b, fl) == AfterAll(AfterAll(s, a, fl), b, fl)
  {
    hide Enabled, AfterAll;
    AfterAppend(s, a, b, fl);
    forall i | 0 <= i < |a|
      ensures (a + b)[..i] == a[..i] && (a + b)[i] == a[i]
    {
    }
    forall i | 0 <= i < |b|
      ensures (a + b)[..|a| + i] == a + b[..i] && (a + b)[|a| + i] == b[i]
      ensures AfterAll(s, (a + b)[..|a| + i], fl) == AfterAll(AfterAll(s, a, fl), b[..i], fl)
    {
      assert (a + b)[..|a| + i] == a + b[..i];
      AfterAppend(s, a, b[..i], fl);
    }
    if EnabledRun(s, a, fl, horizon) && EnabledRun(AfterAll(s, a, fl), b, fl, horizon) {
      forall i | 0 <= i < |a + b|
        ensures Enabled(AfterAll(s, (a + b)[..i], fl), (a + b)[i], fl, horizon)
      {
        if i >= |a| {
          assert (a + b)[..|a| + (i - |a|)] == a + b[..i - |a|];
        }
      }
    }
    if EnabledRun(s, a + b, fl, horizon) {
      forall i | 0 <= i < |b|
        ensures Enabled(AfterAll(AfterAll(s, a, fl), b[..i], fl), b[i], fl, horizon)
      {
        assert Enabled(AfterAll(s, (a + b)[..|a| + i], fl), (a + b)[|a| + i], fl, horizon);
      }
    }
  }

  lemma OneStep(s: Server, step: Step, fl: Floats, horizon: int)
    ensures AfterAll(s, [step], fl) == Next(s, step, fl)
    ensures EnabledRun(s, [step], fl, horizon) <==> Enabled(s, step, fl, horizon)
  {
    hide Next, Enabled;
    assert [step][..0] == [] && AfterAll(s, [], fl) == s;
  }

  // ---- Commands in a row ----

  function LoggedBy(steps: seq<Step>): seq<Command> {
    if steps == [] then []
    else
      var last := steps[|steps| - 1];
      LoggedBy(steps[..|steps| - 1]) + if last.Execute? then LogOf(last.argv) else []
  }

  /** Commands, and reaps that find no rewrite in progress. */
  predicate Quiet(steps: seq<Step>, rewriting: bool) {
    forall i :: 0 <= i < |steps| ==> steps[i].Execute? || (steps[i].Reap? && !rewriting)
  }

  /** The server after commands of which these were logged. */
  ghost function Served(s: Server, cs: seq<Command>, fl: Floats, horizon: int): Server {
    s.(path := if s.fd.Current? then s.path + cs else s.path,
       fd := if s.fd.Current? then s.fd else Orphan(s.fd.commands + cs),
       mirror := if s.rewriting then s.mirror + cs else s.mirror,
       live := Run(s.live, cs, fl, horizon))
  }

  lemma ServedNothing(s: Server, fl: Floats, horizon: int)
    ensures Served(s, [], fl, horizon) == s
  {
    hide Run;
    RunNothing(s.live, fl, horizon);
    assert s.path + [] == s.path && s.mirror + [] == s.mirror;
    if s.fd.Orphan? {
      assert s.fd.commands + [] == s.fd.commands;
    }
  }

  lemma ServedMore(s: Server, cs: seq<Command>, argv: Command, now: int, fl: Floats, horizon: int)
    requires SafeStore(Run(s.live, cs, fl, horizon), horizon)
    requires Enabled(Served(s, cs, fl, horizon), Execute(argv, now), fl, horizon)
    ensures Next(Served(s, cs, fl, horizon), Execute(argv, now), fl) == Served(s, cs + LogOf(argv), fl, horizon)
    ensures SafeStore(Run(s.live, cs + LogOf(argv), fl, horizon), horizon)
  {
    hide Run, Exec, Decode, LogOf, SafeStore, SafeRequest;
    var l := LogOf(argv);
    LoggedActs(Run(s.live, cs, fl, horizon), argv, fl, now, horizon);
    RunAppend(s.live, cs, l, fl, horizon);
    assert s.path + cs + l == s.path + (cs + l) && s.mirror + cs + l == s.mirror + (cs + l);
    if s.fd.Orphan? {
      assert s.fd.commands + cs + l == s.fd.commands + (cs + l);
    }
  }

  lemma ReapIdle(s: Server, cs: seq<Command>, fl: Floats, horizon: int)
    requires !s.rewriting
    ensures Next(Served(s, cs, fl, horizon), Reap, fl) == Served(s, cs, fl, horizon)
  {
    hide Run;
  }

  lemma LoggedSnoc(steps: seq<Step>, last: Step)
    ensures LoggedBy(steps + [last]) == LoggedBy(steps) + if last.Execute? then LogOf(last.argv) else []
  {
    hide LogOf;
    assert (steps + [last])[..|steps|] == steps;
  }

  lemma QuietStep(s: Server, cs: seq<Command>, step: Step, fl: Floats, horizon: int)
    requires SafeStore(Served(s, cs, fl, horizon).live, horizon) && Quiet([step], s.rewriting)
    requires Enabled(Served(s, cs, fl, horizon), step, fl, horizon)
    ensures var more := cs + if step.Execute? then LogOf(step.argv) else [];
            && Next(Served(s, cs, fl, horizon), step, fl) == Served(s, more, fl, horizon)
            && SafeStore(Served(s, more, fl, horizon).live, horizon)
  {
    hide SafeStore, Enabled, LogOf, Run, Next;
    assert step == [step][0];
    if step.Execute? {
      ServedMore(s, cs, step.argv, step.now, fl, horizon);
    } else {
      ReapIdle(s, cs, fl, horizon);
      assert cs + [] == cs;
    }
  }

  lemma {:induction false} QuietRun(s: Server, steps: seq<Step>, fl: Floats, horizon: int)
    requires SafeStore(s.live, horizon) && Quiet(steps, s.rewriting) && EnabledRun(s, steps, fl, horizon)
    ensures AfterAll(s, steps, fl) == Served(s, LoggedBy(steps), fl, horizon)
    ensures SafeStore(AfterAll(s, steps, fl).live, horizon)
  {
    if steps == [] {
      ServedNothing(s, fl, horizon);
    } else {
      hide SafeStore, Enabled, LogOf, Run, Next, Served, EnabledRun, AfterAll, LoggedBy;
      var n := |steps| - 1;
      var init, last := steps[..n], steps[n];
      assert steps == init + [last];
      EnabledAppend(s, init, [last], fl, horizon);
      OneStep(AfterAll(s, init, fl), last, fl, horizon);
      QuietRun(s, init, fl, horizon);
      LoggedSnoc(init, last);
      QuietStep(s, LoggedBy(init), last, fl, horizon);
    }
  }

  // ---- The moment after ----

  /** At the moment after a reap during a rewrite the file replays to the live store exactly when the child has swapped
      the file or running the mirrored commands twice changes nothing. */
  lemma ReapExact(s: Server, fl: Floats, horizon: int)
    requires Inv(s, fl, horizon) && s.rewriting
    ensures Run(map[], Next(s, Reap, fl).path, fl, horizon) == s.live
      <==> s.child.Swapped? || Run(s.live, s.mirror, fl, horizon) == s.live
  {
    hide Run, SafeStore, Exec;
    RunAppend(map[], s.path, s.mirror, fl, horizon);
  }

  /** The same at the moment after REWRITEAOF: it flushes mirrored commands behind an image that already contains their
      effect. */
  lemma RewriteNowExact(s: Server, image: seq<Command>, fl: Floats, horizon: int)
    requires Inv(s, fl, horizon) && Enabled(s, RewriteNow(image), fl, horizon)
    ensures Run(map[], Next(s, RewriteNow(image), fl).path, fl, horizon) == s.live
      <==> Run(s.live, s.mirror, fl, horizon) == s.live
  {
    hide Run, SafeStore, Exec;
    RunAppend(map[], image, s.mirror, fl, horizon);
  }

  /** The mirrored commands are writes that `Repeats` speaks about. */
  ghost predicate PlainMirror(s: Server, fl: Floats) {
    forall i :: 0 <= i < |s.mirror| ==> Plain(Decode(s.mirror[i], fl))
  }

  /** The mirror runs twice without a trace exactly when every list it pushes to is also overwritten by it. */
  lemma MirrorRepeats(s: Server, fl: Floats, horizon: int)
    requires Inv(s, fl, horizon) && PlainMirror(s, fl)
    ensures Run(s.live, s.mirror, fl, horizon) == s.live <==> forall k :: !PushedOnly(s.live, s.mirror, fl, k)
  {
    hide Run, SafeStore, Decode, Plain, SafeRequest, WellFormedRequest, PushedOnly;
    if s.child.NoChild? {
      RunNothing(s.live, fl, horizon);
      NothingPushed(s.live, fl);
    } else {
      forall i | 0 <= i < |s.mirror|
        ensures WellFormedRequest(Decode(s.mirror[i], fl))
      {
        DecodedWellFormed(s.mirror[i], fl);
      }
      RepeatExact(s.child.snapshot, s.mirror, fl, horizon);
    }
  }

  lemma NothingPushed(s: Store, fl: Floats)
    ensures forall k :: !PushedOnly(s, [], fl, k)
  {
  }

  /** A test on the mirrored commands and the live store: at the moment after a reap that comes before the child's swap
      the file is right if and only if no list is pushed to without being overwritten as well. */
  lemma EarlyReapTest(s: Server, fl: Floats, horizon: int)
    requires Inv(s, fl, horizon) && s.rewriting && !s.child.Swapped? && PlainMirror(s, fl)
    ensures Run(map[], Next(s, Reap, fl).path, fl, horizon) == s.live
      <==> forall k :: !PushedOnly(s.live, s.mirror, fl, k)
  {
    hide Run, SafeStore, Exec, PushedOnly, Plain;
    ReapExact(s, fl, horizon);
    MirrorRepeats(s, fl, horizon);
  }

  /** The same test for the moment after REWRITEAOF. */
  lemma RewriteNowTest(s: Server, image: seq<Command>, fl: Floats, horizon: int)
    requires Inv(s, fl, horizon) && Enabled(s, RewriteNow(image), fl, horizon) && PlainMirror(s, fl)
    ensures Run(map[], Next(s, RewriteNow(image), fl).path, fl, horizon) == s.live
      <==> forall k :: !PushedOnly(s.live, s.mirror, fl, k)
  {
    hide Run, SafeStore, Exec, PushedOnly, Plain, Inv, Enabled, Next;
    RewriteNowExact(s, image, fl, horizon);
    MirrorRepeats(s, fl, horizon);
  }

  // ---- For good ----

  /** A reap settles the matter, so that every guarded run from there on keeps file and store together, exactly when the
      child has swapped the file, or is dead and running the mirrored commands twice changes nothing. */
  lemma ReapSettles(s: Server, fl: Floats, horizon: int)
    requires Inv(s, fl, horizon) && s.rewriting
    ensures Inv(Next(s, Reap, fl), fl, horizon)
      <==> s.child.Swapped? || (s.child.Dead? && Run(s.live, s.mirror, fl, horizon) == s.live)
  {
    hide Run, SafeStore, Exec;
    RunAppend(map[], s.path, s.mirror, fl, horizon);
    SafeAppend(s.path, s.mirror, fl, horizon);
  }

  /** For a dead child the test on the mirrored commands is final. */
  lemma DeadReapTest(s: Server, fl: Floats, horizon: int)
    requires Inv(s, fl, horizon) && s.child.Dead? && PlainMirror(s, fl)
    ensures Inv(Next(s, Reap, fl), fl, horizon) <==> forall k :: !PushedOnly(s.live, s.mirror, fl, k)
  {
    hide Run, SafeStore, Exec, PushedOnly, Plain, Next;
    ReapSettles(s, fl, horizon);
    MirrorRepeats(s, fl, horizon);
  }

  /** For a child still at work it is not: after a reap that came too early, its rename takes the log back to the
      snapshot, whatever is executed or reaped before or after. The file is right exactly when all that was executed
      since the fork leaves the snapshot as it was. */
  lemma EarlyReapForgets(s: Server, before: seq<Step>, image: seq<Command>, after: seq<Step>, fl: Floats, horizon: int)
    requires Inv(s, fl, horizon) && s.child.Working? && Quiet(before, false) && Quiet(after, false)
    requires EnabledRun(s, [Reap] + before + [ChildRename(image)] + after, fl, horizon)
    ensures var t := AfterAll(s, [Reap] + before + [ChildRename(image)] + after, fl);
            && !t.rewriting && t.fd.Orphan? && t.path == image
            && Run(map[], t.path, fl, horizon) == s.child.snapshot
            && t.live == Run(s.child.snapshot, s.mirror + LoggedBy(before) + LoggedBy(after), fl, horizon)
            && (Run(map[], t.path, fl, horizon) == t.live <==>
                  Run(s.child.snapshot, s.mirror + LoggedBy(before) + LoggedBy(after), fl, horizon) == s.child.snapshot)
  {
    hide Run, SafeStore, LogOf, LoggedBy, EnabledRun, AfterAll, SafeCommands;
    var snap, b, a := s.child.snapshot, LoggedBy(before), LoggedBy(after);
    EnabledAppend(s, [Reap] + before + [ChildRename(image)], after, fl, horizon);
    EnabledAppend(s, [Reap] + before, [ChildRename(image)], fl, horizon);
    EnabledAppend(s, [Reap], before, fl, horizon);
    OneStep(s, Reap, fl, horizon);
    var s1 := Next(s, Reap, fl);
    QuietRun(s1, before, fl, horizon);
    var s2 := Served(s1, b, fl, horizon);
    OneStep(s2, ChildRename(image), fl, horizon);
    var s3 := Next(s2, ChildRename(image), fl);
    QuietRun(s3, after, fl, horizon);
    RunAppend(snap, s.mirror, b, fl, horizon);
    RunAppend(snap, s.mirror + b, a, fl, horizon);
  }

  /** REWRITEAOF while a child is at work empties the mirror that the child's rename needs: after rename and reap the
      file holds the snapshot and what was executed since the REWRITEAOF, and nothing of what came between fork and
      REWRITEAOF. It is right exactly when that makes no difference. */
  lemma RewriteNowForgets(s: Server, image0: seq<Command>, before: seq<Step>, image: seq<Command>, between: seq<Step>,
                          after: seq<Step>, fl: Floats, horizon: int)
    requires Inv(s, fl, horizon) && s.child.Working?
    requires Quiet(before, true) && Quiet(between, true) && Quiet(after, false)
    requires EnabledRun(s, [RewriteNow(image0)] + before + [ChildRename(image)] + between + [Reap] + after, fl, horizon)
    ensures var t := AfterAll(s, [RewriteNow(image0)] + before + [ChildRename(image)] + between + [Reap] + after, fl);
            var since := LoggedBy(before) + LoggedBy(between) + LoggedBy(after);
            && !t.rewriting && t.fd.Current? && t.child.NoChild?
            && Run(map[], t.path, fl, horizon) == Run(s.child.snapshot, since, fl, horizon)
            && t.live == Run(s.child.snapshot, s.mirror + since, fl, horizon)
            && (Run(map[], t.path, fl, horizon) == t.live <==>
                  Run(s.child.snapshot, since, fl, horizon) == Run(s.child.snapshot, s.mirror + since, fl, horizon))
  {
    hide Run, SafeStore, LogOf, LoggedBy, EnabledRun, AfterAll, SafeCommands;
    var snap, b, w, a := s.child.snapshot, LoggedBy(before), LoggedBy(between), LoggedBy(after);
    var run1 := [RewriteNow(image0)] + before;
    var run2 := run1 + [ChildRename(image)] + between;
    EnabledAppend(s, run2 + [Reap], after, fl, horizon);
    EnabledAppend(s, run2, [Reap], fl, horizon);
    EnabledAppend(s, run1 + [ChildRename(image)], between, fl, horizon);
    EnabledAppend(s, run1, [ChildRename(image)], fl, horizon);
    EnabledAppend(s, [RewriteNow(image0)], before, fl, horizon);
    OneStep(s, RewriteNow(image0), fl, horizon);
    var s1 := Next(s, RewriteNow(image0), fl);
    QuietRun(s1, before, fl, horizon);
    var s2 := Served(s1, b, fl, horizon);
    OneStep(s2, ChildRename(image), fl, horizon);
    var s3 := Next(s2, ChildRename(image), fl);
    QuietRun(s3, between, fl, horizon);
    var s4 := Served(s3, w, fl, horizon);
    OneStep(s4, Reap, fl, horizon);
    var s5 := Next(s4, Reap, fl);
    QuietRun(s5, after, fl, horizon);
    assert [] + b + w == b + w;
    assert s5.path == image + (b + w);
    Ends(map[], image, b + w, a, fl, horizon);
    Ends(s.live, b, w, a, fl, horizon);
    RunAppend(snap, s.mirror, b + w + a, fl, horizon);
    RunAppend(snap, b + w, a, fl, horizon);
  }

  lemma Ends(s: Store, x: seq<Command>, y: seq<Command>, z: seq<Command>, fl: Floats, now: int)
    ensures Run(s, x + y + z, fl, now) == Run(Run(Run(s, x, fl, now), y, fl, now), z, fl, now)
  {
    hide Run;
    RunAppend(s, x + y, z, fl, now);
    RunAppend(s, x, y, fl, now);
  }

  lemma Behind(s: Store, x: seq<Command>, m: seq<Command>, b: seq<Command>, a: seq<Command>, fl: Floats, now: int)
    ensures Run(s, x + m + b + b + a, fl, now) == Run(Run(s, x, fl, now), m + b + b + a, fl, now)
  {
    hide Run;
    assert x + m + b + b + a == x + (m + b + b + a);
    RunAppend(s, x, m + b + b + a, fl, now);
  }

  /** REWRITEAOF during a rewrite, with a reap before any rename: what was executed in between is in the file twice. */
  lemma RewriteNowRepeats(s: Server, image0: seq<Command>, before: seq<Step>, after: seq<Step>, fl: Floats,
                          horizon: int)
    requires Inv(s, fl, horizon) && s.rewriting && Quiet(before, true) && Quiet(after, false)
    requires EnabledRun(s, [RewriteNow(image0)] + before + [Reap] + after, fl, horizon)
    ensures var t := AfterAll(s, [RewriteNow(image0)] + before + [Reap] + after, fl);
            var b, a := LoggedBy(before), LoggedBy(after);
            && !t.rewriting && t.fd.Current?
            && Run(map[], t.path, fl, horizon) == Run(s.live, s.mirror + b + b + a, fl, horizon)
            && t.live == Run(s.live, b + a, fl, horizon)
            && (Run(map[], t.path, fl, horizon) == t.live <==>
                  Run(s.live, s.mirror + b + b + a, fl, horizon) == Run(s.live, b + a, fl, horizon))
  {
    hide Run, SafeStore, LogOf, LoggedBy, EnabledRun, AfterAll, SafeCommands;
    var b, a := LoggedBy(before), LoggedBy(after);
    var run1 := [RewriteNow(image0)] + before;
    EnabledAppend(s, run1 + [Reap], after, fl, horizon);
    EnabledAppend(s, run1, [Reap], fl, horizon);
    EnabledAppend(s, [RewriteNow(image0)], before, fl, horizon);
    OneStep(s, RewriteNow(image0), fl, horizon);
    var s1 := Next(s, RewriteNow(image0), fl);
    QuietRun(s1, before, fl, horizon);
    var s2 := Served(s1, b, fl, horizon);
    OneStep(s2, Reap, fl, horizon);
    var s3 := Next(s2, Reap, fl);
    QuietRun(s3, after, fl, horizon);
    assert [] + b == b;
    Behind(map[], image0, s.mirror, b, a, fl, horizon);
    RunAppend(s.live, b, a, fl, horizon);
  }

  // ---- Runs that break it ----

  function Push(k: Bytes, v: Bytes): Command {
    ["RPUSH", k, v]
  }

  lemma PushDecodes(k: Bytes, v: Bytes, fl: Floats)
    requires NulFree(k) && NulFree(v)
    ensures Decode(Push(k, v), fl) == OnKey(k, OpPush(false, false, [v])) && LogOf(Push(k, v)) == [Push(k, v)]
  {
    hide Decode, CStrs, Lower;
    Names();
    var c := Push(k, v);
    assert NulFrees(["SET", "PXAT", "PEXPIREAT", "RPUSH", "HSET", "SADD", "ZADD"]);
    assert NulFree(c[0]) by { assert c[0] == ["SET", "PXAT", "PEXPIREAT", "RPUSH", "HSET", "SADD", "ZADD"][3]; }
    DecodeArgs(c, fl);
    assert c[2..] == [v];
  }

  function ListAt(k: Bytes, l: seq<Bytes>): Store {
    map[k := Obj(List(l), -1)]
  }

  lemma PushMeans(s: Store, k: Bytes, v: Bytes, l: seq<Bytes>, now: int)
    requires (s == map[] && l == []) || s == ListAt(k, l)
    ensures Exec(s, OnKey(k, OpPush(false, false, [v])), now).0 == ListAt(k, l + [v])
  {
    hide OnString, OnHash, OnSet, OnZSet, OnAny, Rev;
  }

  lemma PushTwice(k: Bytes, v: Bytes, fl: Floats)
    requires NulFree(k) && NulFree(v)
    ensures Run(map[], [Push(k, v), Push(k, v)], fl, 0) == ListAt(k, [v, v])
  {
    hide Decode, LogOf, Exec, Push, ListAt;
    var c := Push(k, v);
    PushDecodes(k, v, fl);
    RunOne(map[], c, fl, 0);
    PushMeans(map[], k, v, [], 0);
    PushMeans(ListAt(k, [v]), k, v, [v], 0);
    RunSnoc(map[], [c], c, fl, 0);
    assert [] + [v] == [v] && [v] + [v] == [v, v] && [c] + [c] == [c, c];
  }

  lemma RunStart(fl: Floats, horizon: int)
    ensures AfterAll(START, [], fl) == START && EnabledRun(START, [], fl, horizon)
  {
  }

  /** One more step of a run that may happen. */
  lemma Extend(s: Server, steps: seq<Step>, step: Step, fl: Floats, horizon: int)
    requires EnabledRun(s, steps, fl, horizon) && Enabled(AfterAll(s, steps, fl), step, fl, horizon)
    ensures EnabledRun(s, steps + [step], fl, horizon)
    ensures AfterAll(s, steps + [step], fl) == Next(AfterAll(s, steps, fl), step, fl)
  {
    hide EnabledRun, Enabled, Next, AfterAll;
    EnabledAppend(s, steps, [step], fl, horizon);
    OneStep(AfterAll(s, steps, fl), step, fl, horizon);
  }

  /** Another child, say of BGSAVE, exits while the rewrite child is still at work. One push is live, two are in the
      file. */
  lemma EarlyReapDuplicates(k: Bytes, v: Bytes, fl: Floats)
    requires NulFree(k) && NulFree(v)
    ensures var steps := [Fork, Execute(Push(k, v), 0), Reap];
            && EnabledRun(START, steps, fl, 0)
            && AfterAll(START, steps, fl).live == ListAt(k, [v])
            && Run(map[], AfterAll(START, steps, fl).path, fl, 0) == ListAt(k, [v, v])
  {
    hide Run, Decode, LogOf, Exec, Push, ListAt, EnabledRun, AfterAll, SafeStore;
    var c := Push(k, v);
    PushDecodes(k, v, fl);
    PushMeans(map[], k, v, [], 0);
    assert [] + [v] == [v];
    PushTwice(k, v, fl);
    RunStart(fl, 0);
    Extend(START, [], Fork, fl, 0);
    assert [] + [Fork] == [Fork];
    Extend(START, [Fork], Execute(c, 0), fl, 0);
    assert [Fork] + [Execute(c, 0)] == [Fork, Execute(c, 0)];
    Extend(START, [Fork, Execute(c, 0)], Reap, fl, 0);
    assert [Fork, Execute(c, 0)] + [Reap] == [Fork, Execute(c, 0), Reap];
    assert [] + [c] == [c] && [c] + [c] == [c, c];
  }

  /** The same early exit with nothing mirrored yet: the push that follows is gone once the rewrite child renames its
      file, and no reap brings it back. */
  lemma EarlyReapLoses(k: Bytes, v: Bytes, fl: Floats)
    requires NulFree(k) && NulFree(v)
    ensures var steps := [Fork, Reap, Execute(Push(k, v), 0), ChildRename([]), Reap];
            && EnabledRun(START, steps, fl, 0)
            && AfterAll(START, steps, fl).live == ListAt(k, [v])
            && AfterAll(START, steps, fl).path == [] && !AfterAll(START, steps, fl).rewriting
            && Run(map[], AfterAll(START, steps, fl).path, fl, 0) == map[]
  {
    hide Run, Decode, LogOf, Exec, Push, ListAt, EnabledRun, AfterAll, SafeStore;
    var c := Push(k, v);
    PushDecodes(k, v, fl);
    PushMeans(map[], k, v, [], 0);
    assert [] + [v] == [v];
    RunNothing(map[], fl, 0);
    RunStart(fl, 0);
    Extend(START, [], Fork, fl, 0);
    assert [] + [Fork] == [Fork];
    Extend(START, [Fork], Reap, fl, 0);
    assert [Fork] + [Reap] == [Fork, Reap];
    Extend(START, [Fork, Reap], Execute(c, 0), fl, 0);
    assert [Fork, Reap] + [Execute(c, 0)] == [Fork, Reap, Execute(c, 0)];
    Extend(START, [Fork, Reap, Execute(c, 0)], ChildRename([]), fl, 0);
    assert [Fork, Reap, Execute(c, 0)] + [ChildRename([])] == [Fork, Reap, Execute(c, 0), ChildRename([])];
    Extend(START, [Fork, Reap, Execute(c, 0), ChildRename([])], Reap, fl, 0);
    assert [Fork, Reap, Execute(c, 0), ChildRename([])] + [Reap] == [Fork, Reap, Execute(c, 0), ChildRename([]), Reap];
  }

  function Put(k: Bytes, v: Bytes): Command {
    ["SET", k, v]
  }

  lemma PutMeans(k: Bytes, v: Bytes, fl: Floats)
    requires NulFree(k) && NulFree(v)
    ensures Decode(Put(k, v), fl) == OnKey(k, OpSet(v, Never, false, false)) && LogOf(Put(k, v)) == [Put(k, v)]
    ensures Exec(map[], OnKey(k, OpSet(v, Never, false, false)), 0).0 == map[k := Obj(Str(v), -1)]
    ensures Run(map[], [Put(k, v)], fl, 0) == map[k := Obj(Str(v), -1)]
  {
    hide Decode, CStrs, Lower, Run;
    var c := Put(k, v);
    SetDecodes(k, v, fl);
    Names();
    assert NulFree(c[0]) by { assert c[0] == ["SET", "PXAT", "PEXPIREAT", "RPUSH", "HSET", "SADD", "ZADD"][0]; }
    CStrsOfNulFree(c);
    assert CStr(c[0]) == CStrs(c)[0];
    RunOne(map[], c, fl, 0);
  }

  function UpToRewrite(c: Command): seq<Step> {
    [Fork, Execute(c, 0), RewriteNow([c])]
  }

  lemma RewrittenEarly(k: Bytes, v: Bytes, fl: Floats)
    requires NulFree(k) && NulFree(v)
    ensures var c := Put(k, v);
            && EnabledRun(START, UpToRewrite(c), fl, 0)
            && AfterAll(START, UpToRewrite(c), fl)
               == Server(map[k := Obj(Str(v), -1)], [c, c], Current, true, [], Working(map[]))
  {
    hide Run, Decode, LogOf, Exec, Put, EnabledRun, AfterAll, SafeStore;
    var c := Put(k, v);
    PutMeans(k, v, fl);
    RunStart(fl, 0);
    Extend(START, [], Fork, fl, 0);
    assert [] + [Fork] == [Fork];
    Extend(START, [Fork], Execute(c, 0), fl, 0);
    assert [Fork] + [Execute(c, 0)] == [Fork, Execute(c, 0)];
    Extend(START, [Fork, Execute(c, 0)], RewriteNow([c]), fl, 0);
    assert [Fork, Execute(c, 0)] + [RewriteNow([c])] == UpToRewrite(c);
    assert [] + [c] == [c] && [c] + [c] == [c, c];
  }

  /** REWRITEAOF before the child has finished: the SET is gone once the child has renamed its file and has been
      reaped. */
  lemma RewriteNowLoses(k: Bytes, v: Bytes, fl: Floats)
    requires NulFree(k) && NulFree(v)
    ensures var steps := UpToRewrite(Put(k, v)) + [ChildRename([])] + [Reap];
            && EnabledRun(START, steps, fl, 0)
            && AfterAll(START, steps, fl).live == map[k := Obj(Str(v), -1)]
            && Run(map[], AfterAll(START, steps, fl).path, fl, 0) == map[]
  {
    hide Run, Put, UpToRewrite, EnabledRun, AfterAll, SafeStore;
    var run := UpToRewrite(Put(k, v));
    RewrittenEarly(k, v, fl);
    RunNothing(map[], fl, 0);
    Extend(START, run, ChildRename([]), fl, 0);
    Extend(START, run + [ChildRename([])], Reap, fl, 0);
    var none: seq<Command> := [];
    assert none + none == none;
  }
}
