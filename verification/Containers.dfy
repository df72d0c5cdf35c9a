/** No command leaves an empty list, hash, set or sorted set behind, with two exceptions. */
module Containers {
  import opened Orders
  import opened Ints
  import opened Keyspace
  import opened Resp
  import opened Requests
  import opened Rewrite

  ghost predicate NoEmpty(s: Store) {
    forall k :: k in s ==> !EmptyContainer(s[k].value)
  }

  /** What the arity and argument checks guarantee before an operation starts. */
  predicate WellFormed(op: Op) {
    match op
    case OpIncr(d) => -LLONG_MAX <= d <= LLONG_MAX
    case OpPush(_, _, vs) => vs != []
    case OpHSet(pairs) => pairs != []
    case OpHIncrBy(_, d) => -LLONG_MAX <= d <= LLONG_MAX
    case OpSAdd(names) => names != []
    case OpZAdd(flags, entries) => entries != [] && !(flags.nx && flags.xx) && (flags.incr ==> |entries| == 1)
    case _ => true
  }

  /** The exceptions: ZADD creates the key before it finds that its first score is no number, and HINCRBYFLOAT before it
      finds that the sum is infinite. */
  predicate LeavesEmpty(op: Op, o: Option<Obj>) {
    || (op.OpZAdd? && o.None? && !op.flags.xx && op.entries != [] && op.entries[0].0.None?)
    || (op.OpHIncrByFloat? && o.None? && !op.step.Finite?)
  }

  lemma {:induction false} ZAddGrows(p: ZProgress, flags: ZFlags, entries: seq<(Option<Score>, Bytes)>)
    ensures p.scores.Keys <= ZAddAll(p, flags, entries).scores.Keys
    decreases |entries|
  {
    if entries != [] && !p.bad && entries[0].0.Some? {
      var score, m := entries[0].0.value, entries[0].1;
      var known := m in p.scores;
      if (flags.nx && known) || (flags.xx && !known) {
        ZAddGrows(p, flags, entries[1..]);
      } else {
        var p' := ZProgress(p.scores[m := score], p.added + (if known then 0 else 1),
                            p.changed + (if known && p.scores[m] != score then 1 else 0), false);
        ZAddGrows(p', flags, entries[1..]);
      }
    }
  }

  /** ZADD on a missing key stores something unless its first score is bad. */
  lemma ZAddFirst(flags: ZFlags, entries: seq<(Option<Score>, Bytes)>)
    requires entries != [] && !flags.xx
    ensures ZAddAll(ZProgress(map[], 0, 0, false), flags, entries).scores == map[] <==> entries[0].0.None?
  {
    if entries[0].0.Some? {
      var p := ZProgress(map[entries[0].1 := entries[0].0.value], 1, 0, false);
      ZAddGrows(p, flags, entries[1..]);
      assert entries[0].1 in p.scores;
      assert ZAddAll(ZProgress(map[], 0, 0, false), flags, entries) == ZAddAll(p, flags, entries[1..]);
      assert entries[0].1 in ZAddAll(p, flags, entries[1..]).scores.Keys;
    }
  }

  lemma {:induction false} FieldsGrow(m: map<Bytes, Bytes>, pairs: seq<(Bytes, Bytes)>)
    ensures WithFields(m, pairs).Keys == m.Keys + FieldsOf(pairs)
    decreases |pairs|
  {
    if pairs != [] {
      FieldsGrow(m[pairs[0].0 := pairs[0].1], pairs[1..]);
      assert pairs == [pairs[0]] + pairs[1..];
      assert FieldsOf(pairs) == {pairs[0].0} + FieldsOf(pairs[1..]);
    }
  }

  lemma FloatEmpties(was: Obj, name: Bytes, step: Score, fl: Floats)
    requires was.value.Hash?
    ensures var o' := HIncrFloat(was, name, step, fl).0;
            && o'.Some? && o'.value.value.Hash?
            && (o'.value.value.fields == map[] <==> was.value.fields == map[] && !step.Finite?)
  {
    hide CStr;
    var fields := HIncrFloat(was, name, step, fl).0.value.value.fields;
    assert fields == was.value.fields || name in fields;
    assert was.value.fields == map[] ==> name !in was.value.fields;
  }

  lemma HashNotEmpty(op: Op, o: Option<Obj>)
    requires WellFormed(op) && (o.Some? ==> !EmptyContainer(o.value.value))
    requires op.OpHSet? || op.OpHDel? || op.OpHGet? || op.OpHIncrBy? || op.OpHIncrByFloat?
    ensures var o' := OnHash(op, o).0; o'.Some? && EmptyContainer(o'.value.value) <==> LeavesEmpty(op, o)
  {
    if op.OpHSet? && (o.None? || o.value.value.Hash?) {
      FieldsGrow(OrNew(o, Hash(map[])).value.fields, op.pairs);
      assert op.pairs[0] in op.pairs && op.pairs[0].0 in FieldsOf(op.pairs);
    }
    if op.OpHIncrByFloat? && (o.None? || o.value.value.Hash?) {
      FloatEmpties(OrNew(o, Hash(map[])), op.name, op.step, op.fl);
    }
  }

  lemma SetNotEmpty(op: Op, o: Option<Obj>)
    requires WellFormed(op) && (o.Some? ==> !EmptyContainer(o.value.value))
    requires op.OpSAdd? || op.OpSRem? || op.OpSIsMember?
    ensures var o' := OnSet(op, o).0; o'.Some? ==> !EmptyContainer(o'.value.value)
  {
    if op.OpSAdd? {
      assert op.names[0] in NamesOf(op.names);
    }
  }

  lemma ListNotEmpty(op: Op, o: Option<Obj>)
    requires WellFormed(op) && (o.Some? ==> !EmptyContainer(o.value.value))
    requires op.OpPush? || op.OpPop? || op.OpLRem? || op.OpLTrim? || op.OpLRange?
    ensures var o' := OnList(op, o).0; o'.Some? ==> !EmptyContainer(o'.value.value)
  {
    if op.OpPush? {
      assert |Rev(op.values)| > 0;
    }
  }

  lemma ZSetNotEmpty(op: Op, o: Option<Obj>)
    requires WellFormed(op) && (o.Some? ==> !EmptyContainer(o.value.value))
    requires op.OpZAdd? || op.OpZRem? || op.OpZScore?
    ensures var o' := OnZSet(op, o).0; o'.Some? && EmptyContainer(o'.value.value) <==> LeavesEmpty(op, o)
  {
    if op.OpZAdd? && !op.flags.incr && !(o.None? && op.flags.xx) && (o.None? || o.value.value.ZSet?) {
      if o.Some? {
        var z := o.value.value.scores;
        ZAddGrows(ZProgress(z, 0, 0, false), op.flags, op.entries);
        assert z.Keys != {};
      } else {
        ZAddFirst(op.flags, op.entries);
      }
    }
  }

  /** An operation stores an empty container exactly in the exceptional cases. */
  lemma OpNotEmpty(op: Op, o: Option<Obj>, now: int)
    requires WellFormed(op) && (o.Some? ==> !EmptyContainer(o.value.value))
    ensures var o' := OnKeyObject(op, o, now).0; o'.Some? && EmptyContainer(o'.value.value) <==> LeavesEmpty(op, o)
  {
    hide OnList, OnHash, OnSet, OnZSet;
    if op.OpHSet? || op.OpHDel? || op.OpHGet? || op.OpHIncrBy? || op.OpHIncrByFloat? {
      HashNotEmpty(op, o);
    } else if op.OpSAdd? || op.OpSRem? || op.OpSIsMember? {
      SetNotEmpty(op, o);
    } else if op.OpPush? || op.OpPop? || op.OpLRem? || op.OpLTrim? || op.OpLRange? {
      ListNotEmpty(op, o);
    } else if op.OpZAdd? || op.OpZRem? || op.OpZScore? {
      ZSetNotEmpty(op, o);
    }
  }

  predicate WellFormedRequest(r: Request) {
    r.OnKey? ==> WellFormed(r.op)
  }

  /** The request runs into an exception in this store. */
  predicate Exceptional(s: Store, r: Request, now: int) {
    r.OnKey? && LeavesEmpty(r.op, Live(s, r.key, now))
  }

  /** One request keeps the store free of empty containers if and only if it avoids the exceptions. */
  lemma StepNoEmpty(s: Store, r: Request, now: int)
    requires NoEmpty(s) && WellFormedRequest(r)
    ensures NoEmpty(Exec(s, r, now).0) <==> !Exceptional(s, r, now)
  {
    hide OnKeyObject, LeavesEmpty;
    if r.OnKey? {
      OpNotEmpty(r.op, Live(s, r.key, now), now);
      var s' := Exec(s, r, now).0;
      var o' := OnKeyObject(r.op, Live(s, r.key, now), now).0;
      if o'.Some? {
        assert s' == s[r.key := o'.value];
        assert r.key in s' && s'[r.key] == o'.value;
      }
    }
  }

  lemma PairsNonEmpty(a: seq<Bytes>, fl: Floats)
    requires |a| >= 2
    ensures Pairs(a) != [] && ScorePairs(a, fl) != [] && (|a| == 2 ==> |ScorePairs(a, fl)| == 1)
  {
    if |a| == 2 {
      assert a[2..] == [];
    }
  }

  lemma ParsedRange(s: Bytes)
    ensures ParseInt(s).Some? ==> -LLONG_MAX <= ParseInt(s).value <= LLONG_MAX
  {
    hide DigitsValue;
  }

  lemma HashWellFormed(name: Bytes, a: seq<Bytes>, fl: Floats)
    requires |a| >= 1
    ensures WellFormedRequest(DecodeHash(name, a)) && WellFormedRequest(DecodeHashFloat(a, fl))
  {
    hide ParseInt, Pairs;
    if |a| >= 4 {
      PairsNonEmpty(a[2..], fl);
      ParsedRange(a[3]);
    }
  }

  lemma ZSetWellFormed(name: Bytes, a: seq<Bytes>, fl: Floats)
    requires |a| >= 1
    ensures WellFormedRequest(DecodeZSet(name, a, fl))
  {
    hide ScorePairs, ZAddFlags;
    if name == "zadd" && |a| >= 4 {
      var rest := ZAddFlags(a[2..], ZFlags(false, false, false, false)).1;
      if |rest| >= 2 {
        PairsNonEmpty(rest, fl);
      }
    }
  }

  /** Whatever the client sends, an operation that starts meets the checks. */
  lemma DecodedWellFormed(argv: Command, fl: Floats)
    ensures WellFormedRequest(Decode(argv, fl))
  {
    hide DecodeHash, DecodeHashFloat, DecodeZSet, CStrs, Lower, SetOptions, ParseInt, WellFormed;
    if argv != [] {
      var a := CStrs(argv);
      var name := Lower(a[0]);
      HashWellFormed(name, a, fl);
      ZSetWellFormed(name, a, fl);
      OtherWellFormed(name, a);
    }
  }

  lemma OtherWellFormed(name: Bytes, a: seq<Bytes>)
    requires |a| >= 1
    ensures WellFormedRequest(DecodeString(name, a)) && WellFormedRequest(DecodeList(name, a))
    ensures WellFormedRequest(DecodeSet(name, a)) && WellFormedRequest(DecodeKeys(name, a))
  {
    hide SetOptions, ParseInt;
  }

  datatype Timed = Timed(argv: Command, now: int)

  ghost function RunAll(s: Store, cs: seq<Timed>, fl: Floats): Store {
    if cs == [] then s else Exec(RunAll(s, cs[..|cs| - 1], fl), Decode(cs[|cs| - 1].argv, fl), cs[|cs| - 1].now).0
  }

  /** No reachable store holds an empty container, over every run of commands that avoids the exceptions. */
  lemma {:induction false} RunNoEmpty(s: Store, cs: seq<Timed>, fl: Floats)
    requires NoEmpty(s)
    requires forall i :: 0 <= i < |cs| ==> !Exceptional(RunAll(s, cs[..i], fl), Decode(cs[i].argv, fl), cs[i].now)
    ensures NoEmpty(RunAll(s, cs, fl))
  {
    hide NoEmpty, Exceptional, Exec, Decode, WellFormedRequest;
    if cs != [] {
      var n := |cs| - 1;
      assert forall i :: 0 <= i < n ==> cs[..n][..i] == cs[..i] && cs[..n][i] == cs[i];
      RunNoEmpty(s, cs[..n], fl);
      DecodedWellFormed(cs[n].argv, fl);
      StepNoEmpty(RunAll(s, cs[..n], fl), Decode(cs[n].argv, fl), cs[n].now);
    }
  }

  // ---- Both exceptions happen ----

  lemma BadScoreDecodes(k: Bytes, x: Bytes, m: Bytes, fl: Floats)
    requires NulFree(k) && NulFree(x) && NulFree(m)
    requires fl.read(x).None? && Lower(x) !in {"nx", "xx", "ch", "incr"}
    ensures Decode(["ZADD", k, x, m], fl) == OnKey(k, OpZAdd(PLAIN, [(None, m)]))
  {
    hide Decode, CStrs, Lower, ZAddFlags;
    var c := ["ZADD", k, x, m];
    Names();
    assert NulFree(c[0]) by { assert c[0] == ["SET", "PXAT", "PEXPIREAT", "RPUSH", "HSET", "SADD", "ZADD"][6]; }
    DecodeArgs(c, fl);
    var rest := c[2..];
    assert rest == [x, m] && rest[2..] == [];
    NoFlags(rest, PLAIN);
    assert ScorePairs(rest[2..], fl) == [];
    assert ScorePairs(rest, fl) == [(fl.read(x), m)];
  }

  /** ZADD k x m on a missing key, where x is no number, leaves an empty sorted set. */
  lemma BadScoreLeavesEmpty(k: Bytes, x: Bytes, m: Bytes, fl: Floats, now: int)
    requires NulFree(k) && NulFree(x) && NulFree(m)
    requires fl.read(x).None? && Lower(x) !in {"nx", "xx", "ch", "incr"}
    ensures !NoEmpty(Exec(map[], Decode(["ZADD", k, x, m], fl), now).0)
  {
    hide Decode, Lower, Exec, NoEmpty;
    BadScoreDecodes(k, x, m, fl);
    NoEmptyStart();
    StepNoEmpty(map[], OnKey(k, OpZAdd(PLAIN, [(None, m)])), now);
  }

  lemma NoEmptyStart()
    ensures NoEmpty(map[])
  {
  }

  lemma FloatName()
    ensures Lower("HINCRBYFLOAT") == "hincrbyfloat" && NulFree("HINCRBYFLOAT")
  {
  }

  lemma InfiniteSumDecodes(k: Bytes, name: Bytes, x: Bytes, fl: Floats)
    requires NulFree(k) && NulFree(name) && NulFree(x) && fl.read(x) == Some(PosInf)
    ensures Decode(["HINCRBYFLOAT", k, name, x], fl) == OnKey(k, OpHIncrByFloat(name, PosInf, fl))
  {
    hide Decode, CStrs, Lower, NulFree;
    FloatName();
    DecodeArgs(["HINCRBYFLOAT", k, name, x], fl);
  }

  /** HINCRBYFLOAT k name x on a missing key, where x is infinite, leaves an empty hash. */
  lemma InfiniteSumLeavesEmpty(k: Bytes, name: Bytes, x: Bytes, fl: Floats, now: int)
    requires NulFree(k) && NulFree(name) && NulFree(x) && fl.read(x) == Some(PosInf)
    ensures !NoEmpty(Exec(map[], Decode(["HINCRBYFLOAT", k, name, x], fl), now).0)
  {
    hide Decode, Exec, NoEmpty;
    InfiniteSumDecodes(k, name, x, fl);
    NoEmptyStart();
    StepNoEmpty(map[], OnKey(k, OpHIncrByFloat(name, PosInf, fl)), now);
  }
}
