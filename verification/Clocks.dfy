/** Commands whose effect does not depend on the clock, up to a horizon: no relative expiry, no expiry before the
    horizon. */
module Clocks {
  import opened Orders
  import opened Ints
  import opened Indexing
  import opened Resp
  import opened Keyspace
  import opened Requests

  predicate SafeTime(expireAt: int, horizon: int) {
    expireAt == -1 || horizon < expireAt <= LLONG_MAX
  }

  predicate SafeExpiry(e: Expiry, horizon: int) {
    e.Never? || (e.At? && horizon < e.ms <= LLONG_MAX)
  }

  predicate SafeRequest(r: Request, horizon: int) {
    && !r.Unmodelled?
    && (r.OnKey? && r.op.OpSet? ==> SafeExpiry(r.op.expiry, horizon))
    && (r.OnKey? && r.op.OpExpire? ==> SafeExpiry(r.op.expiry, horizon))
  }

  ghost predicate SafeObj(o: Option<Obj>, horizon: int) {
    o.Some? ==> SafeTime(o.value.expireAt, horizon)
  }

  ghost predicate SafeStore(s: Store, horizon: int) {
    forall k :: k in s ==> SafeTime(s[k].expireAt, horizon)
  }

  lemma ContainerKeepsExpiry(op: Op, o: Option<Obj>, horizon: int)
    requires SafeObj(o, horizon)
    ensures op.OpPush? || op.OpPop? || op.OpLRem? || op.OpLTrim? || op.OpLRange? ==> SafeObj(OnList(op, o).0, horizon)
    ensures op.OpHSet? || op.OpHDel? || op.OpHGet? || op.OpHIncrBy? || op.OpHIncrByFloat? ==>
              SafeObj(OnHash(op, o).0, horizon)
    ensures op.OpSAdd? || op.OpSRem? || op.OpSIsMember? ==> SafeObj(OnSet(op, o).0, horizon)
    ensures op.OpZAdd? || op.OpZRem? || op.OpZScore? ==> SafeObj(OnZSet(op, o).0, horizon)
  {
    hide EmptyContainer, CStr, LRemoved, WithFields, ZAddAll, PrintInt, ParseInt, Slice, Rev;
  }

  lemma OpClockIrrelevant(op: Op, o: Option<Obj>, t: int, t': int, horizon: int)
    requires SafeObj(o, horizon) && SafeRequest(OnKey([], op), horizon) && t <= horizon && t' <= horizon
    ensures OnKeyObject(op, o, t) == OnKeyObject(op, o, t') && SafeObj(OnKeyObject(op, o, t).0, horizon)
  {
    hide OnList, OnHash, OnSet, OnZSet, PrintInt, ParseInt;
    ContainerKeepsExpiry(op, o, horizon);
  }

  lemma LiveSafe(s: Store, k: Bytes, t: int, horizon: int)
    requires SafeStore(s, horizon) && t <= horizon
    ensures Live(s, k, t) == (if k in s then Some(s[k]) else None) && SafeObj(Live(s, k, t), horizon)
  {
  }

  lemma StoredSafe(s: Store, k: Bytes, o: Option<Obj>, horizon: int)
    requires SafeStore(s, horizon) && SafeObj(o, horizon)
    ensures SafeStore(Stored(s, k, o), horizon)
  {
  }

  lemma PurgeSafe(s: Store, ks: seq<Bytes>, t: int, horizon: int)
    requires SafeStore(s, horizon) && t <= horizon
    ensures Purge(s, ks, t) == s
  {
  }

  /** A safe request has the same effect at every time up to the horizon, and keeps the store safe. */
  lemma ClockIrrelevant(s: Store, r: Request, t: int, t': int, horizon: int)
    requires SafeStore(s, horizon) && SafeRequest(r, horizon) && t <= horizon && t' <= horizon
    ensures Exec(s, r, t).0 == Exec(s, r, t').0 && SafeStore(Exec(s, r, t).0, horizon)
  {
    hide OnKeyObject, Live, Stored, Purge;
    if r.OnKey? {
      hide SafeStore;
      LiveSafe(s, r.key, t, horizon);
      LiveSafe(s, r.key, t', horizon);
      OpClockIrrelevant(r.op, Live(s, r.key, t), t, t', horizon);
      StoredSafe(s, r.key, OnKeyObject(r.op, Live(s, r.key, t), t).0, horizon);
    } else if r.Exists? {
      PurgeSafe(s, r.keys, t, horizon);
      PurgeSafe(s, r.keys, t', horizon);
    }
  }

  ghost predicate SafeCommands(cs: seq<Command>, fl: Floats, horizon: int) {
    forall i :: 0 <= i < |cs| ==> SafeRequest(Decode(cs[i], fl), horizon)
  }

  lemma SafeAppend(a: seq<Command>, b: seq<Command>, fl: Floats, horizon: int)
    requires SafeCommands(a, fl, horizon) && SafeCommands(b, fl, horizon)
    ensures SafeCommands(a + b, fl, horizon)
  {
  }

  // ---- What is not logged does nothing to a store in which nothing has expired ----

  predicate ReadOnly(r: Request) {
    match r
    case OnKey(_, op) => op.OpGet? || op.OpLRange? || op.OpHGet? || op.OpSIsMember? || op.OpZScore?
    case Del(_) => false
    case FlushAll => false
    case _ => true
  }

  lemma ReadOpKeeps(op: Op, o: Option<Obj>, now: int)
    requires ReadOnly(OnKey([], op))
    ensures OnKeyObject(op, o, now).0 == o
  {
    hide Slice;
  }

  lemma ReadKeeps(s: Store, r: Request, now: int)
    requires SafeStore(s, now) && ReadOnly(r)
    ensures Exec(s, r, now).0 == s
  {
    hide OnKeyObject;
    if r.OnKey? {
      ReadOpKeeps(r.op, Live(s, r.key, now), now);
    }
  }

  lemma ReadGroups(name: Bytes, a: seq<Bytes>)
    requires |a| >= 1 && !WriteName(name)
    ensures name in {"set", "get", "incr", "decr"} ==> ReadOnly(DecodeString(name, a))
    ensures name in {"lpush", "rpush", "lpushx", "rpushx", "lpop", "rpop", "lrem", "ltrim", "lrange"} ==>
              ReadOnly(DecodeList(name, a))
    ensures name in {"hset", "hdel", "hget", "hincrby"} ==> ReadOnly(DecodeHash(name, a))
    ensures name in {"sadd", "srem", "sismember"} ==> ReadOnly(DecodeSet(name, a))
    ensures ReadOnly(DecodeKeys(name, a)) && name != "hincrbyfloat"
  {
    hide ParseInt, SetOptions, Pairs;
  }

  lemma ReadZSets(name: Bytes, a: seq<Bytes>, fl: Floats)
    requires |a| >= 1 && !WriteName(name)
    ensures name in {"zadd", "zrem", "zscore"} ==> ReadOnly(DecodeZSet(name, a, fl))
  {
    hide ZAddFlags, ScorePairs;
  }

  lemma UnloggedKeeps(s: Store, argv: Command, fl: Floats, now: int)
    requires SafeStore(s, now) && !IsWrite(argv)
    ensures Exec(s, Decode(argv, fl), now).0 == s
  {
    hide Exec, Lower, WriteName, ReadOnly, SafeStore;
    hide DecodeString, DecodeList, DecodeHash, DecodeHashFloat, DecodeSet, DecodeZSet, DecodeKeys;
    if argv == [] {
      ReadIgnore();
    } else {
      var a := CStrs(argv);
      ReadGroups(Lower(a[0]), a);
      ReadZSets(Lower(a[0]), a, fl);
    }
    ReadKeeps(s, Decode(argv, fl), now);
  }

  lemma ReadIgnore()
    ensures ReadOnly(Ignore)
  {
  }
}
