/** From argument vectors to requests: the dispatch table and the argument checks of src/db.c. */
module Requests {
  import opened Orders
  import opened Ints
  import opened Keyspace
  import opened Resp

  function CStrs(argv: Command): (a: seq<Bytes>)
    ensures |a| == |argv| && forall i :: 0 <= i < |a| ==> a[i] == CStr(argv[i])
  {
    seq(|argv|, i requires 0 <= i < |argv| => CStr(argv[i]))
  }

  function LowerChar(c: char): char {
    if 'A' <= c <= 'Z' then (c as int + 32) as char else c
  }

  function Lower(s: Bytes): (l: Bytes)
    ensures |l| == |s| && forall i :: 0 <= i < |s| ==> l[i] == LowerChar(s[i])
  {
    seq(|s|, i requires 0 <= i < |s| => LowerChar(s[i]))
  }

  // ---- Options ----

  datatype SetArgs = SetArgs(expiry: Expiry, nx: bool, xx: bool)

  /** The option loop of SET; None for a syntax error or an invalid expire time. */
  function SetOptions(a: seq<Bytes>, acc: SetArgs): Option<SetArgs>
    decreases |a|
  {
    if a == [] then (if acc.nx && acc.xx then None else Some(acc))
    else
      var o := Lower(a[0]);
      if o == "ex" || o == "px" || o == "exat" || o == "pxat" then
        var v := if |a| < 2 then None else ParseInt(a[1]);
        if v.None? || v.value <= 0 then None
        else if (o == "ex" || o == "exat") && v.value > LLONG_MAX / 1000 then None
        else
          var e := if o == "ex" then In(v.value * 1000) else if o == "px" then In(v.value)
                   else if o == "exat" then At(v.value * 1000) else At(v.value);
          SetOptions(a[2..], acc.(expiry := e))
      else if o == "nx" then SetOptions(a[1..], acc.(nx := true))
      else if o == "xx" then SetOptions(a[1..], acc.(xx := true))
      else None
  }

  /** The leading flags of ZADD and the arguments after them. */
  function ZAddFlags(a: seq<Bytes>, acc: ZFlags): (r: (ZFlags, seq<Bytes>))
    ensures |r.1| <= |a|
    decreases |a|
  {
    if a == [] then (acc, a)
    else
      var o := Lower(a[0]);
      if o == "nx" then ZAddFlags(a[1..], acc.(nx := true))
      else if o == "xx" then ZAddFlags(a[1..], acc.(xx := true))
      else if o == "ch" then ZAddFlags(a[1..], acc.(ch := true))
      else if o == "incr" then ZAddFlags(a[1..], acc.(incr := true))
      else (acc, a)
  }

  function Pairs(a: seq<Bytes>): seq<(Bytes, Bytes)> {
    if |a| < 2 then [] else [(a[0], a[1])] + Pairs(a[2..])
  }

  function ScorePairs(a: seq<Bytes>, fl: Floats): seq<(Option<Score>, Bytes)> {
    if |a| < 2 then [] else [(fl.read(a[0]), a[1])] + ScorePairs(a[2..], fl)
  }

  // ---- Commands by type ----

  function DecodeString(name: Bytes, a: seq<Bytes>): Request
    requires |a| >= 1
  {
    if name == "set" then
      if |a| < 3 then Reject
      else
        var o := SetOptions(a[3..], SetArgs(Never, false, false));
        if o.None? then Reject else OnKey(a[1], OpSet(a[2], o.value.expiry, o.value.nx, o.value.xx))
    else if name == "get" then if |a| != 2 then Reject else OnKey(a[1], OpGet)
    else if name == "incr" || name == "decr" then
      if |a| != 2 then Reject else OnKey(a[1], OpIncr(if name == "incr" then 1 else -1))
    else Unmodelled
  }

  function DecodeKeys(name: Bytes, a: seq<Bytes>): Request
    requires |a| >= 1
  {
    if name == "del" then if |a| < 2 then Reject else Del(a[1..])
    else if name == "exists" then if |a| < 2 then Reject else Exists(a[1..])
    else if name == "keys" then if |a| != 2 then Reject else Keys(a[1])
    else if name == "flushall" then if |a| != 1 then Reject else FlushAll
    else if name == "dbsize" then if |a| != 1 then Reject else DbSize
    else if name == "expire" || name == "pexpire" || name == "expireat" || name == "pexpireat" then
      var v := if |a| != 3 then None else ParseInt(a[2]);
      if v.None? || v.value < 0 then Reject
      else if name == "pexpire" then OnKey(a[1], OpExpire(In(v.value)))
      else if name == "pexpireat" then OnKey(a[1], OpExpire(At(v.value)))
      else if v.value > LLONG_MAX / 1000 then if name == "expireat" then Reject else OnKey(a[1], OpExpire(Never))
      else OnKey(a[1], OpExpire(if name == "expire" then In(v.value * 1000) else At(v.value * 1000)))
    else Unmodelled
  }

  function DecodeList(name: Bytes, a: seq<Bytes>): Request
    requires |a| >= 1
  {
    if name == "lpush" || name == "rpush" || name == "lpushx" || name == "rpushx" then
      if |a| < 3 then Reject
      else OnKey(a[1], OpPush(name == "lpush" || name == "lpushx", name == "lpushx" || name == "rpushx", a[2..]))
    else if name == "lpop" || name == "rpop" then
      var v := if |a| == 2 then Some(1) else if |a| == 3 then ParseInt(a[2]) else None;
      if v.None? || v.value < 0 then Reject else OnKey(a[1], OpPop(name == "lpop", v.value))
    else if name == "lrem" then
      var v := if |a| != 4 then None else ParseInt(a[2]);
      if v.None? then Reject else OnKey(a[1], OpLRem(v.value, a[3]))
    else if name == "ltrim" || name == "lrange" then
      if |a| != 4 || ParseInt(a[2]).None? || ParseInt(a[3]).None? then Reject
      else
        var start, stop := ParseInt(a[2]).value, ParseInt(a[3]).value;
        OnKey(a[1], if name == "ltrim" then OpLTrim(start, stop) else OpLRange(start, stop))
    else Unmodelled
  }

  function DecodeHash(name: Bytes, a: seq<Bytes>): Request
    requires |a| >= 1
  {
    if name == "hset" then if |a| < 4 || |a| % 2 == 1 then Reject else OnKey(a[1], OpHSet(Pairs(a[2..])))
    else if name == "hdel" then if |a| < 3 then Reject else OnKey(a[1], OpHDel(a[2..]))
    else if name == "hget" then if |a| != 3 then Reject else OnKey(a[1], OpHGet(a[2]))
    else if name == "hincrby" then
      var v := if |a| != 4 then None else ParseInt(a[3]);
      if v.None? then Reject else OnKey(a[1], OpHIncrBy(a[2], v.value))
    else Unmodelled
  }

  function DecodeHashFloat(a: seq<Bytes>, fl: Floats): Request
    requires |a| >= 1
  {
    var v := if |a| != 4 then None else fl.read(a[3]);
    if v.None? then Reject else OnKey(a[1], OpHIncrByFloat(a[2], v.value, fl))
  }

  function DecodeSet(name: Bytes, a: seq<Bytes>): Request
    requires |a| >= 1
  {
    if name == "sadd" then if |a| < 3 then Reject else OnKey(a[1], OpSAdd(a[2..]))
    else if name == "srem" then if |a| < 3 then Reject else OnKey(a[1], OpSRem(a[2..]))
    else if name == "sismember" then if |a| != 3 then Reject else OnKey(a[1], OpSIsMember(a[2]))
    else Unmodelled
  }

  function DecodeZSet(name: Bytes, a: seq<Bytes>, fl: Floats): Request
    requires |a| >= 1
  {
    if name == "zadd" then
      if |a| < 4 then Reject
      else
        var (flags, rest) := ZAddFlags(a[2..], ZFlags(false, false, false, false));
        if (flags.nx && flags.xx) || rest == [] || |rest| % 2 == 1 || (flags.incr && |rest| != 2) then Reject
        else OnKey(a[1], OpZAdd(flags, ScorePairs(rest, fl)))
    else if name == "zrem" then if |a| < 3 then Reject else OnKey(a[1], OpZRem(a[2..]))
    else if name == "zscore" then if |a| != 3 then Reject else OnKey(a[1], OpZScore(a[2]))
    else Unmodelled
  }

  /** dispatch_command: find the command by its name, whatever the case, and check its arguments. */
  function Decode(argv: Command, fl: Floats): Request {
    if argv == [] then Ignore
    else
      var a := CStrs(argv);
      var name := Lower(a[0]);
      if name in {"set", "get", "incr", "decr"} then DecodeString(name, a)
      else if name in {"lpush", "rpush", "lpushx", "rpushx", "lpop", "rpop", "lrem", "ltrim", "lrange"} then
        DecodeList(name, a)
      else if name in {"hset", "hdel", "hget", "hincrby"} then DecodeHash(name, a)
      else if name == "hincrbyfloat" then DecodeHashFloat(a, fl)
      else if name in {"sadd", "srem", "sismember"} then DecodeSet(name, a)
      else if name in {"zadd", "zrem", "zscore"} then DecodeZSet(name, a, fl)
      else DecodeKeys(name, a)
  }

  // ---- Writes and reads ----

  /** The is_write column of the dispatch table. */
  predicate WriteName(name: Bytes) {
    || name in {"set", "del", "incr", "decr", "mset", "append", "setrange", "rename", "setnx", "setex", "getset"}
    || name in {"expire", "pexpire", "expireat", "pexpireat", "flushall"}
    || name in {"lpush", "rpush", "lpushx", "rpushx", "lpop", "rpop", "lset", "ltrim", "lrem", "linsert"}
    || name in {"hset", "hmset", "hdel", "hsetnx", "hincrby", "hincrbyfloat", "sadd", "srem", "spop"}
    || name in {"zadd", "zrem", "zincrby"}
  }

  predicate IsWrite(argv: Command) {
    argv != [] && WriteName(Lower(CStr(argv[0])))
  }
}
