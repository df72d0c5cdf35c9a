/** What commands answer and leave behind, as laws on argument vectors: strings, keys and lists. */
module CommandLaws {
  import opened Orders
  import opened Ints
  import opened Indexing
  import opened Globs
  import opened Resp
  import opened Keyspace
  import opened Requests
  import GlobLaws

  /** The store and the reply after a command. */
  ghost function Answer(s: Store, argv: Command, fl: Floats, now: int): (Store, Reply) {
    Exec(s, Decode(argv, fl), now)
  }

  /** The command of this name, in any case. */
  predicate Named(argv: Command, name: Bytes) {
    argv != [] && Lower(CStr(argv[0])) == name
  }

  /** The key is there and its time has not come. */
  predicate Present(s: Store, k: Bytes, now: int) {
    k in s && (s[k].expireAt < 0 || now < s[k].expireAt)
  }

  /** The store after a command that finds what it found before, or nothing. */
  function Unchanged(s: Store, k: Bytes, now: int): Store {
    if Present(s, k, now) then s else s - {k}
  }

  /** A container of no elements. */
  predicate Hollow(v: Value) {
    match v
    case Str(_) => false
    case List(l) => |l| == 0
    case Hash(h) => |h| == 0
    case Set(m) => |m| == 0
    case ZSet(z) => |z| == 0
  }

  lemma HollowIsEmpty(v: Value)
    ensures Hollow(v) <==> EmptyContainer(v)
  {
    match v
    case Hash(h) => assert |h| == 0 <==> h == map[];
    case ZSet(z) => assert |z| == 0 <==> z == map[];
    case _ =>
  }

  /** The store after a container has become this value; an empty one goes away. */
  function Left(s: Store, k: Bytes, v: Value): Store
    requires k in s
  {
    if Hollow(v) then s - {k} else s[k := s[k].(value := v)]
  }

  /** The store after the key has got this value, with the expiry it had. */
  function Became(s: Store, k: Bytes, v: Value, now: int): Store {
    s[k := Obj(v, if Present(s, k, now) then s[k].expireAt else -1)]
  }

  lemma Acts(s: Store, k: Bytes, op: Op, now: int)
    ensures var o := if Present(s, k, now) then Some(s[k]) else None;
            var r := OnKeyObject(op, o, now);
            Exec(s, OnKey(k, op), now) == (Stored(s, k, r.0), r.1)
    ensures Present(s, k, now) ==> Stored(s, k, Some(s[k])) == s
    ensures Stored(s, k, None) == s - {k}
  {
    hide OnKeyObject;
    assert Live(s, k, now) == if Present(s, k, now) then Some(s[k]) else None;
  }

  lemma Refused(s: Store, now: int)
    ensures Exec(s, Reject, now) == (s, Error)
  {
  }

  /** Which function an operation goes to. */
  lemma Routes(op: Op, o: Option<Obj>, now: int)
    ensures op.OpSet? || op.OpGet? || op.OpIncr? ==> OnKeyObject(op, o, now) == OnString(op, o, now)
    ensures op.OpExpire? ==> OnKeyObject(op, o, now) == OnAny(op.expiry, o, now)
    ensures op.OpPush? || op.OpPop? || op.OpLRem? || op.OpLTrim? || op.OpLRange? ==>
              OnKeyObject(op, o, now) == OnList(op, o)
    ensures op.OpHSet? || op.OpHDel? || op.OpHGet? || op.OpHIncrBy? || op.OpHIncrByFloat? ==>
              OnKeyObject(op, o, now) == OnHash(op, o)
    ensures op.OpSAdd? || op.OpSRem? || op.OpSIsMember? ==> OnKeyObject(op, o, now) == OnSet(op, o)
    ensures op.OpZAdd? || op.OpZRem? || op.OpZScore? ==> OnKeyObject(op, o, now) == OnZSet(op, o)
  {
    hide OnString, OnAny, OnList, OnHash, OnSet, OnZSet;
  }

  // ---- Strings ----

  lemma StringGroup(argv: Command, fl: Floats)
    requires argv != []
    ensures var name := Lower(CStr(argv[0]));
            name in {"set", "get", "incr", "decr"} ==> Decode(argv, fl) == DecodeString(name, CStrs(argv))
  {
    hide DecodeString;
  }

  /** GET. */
  lemma GetLaw(s: Store, argv: Command, fl: Floats, now: int)
    requires Named(argv, "get") && |argv| == 2
    ensures var k := CStr(argv[1]);
            Answer(s, argv, fl, now) ==
              if !Present(s, k, now) then (s - {k}, Nil)
              else if s[k].value.Str? then (s, Bulk(s[k].value.bytes))
              else (s, WrongType)
  {
    hide Decode, OnKeyObject, CStr, Lower;
    var k := CStr(argv[1]);
    StringGroup(argv, fl);
    Acts(s, k, OpGet, now);
    Routes(OpGet, if Present(s, k, now) then Some(s[k]) else None, now);
  }

  lemma IncrDecodes(argv: Command, fl: Floats)
    requires (Named(argv, "incr") || Named(argv, "decr")) && |argv| == 2
    ensures Decode(argv, fl) == OnKey(CStr(argv[1]), OpIncr(if Named(argv, "incr") then 1 else -1))
  {
    hide Decode;
    StringGroup(argv, fl);
  }

  /** INCR and DECR: one more or one less, from 0 for a missing key, with the expiry kept. */
  lemma IncrLaw(s: Store, argv: Command, fl: Floats, now: int)
    requires (Named(argv, "incr") || Named(argv, "decr")) && |argv| == 2
    ensures var k, step := CStr(argv[1]), if Named(argv, "incr") then 1 else -1;
            Answer(s, argv, fl, now) ==
              if !Present(s, k, now) then (s[k := Obj(Str(PrintInt(step)), -1)], Int(step))
              else if !s[k].value.Str? then (s, WrongType)
              else
                var v := ParseInt(s[k].value.bytes);
                if v.None? || v.value + step > LLONG_MAX || v.value + step < LLONG_MIN then (s, Error)
                else (s[k := Obj(Str(PrintInt(v.value + step)), s[k].expireAt)], Int(v.value + step))
  {
    hide Decode, ParseInt, PrintInt, Named, CStr, Exec, OnKeyObject;
    var k, step := CStr(argv[1]), if Named(argv, "incr") then 1 else -1;
    IncrDecodes(argv, fl);
    Acts(s, k, OpIncr(step), now);
    Routes(OpIncr(step), if Present(s, k, now) then Some(s[k]) else None, now);
  }

  // ---- SET and its options ----

  datatype SetOption = Nx | Xx | Ex(n: int) | Px(n: int) | ExAt(n: int) | PxAt(n: int)

  function WordOf(o: SetOption): Bytes {
    match o
    case Nx => "nx"
    case Xx => "xx"
    case Ex(_) => "ex"
    case Px(_) => "px"
    case ExAt(_) => "exat"
    case PxAt(_) => "pxat"
  }

  predicate Timed(o: SetOption) {
    !o.Nx? && !o.Xx?
  }

  /** The arguments spell these options one after the other, in any case. */
  predicate Spells(a: seq<Bytes>, opts: seq<SetOption>)
    decreases |opts|
  {
    if opts == [] then a == []
    else
      && a != [] && Lower(a[0]) == WordOf(opts[0])
      && if Timed(opts[0]) then |a| >= 2 && ParseInt(a[1]) == Some(opts[0].n) && Spells(a[2..], opts[1..])
         else Spells(a[1..], opts[1..])
  }

  /** A time must be positive, and so small that its milliseconds fit. */
  predicate GoodTime(o: SetOption) {
    Timed(o) ==> o.n > 0 && (o.Ex? || o.ExAt? ==> o.n <= LLONG_MAX / 1000)
  }

  /** The last option that sets a time. */
  function LastTimed(opts: seq<SetOption>): (r: Option<SetOption>)
    ensures r.Some? ==> Timed(r.value)
  {
    if opts == [] then None
    else
      var later := LastTimed(opts[1..]);
      if later.Some? then later else if Timed(opts[0]) then Some(opts[0]) else None
  }

  /** When the key will expire; a given time that has passed counts as never. */
  function Deadline(o: Option<SetOption>, now: int): int {
    match o
    case None => -1
    case Some(o) =>
      match o
      case Ex(n) => now + 1000 * n
      case Px(n) => now + n
      case ExAt(n) => if 1000 * n < now then -1 else 1000 * n
      case PxAt(n) => if n < now then -1 else n
      case _ => -1
  }

  function ExpiryOf(o: Option<SetOption>, e: Expiry): Expiry {
    match o
    case None => e
    case Some(o) =>
      match o
      case Ex(n) => In(n * 1000)
      case Px(n) => In(n)
      case ExAt(n) => At(n * 1000)
      case PxAt(n) => At(n)
      case _ => e
  }

  lemma DeadlineIs(o: Option<SetOption>, now: int)
    requires o.Some? ==> Timed(o.value) && GoodTime(o.value)
    ensures SetExpireAt(ExpiryOf(o, Never), now) == Deadline(o, now)
  {
  }

  ghost predicate AllGood(opts: seq<SetOption>) {
    forall o :: o in opts ==> GoodTime(o)
  }

  lemma OptionStep(a: seq<Bytes>, opts: seq<SetOption>, acc: SetArgs)
    requires opts != [] && Spells(a, opts)
    ensures SetOptions(a, acc) ==
              if !GoodTime(opts[0]) then None
              else if opts[0].Nx? then SetOptions(a[1..], acc.(nx := true))
              else if opts[0].Xx? then SetOptions(a[1..], acc.(xx := true))
              else SetOptions(a[2..], acc.(expiry := ExpiryOf(Some(opts[0]), Never)))
  {
    hide ParseInt, Lower, Spells;
    assert a != [] && Lower(a[0]) == WordOf(opts[0]) by { FirstSpelled(a, opts); }
    assert Timed(opts[0]) ==> |a| >= 2 && ParseInt(a[1]) == Some(opts[0].n) by { FirstSpelled(a, opts); }
  }

  lemma FirstSpelled(a: seq<Bytes>, opts: seq<SetOption>)
    requires opts != [] && Spells(a, opts)
    ensures a != [] && Lower(a[0]) == WordOf(opts[0])
    ensures Timed(opts[0]) ==> |a| >= 2 && ParseInt(a[1]) == Some(opts[0].n) && Spells(a[2..], opts[1..])
    ensures !Timed(opts[0]) ==> Spells(a[1..], opts[1..])
  {
  }

  /** What the option loop makes of the options, starting from what it has gathered. */
  ghost function Gathered(opts: seq<SetOption>, acc: SetArgs): Option<SetArgs> {
    var nx, xx := acc.nx || Nx in opts, acc.xx || Xx in opts;
    if !AllGood(opts) || (nx && xx) then None
    else Some(SetArgs(ExpiryOf(LastTimed(opts), acc.expiry), nx, xx))
  }

  lemma GatherStep(opts: seq<SetOption>, acc: SetArgs)
    requires opts != []
    ensures Gathered(opts, acc) ==
              if !GoodTime(opts[0]) then None
              else if opts[0].Nx? then Gathered(opts[1..], acc.(nx := true))
              else if opts[0].Xx? then Gathered(opts[1..], acc.(xx := true))
              else Gathered(opts[1..], acc.(expiry := ExpiryOf(Some(opts[0]), Never)))
  {
    hide GoodTime;
    var o, rest := opts[0], opts[1..];
    assert opts == [o] + rest;
    assert AllGood(opts) <==> GoodTime(o) && AllGood(rest);
    assert Nx in opts <==> o == Nx || Nx in rest;
    assert Xx in opts <==> o == Xx || Xx in rest;
  }

  lemma {:induction false} OptionsMean(a: seq<Bytes>, opts: seq<SetOption>, acc: SetArgs)
    requires Spells(a, opts)
    ensures SetOptions(a, acc) == Gathered(opts, acc)
    decreases |opts|
  {
    if opts != [] {
      hide SetOptions, Spells, ParseInt, Lower, GoodTime, Gathered, ExpiryOf;
      FirstSpelled(a, opts);
      OptionStep(a, opts, acc);
      GatherStep(opts, acc);
      var o := opts[0];
      var more := if o.Nx? then acc.(nx := true) else if o.Xx? then acc.(xx := true)
                  else acc.(expiry := ExpiryOf(Some(o), Never));
      OptionsMean(if Timed(o) then a[2..] else a[1..], opts[1..], more);
    }
  }

  /** SET with any options: refused if a time is bad or NX meets XX; otherwise NX and XX decide whether the value is
      stored, and the last time given decides when it expires. */
  lemma SetLaw(s: Store, argv: Command, opts: seq<SetOption>, fl: Floats, now: int)
    requires Named(argv, "set") && |argv| >= 3 && Spells(CStrs(argv)[3..], opts)
    ensures var k := CStr(argv[1]);
            Answer(s, argv, fl, now) ==
              if !AllGood(opts) || (Nx in opts && Xx in opts) then (s, Error)
              else if (Nx in opts && Present(s, k, now)) || (Xx in opts && !Present(s, k, now)) then
                (Unchanged(s, k, now), Nil)
              else (s[k := Obj(Str(CStr(argv[2])), Deadline(LastTimed(opts), now))], Ok)
  {
    hide Decode, SetOptions, Spells, Deadline, SetExpireAt, GoodTime, ExpiryOf, LastTimed;
    StringGroup(argv, fl);
    OptionsMean(CStrs(argv)[3..], opts, SetArgs(Never, false, false));
    if AllGood(opts) && !(Nx in opts && Xx in opts) {
      LastIsGood(opts);
      DeadlineIs(LastTimed(opts), now);
      Acts(s, CStr(argv[1]),
           OpSet(CStr(argv[2]), ExpiryOf(LastTimed(opts), Never), Nx in opts, Xx in opts), now);
    }
  }

  lemma {:induction false} LastIsGood(opts: seq<SetOption>)
    requires AllGood(opts)
    ensures LastTimed(opts).Some? ==> Timed(LastTimed(opts).value) && GoodTime(LastTimed(opts).value)
  {
    if opts != [] {
      assert forall o :: o in opts[1..] ==> o in opts;
      LastIsGood(opts[1..]);
    }
  }

  lemma {:induction false} SpellingOf(a: seq<Bytes>, acc: SetArgs) returns (opts: seq<SetOption>)
    requires SetOptions(a, acc).Some?
    ensures Spells(a, opts)
    decreases |a|
  {
    hide ParseInt, Lower;
    if a == [] {
      return [];
    }
    var w := Lower(a[0]);
    if w == "nx" || w == "xx" {
      var rest := SpellingOf(a[1..], if w == "nx" then acc.(nx := true) else acc.(xx := true));
      opts := [if w == "nx" then Nx else Xx] + rest;
      assert opts[1..] == rest;
    } else {
      var n := ParseInt(a[1]).value;
      var o := if w == "ex" then Ex(n) else if w == "px" then Px(n) else if w == "exat" then ExAt(n) else PxAt(n);
      var rest := SpellingOf(a[2..], acc.(expiry := ExpiryOf(Some(o), Never)));
      opts := [o] + rest;
      assert opts[1..] == rest;
    }
  }

  /** SET with anything else behind the value, or without a value, is refused. */
  lemma SetSyntax(s: Store, argv: Command, fl: Floats, now: int)
    requires Named(argv, "set") && (|argv| >= 3 ==> forall opts :: !Spells(CStrs(argv)[3..], opts))
    ensures Answer(s, argv, fl, now) == (s, Error)
  {
    hide Decode, SetOptions, Spells;
    StringGroup(argv, fl);
    if |argv| >= 3 && SetOptions(CStrs(argv)[3..], SetArgs(Never, false, false)).Some? {
      var opts := SpellingOf(CStrs(argv)[3..], SetArgs(Never, false, false));
      assert false;
    }
  }

  // ---- Keys ----

  lemma KeysGroup(argv: Command, fl: Floats)
    requires argv != []
    ensures var name := Lower(CStr(argv[0]));
            && (name in {"del", "exists", "keys", "flushall", "dbsize"} ==>
                  Decode(argv, fl) == DecodeKeys(name, CStrs(argv)))
            && (name in {"expire", "pexpire", "expireat", "pexpireat"} ==>
                  Decode(argv, fl) == DecodeKeys(name, CStrs(argv)))
  {
    hide DecodeKeys;
  }

  /** The expiry that a command of the EXPIRE family asks for; None when it is refused whatever the store holds. */
  function Asked(n: Option<int>, seconds: bool, absolute: bool): Option<Expiry> {
    if n.None? || n.value < 0 then None
    else if seconds && n.value > LLONG_MAX / 1000 then if absolute then None else Some(Never)
    else
      var ms := n.value * if seconds then 1000 else 1;
      Some(if absolute then At(ms) else In(ms))
  }

  lemma ExpireDecodes(argv: Command, fl: Floats)
    requires Named(argv, "expire") || Named(argv, "pexpire") || Named(argv, "expireat") || Named(argv, "pexpireat")
    requires |argv| == 3
    ensures var e := Asked(ParseInt(CStr(argv[2])), Named(argv, "expire") || Named(argv, "expireat"),
                           Named(argv, "expireat") || Named(argv, "pexpireat"));
            Decode(argv, fl) == if e.None? then Reject else OnKey(CStr(argv[1]), OpExpire(e.value))
  {
    hide Decode, ParseInt, CStr, Lower;
    KeysGroup(argv, fl);
  }

  /** EXPIRE, PEXPIRE, EXPIREAT and PEXPIREAT: seconds or milliseconds, from now or since the epoch. */
  lemma ExpireLaw(s: Store, argv: Command, fl: Floats, now: int)
    requires Named(argv, "expire") || Named(argv, "pexpire") || Named(argv, "expireat") || Named(argv, "pexpireat")
    requires |argv| == 3
    ensures var k, n := CStr(argv[1]), ParseInt(CStr(argv[2]));
            var seconds := Named(argv, "expire") || Named(argv, "expireat");
            var absolute := Named(argv, "expireat") || Named(argv, "pexpireat");
            Answer(s, argv, fl, now) ==
              if n.None? || n.value < 0 then (s, Error)
              else if seconds && n.value > LLONG_MAX / 1000 then
                (if absolute || Present(s, k, now) then (s, Error) else (s - {k}, Int(0)))
              else if !Present(s, k, now) then (s - {k}, Int(0))
              else
                var t := (if absolute then 0 else now) + n.value * (if seconds then 1000 else 1);
                (s[k := Obj(s[k].value, t)], Int(1))
  {
    hide Decode, ParseInt, Named, CStr, OnKeyObject, Exec;
    var k := CStr(argv[1]);
    ExpireDecodes(argv, fl);
    Refused(s, now);
    var e := Asked(ParseInt(CStr(argv[2])), Named(argv, "expire") || Named(argv, "expireat"),
                   Named(argv, "expireat") || Named(argv, "pexpireat"));
    if e.Some? {
      Acts(s, k, OpExpire(e.value), now);
      Routes(OpExpire(e.value), if Present(s, k, now) then Some(s[k]) else None, now);
    }
  }

  /** The arguments from position i on, as a set of names. */
  ghost function From(argv: Command, i: nat): set<Bytes> {
    set j | i <= j < |argv| :: CStr(argv[j])
  }

  lemma NamesFrom(argv: Command, i: nat)
    requires i <= |argv|
    ensures NamesOf(CStrs(argv)[i..]) == From(argv, i)
  {
    var a := CStrs(argv)[i..];
    forall n | n in a
      ensures n in From(argv, i)
    {
      var j :| 0 <= j < |a| && a[j] == n;
      assert n == CStr(argv[i + j]);
    }
    forall n | n in From(argv, i)
      ensures n in a
    {
      var j :| i <= j < |argv| && n == CStr(argv[j]);
      assert a[j - i] == n;
    }
  }

  lemma Fewer(m: set<Bytes>, names: set<Bytes>)
    ensures |m| - |m - names| == |m * names|
  {
    assert m == (m - names) + m * names;
  }

  lemma KeysGone(s: Store, names: set<Bytes>)
    ensures |s| - |s - names| == |s.Keys * names|
  {
    Fewer(s.Keys, names);
    assert (s - names).Keys == s.Keys - names;
    assert |s| == |s.Keys| && |s - names| == |(s - names).Keys|;
  }

  lemma DelDecodes(argv: Command, fl: Floats)
    requires Named(argv, "del") && |argv| >= 2
    ensures Decode(argv, fl) == Del(CStrs(argv)[1..])
  {
    hide Decode, CStr, Lower;
    KeysGroup(argv, fl);
  }

  /** DEL: exactly the named keys go, and the reply is how many of them were in the table. */
  lemma DelLaw(s: Store, argv: Command, fl: Floats, now: int)
    requires Named(argv, "del") && |argv| >= 2
    ensures Answer(s, argv, fl, now) == (s - From(argv, 1), Int(|s.Keys * From(argv, 1)|))
  {
    hide Decode, NamesOf, From, Named, CStr, CStrs;
    DelDecodes(argv, fl);
    NamesFrom(argv, 1);
    KeysGone(s, From(argv, 1));
  }

  /** The positions below n whose argument names a present key. */
  ghost function Mentions(s: Store, argv: Command, n: nat, now: int): set<int>
    requires n <= |argv|
  {
    set j | 1 <= j < n && Present(s, CStr(argv[j]), now)
  }

  /** EXISTS: counts the arguments that name a present key, each mention once. */
  lemma ExistsLaw(s: Store, argv: Command, fl: Floats, now: int)
    requires Named(argv, "exists") && |argv| >= 2
    ensures Answer(s, argv, fl, now) ==
              (s - (set k | k in From(argv, 1) && k in s && !Present(s, k, now)),
               Int(|Mentions(s, argv, |argv|, now)|))
  {
    hide Decode, From, CountLive, Mentions;
    KeysGroup(argv, fl);
    var a := CStrs(argv)[1..];
    NamesFrom(argv, 1);
    assert (set k | k in s && k in a && Expired(s[k], now))
        == (set k | k in From(argv, 1) && k in s && !Present(s, k, now)) by {
      forall k
        ensures k in a <==> k in From(argv, 1)
      {
        assert k in NamesOf(a) <==> k in a;
      }
    }
    CountMentions(s, argv, |a|, now);
    assert a[..|a|] == a;
  }

  lemma {:induction false} CountMentions(s: Store, argv: Command, n: nat, now: int)
    requires n + 1 <= |argv|
    ensures CountLive(s, CStrs(argv)[1..][..n], now) == |Mentions(s, argv, n + 1, now)|
  {
    hide CStr, Live;
    var a := CStrs(argv)[1..];
    if n > 0 {
      hide Mentions, Present, CStrs;
      CountMentions(s, argv, n - 1, now);
      assert a[..n][..n - 1] == a[..n - 1] && a[..n][n - 1] == CStr(argv[n]);
      MentionsStep(s, argv, n, now);
      LiveIsPresent(s, CStr(argv[n]), now);
    } else {
      assert Mentions(s, argv, 1, now) == {};
    }
  }

  lemma MentionsStep(s: Store, argv: Command, n: nat, now: int)
    requires 1 <= n < |argv|
    ensures |Mentions(s, argv, n + 1, now)|
         == |Mentions(s, argv, n, now)| + if Present(s, CStr(argv[n]), now) then 1 else 0
  {
    hide CStr, Present;
    var less, more := Mentions(s, argv, n, now), Mentions(s, argv, n + 1, now);
    assert more == if Present(s, CStr(argv[n]), now) then less + {n as int} else less;
  }

  lemma LiveIsPresent(s: Store, k: Bytes, now: int)
    ensures Live(s, k, now).Some? <==> Present(s, k, now)
  {
  }

  /** KEYS, FLUSHALL and DBSIZE. */
  lemma WholeStoreLaw(s: Store, argv: Command, fl: Floats, now: int)
    ensures Named(argv, "keys") && |argv| == 2 ==>
              Answer(s, argv, fl, now) ==
                (s, Matching(set k | k in s && Present(s, k, now) && GlobLaws.Takes(CStr(argv[1]), k)))
    ensures Named(argv, "flushall") && |argv| == 1 ==> Answer(s, argv, fl, now) == (map[], Ok)
    ensures Named(argv, "dbsize") && |argv| == 1 ==> Answer(s, argv, fl, now) == (s, Int(|s|))
  {
    hide Decode, Matches, Tokens;
    if argv != [] {
      KeysGroup(argv, fl);
      if Named(argv, "keys") && |argv| == 2 {
        assert Answer(s, argv, fl, now).1.keys
            == (set k | k in s && Present(s, k, now) && GlobLaws.Takes(CStr(argv[1]), k));
      }
    }
  }

  // ---- Lists ----

  lemma ListGroup(argv: Command, fl: Floats)
    requires argv != []
    ensures var name := Lower(CStr(argv[0]));
            name in {"lpush", "rpush", "lpushx", "rpushx", "lpop", "rpop", "lrem", "ltrim", "lrange"} ==>
              Decode(argv, fl) == DecodeList(name, CStrs(argv))
  {
    hide DecodeList;
  }

  lemma {:induction false} RevAt(l: seq<Bytes>)
    ensures |Rev(l)| == |l| && forall i :: 0 <= i < |l| ==> Rev(l)[i] == l[|l| - 1 - i]
  {
    if l != [] {
      RevAt(l[1..]);
    }
  }

  /** The list under a key; a missing key stands for the empty list. */
  function ListUnder(s: Store, k: Bytes, now: int): seq<Bytes> {
    if Present(s, k, now) && s[k].value.List? then s[k].value.elems else []
  }

  /** These values in front of a list or behind it; in front, the last value comes first. */
  ghost predicate PutOn(l: seq<Bytes>, was: seq<Bytes>, values: seq<Bytes>, head: bool) {
    && |l| == |was| + |values|
    && (head ==> l[|values|..] == was && forall i :: 0 <= i < |values| ==> l[|values| - 1 - i] == values[i])
    && (!head ==> l[..|was|] == was && forall i :: 0 <= i < |values| ==> l[|was| + i] == values[i])
  }

  lemma PushDecodes(argv: Command, fl: Floats)
    requires Named(argv, "lpush") || Named(argv, "rpush") || Named(argv, "lpushx") || Named(argv, "rpushx")
    requires |argv| >= 3
    ensures Decode(argv, fl) == OnKey(CStr(argv[1]),
              OpPush(Named(argv, "lpush") || Named(argv, "lpushx"), Named(argv, "lpushx") || Named(argv, "rpushx"),
                     CStrs(argv)[2..]))
  {
    hide Decode;
    ListGroup(argv, fl);
  }

  /** LPUSH, RPUSH, LPUSHX, RPUSHX: the values go on one by one, so those of LPUSH end up in reverse order at the head;
      the X forms do nothing on a missing key. */
  lemma PushLaw(s: Store, argv: Command, fl: Floats, now: int) returns (l: seq<Bytes>)
    requires Named(argv, "lpush") || Named(argv, "rpush") || Named(argv, "lpushx") || Named(argv, "rpushx")
    requires |argv| >= 3
    ensures PutOn(l, ListUnder(s, CStr(argv[1]), now), CStrs(argv)[2..], Named(argv, "lpush") || Named(argv, "lpushx"))
    ensures var k := CStr(argv[1]);
            Answer(s, argv, fl, now) ==
              if Present(s, k, now) && !s[k].value.List? then (s, WrongType)
              else if !Present(s, k, now) && (Named(argv, "lpushx") || Named(argv, "rpushx")) then (s - {k}, Int(0))
              else (Became(s, k, List(l), now), Int(|l|))
  {
    hide Decode, Rev, Named, CStr, CStrs, OnKeyObject, Exec;
    PushDecodes(argv, fl);
    var k, vs := CStr(argv[1]), CStrs(argv)[2..];
    var head, xx := Named(argv, "lpush") || Named(argv, "lpushx"), Named(argv, "lpushx") || Named(argv, "rpushx");
    var was := ListUnder(s, k, now);
    Acts(s, k, OpPush(head, xx, vs), now);
    Routes(OpPush(head, xx, vs), if Present(s, k, now) then Some(s[k]) else None, now);
    l := if head then Rev(vs) + was else was + vs;
    assert PutOn(l, was, vs, head) by { RevAt(vs); }
    hide PutOn;
  }

  /** What comes off a list from its head or its tail, one by one, and what is left. */
  ghost predicate TakenOff(popped: seq<Bytes>, rest: seq<Bytes>, l: seq<Bytes>, head: bool) {
    && (head ==> popped + rest == l)
    && (!head ==> |popped| <= |l| && rest == l[..|l| - |popped|]
                  && forall i :: 0 <= i < |popped| ==> popped[i] == l[|l| - 1 - i])
  }

  lemma PopDecodes(argv: Command, fl: Floats)
    requires (Named(argv, "lpop") || Named(argv, "rpop")) && 2 <= |argv| <= 3
    ensures var n := if |argv| == 2 then Some(1) else ParseInt(CStr(argv[2]));
            Decode(argv, fl) ==
              if n.None? || n.value < 0 then Reject else OnKey(CStr(argv[1]), OpPop(Named(argv, "lpop"), n.value))
  {
    hide Decode, ParseInt;
    ListGroup(argv, fl);
  }

  /** LPOP and RPOP, with or without a count: the elements come off one by one from their end, and a list that has
      become empty goes away. */
  lemma PopLaw(s: Store, argv: Command, fl: Floats, now: int) returns (popped: seq<Bytes>, rest: seq<Bytes>)
    requires (Named(argv, "lpop") || Named(argv, "rpop")) && 2 <= |argv| <= 3
    ensures TakenOff(popped, rest, ListUnder(s, CStr(argv[1]), now), Named(argv, "lpop"))
    ensures var k, n := CStr(argv[1]), if |argv| == 2 then Some(1) else ParseInt(CStr(argv[2]));
            var l := ListUnder(s, k, now);
            && (n.Some? && n.value >= 0 ==> |popped| == if n.value < |l| then n.value else |l|)
            && Answer(s, argv, fl, now) ==
                 if n.None? || n.value < 0 then (s, Error)
                 else if !Present(s, k, now) then (s - {k}, Nil)
                 else if !s[k].value.List? then (s, WrongType)
                 else (Left(s, k, List(rest)),
                       if n.value != 1 then Array(popped) else if l == [] then Nil else Bulk(popped[0]))
  {
    hide Decode, Rev, ParseInt, Named, CStr, TakenOff, Exec, Left, Present;
    PopDecodes(argv, fl);
    Refused(s, now);
    var k, n := CStr(argv[1]), if |argv| == 2 then Some(1) else ParseInt(CStr(argv[2]));
    var l, head := ListUnder(s, k, now), Named(argv, "lpop");
    if n.None? || n.value < 0 {
      popped, rest := if head then l[..0] else Rev(l[|l|..]), if head then l[0..] else l[..|l|];
      TakeOff(l, 0, head);
    } else {
      var m := if n.value < |l| then n.value else |l|;
      popped, rest := if head then l[..m] else Rev(l[|l| - m..]), if head then l[m..] else l[..|l| - m];
      TakeOff(l, m, head);
      PopActs(s, k, head, n.value, popped, rest, now);
    }
  }

  lemma PopActs(s: Store, k: Bytes, head: bool, n: nat, popped: seq<Bytes>, rest: seq<Bytes>, now: int)
    requires var l := ListUnder(s, k, now);
             var m := if n < |l| then n else |l|;
             && popped == (if head then l[..m] else Rev(l[|l| - m..]))
             && rest == (if head then l[m..] else l[..|l| - m]) && |popped| == m
    ensures Exec(s, OnKey(k, OpPop(head, n)), now) ==
              if !Present(s, k, now) then (s - {k}, Nil)
              else if !s[k].value.List? then (s, WrongType)
              else (Left(s, k, List(rest)),
                    if n != 1 then Array(popped) else if s[k].value.elems == [] then Nil else Bulk(popped[0]))
  {
    hide Rev, OnKeyObject, Exec;
    HollowIsEmpty(List(rest));
    Acts(s, k, OpPop(head, n), now);
    Routes(OpPop(head, n), if Present(s, k, now) then Some(s[k]) else None, now);
  }

  lemma TakeOff(l: seq<Bytes>, m: nat, head: bool)
    requires m <= |l|
    ensures var popped := if head then l[..m] else Rev(l[|l| - m..]);
            |popped| == m && TakenOff(popped, if head then l[m..] else l[..|l| - m], l, head)
  {
    hide Rev;
    RevAt(l[|l| - m..]);
    assert l[..m] + l[m..] == l;
  }

  /** LPOP of one element. */
  lemma LPopOne(s: Store, argv: Command, fl: Floats, now: int)
    requires Named(argv, "lpop") && |argv| == 2 && ListUnder(s, CStr(argv[1]), now) != []
    ensures var k, l := CStr(argv[1]), ListUnder(s, CStr(argv[1]), now);
            Answer(s, argv, fl, now) == (Left(s, k, List(l[1..])), Bulk(l[0]))
  {
    hide Answer, Left, ParseInt;
    var popped, rest := PopLaw(s, argv, fl, now);
    var l := ListUnder(s, CStr(argv[1]), now);
    assert rest == l[1..] && popped[0] == l[0];
  }

  /** LREM: what is left and how many went. */
  lemma LRemLaw(s: Store, argv: Command, fl: Floats, now: int)
    requires Named(argv, "lrem") && |argv| == 4
    ensures var k, count := CStr(argv[1]), ParseInt(CStr(argv[2]));
            Answer(s, argv, fl, now) ==
              if count.None? then (s, Error)
              else if !Present(s, k, now) then (s - {k}, Int(0))
              else if !s[k].value.List? then (s, WrongType)
              else
                var l, l' := s[k].value.elems, LRemoved(s[k].value.elems, CStr(argv[3]), count.value);
                (Left(s, k, List(l')), Int(|l| - |l'|))
  {
    hide Decode, ParseInt, LRemoved, CStr, Lower, OnKeyObject, Exec;
    ListGroup(argv, fl);
    Refused(s, now);
    var k, count := CStr(argv[1]), ParseInt(CStr(argv[2]));
    if count.Some? {
      HollowIsEmpty(List(LRemoved(ListUnder(s, k, now), CStr(argv[3]), count.value)));
      Acts(s, k, OpLRem(count.value, CStr(argv[3])), now);
      Routes(OpLRem(count.value, CStr(argv[3])), if Present(s, k, now) then Some(s[k]) else None, now);
    }
  }

  /** LTRIM keeps what LRANGE with the same bounds reads. */
  lemma RangeLaw(s: Store, argv: Command, fl: Floats, now: int)
    requires (Named(argv, "ltrim") || Named(argv, "lrange")) && |argv| == 4
    ensures var k, i, j := CStr(argv[1]), ParseInt(CStr(argv[2])), ParseInt(CStr(argv[3]));
            Answer(s, argv, fl, now) ==
              if i.None? || j.None? then (s, Error)
              else if !Present(s, k, now) then (s - {k}, if Named(argv, "ltrim") then Ok else Array([]))
              else if !s[k].value.List? then (s, WrongType)
              else
                var part := Slice(s[k].value.elems, i.value, j.value);
                if Named(argv, "ltrim") then (Left(s, k, List(part)), Ok) else (s, Array(part))
  {
    hide Decode, ParseInt, Slice, CStr, Lower, OnKeyObject, Exec;
    ListGroup(argv, fl);
    Refused(s, now);
    var k, i, j := CStr(argv[1]), ParseInt(CStr(argv[2])), ParseInt(CStr(argv[3]));
    if i.Some? && j.Some? {
      HollowIsEmpty(List(Slice(ListUnder(s, k, now), i.value, j.value)));
      var op := if Named(argv, "ltrim") then OpLTrim(i.value, j.value) else OpLRange(i.value, j.value);
      Acts(s, k, op, now);
      Routes(op, if Present(s, k, now) then Some(s[k]) else None, now);
    }
  }

  /** Index k is read or kept exactly when the range covers it, and the order stays. */
  lemma SliceCovers(l: seq<Bytes>, start: int, stop: int) returns (lo: nat, hi: nat)
    ensures lo <= hi <= |l| && Slice(l, start, stop) == l[lo..hi]
    ensures forall k :: lo <= k < hi <==> Covers(|l|, start, stop, k)
  {
    var a, b := Effective(|l|, start), Effective(|l|, stop);
    var from, to := if a < 0 then 0 else a, if b >= |l| then |l| else b + 1;
    if from < to {
      lo, hi := from, to;
    } else {
      lo, hi := 0, 0;
    }
  }
}
