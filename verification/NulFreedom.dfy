/** Commands see their arguments up to the first NUL, so no log can rebuild a store that holds a NUL. */
module NulFreedom {
  import opened Orders
  import opened Ints
  import opened Resp
  import opened Keyspace
  import opened Requests
  import opened Clocks
  import opened Aof
  import opened Rewrite

  predicate NulFreeOp(op: Op) {
    match op
    case OpSet(v, _, _, _) => NulFree(v)
    case OpPush(_, _, vs) => NulFrees(vs)
    case OpHSet(pairs) => forall i :: 0 <= i < |pairs| ==> NulFree(pairs[i].0) && NulFree(pairs[i].1)
    case OpHIncrBy(name, _) => NulFree(name)
    case OpHIncrByFloat(name, _, _) => NulFree(name)
    case OpSAdd(names) => NulFrees(names)
    case OpZAdd(_, entries) => forall i :: 0 <= i < |entries| ==> NulFree(entries[i].1)
    case _ => true
  }

  ghost predicate NulFreeOption(o: Option<Obj>) {
    o.Some? ==> NulFreeValue(o.value.value)
  }

  lemma PrintedNulFree(n: int)
    ensures NulFree(PrintInt(n))
  {
    assert NulFree(PrintNat(if n < 0 then -n else n));
  }

  lemma {:induction false} RevNulFree(l: seq<Bytes>)
    requires NulFrees(l)
    ensures NulFrees(Rev(l))
  {
    if l != [] {
      RevNulFree(l[1..]);
    }
  }

  lemma {:induction false} DropNulFree(l: seq<Bytes>, v: Bytes, n: nat)
    requires NulFrees(l)
    ensures NulFrees(DropFirst(l, v, n))
  {
    if l != [] && n > 0 {
      if l[0] == v {
        DropNulFree(l[1..], v, n - 1);
      } else {
        DropNulFree(l[1..], v, n);
      }
    }
  }

  lemma {:induction false} FieldsNulFree(m: map<Bytes, Bytes>, pairs: seq<(Bytes, Bytes)>)
    requires NulFreeValue(Hash(m)) && NulFreeOp(OpHSet(pairs))
    ensures NulFreeValue(Hash(WithFields(m, pairs)))
    decreases |pairs|
  {
    if pairs != [] {
      var m' := m[pairs[0].0 := pairs[0].1];
      assert NulFreeValue(Hash(m'));
      FieldsNulFree(m', pairs[1..]);
    }
  }

  lemma {:induction false} ZAddNulFree(p: ZProgress, flags: ZFlags, entries: seq<(Option<Score>, Bytes)>)
    requires NulFreeValue(ZSet(p.scores)) && NulFreeOp(OpZAdd(flags, entries))
    ensures NulFreeValue(ZSet(ZAddAll(p, flags, entries).scores))
    decreases |entries|
  {
    if entries != [] && !p.bad && entries[0].0.Some? {
      var score, m := entries[0].0.value, entries[0].1;
      var known := m in p.scores;
      if (flags.nx && known) || (flags.xx && !known) {
        ZAddNulFree(p, flags, entries[1..]);
      } else {
        var p' := ZProgress(p.scores[m := score], p.added + (if known then 0 else 1),
                            p.changed + (if known && p.scores[m] != score then 1 else 0), false);
        assert NulFreeValue(ZSet(p'.scores));
        ZAddNulFree(p', flags, entries[1..]);
      }
    }
  }

  lemma ListNulFree(op: Op, o: Option<Obj>)
    requires NulFreeOp(op) && NulFreeOption(o)
    requires op.OpPush? || op.OpPop? || op.OpLRem? || op.OpLTrim? || op.OpLRange?
    ensures NulFreeOption(OnList(op, o).0)
  {
    if op.OpPush? {
      RevNulFree(op.values);
    }
    if op.OpLRem? && o.Some? && o.value.value.List? {
      var l := o.value.value.elems;
      DropNulFree(l, op.target, if op.count > 0 then op.count else |l|);
      RevNulFree(l);
      if op.count < 0 {
        DropNulFree(Rev(l), op.target, -op.count);
        RevNulFree(DropFirst(Rev(l), op.target, -op.count));
      }
    }
  }

  lemma HashNulFree(op: Op, o: Option<Obj>)
    requires NulFreeOp(op) && NulFreeOption(o)
    requires op.OpHSet? || op.OpHDel? || op.OpHGet? || op.OpHIncrBy? || op.OpHIncrByFloat?
    ensures NulFreeOption(OnHash(op, o).0)
  {
    if o.None? || o.value.value.Hash? {
      var m := OrNew(o, Hash(map[])).value.fields;
      if op.OpHSet? {
        FieldsNulFree(m, op.pairs);
      }
      if op.OpHIncrBy? {
        var v := if op.name in m then ParseInt(m[op.name]) else Some(0);
        if v.Some? {
          PrintedNulFree(v.value + op.delta);
        }
      }
      if op.OpHIncrByFloat? {
        FloatNulFree(OrNew(o, Hash(map[])), op.name, op.step, op.fl);
      }
    }
  }

  /** What is stored is the printed number up to its terminator. */
  lemma FloatNulFree(was: Obj, name: Bytes, step: Score, fl: Floats)
    requires was.value.Hash? && NulFreeValue(was.value) && NulFree(name)
    ensures NulFreeOption(HIncrFloat(was, name, step, fl).0)
  {
    hide CStr;
    var v := if name in was.value.fields then fl.read(CStr(was.value.fields[name])) else Some(Finite(0.0));
    if v.Some? && AddScores(v.value, step).Some? {
      CStrIsNulFree(fl.show(AddScores(v.value, step).value));
    }
  }

  lemma SetNulFree(op: Op, o: Option<Obj>)
    requires NulFreeOp(op) && NulFreeOption(o)
    requires op.OpSAdd? || op.OpSRem? || op.OpSIsMember?
    ensures NulFreeOption(OnSet(op, o).0)
  {
  }

  lemma ZSetNulFree(op: Op, o: Option<Obj>)
    requires NulFreeOp(op) && NulFreeOption(o)
    requires op.OpZAdd? || op.OpZRem? || op.OpZScore?
    ensures NulFreeOption(OnZSet(op, o).0)
  {
    hide ZAddAll;
    if op.OpZAdd? && (o.None? || o.value.value.ZSet?) {
      var z := OrNew(o, ZSet(map[])).value.scores;
      ZAddNulFree(ZProgress(z, 0, 0, false), op.flags, op.entries);
    }
  }

  lemma StringNulFree(op: Op, o: Option<Obj>, now: int)
    requires NulFreeOp(op) && NulFreeOption(o) && (op.OpSet? || op.OpGet? || op.OpIncr?)
    ensures NulFreeOption(OnString(op, o, now).0)
  {
    if op.OpIncr? && (o.None? || o.value.value.Str?) {
      var v := if o.Some? then ParseInt(o.value.value.bytes) else Some(0);
      if v.Some? {
        PrintedNulFree(v.value + op.delta);
      }
    }
  }

  lemma OpKeepsNulFree(op: Op, o: Option<Obj>, now: int)
    requires NulFreeOp(op) && NulFreeOption(o)
    ensures NulFreeOption(OnKeyObject(op, o, now).0)
  {
    hide OnList, OnHash, OnSet, OnZSet, OnString, NulFreeOp;
    if op.OpHSet? || op.OpHDel? || op.OpHGet? || op.OpHIncrBy? || op.OpHIncrByFloat? {
      HashNulFree(op, o);
    } else if op.OpSAdd? || op.OpSRem? || op.OpSIsMember? {
      SetNulFree(op, o);
    } else if op.OpPush? || op.OpPop? || op.OpLRem? || op.OpLTrim? || op.OpLRange? {
      ListNulFree(op, o);
    } else if op.OpZAdd? || op.OpZRem? || op.OpZScore? {
      ZSetNulFree(op, o);
    } else if op.OpSet? || op.OpGet? || op.OpIncr? {
      StringNulFree(op, o, now);
    }
  }

  // ---- Decoded requests carry no NUL ----

  lemma {:induction false} PairsNulFree(a: seq<Bytes>)
    requires NulFrees(a)
    ensures NulFreeOp(OpHSet(Pairs(a)))
  {
    if |a| >= 2 {
      PairsNulFree(a[2..]);
    }
  }

  lemma {:induction false} ScorePairsNulFree(a: seq<Bytes>, fl: Floats, flags: ZFlags)
    requires NulFrees(a)
    ensures NulFreeOp(OpZAdd(flags, ScorePairs(a, fl)))
  {
    if |a| >= 2 {
      ScorePairsNulFree(a[2..], fl, flags);
    }
  }

  lemma {:induction false} FlagsNulFree(a: seq<Bytes>, acc: ZFlags)
    requires NulFrees(a)
    ensures NulFrees(ZAddFlags(a, acc).1)
    decreases |a|
  {
    if a != [] {
      var o := Lower(a[0]);
      if o == "nx" {
        FlagsNulFree(a[1..], acc.(nx := true));
      } else if o == "xx" {
        FlagsNulFree(a[1..], acc.(xx := true));
      } else if o == "ch" {
        FlagsNulFree(a[1..], acc.(ch := true));
      } else if o == "incr" {
        FlagsNulFree(a[1..], acc.(incr := true));
      }
    }
  }

  ghost predicate NulFreeRequest(r: Request) {
    r.OnKey? ==> NulFree(r.key) && NulFreeOp(r.op)
  }

  lemma GroupNulFree(name: Bytes, a: seq<Bytes>)
    requires |a| >= 1 && NulFrees(a)
    ensures NulFreeRequest(DecodeString(name, a)) && NulFreeRequest(DecodeKeys(name, a))
    ensures NulFreeRequest(DecodeList(name, a)) && NulFreeRequest(DecodeSet(name, a))
  {
    hide NulFree, SetOptions, ParseInt;
  }

  lemma PairGroupNulFree(name: Bytes, a: seq<Bytes>, fl: Floats)
    requires |a| >= 1 && NulFrees(a)
    ensures NulFreeRequest(DecodeHash(name, a)) && NulFreeRequest(DecodeZSet(name, a, fl))
    ensures NulFreeRequest(DecodeHashFloat(a, fl))
  {
    hide NulFree, ParseInt, Pairs, ScorePairs, ZAddFlags;
    if |a| >= 2 {
      PairsNulFree(a[2..]);
      FlagsNulFree(a[2..], ZFlags(false, false, false, false));
      var (flags, rest) := ZAddFlags(a[2..], ZFlags(false, false, false, false));
      ScorePairsNulFree(rest, fl, flags);
    }
  }

  lemma DecodedNulFree(argv: Command, fl: Floats)
    ensures NulFreeRequest(Decode(argv, fl))
  {
    hide Lower, CStr, NulFree, DecodeString, DecodeKeys;
    hide DecodeList, DecodeHash, DecodeHashFloat, DecodeSet, DecodeZSet, NulFreeOp;
    if argv != [] {
      var a := CStrs(argv);
      forall i | 0 <= i < |a|
        ensures NulFree(a[i])
      {
        CStrIsNulFree(argv[i]);
      }
      GroupNulFree(Lower(a[0]), a);
      PairGroupNulFree(Lower(a[0]), a, fl);
    }
  }

  lemma StoredNulFree(s: Store, k: Bytes, o: Option<Obj>)
    requires NulFreeStore(s) && NulFree(k) && NulFreeOption(o)
    ensures NulFreeStore(Stored(s, k, o))
  {
  }

  lemma OtherKeepsNulFree(s: Store, r: Request, now: int)
    requires NulFreeStore(s) && !r.OnKey?
    ensures NulFreeStore(Exec(s, r, now).0)
  {
    hide NulFreeValue, NulFree;
  }

  lemma StepKeepsNulFree(s: Store, argv: Command, fl: Floats, now: int)
    requires NulFreeStore(s)
    ensures NulFreeStore(Exec(s, Decode(argv, fl), now).0)
  {
    hide Decode, OnKeyObject, NulFreeOp, NulFreeValue, NulFree, Stored;
    DecodedNulFree(argv, fl);
    var r := Decode(argv, fl);
    if r.OnKey? {
      var o := OnKeyObject(r.op, Live(s, r.key, now), now).0;
      OpKeepsNulFree(r.op, Live(s, r.key, now), now);
      StoredNulFree(s, r.key, o);
    } else {
      OtherKeepsNulFree(s, r, now);
    }
  }

  /** Whatever a log holds, the store it replays to holds no NUL: SETRANGE padding is lost for good. */
  lemma {:induction false} ReplayIsNulFree(cs: seq<Command>, fl: Floats, now: int)
    ensures NulFreeStore(Run(map[], cs, fl, now))
  {
    hide Exec, Decode, NulFreeStore;
    if cs != [] {
      ReplayIsNulFree(cs[..|cs| - 1], fl, now);
      StepKeepsNulFree(Run(map[], cs[..|cs| - 1], fl, now), cs[|cs| - 1], fl, now);
    } else {
      EmptyNulFree();
    }
  }

  lemma EmptyNulFree()
    ensures NulFreeStore(map[])
  {
  }

  /** The rewritten log rebuilds the store if and only if it holds no NUL and every key survives; and then its file
      does. */
  method RewriteExact(store: Store, fl: Floats, ghost now: int) returns (file: Bytes, ghost cs: seq<Command>)
    requires StoreFloatsOk(fl, store) && forall k :: k in store ==> store[k].expireAt <= LLONG_MAX
    ensures file == EncodeAll(cs)
    ensures Run(map[], cs, fl, now) == store
      <==> NulFreeStore(store) && forall k :: k in store ==> Survives(store[k], now)
    ensures SmallStore(store) ==> ReplayOf(file) == Replay(cs, true)
    ensures NulFreeStore(store) && SafeStore(store, now) ==> SafeCommands(cs, fl, now)
  {
    hide SafeStore, SafeCommands, StoreFloatsOk, Run, Rebuilt;
    hide NulFreeStore, SmallStore, EncodeAll, SmallCommand, Carries;
    var out := RewriteStore(store, fl, now);
    cs, file := out, EncodeAll(out);
    ReplayIsNulFree(cs, fl, now);
    RebuiltExact(store, now);
    if SmallStore(store) {
      forall i | 0 <= i < |cs|
        ensures Carries(cs[i])
      {
        SmallCarries(cs[i]);
      }
      ReplayWhole(cs);
    }
  }
}
