/** What commands answer and leave behind, as laws on argument vectors: hashes, sets, sorted sets, and wrong numbers of
    arguments. */
module ContainerLaws {
  import opened Orders
  import opened Ints
  import opened Resp
  import opened Keyspace
  import opened Requests
  import opened CommandLaws

  // ---- Hashes ----

  lemma HashGroup(argv: Command, fl: Floats)
    requires argv != []
    ensures var name := Lower(CStr(argv[0]));
            && (name in {"hset", "hdel", "hget", "hincrby"} ==> Decode(argv, fl) == DecodeHash(name, CStrs(argv)))
            && (name == "hincrbyfloat" ==> Decode(argv, fl) == DecodeHashFloat(CStrs(argv), fl))
  {
    hide DecodeHash, DecodeHashFloat;
  }

  /** The hash under a key; a missing key stands for the empty one. */
  function HashUnder(s: Store, k: Bytes, now: int): map<Bytes, Bytes> {
    if Present(s, k, now) && s[k].value.Hash? then s[k].value.fields else map[]
  }

  /** The fields of h are those of was and the named ones; each named field has the last value given for it, every other
      one what it had. */
  ghost predicate Filled(h: map<Bytes, Bytes>, was: map<Bytes, Bytes>, pairs: seq<(Bytes, Bytes)>) {
    && h.Keys == was.Keys + FieldsOf(pairs)
    && (forall i :: 0 <= i < |pairs| && LastFor(pairs, i) ==> pairs[i].0 in h && h[pairs[i].0] == pairs[i].1)
    && (forall f :: f in was && f !in FieldsOf(pairs) ==> f in h && h[f] == was[f])
  }

  lemma {:induction false} FieldsFill(m: map<Bytes, Bytes>, pairs: seq<(Bytes, Bytes)>)
    ensures Filled(WithFields(m, pairs), m, pairs)
    decreases |pairs|
  {
    if pairs != [] {
      var p, rest := pairs[0], pairs[1..];
      FieldsFill(m[p.0 := p.1], rest);
      hide WithFields;
      FilledStep(WithFields(m[p.0 := p.1], rest), m, pairs);
      assert WithFields(m, pairs) == WithFields(m[p.0 := p.1], rest) by { FirstField(m, pairs); }
    }
  }

  lemma FirstField(m: map<Bytes, Bytes>, pairs: seq<(Bytes, Bytes)>)
    requires pairs != []
    ensures WithFields(m, pairs) == WithFields(m[pairs[0].0 := pairs[0].1], pairs[1..])
  {
  }

  lemma FieldsCons(pairs: seq<(Bytes, Bytes)>)
    requires pairs != []
    ensures FieldsOf(pairs) == {pairs[0].0} + FieldsOf(pairs[1..])
  {
    var p, rest := pairs[0], pairs[1..];
    forall q | q in pairs
      ensures q == p || q in rest
    {
      var j :| 0 <= j < |pairs| && pairs[j] == q;
      assert j > 0 ==> rest[j - 1] == q;
    }
    forall q | q in rest
      ensures q in pairs
    {
    }
  }

  /** Pair i gives the last value for its field. */
  ghost predicate LastFor(pairs: seq<(Bytes, Bytes)>, i: nat)
    requires i < |pairs|
  {
    forall j :: i < j < |pairs| ==> pairs[j].0 != pairs[i].0
  }

  lemma LastForCons(pairs: seq<(Bytes, Bytes)>, i: nat)
    requires i < |pairs| && LastFor(pairs, i)
    ensures i == 0 ==> pairs[0].0 !in FieldsOf(pairs[1..])
    ensures i > 0 ==> pairs[1..][i - 1] == pairs[i] && LastFor(pairs[1..], i - 1)
  {
    var rest := pairs[1..];
    if i == 0 {
      forall q | q in rest
        ensures q.0 != pairs[0].0
      {
        var j :| 0 <= j < |rest| && rest[j] == q;
        assert pairs[j + 1] == q;
      }
    } else {
      forall j | i - 1 < j < |rest|
        ensures rest[j].0 != rest[i - 1].0
      {
        assert rest[j] == pairs[j + 1];
      }
    }
  }

  lemma FilledStep(h: map<Bytes, Bytes>, m: map<Bytes, Bytes>, pairs: seq<(Bytes, Bytes)>)
    requires pairs != [] && Filled(h, m[pairs[0].0 := pairs[0].1], pairs[1..])
    ensures Filled(h, m, pairs)
  {
    hide FieldsOf, LastFor;
    FieldsCons(pairs);
    forall i | 0 <= i < |pairs| && LastFor(pairs, i)
      ensures pairs[i].0 in h && h[pairs[i].0] == pairs[i].1
    {
      LastForCons(pairs, i);
    }
  }

  lemma {:induction false} PairsAre(a: seq<Bytes>)
    ensures |Pairs(a)| == |a| / 2
    ensures forall i :: 0 <= i < |a| / 2 ==> Pairs(a)[i] == (a[2 * i], a[2 * i + 1])
  {
    if |a| >= 2 {
      PairsAre(a[2..]);
      forall i | 0 <= i < |a| / 2
        ensures Pairs(a)[i] == (a[2 * i], a[2 * i + 1])
      {
        if i > 0 {
          assert Pairs(a)[i] == Pairs(a[2..])[i - 1];
        }
      }
    }
  }

  /** HSET: the reply counts the fields that are new. */
  lemma HSetLaw(s: Store, argv: Command, fl: Floats, now: int)
    returns (h: map<Bytes, Bytes>, pairs: seq<(Bytes, Bytes)>)
    requires Named(argv, "hset") && |argv| >= 4 && |argv| % 2 == 0
    ensures |pairs| == (|argv| - 2) / 2
    ensures forall i :: 0 <= i < |pairs| ==> pairs[i] == (CStr(argv[2 + 2 * i]), CStr(argv[3 + 2 * i]))
    ensures Filled(h, HashUnder(s, CStr(argv[1]), now), pairs)
    ensures var k := CStr(argv[1]);
            Answer(s, argv, fl, now) ==
              if Present(s, k, now) && !s[k].value.Hash? then (s, WrongType)
              else (Became(s, k, Hash(h), now), Int(|h| - |HashUnder(s, k, now)|))
  {
    hide Decode, CStr, Lower, OnKeyObject, Exec, Pairs, WithFields, Filled;
    HashGroup(argv, fl);
    var k, a := CStr(argv[1]), CStrs(argv)[2..];
    pairs := Pairs(a);
    PairsAre(a);
    h := WithFields(HashUnder(s, k, now), pairs);
    FieldsFill(HashUnder(s, k, now), pairs);
    HSetActs(s, k, pairs, now);
  }

  lemma HSetActs(s: Store, k: Bytes, pairs: seq<(Bytes, Bytes)>, now: int)
    ensures var was := HashUnder(s, k, now);
            var h := WithFields(was, pairs);
            Exec(s, OnKey(k, OpHSet(pairs)), now) ==
              if Present(s, k, now) && !s[k].value.Hash? then (s, WrongType)
              else (Became(s, k, Hash(h), now), Int(|h| - |was|))
  {
    hide OnKeyObject, Exec, WithFields;
    Acts(s, k, OpHSet(pairs), now);
    Routes(OpHSet(pairs), if Present(s, k, now) then Some(s[k]) else None, now);
  }

  lemma FieldsGone(h: map<Bytes, Bytes>, names: set<Bytes>)
    ensures |h| - |h - names| == |h.Keys * names|
  {
    Fewer(h.Keys, names);
    assert (h - names).Keys == h.Keys - names;
    assert |h| == |h.Keys| && |h - names| == |(h - names).Keys|;
  }

  /** HDEL: exactly the named fields go; the reply counts those that were there; an emptied hash goes away. */
  lemma HDelLaw(s: Store, argv: Command, fl: Floats, now: int)
    requires Named(argv, "hdel") && |argv| >= 3
    ensures var k, names := CStr(argv[1]), From(argv, 2);
            Answer(s, argv, fl, now) ==
              if !Present(s, k, now) then (s - {k}, Int(0))
              else if !s[k].value.Hash? then (s, WrongType)
              else (Left(s, k, Hash(s[k].value.fields - names)), Int(|s[k].value.fields.Keys * names|))
  {
    hide Decode, CStr, Lower, OnKeyObject, Exec, NamesOf, From;
    HashGroup(argv, fl);
    var k := CStr(argv[1]);
    NamesFrom(argv, 2);
    var op := OpHDel(CStrs(argv)[2..]);
    Acts(s, k, op, now);
    Routes(op, if Present(s, k, now) then Some(s[k]) else None, now);
    if Present(s, k, now) && s[k].value.Hash? {
      FieldsGone(s[k].value.fields, From(argv, 2));
      HollowIsEmpty(Hash(s[k].value.fields - From(argv, 2)));
    }
  }

  /** HGET. */
  lemma HGetLaw(s: Store, argv: Command, fl: Floats, now: int)
    requires Named(argv, "hget") && |argv| == 3
    ensures var k, f := CStr(argv[1]), CStr(argv[2]);
            Answer(s, argv, fl, now) ==
              if !Present(s, k, now) then (s - {k}, Nil)
              else if !s[k].value.Hash? then (s, WrongType)
              else (s, if f in s[k].value.fields then Bulk(s[k].value.fields[f]) else Nil)
  {
    hide Decode, CStr, Lower, OnKeyObject, Exec;
    HashGroup(argv, fl);
    var k := CStr(argv[1]);
    Acts(s, k, OpHGet(CStr(argv[2])), now);
    Routes(OpHGet(CStr(argv[2])), if Present(s, k, now) then Some(s[k]) else None, now);
  }

  lemma HIncrDecodes(argv: Command, fl: Floats)
    requires Named(argv, "hincrby") && |argv| == 4
    ensures var d := ParseInt(CStr(argv[3]));
            Decode(argv, fl) == if d.None? then Reject else OnKey(CStr(argv[1]), OpHIncrBy(CStr(argv[2]), d.value))
  {
    hide Decode, CStr, Lower, ParseInt;
    HashGroup(argv, fl);
  }

  /** HINCRBY: a missing field counts from 0, a missing key becomes a hash; a sum that does not fit is refused. */
  lemma HIncrLaw(s: Store, argv: Command, fl: Floats, now: int)
    requires Named(argv, "hincrby") && |argv| == 4
    ensures var k, f, d := CStr(argv[1]), CStr(argv[2]), ParseInt(CStr(argv[3]));
            var h := HashUnder(s, k, now);
            var v := if f in h then ParseInt(h[f]) else Some(0);
            Answer(s, argv, fl, now) ==
              if d.None? then (s, Error)
              else if Present(s, k, now) && !s[k].value.Hash? then (s, WrongType)
              else if v.None? || v.value + d.value > LLONG_MAX || v.value + d.value < LLONG_MIN then
                (Became(s, k, Hash(h), now), Error)
              else (Became(s, k, Hash(h[f := PrintInt(v.value + d.value)]), now), Int(v.value + d.value))
  {
    hide Decode, CStr, Named, Exec, ParseInt, PrintInt, Became, HashUnder;
    HIncrDecodes(argv, fl);
    Refused(s, now);
    var k, d := CStr(argv[1]), ParseInt(CStr(argv[3]));
    if d.Some? {
      HIncrActs(s, k, CStr(argv[2]), d.value, now);
    }
  }

  lemma HIncrActs(s: Store, k: Bytes, f: Bytes, d: int, now: int)
    ensures var h := HashUnder(s, k, now);
            var v := if f in h then ParseInt(h[f]) else Some(0);
            Exec(s, OnKey(k, OpHIncrBy(f, d)), now) ==
              if Present(s, k, now) && !s[k].value.Hash? then (s, WrongType)
              else if v.None? || v.value + d > LLONG_MAX || v.value + d < LLONG_MIN then
                (Became(s, k, Hash(h), now), Error)
              else (Became(s, k, Hash(h[f := PrintInt(v.value + d)]), now), Int(v.value + d))
  {
    hide OnKeyObject, Exec, ParseInt, PrintInt;
    Acts(s, k, OpHIncrBy(f, d), now);
    Routes(OpHIncrBy(f, d), if Present(s, k, now) then Some(s[k]) else None, now);
  }

  /** HINCRBYFLOAT: the same on doubles read from and printed to text; an infinite or undefined sum is refused. */
  lemma HIncrFloatLaw(s: Store, argv: Command, fl: Floats, now: int)
    requires Named(argv, "hincrbyfloat") && |argv| == 4
    ensures var k, f, d := CStr(argv[1]), CStr(argv[2]), fl.read(CStr(argv[3]));
            var h := HashUnder(s, k, now);
            var v := if f in h then fl.read(CStr(h[f])) else Some(Finite(0.0));
            Answer(s, argv, fl, now) ==
              if d.None? then (s, Error)
              else if Present(s, k, now) && !s[k].value.Hash? then (s, WrongType)
              else if v.None? || !v.value.Finite? || !d.value.Finite? then (Became(s, k, Hash(h), now), Error)
              else
                var text := CStr(fl.show(Finite(v.value.value + d.value.value)));
                (Became(s, k, Hash(h[f := text]), now), Bulk(text))
  {
    hide Decode, CStr, Lower, Exec, Became, HashUnder;
    HashGroup(argv, fl);
    Refused(s, now);
    var k, d := CStr(argv[1]), fl.read(CStr(argv[3]));
    if d.Some? {
      HIncrFloatActs(s, k, CStr(argv[2]), d.value, fl, now);
    }
  }

  /** A sum is a number exactly when both summands are. */
  lemma FiniteSum(a: Score, b: Score)
    ensures AddScores(a, b).Some? && AddScores(a, b).value.Finite? <==> a.Finite? && b.Finite?
    ensures a.Finite? && b.Finite? ==> AddScores(a, b) == Some(Finite(a.value + b.value))
  {
  }

  lemma FloatField(was: Obj, f: Bytes, d: Score, fl: Floats)
    requires was.value.Hash?
    ensures var h := was.value.fields;
            var v := if f in h then fl.read(CStr(h[f])) else Some(Finite(0.0));
            HIncrFloat(was, f, d, fl) ==
              if v.None? || !v.value.Finite? || !d.Finite? then (Some(was), Error)
              else
                var text := CStr(fl.show(Finite(v.value.value + d.value)));
                (Some(was.(value := Hash(h[f := text]))), Bulk(text))
  {
    hide CStr, AddScores;
    var h := was.value.fields;
    if f !in h {
      FiniteSum(Finite(0.0), d);
    } else if fl.read(CStr(h[f])).Some? {
      FiniteSum(fl.read(CStr(h[f])).value, d);
    }
  }

  lemma HIncrFloatActs(s: Store, k: Bytes, f: Bytes, d: Score, fl: Floats, now: int)
    ensures var h := HashUnder(s, k, now);
            var v := if f in h then fl.read(CStr(h[f])) else Some(Finite(0.0));
            Exec(s, OnKey(k, OpHIncrByFloat(f, d, fl)), now) ==
              if Present(s, k, now) && !s[k].value.Hash? then (s, WrongType)
              else if v.None? || !v.value.Finite? || !d.Finite? then (Became(s, k, Hash(h), now), Error)
              else
                var text := CStr(fl.show(Finite(v.value.value + d.value)));
                (Became(s, k, Hash(h[f := text]), now), Bulk(text))
  {
    hide OnKeyObject, Exec, CStr, HIncrFloat;
    var op := OpHIncrByFloat(f, d, fl);
    if !Present(s, k, now) || s[k].value.Hash? {
      FloatField(OrNew(if Present(s, k, now) then Some(s[k]) else None, Hash(map[])), f, d, fl);
    }
    Acts(s, k, op, now);
    Routes(op, if Present(s, k, now) then Some(s[k]) else None, now);
  }

  // ---- Sets ----

  lemma SetGroup(argv: Command, fl: Floats)
    requires argv != []
    ensures var name := Lower(CStr(argv[0]));
            name in {"sadd", "srem", "sismember"} ==> Decode(argv, fl) == DecodeSet(name, CStrs(argv))
  {
    hide DecodeSet;
  }

  function SetUnder(s: Store, k: Bytes, now: int): set<Bytes> {
    if Present(s, k, now) && s[k].value.Set? then s[k].value.members else {}
  }

  lemma More(m: set<Bytes>, names: set<Bytes>)
    ensures |m + names| - |m| == |names - m|
  {
    assert m + names == m + (names - m);
  }

  /** SADD and SREM: the replies count what is new and what was there; an emptied set goes away. */
  lemma SetMembersLaw(s: Store, argv: Command, fl: Floats, now: int)
    requires (Named(argv, "sadd") || Named(argv, "srem")) && |argv| >= 3
    ensures var k, names := CStr(argv[1]), From(argv, 2);
            var m := SetUnder(s, k, now);
            Answer(s, argv, fl, now) ==
              if Present(s, k, now) && !s[k].value.Set? then (s, WrongType)
              else if Named(argv, "sadd") then (Became(s, k, Set(m + names), now), Int(|names - m|))
              else if !Present(s, k, now) then (s - {k}, Int(0))
              else (Left(s, k, Set(m - names)), Int(|m * names|))
  {
    hide Decode, CStr, Lower, OnKeyObject, Exec, NamesOf, From;
    SetGroup(argv, fl);
    var k, m := CStr(argv[1]), SetUnder(s, CStr(argv[1]), now);
    NamesFrom(argv, 2);
    var op := if Named(argv, "sadd") then OpSAdd(CStrs(argv)[2..]) else OpSRem(CStrs(argv)[2..]);
    Acts(s, k, op, now);
    Routes(op, if Present(s, k, now) then Some(s[k]) else None, now);
    HollowIsEmpty(Set(m - From(argv, 2)));
    More(m, From(argv, 2));
    Fewer(m, From(argv, 2));
  }

  /** SISMEMBER. */
  lemma IsMemberLaw(s: Store, argv: Command, fl: Floats, now: int)
    requires Named(argv, "sismember") && |argv| == 3
    ensures var k := CStr(argv[1]);
            Answer(s, argv, fl, now) ==
              if Present(s, k, now) && !s[k].value.Set? then (s, WrongType)
              else (Unchanged(s, k, now), Int(if CStr(argv[2]) in SetUnder(s, k, now) then 1 else 0))
  {
    hide Decode, CStr, Lower, OnKeyObject, Exec;
    SetGroup(argv, fl);
    var k := CStr(argv[1]);
    Acts(s, k, OpSIsMember(CStr(argv[2])), now);
    Routes(OpSIsMember(CStr(argv[2])), if Present(s, k, now) then Some(s[k]) else None, now);
  }

  // ---- Sorted sets ----

  lemma ZSetGroup(argv: Command, fl: Floats)
    requires argv != []
    ensures var name := Lower(CStr(argv[0]));
            name in {"zadd", "zrem", "zscore"} ==> Decode(argv, fl) == DecodeZSet(name, CStrs(argv), fl)
  {
    hide DecodeZSet;
  }

  function ScoresUnder(s: Store, k: Bytes, now: int): map<Bytes, Score> {
    if Present(s, k, now) && s[k].value.ZSet? then s[k].value.scores else map[]
  }

  lemma ScoresGone(z: map<Bytes, Score>, names: set<Bytes>)
    ensures |z| - |z - names| == |z.Keys * names|
  {
    Fewer(z.Keys, names);
    assert (z - names).Keys == z.Keys - names;
    assert |z| == |z.Keys| && |z - names| == |(z - names).Keys|;
  }

  /** ZREM. */
  lemma ZRemLaw(s: Store, argv: Command, fl: Floats, now: int)
    requires Named(argv, "zrem") && |argv| >= 3
    ensures var k, names := CStr(argv[1]), From(argv, 2);
            Answer(s, argv, fl, now) ==
              if !Present(s, k, now) then (s - {k}, Int(0))
              else if !s[k].value.ZSet? then (s, WrongType)
              else (Left(s, k, ZSet(s[k].value.scores - names)), Int(|s[k].value.scores.Keys * names|))
  {
    hide Decode, CStr, Lower, OnKeyObject, Exec, NamesOf, From;
    ZSetGroup(argv, fl);
    var k := CStr(argv[1]);
    NamesFrom(argv, 2);
    var op := OpZRem(CStrs(argv)[2..]);
    Acts(s, k, op, now);
    Routes(op, if Present(s, k, now) then Some(s[k]) else None, now);
    if Present(s, k, now) && s[k].value.ZSet? {
      ScoresGone(s[k].value.scores, From(argv, 2));
      HollowIsEmpty(ZSet(s[k].value.scores - From(argv, 2)));
    }
  }

  /** ZSCORE. */
  lemma ZScoreLaw(s: Store, argv: Command, fl: Floats, now: int)
    requires Named(argv, "zscore") && |argv| == 3
    ensures var k, m := CStr(argv[1]), CStr(argv[2]);
            Answer(s, argv, fl, now) ==
              if !Present(s, k, now) then (s - {k}, Nil)
              else if !s[k].value.ZSet? then (s, WrongType)
              else (s, if m in s[k].value.scores then ScoreIs(s[k].value.scores[m]) else Nil)
  {
    hide Decode, CStr, Lower, OnKeyObject, Exec;
    ZSetGroup(argv, fl);
    var k := CStr(argv[1]);
    Acts(s, k, OpZScore(CStr(argv[2])), now);
    Routes(OpZScore(CStr(argv[2])), if Present(s, k, now) then Some(s[k]) else None, now);
  }

  // ---- ZADD ----

  predicate IsFlag(w: Bytes) {
    w == "nx" || w == "xx" || w == "ch" || w == "incr"
  }

  /** The flags of ZADD stand at positions 2 to j, and no flag stands at j. */
  ghost predicate FlagsEnd(argv: Command, j: nat) {
    && 2 <= j <= |argv|
    && (forall i :: 2 <= i < j ==> IsFlag(Lower(CStr(argv[i]))))
    && (j < |argv| ==> !IsFlag(Lower(CStr(argv[j]))))
  }

  ghost predicate HasFlag(argv: Command, j: nat, w: Bytes)
    requires j <= |argv|
  {
    exists i :: 2 <= i < j && Lower(CStr(argv[i])) == w
  }

  lemma {:induction false} FlagsAre(argv: Command, i: nat, j: nat, acc: ZFlags)
    requires FlagsEnd(argv, j) && 2 <= i <= j
    requires acc == FlagsBelow(argv, i)
    ensures ZAddFlags(CStrs(argv)[i..], acc) == (FlagsBelow(argv, j), CStrs(argv)[j..])
    decreases j - i
  {
    hide Lower, CStr, FlagsBelow;
    var a := CStrs(argv)[i..];
    if i < j {
      assert a[0] == CStr(argv[i]) && a[1..] == CStrs(argv)[i + 1..];
      FlagStep(argv, i);
      FlagsAre(argv, i + 1, j, FlagsBelow(argv, i + 1));
    } else if j < |argv| {
      assert a[0] == CStr(argv[j]);
    }
  }

  /** The flags that stand below position i. */
  ghost function FlagsBelow(argv: Command, i: nat): ZFlags
    requires i <= |argv|
  {
    ZFlags(HasFlag(argv, i, "nx"), HasFlag(argv, i, "xx"), HasFlag(argv, i, "ch"), HasFlag(argv, i, "incr"))
  }

  lemma FlagStep(argv: Command, i: nat)
    requires 2 <= i < |argv| && IsFlag(Lower(CStr(argv[i])))
    ensures var w, f := Lower(CStr(argv[i])), FlagsBelow(argv, i);
            FlagsBelow(argv, i + 1) ==
              if w == "nx" then f.(nx := true) else if w == "xx" then f.(xx := true)
              else if w == "ch" then f.(ch := true) else f.(incr := true)
  {
    hide Lower, CStr;
    var w := Lower(CStr(argv[i]));
    OneMore(argv, i, "nx");
    OneMore(argv, i, "xx");
    OneMore(argv, i, "ch");
    OneMore(argv, i, "incr");
  }

  lemma OneMore(argv: Command, i: nat, w: Bytes)
    requires 2 <= i < |argv|
    ensures HasFlag(argv, i + 1, w) <==> HasFlag(argv, i, w) || Lower(CStr(argv[i])) == w
  {
    hide Lower, CStr;
  }

  /** ZADD is refused when NX meets XX, when nothing or half a pair follows the flags, or when INCR comes with more than
      one pair; otherwise it adds the pairs under its flags. */
  lemma ZAddDecodes(argv: Command, j: nat, fl: Floats)
    requires Named(argv, "zadd") && |argv| >= 4 && FlagsEnd(argv, j)
    ensures var f, n := FlagsBelow(argv, j), |argv| - j;
            Decode(argv, fl) ==
              if (f.nx && f.xx) || n == 0 || n % 2 == 1 || (f.incr && n != 2) then Reject
              else OnKey(CStr(argv[1]), OpZAdd(f, ScorePairs(CStrs(argv)[j..], fl)))
  {
    hide Decode, CStr, Lower, FlagsEnd, ScorePairs, ZAddFlags, FlagsBelow;
    assert 2 <= j <= |argv| by { FlagsFit(argv, j); }
    ZSetGroup(argv, fl);
    NoFlagsYet(argv);
    FlagsAre(argv, 2, j, ZFlags(false, false, false, false));
  }

  lemma FlagsFit(argv: Command, j: nat)
    requires FlagsEnd(argv, j)
    ensures 2 <= j <= |argv| && (j < |argv| ==> !IsFlag(Lower(CStr(argv[j]))))
  {
  }

  lemma NoFlagsYet(argv: Command)
    requires |argv| >= 2
    ensures FlagsBelow(argv, 2) == ZFlags(false, false, false, false)
  {
  }

  /** ZADD of one pair. A bad score is refused, but a missing key has become an empty sorted set by then; NX keeps known
      members and XX unknown ones from changing; the reply counts new members, with CH also changed ones; INCR adds to
      the score and replies the sum. */
  lemma ZAddOneLaw(s: Store, argv: Command, j: nat, fl: Floats, now: int)
    requires Named(argv, "zadd") && |argv| == j + 2 && FlagsEnd(argv, j)
    ensures var f, k, m := FlagsBelow(argv, j), CStr(argv[1]), CStr(argv[j + 1]);
            var z, score := ScoresUnder(s, k, now), fl.read(CStr(argv[j]));
            Answer(s, argv, fl, now) ==
              if f.nx && f.xx then (s, Error)
              else if Present(s, k, now) && !s[k].value.ZSet? then (s, WrongType)
              else if !Present(s, k, now) && f.xx then (s - {k}, Int(0))
              else if score.None? then (Became(s, k, ZSet(z), now), Error)
              else if (f.nx && m in z) || (f.xx && m !in z) then (s, if f.incr then Nil else Int(0))
              else if !f.incr then
                (Became(s, k, ZSet(z[m := score.value]), now),
                 Int(if m !in z || (f.ch && z[m] != score.value) then 1 else 0))
              else
                var sum := if m in z then AddScores(z[m], score.value) else score;
                if sum.None? then (Became(s, k, ZSet(z), now), Error)
                else (Became(s, k, ZSet(z[m := sum.value]), now), ScoreIs(sum.value))
  {
    hide Decode, CStr, Lower, OnKeyObject, Exec, FlagsBelow, AddScores;
    assert 2 <= j by { FlagsFit(argv, j); }
    ZAddDecodes(argv, j, fl);
    Refused(s, now);
    var f, k, m := FlagsBelow(argv, j), CStr(argv[1]), CStr(argv[j + 1]);
    var score := fl.read(CStr(argv[j]));
    assert ScorePairs(CStrs(argv)[j..], fl) == [(score, m)] by { OnePair(CStrs(argv)[j..], fl); }
    if !(f.nx && f.xx) {
      ZAddActs(s, k, f, score, m, now);
    }
  }

  lemma OnePair(a: seq<Bytes>, fl: Floats)
    requires |a| == 2
    ensures ScorePairs(a, fl) == [(fl.read(a[0]), a[1])]
  {
    assert a[2..] == [];
  }

  lemma ZAddActs(s: Store, k: Bytes, f: ZFlags, score: Option<Score>, m: Bytes, now: int)
    requires !(f.nx && f.xx)
    ensures var z := ScoresUnder(s, k, now);
            Exec(s, OnKey(k, OpZAdd(f, [(score, m)])), now) ==
              if Present(s, k, now) && !s[k].value.ZSet? then (s, WrongType)
              else if !Present(s, k, now) && f.xx then (s - {k}, Int(0))
              else if score.None? then (Became(s, k, ZSet(z), now), Error)
              else if (f.nx && m in z) || (f.xx && m !in z) then (s, if f.incr then Nil else Int(0))
              else if !f.incr then
                (Became(s, k, ZSet(z[m := score.value]), now),
                 Int(if m !in z || (f.ch && z[m] != score.value) then 1 else 0))
              else
                var sum := if m in z then AddScores(z[m], score.value) else score;
                if sum.None? then (Became(s, k, ZSet(z), now), Error)
                else (Became(s, k, ZSet(z[m := sum.value]), now), ScoreIs(sum.value))
  {
    hide OnKeyObject, Exec, AddScores, ZAddAll;
    var op := OpZAdd(f, [(score, m)]);
    Acts(s, k, op, now);
    Routes(op, if Present(s, k, now) then Some(s[k]) else None, now);
    OneEntry(ScoresUnder(s, k, now), f, score, m);
  }

  lemma OneEntry(z: map<Bytes, Score>, f: ZFlags, score: Option<Score>, m: Bytes)
    ensures ZAddAll(ZProgress(z, 0, 0, false), f, [(score, m)]) ==
              if score.None? then ZProgress(z, 0, 0, true)
              else if (f.nx && m in z) || (f.xx && m !in z) then ZProgress(z, 0, 0, false)
              else ZProgress(z[m := score.value], if m in z then 0 else 1,
                             if m in z && z[m] != score.value then 1 else 0, false)
  {
    assert [(score, m)][1..] == [];
  }

  /** What a reply counts; an error counts nothing. */
  function Counted(r: Reply): int {
    if r.Int? then r.n else 0
  }

  lemma {:induction false} Split(p: ZProgress, f: ZFlags, es: seq<(Option<Score>, Bytes)>)
    requires !p.bad
    ensures var q, r := ZAddAll(ZProgress(p.scores, 0, 0, false), f, es), ZAddAll(p, f, es);
            r == ZProgress(q.scores, p.added + q.added, p.changed + q.changed, q.bad)
    decreases |es|
  {
    if es != [] && es[0].0.Some? {
      var score, m := es[0].0.value, es[0].1;
      var known := m in p.scores;
      if (f.nx && known) || (f.xx && !known) {
        Split(p, f, es[1..]);
      } else {
        var a, c := if known then 0 else 1, if known && p.scores[m] != score then 1 else 0;
        Split(ZProgress(p.scores[m := score], p.added + a, p.changed + c, false), f, es[1..]);
        Split(ZProgress(p.scores[m := score], a, c, false), f, es[1..]);
      }
    }
  }

  /** ZADD of several pairs is ZADD of the first, and then, unless its score is bad, ZADD of the others: same store, and
      the counts add up. */
  lemma ZAddMoreLaw(s: Store, argv: Command, j: nat, fl: Floats, now: int)
    requires Named(argv, "zadd") && FlagsEnd(argv, j) && j + 4 <= |argv| && (|argv| - j) % 2 == 0
    requires !FlagsBelow(argv, j).incr && !(FlagsBelow(argv, j).nx && FlagsBelow(argv, j).xx)
    requires !IsFlag(Lower(CStr(argv[j + 2])))
    ensures var first := Answer(s, argv[..j + 2], fl, now);
            var others := Answer(first.0, argv[..j] + argv[j + 2..], fl, now);
            Answer(s, argv, fl, now) ==
              if first.1.Error? || first.1.WrongType? then first
              else if others.1.Error? then others
              else (others.0, Int(Counted(first.1) + Counted(others.1)))
  {
    hide Decode, CStr, Lower, OnKeyObject, Exec, FlagsBelow, FlagsEnd, ScorePairs;
    FlagsFit(argv, j);
    var one, rest := argv[..j + 2], argv[..j] + argv[j + 2..];
    SameFlags(argv, one, j);
    SameFlags(argv, rest, j);
    ZAddDecodes(argv, j, fl);
    ZAddDecodes(one, j, fl);
    ZAddDecodes(rest, j, fl);
    var f, k, a := FlagsBelow(argv, j), CStr(argv[1]), CStrs(argv)[j..];
    assert CStrs(one)[j..] == a[..2] && CStrs(rest)[j..] == a[2..];
    FirstPair(a, fl);
    ZAddSplit(s, k, f, ScorePairs(a, fl), now);
  }

  lemma SameFlags(argv: Command, other: Command, j: nat)
    requires FlagsEnd(argv, j) && j < |other| && other[0] == argv[0] && other[..j] == argv[..j] && |argv| > j
    requires !IsFlag(Lower(CStr(other[j])))
    ensures FlagsEnd(other, j) && FlagsBelow(other, j) == FlagsBelow(argv, j) && CStr(other[1]) == CStr(argv[1])
    ensures forall name :: Named(other, name) <==> Named(argv, name)
  {
    hide Lower, CStr;
    forall i | 0 <= i < j
      ensures other[i] == argv[i]
    {
      assert other[i] == other[..j][i] && argv[i] == argv[..j][i];
    }
  }

  lemma FirstPair(a: seq<Bytes>, fl: Floats)
    requires |a| >= 2
    ensures ScorePairs(a[..2], fl) == [(fl.read(a[0]), a[1])]
    ensures ScorePairs(a, fl) == ScorePairs(a[..2], fl) + ScorePairs(a[2..], fl)
  {
    OnePair(a[..2], fl);
  }

  lemma ZAddSplit(s: Store, k: Bytes, f: ZFlags, es: seq<(Option<Score>, Bytes)>, now: int)
    requires es != [] && !f.incr
    ensures var first := Exec(s, OnKey(k, OpZAdd(f, [es[0]])), now);
            var others := Exec(first.0, OnKey(k, OpZAdd(f, es[1..])), now);
            Exec(s, OnKey(k, OpZAdd(f, es)), now) ==
              if first.1.Error? || first.1.WrongType? then first
              else if others.1.Error? then others
              else (others.0, Int(Counted(first.1) + Counted(others.1)))
  {
    hide OnKeyObject, Exec, ZAddAll, Became;
    ZAddEffect(s, k, f, es, now);
    ZAddEffect(s, k, f, [es[0]], now);
    var first := Exec(s, OnKey(k, OpZAdd(f, [es[0]])), now);
    ZAddEffect(first.0, k, f, es[1..], now);
    if Present(s, k, now) && !s[k].value.ZSet? {
    } else if !Present(s, k, now) && f.xx {
      assert first.0 == s - {k} && (s - {k}) - {k} == s - {k};
    } else {
      var z := ScoresUnder(s, k, now);
      SplitFirst(z, f, es);
      var p := ZAddAll(ZProgress(z, 0, 0, false), f, [es[0]]);
      var q := ZAddAll(ZProgress(p.scores, 0, 0, false), f, es[1..]);
      BecameTwice(s, k, p.scores, ZSet(q.scores), now);
    }
  }

  lemma BecameTwice(s: Store, k: Bytes, z: map<Bytes, Score>, v: Value, now: int)
    ensures var t := Became(s, k, ZSet(z), now);
            Present(t, k, now) && t[k].value == ZSet(z) && ScoresUnder(t, k, now) == z
            && Became(t, k, v, now) == Became(s, k, v, now)
  {
  }

  /** The effect of ZADD without INCR in terms of the pair loop. */
  lemma ZAddEffect(s: Store, k: Bytes, f: ZFlags, es: seq<(Option<Score>, Bytes)>, now: int)
    requires !f.incr
    ensures var p := ZAddAll(ZProgress(ScoresUnder(s, k, now), 0, 0, false), f, es);
            Exec(s, OnKey(k, OpZAdd(f, es)), now) ==
              if Present(s, k, now) && !s[k].value.ZSet? then (s, WrongType)
              else if !Present(s, k, now) && f.xx then (s - {k}, Int(0))
              else (Became(s, k, ZSet(p.scores), now),
                    if p.bad then Error else Int(if f.ch then p.added + p.changed else p.added))
  {
    hide OnKeyObject, Exec, ZAddAll;
    var op := OpZAdd(f, es);
    Acts(s, k, op, now);
    Routes(op, if Present(s, k, now) then Some(s[k]) else None, now);
  }

  lemma SplitFirst(z: map<Bytes, Score>, f: ZFlags, es: seq<(Option<Score>, Bytes)>)
    requires es != []
    ensures var p := ZAddAll(ZProgress(z, 0, 0, false), f, [es[0]]);
            var q := ZAddAll(ZProgress(p.scores, 0, 0, false), f, es[1..]);
            ZAddAll(ZProgress(z, 0, 0, false), f, es) ==
              if p.bad then p else ZProgress(q.scores, p.added + q.added, p.changed + q.changed, q.bad)
  {
    OneEntry(z, f, es[0].0, es[0].1);
    var p := ZAddAll(ZProgress(z, 0, 0, false), f, [es[0]]);
    assert [es[0]] == [(es[0].0, es[0].1)];
    if !p.bad {
      Split(p, f, es[1..]);
    }
  }

  // ---- Numbers of arguments ----

  /** The numbers of arguments, the name included, that a command takes. */
  predicate Arity(name: Bytes, n: nat) {
    if name in {"flushall", "dbsize"} then n == 1
    else if name in {"get", "incr", "decr", "keys"} then n == 2
    else if name in {"lpop", "rpop"} then 2 <= n <= 3
    else if name in {"del", "exists"} then n >= 2
    else if name in {"expire", "pexpire", "expireat", "pexpireat", "hget", "sismember", "zscore"} then n == 3
    else if name in {"set", "lpush", "rpush", "lpushx", "rpushx", "hdel", "sadd", "srem", "zrem"} then n >= 3
    else if name in {"lrem", "ltrim", "lrange", "hincrby", "hincrbyfloat"} then n == 4
    else if name == "hset" then n >= 4 && n % 2 == 0
    else if name == "zadd" then n >= 4
    else true
  }

  lemma FewArities(name: Bytes, a: seq<Bytes>)
    requires a != [] && !Arity(name, |a|)
    ensures name in {"set", "get", "incr", "decr"} ==> DecodeString(name, a) == Reject
    ensures name in {"del", "exists", "keys", "flushall", "dbsize", "expire", "pexpire", "expireat", "pexpireat"} ==>
              DecodeKeys(name, a) == Reject
  {
    hide SetOptions, ParseInt;
  }

  lemma ListArities(name: Bytes, a: seq<Bytes>)
    requires a != [] && !Arity(name, |a|)
    ensures name in {"lpush", "rpush", "lpushx", "rpushx", "lpop", "rpop", "lrem", "ltrim", "lrange"} ==>
              DecodeList(name, a) == Reject
  {
    hide ParseInt;
  }

  lemma ContainerArities(name: Bytes, a: seq<Bytes>, fl: Floats)
    requires a != [] && !Arity(name, |a|)
    ensures name in {"hset", "hdel", "hget", "hincrby"} ==> DecodeHash(name, a) == Reject
    ensures name == "hincrbyfloat" ==> DecodeHashFloat(a, fl) == Reject
    ensures name in {"sadd", "srem", "sismember"} ==> DecodeSet(name, a) == Reject
    ensures name in {"zadd", "zrem", "zscore"} ==> DecodeZSet(name, a, fl) == Reject
  {
    hide ParseInt, Pairs, ScorePairs, ZAddFlags;
  }

  lemma ArityNames(name: Bytes, n: nat)
    requires !Arity(name, n)
    ensures || name in {"set", "get", "incr", "decr"}
            || name in {"del", "exists", "keys", "flushall", "dbsize", "expire", "pexpire", "expireat", "pexpireat"}
            || name in {"lpush", "rpush", "lpushx", "rpushx", "lpop", "rpop", "lrem", "ltrim", "lrange"}
            || name in {"hset", "hdel", "hget", "hincrby"} || name == "hincrbyfloat"
            || name in {"sadd", "srem", "sismember"} || name in {"zadd", "zrem", "zscore"}
  {
  }

  /** A modelled command with a wrong number of arguments is refused and changes nothing. */
  lemma ArityLaw(s: Store, argv: Command, fl: Floats, now: int)
    requires argv != [] && !Arity(Lower(CStr(argv[0])), |argv|)
    ensures Answer(s, argv, fl, now) == (s, Error)
  {
    hide Decode, CStr, Lower, Exec, Arity, DecodeString, DecodeKeys, DecodeList, DecodeHash, DecodeHashFloat, DecodeSet,
         DecodeZSet;
    var name, a := Lower(CStr(argv[0])), CStrs(argv);
    Refused(s, now);
    ArityNames(name, |argv|);
    FewArities(name, a);
    ListArities(name, a);
    ContainerArities(name, a, fl);
    StringGroup(argv, fl);
    KeysGroup(argv, fl);
    ListGroup(argv, fl);
    HashGroup(argv, fl);
    SetGroup(argv, fl);
    ZSetGroup(argv, fl);
  }
}
