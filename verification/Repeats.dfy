/** Which commands may be run twice: an exact test on the commands for a repeated log to change nothing. */
module Repeats {
  import opened Orders
  import opened Resp
  import opened Globs
  import opened Keyspace
  import opened Requests
  import opened Clocks
  import opened Rewrite
  import opened Containers

  // ---- Kinds of requests, as seen from one key ----

  /** Writes that the test speaks about: pushes, additions to sets and hashes, and what overwrites a key. */
  predicate Plain(r: Request) {
    match r
    case OnKey(_, op) => op.OpPush? || op.OpSAdd? || op.OpHSet? || (op.OpSet? && !op.nx && !op.xx)
    case Exists(_) => false
    case Unmodelled => false
    case _ => true
  }

  predicate Pushes(r: Request, k: Bytes) {
    r.OnKey? && r.key == k && r.op.OpPush?
  }

  /** Whatever the key held before, this decides what it holds after. */
  predicate Overwrites(r: Request, k: Bytes) {
    r.FlushAll? || (r.Del? && k in r.keys) || (r.OnKey? && r.key == k && r.op.OpSet?)
  }

  predicate Pushed(rs: seq<Request>, k: Bytes) {
    exists i :: 0 <= i < |rs| && Pushes(rs[i], k)
  }

  predicate Overwritten(rs: seq<Request>, k: Bytes) {
    exists i :: 0 <= i < |rs| && Overwrites(rs[i], k)
  }

  ghost predicate AllPlain(rs: seq<Request>, horizon: int) {
    forall i :: 0 <= i < |rs| ==> Plain(rs[i]) && WellFormedRequest(rs[i]) && SafeRequest(rs[i], horizon)
  }

  function Decoded(cs: seq<Command>, fl: Floats): (rs: seq<Request>)
    ensures |rs| == |cs| && forall i :: 0 <= i < |cs| ==> rs[i] == Decode(cs[i], fl)
  {
    seq(|cs|, i requires 0 <= i < |cs| => Decode(cs[i], fl))
  }

  // ---- A run as seen from one key ----

  function AtKey(s: Store, k: Bytes): Option<Obj> {
    if k in s then Some(s[k]) else None
  }

  ghost function KeyStep(o: Option<Obj>, r: Request, k: Bytes, now: int): Option<Obj> {
    match r
    case OnKey(key, op) => if key == k then OnKeyObject(op, o, now).0 else o
    case Del(keys) => if k in keys then None else o
    case FlushAll => None
    case _ => o
  }

  ghost function KeyRun(o: Option<Obj>, rs: seq<Request>, k: Bytes, now: int): Option<Obj> {
    if rs == [] then o else KeyStep(KeyRun(o, rs[..|rs| - 1], k, now), rs[|rs| - 1], k, now)
  }

  lemma StepAt(s: Store, r: Request, k: Bytes, now: int)
    requires Plain(r) && SafeStore(s, now)
    ensures AtKey(Exec(s, r, now).0, k) == KeyStep(AtKey(s, k), r, k, now)
  {
    hide OnKeyObject, Purge, CountLive, Matches, Tokens;
    if r.OnKey? {
      assert Live(s, r.key, now) == AtKey(s, r.key);
      StoredAt(s, r.key, OnKeyObject(r.op, AtKey(s, r.key), now).0, k);
    }
  }

  lemma StoredAt(s: Store, key: Bytes, o: Option<Obj>, k: Bytes)
    ensures AtKey(Stored(s, key, o), k) == if k == key then o else AtKey(s, k)
  {
  }

  lemma {:induction false} RunAt(s: Store, cs: seq<Command>, fl: Floats, k: Bytes, now: int)
    requires SafeStore(s, now) && AllPlain(Decoded(cs, fl), now)
    ensures SafeStore(Run(s, cs, fl, now), now)
    ensures AtKey(Run(s, cs, fl, now), k) == KeyRun(AtKey(s, k), Decoded(cs, fl), k, now)
  {
    hide Exec, Decode, KeyStep, SafeStore, AtKey, Plain, WellFormedRequest, SafeRequest;
    if cs != [] {
      var n := |cs| - 1;
      assert Decoded(cs, fl)[..n] == Decoded(cs[..n], fl);
      RunAt(s, cs[..n], fl, k, now);
      var t := Run(s, cs[..n], fl, now);
      StepAt(t, Decode(cs[n], fl), k, now);
      ClockIrrelevant(t, Decode(cs[n], fl), now, now, now);
    }
  }

  lemma SameStore(s: Store, t: Store)
    ensures s == t <==> forall k :: AtKey(s, k) == AtKey(t, k)
  {
    if forall k :: AtKey(s, k) == AtKey(t, k) {
      assert forall k :: k in s ==> AtKey(s, k) == AtKey(t, k);
      assert forall k :: k in t ==> AtKey(s, k) == AtKey(t, k);
    }
  }

  lemma Snoc(rs: seq<Request>, k: Bytes, horizon: int)
    requires rs != [] && AllPlain(rs, horizon)
    ensures var init, last := rs[..|rs| - 1], rs[|rs| - 1];
            && AllPlain(init, horizon) && Plain(last) && WellFormedRequest(last) && SafeRequest(last, horizon)
            && (Overwritten(rs, k) <==> Overwritten(init, k) || Overwrites(last, k))
            && (Pushed(rs, k) <==> Pushed(init, k) || Pushes(last, k))
  {
    hide Plain, WellFormedRequest, SafeRequest, Overwrites, Pushes;
    var init, last := rs[..|rs| - 1], rs[|rs| - 1];
    assert forall i :: 0 <= i < |init| ==> init[i] == rs[i];
  }

  // ---- An overwritten key ends the same wherever it started ----

  lemma {:induction false} OverwrittenForgets(o: Option<Obj>, o': Option<Obj>, rs: seq<Request>, k: Bytes, now: int)
    requires AllPlain(rs, now) && Overwritten(rs, k)
    ensures KeyRun(o, rs, k, now) == KeyRun(o', rs, k, now)
  {
    hide Overwritten, AllPlain;
    if rs == [] {
      NoneOverwritten(k);
    } else {
      Snoc(rs, k, now);
      if Overwritten(rs[..|rs| - 1], k) {
        OverwrittenForgets(o, o', rs[..|rs| - 1], k, now);
      }
    }
  }

  lemma NoneOverwritten(k: Bytes)
    ensures !Overwritten([], k) && !Pushed([], k)
  {
  }

  // ---- A list that is not overwritten grows with every push ----

  ghost predicate IsList(o: Option<Obj>) {
    o.Some? && o.value.value.List?
  }

  lemma {:induction false} ListGrows(o: Option<Obj>, rs: seq<Request>, k: Bytes, now: int)
    requires AllPlain(rs, now) && !Overwritten(rs, k) && IsList(o)
    ensures var o' := KeyRun(o, rs, k, now);
            && IsList(o')
            && (Pushed(rs, k) ==> |o'.value.value.elems| > |o.value.value.elems|)
            && (!Pushed(rs, k) ==> o' == o)
  {
    hide Overwritten, Pushed, AllPlain, Rev;
    if rs == [] {
      NoneOverwritten(k);
    } else {
      Snoc(rs, k, now);
      ListGrows(o, rs[..|rs| - 1], k, now);
      ListStep(KeyRun(o, rs[..|rs| - 1], k, now), rs[|rs| - 1], k, now);
    }
  }

  lemma ListStep(o: Option<Obj>, r: Request, k: Bytes, now: int)
    requires Plain(r) && WellFormedRequest(r) && !Overwrites(r, k) && IsList(o)
    ensures var o' := KeyStep(o, r, k, now);
            && IsList(o')
            && (Pushes(r, k) ==> |o'.value.value.elems| > |o.value.value.elems|)
            && (!Pushes(r, k) ==> o' == o)
  {
    if Pushes(r, k) {
      RevLength(r.op.values);
    }
  }

  lemma {:induction false} RevLength(l: seq<Bytes>)
    ensures |Rev(l)| == |l|
  {
    if l != [] {
      RevLength(l[1..]);
    }
  }

  // ---- What the run has put into a set or a hash stays what it is when it is put there again ----

  function AddedBy(r: Request, k: Bytes): set<Bytes> {
    if r.OnKey? && r.key == k && r.op.OpSAdd? then NamesOf(r.op.names) else {}
  }

  ghost function Added(rs: seq<Request>, k: Bytes): set<Bytes> {
    if rs == [] then {} else Added(rs[..|rs| - 1], k) + AddedBy(rs[|rs| - 1], k)
  }

  function PairsBy(r: Request, k: Bytes): seq<(Bytes, Bytes)> {
    if r.OnKey? && r.key == k && r.op.OpHSet? then r.op.pairs else []
  }

  ghost function Fields(rs: seq<Request>, k: Bytes): seq<(Bytes, Bytes)> {
    if rs == [] then [] else Fields(rs[..|rs| - 1], k) + PairsBy(rs[|rs| - 1], k)
  }

  /** The object already holds all that the requests would add to it. */
  ghost predicate Holds(o: Option<Obj>, added: set<Bytes>, fields: seq<(Bytes, Bytes)>) {
    if o.None? then added == {} && fields == []
    else
      match o.value.value
      case Set(m) => added <= m
      case Hash(h) => WithFields(h, fields) == h
      case _ => true
  }

  lemma {:induction false} FieldsAppend(m: map<Bytes, Bytes>, a: seq<(Bytes, Bytes)>, b: seq<(Bytes, Bytes)>)
    ensures WithFields(m, a + b) == WithFields(WithFields(m, a), b)
    decreases |a|
  {
    if a == [] {
      assert a + b == b;
    } else {
      FieldsAppend(m[a[0].0 := a[0].1], a[1..], b);
      assert (a + b)[1..] == a[1..] + b;
    }
  }

  /** A field that is set ends the same wherever it started; another keeps its value. */
  lemma {:induction false} FieldEnds(m: map<Bytes, Bytes>, m': map<Bytes, Bytes>, ps: seq<(Bytes, Bytes)>, f: Bytes)
    ensures var h, h' := WithFields(m, ps), WithFields(m', ps);
            if f in FieldsOf(ps) then f in h && f in h' && h[f] == h'[f]
            else (f in h <==> f in m) && (f in m ==> h[f] == m[f])
    decreases |ps|
  {
    if ps != [] {
      var (g, v) := ps[0];
      FieldEnds(m[g := v], m'[g := v], ps[1..], f);
      assert ps == [ps[0]] + ps[1..];
      assert f in FieldsOf(ps) <==> f == g || f in FieldsOf(ps[1..]);
      if f == g && f !in FieldsOf(ps[1..]) {
        FieldEnds(m'[g := v], m[g := v], ps[1..], f);
      }
    }
  }

  /** After more fields have been set, setting them all again changes nothing, if that was so before. */
  lemma FieldsAgain(h: map<Bytes, Bytes>, fields: seq<(Bytes, Bytes)>, ps: seq<(Bytes, Bytes)>)
    requires WithFields(h, fields) == h
    ensures WithFields(WithFields(h, ps), fields + ps) == WithFields(h, ps)
  {
    var h' := WithFields(h, ps);
    var t := WithFields(h', fields);
    FieldsAppend(h', fields, ps);
    var u := WithFields(t, ps);
    forall f
      ensures (f in u <==> f in h') && (f in h' ==> u[f] == h'[f])
    {
      FieldEnds(t, h, ps, f);
      FieldEnds(h', h, fields, f);
      FieldEnds(h, h', ps, f);
      FieldEnds(h, h', fields, f);
    }
  }

  lemma HoldsNothing(o: Option<Obj>)
    ensures Holds(o, {}, [])
  {
  }

  lemma HoldsStep(o: Option<Obj>, r: Request, k: Bytes, now: int, added: set<Bytes>, fields: seq<(Bytes, Bytes)>)
    requires Plain(r) && WellFormedRequest(r) && !Overwrites(r, k) && Holds(o, added, fields)
    ensures Holds(KeyStep(o, r, k, now), added + AddedBy(r, k), fields + PairsBy(r, k))
  {
    hide Holds, OnList, OnSet, OnHash;
    assert added + {} == added && fields + [] == fields;
    if r.OnKey? && r.key == k {
      OpHolds(r.op, o, added, fields);
    }
  }

  lemma OpHolds(op: Op, o: Option<Obj>, added: set<Bytes>, fields: seq<(Bytes, Bytes)>)
    requires Holds(o, added, fields)
    ensures op.OpPush? ==> Holds(OnList(op, o).0, added, fields)
    ensures op.OpSAdd? ==> Holds(OnSet(op, o).0, added + NamesOf(op.names), fields)
    ensures op.OpHSet? ==> Holds(OnHash(op, o).0, added, fields + op.pairs)
  {
    hide WithFields, Rev, NamesOf;
    if op.OpHSet? && (o.None? || o.value.value.Hash?) {
      var h := OrNew(o, Hash(map[])).value.fields;
      if o.None? {
        WithNothing(h);
      }
      FieldsAgain(h, fields, op.pairs);
    }
  }

  lemma WithNothing(h: map<Bytes, Bytes>)
    ensures WithFields(h, []) == h
  {
  }

  lemma {:induction false} RunHolds(o: Option<Obj>, rs: seq<Request>, k: Bytes, now: int)
    requires AllPlain(rs, now) && !Overwritten(rs, k)
    ensures Holds(KeyRun(o, rs, k, now), Added(rs, k), Fields(rs, k))
  {
    hide Overwritten, AllPlain, Holds, AddedBy, PairsBy, KeyStep;
    if rs == [] {
      HoldsNothing(o);
    } else {
      var init, last := rs[..|rs| - 1], rs[|rs| - 1];
      Snoc(rs, k, now);
      RunHolds(o, init, k, now);
      HoldsStep(KeyRun(o, init, k, now), last, k, now, Added(init, k), Fields(init, k));
    }
  }

  /** What the requests make of an object that is there and is no list. */
  ghost function Grown(o: Obj, added: set<Bytes>, fields: seq<(Bytes, Bytes)>): Obj {
    match o.value
    case Set(m) => o.(value := Set(m + added))
    case Hash(h) => o.(value := Hash(WithFields(h, fields)))
    case _ => o
  }

  lemma GrownStep(o: Obj, r: Request, k: Bytes, now: int, added: set<Bytes>, fields: seq<(Bytes, Bytes)>)
    requires Plain(r) && !Overwrites(r, k) && !o.value.List?
    ensures KeyStep(Some(Grown(o, added, fields)), r, k, now)
         == Some(Grown(o, added + AddedBy(r, k), fields + PairsBy(r, k)))
  {
    hide WithFields, Rev, NamesOf;
    assert added + {} == added && fields + [] == fields;
    if r.OnKey? && r.key == k && r.op.OpHSet? && o.value.Hash? {
      FieldsAppend(o.value.fields, fields, r.op.pairs);
    } else if r.OnKey? && r.key == k && r.op.OpSAdd? && o.value.Set? {
      assert o.value.members + added + NamesOf(r.op.names) == o.value.members + (added + NamesOf(r.op.names));
    }
  }

  lemma {:induction false} OtherGrows(o: Obj, rs: seq<Request>, k: Bytes, now: int)
    requires AllPlain(rs, now) && !Overwritten(rs, k) && !o.value.List?
    ensures KeyRun(Some(o), rs, k, now) == Some(Grown(o, Added(rs, k), Fields(rs, k)))
  {
    hide Overwritten, AllPlain, AddedBy, PairsBy, KeyStep;
    if rs == [] {
      GrownNothing(o);
    } else {
      var init, last := rs[..|rs| - 1], rs[|rs| - 1];
      Snoc(rs, k, now);
      OtherGrows(o, init, k, now);
      GrownStep(o, last, k, now, Added(init, k), Fields(init, k));
    }
  }

  lemma GrownNothing(o: Obj)
    ensures Grown(o, {}, []) == o
  {
    if o.value.Set? {
      assert o.value.members + {} == o.value.members;
    }
  }

  lemma GrownHeld(o: Obj, added: set<Bytes>, fields: seq<(Bytes, Bytes)>)
    requires Holds(Some(o), added, fields)
    ensures Grown(o, added, fields) == o
  {
    if o.value.Set? {
      assert o.value.members + added == o.value.members;
    }
  }

  // ---- Running the requests again ----

  /** From where a run has brought a key, running it again changes the key exactly when it is a list that was pushed to
      and never overwritten. */
  lemma KeyRepeats(o: Option<Obj>, rs: seq<Request>, k: Bytes, now: int)
    requires AllPlain(rs, now)
    ensures var o' := KeyRun(o, rs, k, now);
            KeyRun(o', rs, k, now) == o' <==> !(Pushed(rs, k) && !Overwritten(rs, k) && IsList(o'))
  {
    hide AllPlain, Overwritten, Pushed, KeyRun, Holds, Grown;
    var o' := KeyRun(o, rs, k, now);
    if Overwritten(rs, k) {
      OverwrittenForgets(o, o', rs, k, now);
    } else if IsList(o') {
      ListGrows(o', rs, k, now);
    } else if o'.Some? {
      RunHolds(o, rs, k, now);
      OtherGrows(o'.value, rs, k, now);
      GrownHeld(o'.value, Added(rs, k), Fields(rs, k));
    } else if o.Some? {
      if IsList(o) {
        ListGrows(o, rs, k, now);
      } else {
        OtherGrows(o.value, rs, k, now);
      }
    }
  }

  /** A list that the commands push to and never overwrite. */
  ghost predicate PushedOnly(s: Store, cs: seq<Command>, fl: Floats, k: Bytes) {
    k in s && s[k].value.List? && Pushed(Decoded(cs, fl), k) && !Overwritten(Decoded(cs, fl), k)
  }

  /** Running plain commands a second time changes nothing if and only if every list they push to is also overwritten by
      one of them. */
  lemma RepeatExact(s: Store, cs: seq<Command>, fl: Floats, now: int)
    requires SafeStore(s, now) && AllPlain(Decoded(cs, fl), now)
    ensures var t := Run(s, cs, fl, now);
            Run(t, cs, fl, now) == t <==> forall k :: !PushedOnly(t, cs, fl, k)
  {
    hide SafeStore, AllPlain, Run, KeyRun, Pushed, Overwritten;
    var t, rs := Run(s, cs, fl, now), Decoded(cs, fl);
    var u := Run(t, cs, fl, now);
    forall k
      ensures AtKey(u, k) == AtKey(t, k) <==> !PushedOnly(t, cs, fl, k)
    {
      RunAt(s, cs, fl, k, now);
      RunAt(t, cs, fl, k, now);
      KeyRepeats(AtKey(s, k), rs, k, now);
    }
    SameStore(u, t);
  }
}
