/** Lazy and active expiry cannot be observed. */
module Expiry {
  import opened Orders
  import opened Collections
  import opened Keyspace

  /** What a client can see of a store: the unexpired keys. */
  ghost function View(s: Store, now: int): Store {
    map k | k in s && !Expired(s[k], now) :: s[k]
  }

  lemma LiveIsView(s: Store, k: Bytes, now: int)
    ensures Live(s, k, now) == if k in View(s, now) then Some(View(s, now)[k]) else None
  {
  }

  /** Once gone from the view, always gone: later views are views of earlier ones. */
  lemma ViewLater(s: Store, now: int, later: int)
    requires now <= later
    ensures View(s, later) == View(View(s, now), later)
  {
  }

  lemma ViewStored(s: Store, k: Bytes, o: Option<Obj>, now: int)
    ensures View(Stored(s, k, o), now) ==
              if o.Some? && !Expired(o.value, now) then View(s, now)[k := o.value] else View(s, now) - {k}
  {
  }

  /** DBSIZE and the count of DEL look at raw entries; every other reply is covered. */
  predicate Observable(r: Request) {
    !r.DbSize? && !r.Del?
  }

  lemma {:induction false} CountLiveView(s: Store, s': Store, ks: seq<Bytes>, now: int)
    requires View(s, now) == View(s', now)
    ensures CountLive(s, ks, now) == CountLive(s', ks, now)
  {
    if ks != [] {
      CountLiveView(s, s', ks[..|ks| - 1], now);
      LiveIsView(s, ks[|ks| - 1], now);
      LiveIsView(s', ks[|ks| - 1], now);
    }
  }

  lemma KeyUnobservable(s: Store, s': Store, k: Bytes, op: Op, now: int)
    requires View(s, now) == View(s', now)
    ensures Exec(s, OnKey(k, op), now).1 == Exec(s', OnKey(k, op), now).1
    ensures View(Exec(s, OnKey(k, op), now).0, now) == View(Exec(s', OnKey(k, op), now).0, now)
  {
    hide OnKeyObject, Live, Stored, View;
    LiveIsView(s, k, now);
    LiveIsView(s', k, now);
    var o := OnKeyObject(op, Live(s, k, now), now).0;
    ViewStored(s, k, o, now);
    ViewStored(s', k, o, now);
  }

  lemma DelView(s: Store, names: set<Bytes>, now: int)
    ensures View(s - names, now) == View(s, now) - names
  {
  }

  lemma KeysView(s: Store, pattern: Bytes, now: int)
    ensures Exec(s, Keys(pattern), now).1 == Exec(View(s, now), Keys(pattern), now).1
  {
  }

  lemma ExistsView(s: Store, ks: seq<Bytes>, now: int)
    ensures View(Purge(s, ks, now), now) == View(s, now)
  {
  }

  lemma OtherUnobservable(s: Store, s': Store, r: Request, now: int)
    requires View(s, now) == View(s', now) && !r.OnKey?
    ensures Observable(r) ==> Exec(s, r, now).1 == Exec(s', r, now).1
    ensures View(Exec(s, r, now).0, now) == View(Exec(s', r, now).0, now)
  {
    hide OnKeyObject, View, Purge, CountLive;
    match r
    case Del(ks) =>
      DelView(s, NamesOf(ks), now);
      DelView(s', NamesOf(ks), now);
    case Exists(ks) =>
      CountLiveView(s, s', ks, now);
      ExistsView(s, ks, now);
      ExistsView(s', ks, now);
    case Keys(pattern) =>
      KeysView(s, pattern, now);
      KeysView(s', pattern, now);
    case FlushAll =>
    case DbSize =>
    case Reject =>
    case Ignore =>
    case Unmodelled =>
  }

  /** One request on two stores that look the same: same reply, and they still look the same. */
  lemma StepUnobservable(s: Store, s': Store, r: Request, now: int)
    requires View(s, now) == View(s', now)
    ensures Observable(r) ==> Exec(s, r, now).1 == Exec(s', r, now).1
    ensures View(Exec(s, r, now).0, now) == View(Exec(s', r, now).0, now)
  {
    hide *;
    if r.OnKey? {
      KeyUnobservable(s, s', r.key, r.op, now);
    } else {
      OtherUnobservable(s, s', r, now);
    }
  }

  /** DEL counts what it deletes; the counts on a store and on its view agree exactly when no named key lies expired in
      the store. */
  lemma DelCountExact(s: Store, ks: seq<Bytes>, now: int)
    ensures Exec(s, Del(ks), now).1 == Exec(View(s, now), Del(ks), now).1
      <==> forall k :: k in ks && k in s ==> !Expired(s[k], now)
  {
    var names, v := NamesOf(ks), View(s, now);
    CountDeleted(s, names);
    CountDeleted(v, names);
    assert v.Keys * names <= s.Keys * names;
    if forall k :: k in ks && k in s ==> !Expired(s[k], now) {
      assert v.Keys * names == s.Keys * names;
    } else {
      var k :| k in ks && k in s && Expired(s[k], now);
      assert k in s.Keys * names && k !in v.Keys * names;
      SmallerSubset(v.Keys * names, s.Keys * names);
    }
  }

  /** So the counts differ for a key that has expired and still lies in the store. */
  lemma DelFails(k: Bytes)
    ensures var s := map[k := Obj(Str([]), 0)];
            Exec(s, Del([k]), 0).1 == Int(1) && Exec(View(s, 0), Del([k]), 0).1 == Int(0)
  {
    var s := map[k := Obj(Str([]), 0)];
    var v := View(s, 0);
    CountDeleted(s, NamesOf([k]));
    CountDeleted(v, NamesOf([k]));
    assert k in [k] && NamesOf([k]) == {k};
    assert s.Keys * {k} == {k} && v.Keys * {k} == {};
  }

  lemma CountDeleted(s: Store, names: set<Bytes>)
    ensures |s| - |s - names| == |s.Keys * names|
  {
    assert (s - names).Keys == s.Keys - s.Keys * names;
    assert |s.Keys - s.Keys * names| == |s.Keys| - |s.Keys * names|;
  }

  lemma SmallerSubset(a: set<Bytes>, b: set<Bytes>)
    requires a <= b && a != b
    ensures |a| < |b|
  {
    var x :| x in b && x !in a;
    assert a <= b - {x};
    SubsetSize(a, b - {x});
  }

  // ---- Runs, with sweeps of the expire cycle anywhere between requests ----

  datatype Event = Event(request: Request, now: int)

  ghost predicate Clocked(events: seq<Event>) {
    forall i, j :: 0 <= i < j < |events| ==> events[i].now <= events[j].now
  }

  /** A sweep deletes some of the keys that have expired by now. */
  ghost function Swept(s: Store, sweep: set<Bytes>, now: int): Store {
    s - set k | k in s && k in sweep && Expired(s[k], now)
  }

  lemma SweepUnseen(s: Store, sweep: set<Bytes>, now: int)
    ensures View(Swept(s, sweep, now), now) == View(s, now)
  {
  }

  /** The store after a run; sweep i happens just before request i. */
  ghost function After(s: Store, events: seq<Event>, sweeps: seq<set<Bytes>>): Store
    requires |sweeps| == |events|
  {
    if events == [] then s
    else
      var n := |events| - 1;
      Exec(Swept(After(s, events[..n], sweeps[..n]), sweeps[n], events[n].now), events[n].request, events[n].now).0
  }

  /** The reply to request i of a run. */
  ghost function ReplyAt(s: Store, events: seq<Event>, sweeps: seq<set<Bytes>>, i: nat): Reply
    requires |sweeps| == |events| && i < |events|
  {
    Exec(Swept(After(s, events[..i], sweeps[..i]), sweeps[i], events[i].now), events[i].request, events[i].now).1
  }

  /** Two runs of the same requests from stores that look alike at time now, with any sweeps in either, look alike ever
      after. */
  lemma {:induction false} RunsLookAlike(s: Store, s': Store, events: seq<Event>, sweeps: seq<set<Bytes>>,
                                         sweeps': seq<set<Bytes>>, now: int)
    requires View(s, now) == View(s', now)
    requires Clocked(events) && |sweeps| == |sweeps'| == |events|
    requires forall i :: 0 <= i < |events| ==> now <= events[i].now
    ensures var t := if events == [] then now else events[|events| - 1].now;
            View(After(s, events, sweeps), t) == View(After(s', events, sweeps'), t)
    decreases |events|
  {
    hide Exec, View, Swept;
    if events != [] {
      var n := |events| - 1;
      var t, t0 := events[n].now, if n == 0 then now else events[n - 1].now;
      RunsLookAlike(s, s', events[..n], sweeps[..n], sweeps'[..n], now);
      var a, b := After(s, events[..n], sweeps[..n]), After(s', events[..n], sweeps'[..n]);
      ViewLater(a, t0, t);
      ViewLater(b, t0, t);
      SweepUnseen(a, sweeps[n], t);
      SweepUnseen(b, sweeps'[n], t);
      StepUnobservable(Swept(a, sweeps[n], t), Swept(b, sweeps'[n], t), events[n].request, t);
    }
  }

  /** ... and every reply but those of DBSIZE and DEL is the same. */
  lemma ExpiryUnobservable(s: Store, s': Store, events: seq<Event>, sweeps: seq<set<Bytes>>, sweeps': seq<set<Bytes>>,
                           now: int, i: nat)
    requires View(s, now) == View(s', now)
    requires Clocked(events) && |sweeps| == |sweeps'| == |events|
    requires forall i :: 0 <= i < |events| ==> now <= events[i].now
    requires i < |events| && Observable(events[i].request)
    ensures ReplyAt(s, events, sweeps, i) == ReplyAt(s', events, sweeps', i)
  {
    hide Exec, View, Swept;
    var t, t0 := events[i].now, if i == 0 then now else events[i - 1].now;
    RunsLookAlike(s, s', events[..i], sweeps[..i], sweeps'[..i], now);
    var a, b := After(s, events[..i], sweeps[..i]), After(s', events[..i], sweeps'[..i]);
    ViewLater(a, t0, t);
    ViewLater(b, t0, t);
    SweepUnseen(a, sweeps[i], t);
    SweepUnseen(b, sweeps'[i], t);
    StepUnobservable(Swept(a, sweeps[i], t), Swept(b, sweeps'[i], t), events[i].request, t);
  }
}
