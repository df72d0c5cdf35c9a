/** The command implementations of src/db.c: step by step on the data set, against what the commands mean. */
module Databases {
  import opened Orders
  import opened Ints
  import opened Indexing
  import opened Globs
  import opened Keyspace
  import opened Resp
  import opened Requests
  import opened Aof
  import Lists

  /** The milliseconds from now that cmd_set keeps for an expiry option, negative for none. */
  function MsFromNow(e: Expiry, now: int): int {
    match e
    case Never => -1
    case In(ms) => ms
    case At(ms) => ms - now
  }

  lemma RestOf(a: seq<Bytes>, i: nat)
    requires i < |a|
    ensures a[i..][0] == a[i] && a[i..][1..] == a[i + 1..]
    ensures i + 1 < |a| ==> a[i..][1] == a[i + 1] && a[i..][2..] == a[i + 2..]
  {
  }

  lemma NoRest(a: seq<Bytes>)
    ensures a[|a|..] == []
  {
  }

  lemma NamesSnoc(a: seq<Bytes>, i: nat)
    requires i < |a|
    ensures NamesOf(a[..i + 1]) == NamesOf(a[..i]) + {a[i]}
  {
    assert a[..i + 1] == a[..i] + [a[i]];
  }

  class Db {
    var d: Store

    constructor ()
      ensures d == map[]
    {
      d := map[];
    }

    // ---- Lookup and clean-up ----

    /** lookup_key: an expired entry is deleted on the way. */
    method Lookup(key: Bytes, now: int) returns (o: Option<Obj>)
      modifies this
      ensures o == Live(old(d), key, now) && d == Stored(old(d), key, o)
    {
      if key !in d {
        assert d - {key} == d;
        return None;
      }
      if Expired(d[key], now) {
        d := d - {key};
        return None;
      }
      assert d[key := d[key]] == d;
      return Some(d[key]);
    }

    /** dict_set on a key of the store s that may have been looked up or set already. */
    method Put(key: Bytes, o: Obj, ghost s: Store, ghost was: Option<Obj>)
      requires d == Stored(s, key, was)
      modifies this
      ensures d == Stored(s, key, Some(o))
    {
      d := d[key := o];
    }

    /** dict_delete of a key that was looked up. */
    method Delete(key: Bytes, ghost s: Store, ghost was: Option<Obj>)
      requires d == Stored(s, key, was)
      modifies this
      ensures d == Stored(s, key, None)
    {
      StoredTwice(s, key, was, None);
      d := d - {key};
    }

    /** maybe_delete_key. */
    method MaybeDelete(key: Bytes, o: Obj, ghost s: Store)
      requires d == Stored(s, key, Some(o))
      modifies this
      ensures d == Stored(s, key, Kept(o))
    {
      if EmptyContainer(o.value) {
        d := d - {key};
      }
    }

    // ---- Strings ----

    /** The option loop of cmd_set; None for an error. */
    method SetArguments(a: seq<Bytes>, now: int) returns (r: Option<(int, bool, bool)>, ghost e: Expiry)
      requires |a| >= 3
      ensures var o := SetOptions(a[3..], SetArgs(Never, false, false));
              if r.None? then o.None? else r.value.0 == MsFromNow(e, now) && o == Some(SetArgs(e, r.value.1, r.value.2))
    {
      hide Lower, ParseInt;
      var nx, xx, ms := false, false, -1;
      e := Never;
      var i := 3;
      while i < |a|
        invariant 3 <= i <= |a| && ms == MsFromNow(e, now)
        invariant SetOptions(a[3..], SetArgs(Never, false, false)) == SetOptions(a[i..], SetArgs(e, nx, xx))
        decreases |a| - i
      {
        RestOf(a, i);
        var o := Lower(a[i]);
        if o == "ex" || o == "px" || o == "exat" || o == "pxat" {
          if i + 1 >= |a| {
            return None, e;
          }
          var v := ParseInt(a[i + 1]);
          if v.None? || v.value <= 0 {
            return None, e;
          }
          if (o == "ex" || o == "exat") && v.value > LLONG_MAX / 1000 {
            return None, e;
          }
          if o == "ex" {
            ms, e := v.value * 1000, In(v.value * 1000);
          } else if o == "px" {
            ms, e := v.value, In(v.value);
          } else if o == "exat" {
            ms, e := v.value * 1000 - now, At(v.value * 1000);
          } else {
            ms, e := v.value - now, At(v.value);
          }
          i := i + 2;
        } else if o == "nx" {
          nx, i := true, i + 1;
        } else if o == "xx" {
          xx, i := true, i + 1;
        } else {
          return None, e;
        }
      }
      NoRest(a);
      if nx && xx {
        return None, e;
      }
      return Some((ms, nx, xx)), e;
    }

    /** cmd_set once its options are read: ms milliseconds from now, or no expiry. */
    method SetKey(key: Bytes, value: Bytes, ms: int, nx: bool, xx: bool, now: int, ghost expiry: Expiry)
      returns (reply: Reply)
      requires ms == MsFromNow(expiry, now)
      modifies this
      ensures (d, reply) == Exec(old(d), OnKey(key, OpSet(value, expiry, nx, xx)), now)
    {
      hide Stored;
      var existing := Lookup(key, now);
      if nx && existing.Some? {
        return Nil;
      }
      if xx && existing.None? {
        return Nil;
      }
      Put(key, Obj(Str(value), if ms < 0 then -1 else now + ms), old(d), existing);
      return Ok;
    }

    /** cmd_set. */
    method SetCommand(a: seq<Bytes>, now: int) returns (reply: Reply)
      requires |a| >= 1
      modifies this
      ensures (d, reply) == Exec(old(d), DecodeString("set", a), now)
    {
      hide SetOptions, OnKeyObject, Stored, MsFromNow;
      if |a| < 3 {
        return Error;
      }
      var args, e := SetArguments(a, now);
      if args.None? {
        return Error;
      }
      var (ms, nx, xx) := args.value;
      reply := SetKey(a[1], a[2], ms, nx, xx, now, e);
    }

    /** cmd_get. */
    method Get(key: Bytes, now: int) returns (reply: Reply)
      modifies this
      ensures (d, reply) == Exec(old(d), OnKey(key, OpGet), now)
    {
      hide Stored;
      var o := Lookup(key, now);
      if o.None? {
        return Nil;
      }
      if !o.value.value.Str? {
        return WrongType;
      }
      return Bulk(o.value.value.bytes);
    }

    /** incr_decr. */
    method IncrDecr(key: Bytes, delta: int, now: int) returns (reply: Reply)
      modifies this
      ensures (d, reply) == Exec(old(d), OnKey(key, OpIncr(delta)), now)
    {
      hide ParseInt, PrintInt, Stored;
      var o := Lookup(key, now);
      if o.Some? && !o.value.value.Str? {
        return WrongType;
      }
      var v := if o.Some? then ParseInt(o.value.value.bytes) else Some(0);
      if v.None? {
        return Error;
      }
      var nv := v.value + delta;
      if !(LLONG_MIN <= nv <= LLONG_MAX) {
        return Error;
      }
      Put(key, Obj(Str(PrintInt(nv)), if o.Some? then o.value.expireAt else -1), old(d), o);
      return Int(nv);
    }

    // ---- Lists ----

    /** list_push. */
    method ListPush(key: Bytes, head: bool, xx: bool, values: seq<Bytes>, now: int) returns (reply: Reply)
      modifies this
      ensures (d, reply) == Exec(old(d), OnKey(key, OpPush(head, xx, values)), now)
    {
      hide Rev, Stored;
      var found := Lookup(key, now);
      if found.Some? && !found.value.value.List? {
        return WrongType;
      }
      if found.None? && xx {
        return Int(0);
      }
      var o := OrNew(found, List([]));
      Put(key, o, old(d), found);
      o := PushAll(key, o, values, head, old(d));
      return Int(|o.value.elems|);
    }

    /** The loop of list_push. */
    method PushAll(key: Bytes, o: Obj, vs: seq<Bytes>, head: bool, ghost s: Store) returns (o': Obj)
      requires o.value.List? && d == Stored(s, key, Some(o))
      modifies this
      ensures o' == o.(value := List(if head then Rev(vs) + o.value.elems else o.value.elems + vs))
      ensures d == Stored(s, key, Some(o'))
    {
      hide Rev, Stored;
      o' := o;
      Lists.RevNone();
      for i := 0 to |vs|
        invariant o' == o.(value := List(if head then Rev(vs[..i]) + o.value.elems else o.value.elems + vs[..i]))
        invariant d == Stored(s, key, Some(o'))
      {
        ghost var was := o';
        PushOne(o.value.elems, vs, i);
        o' := o'.(value := List(if head then [vs[i]] + o'.value.elems else o'.value.elems + [vs[i]]));
        Put(key, o', s, Some(was));
      }
      assert vs[..|vs|] == vs;
    }

    /** list_pop. */
    method ListPop(key: Bytes, head: bool, count: nat, now: int) returns (reply: Reply)
      modifies this
      ensures (d, reply) == Exec(old(d), OnKey(key, OpPop(head, count)), now)
    {
      hide Rev, Stored, Kept;
      var found := Lookup(key, now);
      if found.Some? && !found.value.value.List? {
        return WrongType;
      }
      if found.None? {
        return Nil;
      }
      var len := |found.value.value.elems|;
      var o, items := PopAll(key, found.value, if count < len then count else len, head, old(d));
      MaybeDelete(key, o, old(d));
      if count == 1 {
        return if items == [] then Nil else Bulk(items[0]);
      }
      return Array(items);
    }

    /** The loop of list_pop. */
    method PopAll(key: Bytes, o: Obj, n: nat, head: bool, ghost s: Store) returns (o': Obj, items: seq<Bytes>)
      requires o.value.List? && n <= |o.value.elems| && d == Stored(s, key, Some(o))
      modifies this
      ensures items == Popped(o.value.elems, n, head) && o' == o.(value := List(Left(o.value.elems, n, head)))
      ensures d == Stored(s, key, Some(o'))
    {
      hide Stored, Popped, Left;
      o', items := o, [];
      ghost var l := o.value.elems;
      PopNone(l, head);
      for i := 0 to n
        invariant items == Popped(l, i, head) && o' == o.(value := List(Left(l, i, head)))
        invariant d == Stored(s, key, Some(o'))
      {
        ghost var was := o';
        PopStep(l, i, head);
        var m := |o'.value.elems|;
        if head {
          items, o' := items + [o'.value.elems[0]], o'.(value := List(o'.value.elems[1..]));
        } else {
          items, o' := items + [o'.value.elems[m - 1]], o'.(value := List(o'.value.elems[..m - 1]));
        }
        Put(key, o', s, Some(was));
      }
    }

    /** cmd_lrem, with the walk of the linked list. */
    method LRem(key: Bytes, count: int, target: Bytes, now: int) returns (reply: Reply)
      modifies this
      ensures (d, reply) == Exec(old(d), OnKey(key, OpLRem(count, target)), now)
    {
      hide Stored, Kept, LRemoved, Lists.LinkedList.Valid;
      var found := Lookup(key, now);
      if found.Some? && !found.value.value.List? {
        return WrongType;
      }
      if found.None? {
        return Int(0);
      }
      var l := Lists.FromSeq(found.value.value.elems);
      var removed := l.Remove(count, target);
      var rest := l.ToSeq();
      var o := found.value.(value := List(rest));
      Put(key, o, old(d), found);
      MaybeDelete(key, o, old(d));
      return Int(removed);
    }

    /** cmd_ltrim: the key goes when nothing is left of it. */
    method LTrim(key: Bytes, start: int, stop: int, now: int) returns (reply: Reply)
      modifies this
      ensures (d, reply) == Exec(old(d), OnKey(key, OpLTrim(start, stop)), now)
    {
      hide Stored, Slice, Lists.LinkedList.Valid;
      var found := Lookup(key, now);
      if found.Some? && !found.value.value.List? {
        return WrongType;
      }
      if found.None? {
        return Ok;
      }
      var l := Lists.FromSeq(found.value.value.elems);
      var empty := l.Trim(start, stop);
      if empty {
        Delete(key, old(d), found);
        return Ok;
      }
      var rest := l.ToSeq();
      Put(key, found.value.(value := List(rest)), old(d), found);
      return Ok;
    }

    /** cmd_lrange: as many values as announced, those that the range covers. */
    method LRange(key: Bytes, start: int, stop: int, now: int) returns (reply: Reply)
      modifies this
      ensures (d, reply) == Exec(old(d), OnKey(key, OpLRange(start, stop)), now)
    {
      hide Stored, Slice, Lists.LinkedList.Valid;
      var found := Lookup(key, now);
      if found.Some? && !found.value.value.List? {
        return WrongType;
      }
      if found.None? {
        return Array([]);
      }
      var l := Lists.FromSeq(found.value.value.elems);
      var _, vs := l.Range(start, stop);
      return Array(vs);
    }

    // ---- Hashes ----

    /** cmd_hget. */
    method HGet(key: Bytes, name: Bytes, now: int) returns (reply: Reply)
      modifies this
      ensures (d, reply) == Exec(old(d), OnKey(key, OpHGet(name)), now)
    {
      hide Stored;
      var o := Lookup(key, now);
      if o.Some? && !o.value.value.Hash? {
        return WrongType;
      }
      if o.None? {
        return Nil;
      }
      if name !in o.value.value.fields {
        return Nil;
      }
      return Bulk(o.value.value.fields[name]);
    }

    /** hash_set_many. */
    method HSet(key: Bytes, pairs: seq<(Bytes, Bytes)>, now: int) returns (reply: Reply)
      modifies this
      ensures (d, reply) == Exec(old(d), OnKey(key, OpHSet(pairs)), now)
    {
      hide Stored, WithFields;
      var found := Lookup(key, now);
      if found.Some? && !found.value.value.Hash? {
        return WrongType;
      }
      var o := OrNew(found, Hash(map[]));
      Put(key, o, old(d), found);
      ghost var h0 := o.value.fields;
      ghost var e := o.expireAt;
      var added := 0;
      assert pairs[0..] == pairs;
      for i := 0 to |pairs|
        invariant o.value.Hash? && o.expireAt == e && d == Stored(old(d), key, Some(o))
        invariant WithFields(h0, pairs) == WithFields(o.value.fields, pairs[i..])
        invariant added == |o.value.fields| - |h0|
      {
        WithOne(o.value.fields, pairs, i);
        var (f, v) := pairs[i];
        if f !in o.value.fields {
          added := added + 1;
        }
        ghost var was := o;
        GrownBy(o.value.fields, f, v);
        o := o.(value := Hash(o.value.fields[f := v]));
        Put(key, o, old(d), Some(was));
      }
      WithNone(o.value.fields, pairs);
      return Int(added);
    }

    /** cmd_hdel. */
    method HDel(key: Bytes, names: seq<Bytes>, now: int) returns (reply: Reply)
      modifies this
      ensures (d, reply) == Exec(old(d), OnKey(key, OpHDel(names)), now)
    {
      hide Stored, NamesOf, Kept;
      var found := Lookup(key, now);
      if found.Some? && !found.value.value.Hash? {
        return WrongType;
      }
      if found.None? {
        return Int(0);
      }
      var o, removed := found.value, 0;
      ghost var h0 := o.value.fields;
      NoNames(names);
      assert h0 - {} == h0;
      for i := 0 to |names|
        invariant o == found.value.(value := Hash(h0 - NamesOf(names[..i]))) && d == Stored(old(d), key, Some(o))
        invariant removed == |h0| - |o.value.fields|
      {
        NamesSnoc(names, i);
        ghost var was := o;
        MinusOne(h0, NamesOf(names[..i]), names[i]);
        if names[i] in o.value.fields {
          removed := removed + 1;
        }
        o := o.(value := Hash(o.value.fields - {names[i]}));
        Put(key, o, old(d), Some(was));
      }
      MaybeDelete(key, o, old(d));
      return Int(removed);
    }

    /** cmd_hincrby, which creates the key first. */
    method HIncrBy(key: Bytes, name: Bytes, delta: int, now: int) returns (reply: Reply)
      modifies this
      ensures (d, reply) == Exec(old(d), OnKey(key, OpHIncrBy(name, delta)), now)
    {
      hide Stored, HIncr;
      var found := Lookup(key, now);
      if found.Some? && !found.value.value.Hash? {
        return WrongType;
      }
      var o := OrNew(found, Hash(map[]));
      Put(key, o, old(d), found);
      reply := IncrField(key, o, name, delta, old(d));
    }

    method IncrField(key: Bytes, o: Obj, name: Bytes, delta: int, ghost s: Store) returns (reply: Reply)
      requires o.value.Hash? && d == Stored(s, key, Some(o))
      modifies this
      ensures var (o', r) := HIncr(o, name, delta); d == Stored(s, key, o') && reply == r
    {
      hide Stored, ParseInt, PrintInt;
      var v := if name in o.value.fields then ParseInt(o.value.fields[name]) else Some(0);
      if v.None? {
        return Error;
      }
      var nv := v.value + delta;
      if !(LLONG_MIN <= nv <= LLONG_MAX) {
        return Error;
      }
      Put(key, o.(value := Hash(o.value.fields[name := PrintInt(nv)])), s, Some(o));
      return Int(nv);
    }

    /** cmd_hincrbyfloat: an infinite sum is found only after the key has been created. */
    method HIncrByFloat(key: Bytes, name: Bytes, step: Score, fl: Floats, now: int) returns (reply: Reply)
      modifies this
      ensures (d, reply) == Exec(old(d), OnKey(key, OpHIncrByFloat(name, step, fl)), now)
    {
      hide Stored, HIncrFloat;
      var found := Lookup(key, now);
      if found.Some? && !found.value.value.Hash? {
        return WrongType;
      }
      var o := OrNew(found, Hash(map[]));
      Put(key, o, old(d), found);
      reply := IncrFieldFloat(key, o, name, step, fl, old(d));
    }

    method IncrFieldFloat(key: Bytes, o: Obj, name: Bytes, step: Score, fl: Floats, ghost s: Store)
      returns (reply: Reply)
      requires o.value.Hash? && d == Stored(s, key, Some(o))
      modifies this
      ensures var (o', r) := HIncrFloat(o, name, step, fl); d == Stored(s, key, o') && reply == r
    {
      hide Stored, CStr, AddScores;
      var v := if name in o.value.fields then fl.read(CStr(o.value.fields[name])) else Some(Finite(0.0));
      if v.None? {
        return Error;
      }
      var sum := AddScores(v.value, step);
      if sum.None? || !sum.value.Finite? {
        return Error;
      }
      var text := CStr(fl.show(sum.value));
      Put(key, o.(value := Hash(o.value.fields[name := text])), s, Some(o));
      return Bulk(text);
    }

    // ---- Sets ----

    /** cmd_sadd. */
    method SAdd(key: Bytes, names: seq<Bytes>, now: int) returns (reply: Reply)
      modifies this
      ensures (d, reply) == Exec(old(d), OnKey(key, OpSAdd(names)), now)
    {
      hide Stored, NamesOf;
      var found := Lookup(key, now);
      if found.Some? && !found.value.value.Set? {
        return WrongType;
      }
      var o, added := OrNew(found, Set({})), 0;
      Put(key, o, old(d), found);
      ghost var o0, m0 := o, o.value.members;
      NoNames(names);
      assert m0 + {} == m0;
      for i := 0 to |names|
        invariant o == o0.(value := Set(m0 + NamesOf(names[..i]))) && d == Stored(old(d), key, Some(o))
        invariant added == |o.value.members| - |m0|
      {
        NamesSnoc(names, i);
        PlusOne(m0, NamesOf(names[..i]), names[i]);
        if names[i] !in o.value.members {
          ghost var was := o;
          o := o.(value := Set(o.value.members + {names[i]}));
          Put(key, o, old(d), Some(was));
          added := added + 1;
        }
      }
      assert names[..|names|] == names;
      return Int(added);
    }

    /** cmd_srem. */
    method SRem(key: Bytes, names: seq<Bytes>, now: int) returns (reply: Reply)
      modifies this
      ensures (d, reply) == Exec(old(d), OnKey(key, OpSRem(names)), now)
    {
      hide Stored, NamesOf, Kept;
      var found := Lookup(key, now);
      if found.Some? && !found.value.value.Set? {
        return WrongType;
      }
      if found.None? {
        return Int(0);
      }
      var o, removed := found.value, 0;
      ghost var m0 := o.value.members;
      NoNames(names);
      assert m0 - {} == m0;
      for i := 0 to |names|
        invariant o == found.value.(value := Set(m0 - NamesOf(names[..i]))) && d == Stored(old(d), key, Some(o))
        invariant removed == |m0| - |o.value.members|
      {
        NamesSnoc(names, i);
        SetMinusOne(m0, NamesOf(names[..i]), names[i]);
        if names[i] in o.value.members {
          removed := removed + 1;
        }
        ghost var was := o;
        o := o.(value := Set(o.value.members - {names[i]}));
        Put(key, o, old(d), Some(was));
      }
      MaybeDelete(key, o, old(d));
      return Int(removed);
    }

    /** cmd_sismember. */
    method SIsMember(key: Bytes, name: Bytes, now: int) returns (reply: Reply)
      modifies this
      ensures (d, reply) == Exec(old(d), OnKey(key, OpSIsMember(name)), now)
    {
      hide Stored;
      var o := Lookup(key, now);
      if o.Some? && !o.value.value.Set? {
        return WrongType;
      }
      return Int(if o.Some? && name in o.value.value.members then 1 else 0);
    }

    // ---- Sorted sets ----

    /** cmd_zscore. */
    method ZScore(key: Bytes, name: Bytes, now: int) returns (reply: Reply)
      modifies this
      ensures (d, reply) == Exec(old(d), OnKey(key, OpZScore(name)), now)
    {
      hide Stored;
      var o := Lookup(key, now);
      if o.Some? && !o.value.value.ZSet? {
        return WrongType;
      }
      if o.None? {
        return Nil;
      }
      if name !in o.value.value.scores {
        return Nil;
      }
      return ScoreIs(o.value.value.scores[name]);
    }

    /** The option loop of cmd_zadd: the flags, and where the pairs start. */
    method ZAddArguments(a: seq<Bytes>) returns (flags: ZFlags, i: nat)
      requires |a| >= 2
      ensures 2 <= i <= |a| && ZAddFlags(a[2..], ZFlags(false, false, false, false)) == (flags, a[i..])
    {
      hide Lower;
      flags, i := ZFlags(false, false, false, false), 2;
      while i < |a|
        invariant 2 <= i <= |a| && ZAddFlags(a[2..], ZFlags(false, false, false, false)) == ZAddFlags(a[i..], flags)
      {
        RestOf(a, i);
        var o := Lower(a[i]);
        if o == "nx" {
          flags := flags.(nx := true);
        } else if o == "xx" {
          flags := flags.(xx := true);
        } else if o == "ch" {
          flags := flags.(ch := true);
        } else if o == "incr" {
          flags := flags.(incr := true);
        } else {
          break;
        }
        i := i + 1;
      }
    }

    /** cmd_zadd on its score/member pairs. */
    method ZAdd(key: Bytes, flags: ZFlags, entries: seq<(Option<Score>, Bytes)>, now: int) returns (reply: Reply)
      modifies this
      ensures (d, reply) == Exec(old(d), OnKey(key, OpZAdd(flags, entries)), now)
    {
      hide Stored, ZAddAll, ZIncr;
      var found := Lookup(key, now);
      if found.Some? && !found.value.value.ZSet? {
        return WrongType;
      }
      if found.None? && flags.xx {
        return Int(0);
      }
      var o := OrNew(found, ZSet(map[]));
      Put(key, o, old(d), found);
      if flags.incr {
        reply := AddIncr(key, o, flags, entries, old(d));
      } else {
        reply := AddPairs(key, o, flags, entries, old(d));
      }
    }

    /** The pair loop without INCR, which a bad score leaves in the middle. */
    method AddPairs(key: Bytes, o0: Obj, flags: ZFlags, entries: seq<(Option<Score>, Bytes)>, ghost s: Store)
      returns (reply: Reply)
      requires o0.value.ZSet? && d == Stored(s, key, Some(o0))
      modifies this
      ensures var p := ZAddAll(ZProgress(o0.value.scores, 0, 0, false), flags, entries);
              && d == Stored(s, key, Some(o0.(value := ZSet(p.scores))))
              && reply == if p.bad then Error else Int(if flags.ch then p.added + p.changed else p.added)
    {
      hide Stored, ZAddAll;
      var o := o0;
      ghost var all := ZAddAll(ZProgress(o.value.scores, 0, 0, false), flags, entries);
      var added, changed := 0, 0;
      assert entries[0..] == entries;
      for i := 0 to |entries|
        invariant o.value.ZSet? && o == o0.(value := o.value) && d == Stored(s, key, Some(o))
        invariant all == ZAddAll(ZProgress(o.value.scores, added, changed, false), flags, entries[i..])
      {
        ZAddOne(ZProgress(o.value.scores, added, changed, false), flags, entries, i);
        var (score, m) := entries[i];
        if score.None? {
          return Error;
        }
        var z := o.value.scores;
        if flags.nx && m in z {
          continue;
        }
        if flags.xx && m !in z {
          continue;
        }
        if m !in z {
          added := added + 1;
        } else if z[m] != score.value {
          changed := changed + 1;
        }
        ghost var was := o;
        o := o.(value := ZSet(z[m := score.value]));
        Put(key, o, s, Some(was));
      }
      ZAddNone(ZProgress(o.value.scores, added, changed, false), flags, entries);
      return Int(if flags.ch then added + changed else added);
    }

    /** The pair loop with INCR, which returns from its first turn. */
    method AddIncr(key: Bytes, o: Obj, flags: ZFlags, entries: seq<(Option<Score>, Bytes)>, ghost s: Store)
      returns (reply: Reply)
      requires o.value.ZSet? && d == Stored(s, key, Some(o))
      modifies this
      ensures var (o', r) := ZIncr(o, flags, entries); d == Stored(s, key, o') && reply == r
    {
      hide Stored, AddScores;
      if entries == [] {
        return Int(0);
      }
      var (score, m) := entries[0];
      if score.None? {
        return Error;
      }
      var z := o.value.scores;
      if (flags.nx && m in z) || (flags.xx && m !in z) {
        return Nil;
      }
      var sum := if m in z then AddScores(z[m], score.value) else score;
      if sum.None? {
        return Error;
      }
      Put(key, o.(value := ZSet(z[m := sum.value])), s, Some(o));
      return ScoreIs(sum.value);
    }

    /** cmd_zadd. */
    method ZAddCommand(a: seq<Bytes>, fl: Floats, now: int) returns (reply: Reply)
      requires |a| >= 1
      modifies this
      ensures (d, reply) == Exec(old(d), DecodeZSet("zadd", a, fl), now)
    {
      hide ZAddFlags, ScorePairs, OnKeyObject, Stored;
      if |a| < 4 {
        return Error;
      }
      var flags, i := ZAddArguments(a);
      if flags.nx && flags.xx {
        return Error;
      }
      var pairs := |a| - i;
      if pairs == 0 || pairs % 2 == 1 {
        return Error;
      }
      if flags.incr && pairs != 2 {
        return Error;
      }
      reply := ZAdd(a[1], flags, ScorePairs(a[i..], fl), now);
    }

    /** cmd_zrem. */
    method ZRem(key: Bytes, names: seq<Bytes>, now: int) returns (reply: Reply)
      modifies this
      ensures (d, reply) == Exec(old(d), OnKey(key, OpZRem(names)), now)
    {
      hide Stored, NamesOf, Kept;
      var found := Lookup(key, now);
      if found.Some? && !found.value.value.ZSet? {
        return WrongType;
      }
      if found.None? {
        return Int(0);
      }
      var o, removed := RemoveMembers(key, found.value, names, old(d));
      MaybeDelete(key, o, old(d));
      return Int(removed);
    }

    /** The loop of cmd_zrem. */
    method RemoveMembers(key: Bytes, o: Obj, names: seq<Bytes>, ghost s: Store) returns (o': Obj, removed: int)
      requires o.value.ZSet? && d == Stored(s, key, Some(o))
      modifies this
      ensures o' == o.(value := ZSet(o.value.scores - NamesOf(names))) && d == Stored(s, key, Some(o'))
      ensures removed == |o.value.scores| - |o'.value.scores|
    {
      hide Stored, NamesOf;
      o', removed := o, 0;
      ghost var z := o.value.scores;
      NoNames(names);
      MinusNone(z);
      for i := 0 to |names|
        invariant o' == o.(value := ZSet(z - NamesOf(names[..i]))) && d == Stored(s, key, Some(o'))
        invariant removed == |z| - |o'.value.scores|
      {
        NamesSnoc(names, i);
        MinusOne(z, NamesOf(names[..i]), names[i]);
        if names[i] in o'.value.scores {
          removed := removed + 1;
        }
        ghost var was := o';
        o' := o'.(value := ZSet(o'.value.scores - {names[i]}));
        Put(key, o', s, Some(was));
      }
    }

    // ---- Keys ----

    /** cmd_del, which looks at raw entries. */
    method Del(keys: seq<Bytes>, now: int) returns (reply: Reply)
      modifies this
      ensures (d, reply) == Exec(old(d), Request.Del(keys), now)
    {
      var n := DelAll(keys);
      return Int(n);
    }

    /** The loop of cmd_del. */
    method DelAll(keys: seq<Bytes>) returns (n: int)
      modifies this
      ensures d == old(d) - NamesOf(keys) && n == |old(d)| - |d|
    {
      hide NamesOf;
      n := 0;
      ghost var s := d;
      NoNames(keys);
      MinusNone(s);
      for i := 0 to |keys|
        invariant d == s - NamesOf(keys[..i]) && n == |s| - |d|
      {
        NamesSnoc(keys, i);
        MinusOne(s, NamesOf(keys[..i]), keys[i]);
        if keys[i] in d {
          n := n + 1;
        }
        d := d - {keys[i]};
      }
    }

    /** cmd_exists: a key named twice counts twice. */
    method Exists(keys: seq<Bytes>, now: int) returns (reply: Reply)
      modifies this
      ensures (d, reply) == Exec(old(d), Request.Exists(keys), now)
    {
      hide Stored, Purge, CountLive;
      var n := 0;
      PurgeNone(d, keys, now);
      for i := 0 to |keys|
        invariant d == Purge(old(d), keys[..i], now) && n == CountLive(old(d), keys[..i], now)
      {
        PurgeSnoc(old(d), keys, i, now);
        var o := Lookup(keys[i], now);
        if o.Some? {
          n := n + 1;
        }
      }
      assert keys[..|keys|] == keys;
      return Int(n);
    }

    /** The test that both passes of cmd_keys make on an entry, at the time the clock shows. */
    method Hits(pattern: Bytes, k: Bytes, now: int) returns (hit: bool)
      requires k in d
      ensures hit == Hit(d, pattern, k, now)
    {
      if Expired(d[k], now) {
        return false;
      }
      hit := GlobRec(pattern, k);
    }

    /** The order in which both passes see the keys. */
    method KeyOrder() returns (order: seq<Bytes>)
      ensures NamesOf(order) == d.Keys && |order| == |d.Keys|
      ensures forall i :: 0 <= i < |order| ==> order[i] in d
    {
      hide NamesOf;
      order := [];
      NoNames(order);
      var rest := d.Keys;
      while rest != {}
        invariant rest <= d.Keys && NamesOf(order) == d.Keys - rest && |order| == |d.Keys| - |rest|
        invariant forall i :: 0 <= i < |order| ==> order[i] in d
        decreases |rest|
      {
        var k :| k in rest;
        NamesOfSnoc(order, k);
        order := order + [k];
        rest := rest - {k};
      }
    }

    /** The first pass, whose i-th test happens at clock reading n + i. */
    method CountHits(order: seq<Bytes>, pattern: Bytes, clock: nat -> int, n: nat) returns (count: nat)
      requires forall i :: 0 <= i < |order| ==> order[i] in d
      ensures count == |HitsOf(d, order, pattern, clock, n, |order|)|
    {
      hide Hit;
      count := 0;
      for i := 0 to |order|
        invariant count == |HitsOf(d, order, pattern, clock, n, i)|
      {
        var hit := Hits(pattern, order[i], clock(n + i));
        if hit {
          count := count + 1;
        }
      }
    }

    method EmitHits(order: seq<Bytes>, pattern: Bytes, clock: nat -> int, n: nat) returns (keys: seq<Bytes>)
      requires forall i :: 0 <= i < |order| ==> order[i] in d
      ensures keys == HitsOf(d, order, pattern, clock, n, |order|)
    {
      hide Hit;
      keys := [];
      for i := 0 to |order|
        invariant keys == HitsOf(d, order, pattern, clock, n, i)
      {
        var hit := Hits(pattern, order[i], clock(n + i));
        if hit {
          keys := keys + [order[i]];
        }
      }
    }

    /** cmd_keys under a clock that moves on between the tests: the announced count is the number of keys emitted if
        and only if no key that was counted has expired when its turn comes again. While the clock stands still, the
        reply is that of KEYS. */
    method Keys(pattern: Bytes, clock: nat -> int, n: nat)
      returns (count: nat, keys: seq<Bytes>, ghost order: seq<Bytes>)
      requires Advancing(clock)
      ensures NamesOf(order) == d.Keys && |order| == |d.Keys|
      ensures forall i :: 0 <= i < |order| ==> order[i] in d
      ensures count == |HitsOf(d, order, pattern, clock, n, |order|)|
      ensures keys == HitsOf(d, order, pattern, clock, n + |order|, |order|) && count >= |keys|
      ensures count == |keys| <==> forall i :: 0 <= i < |order| && Hit(d, pattern, order[i], clock(n + i)) ==>
                !Expired(d[order[i]], clock(n + |order| + i))
      ensures clock(n) == clock(n + 2 * |order|) ==>
                Exec(d, Request.Keys(pattern), clock(n)) == (d, Matching(NamesOf(keys)))
    {
      hide NamesOf, HitsOf, Hit;
      var seen := KeyOrder();
      order := seen;
      count := CountHits(seen, pattern, clock, n);
      keys := EmitHits(seen, pattern, clock, n + |seen|);
      FewerLater(d, seen, pattern, clock, n, n + |seen|, |seen|);
      if clock(n) == clock(n + 2 * |seen|) {
        StandingStill(d, seen, pattern, clock, n + |seen|, clock(n));
      }
    }

    // ---- Dispatch ----

    /** The EXPIRE family: an absolute time, or one from now; None for a number of seconds that does not fit. */
    method Expire(key: Bytes, e: Expiry, now: int) returns (reply: Reply)
      modifies this
      ensures (d, reply) == Exec(old(d), OnKey(key, OpExpire(e)), now)
    {
      hide Stored;
      var o := Lookup(key, now);
      if o.None? {
        return Int(0);
      }
      if e.Never? {
        return Error;
      }
      Put(key, o.value.(expireAt := if e.In? then now + e.ms else e.ms), old(d), o);
      return Int(1);
    }

    method OnOneKey(key: Bytes, op: Op, now: int) returns (reply: Reply)
      modifies this
      ensures (d, reply) == Exec(old(d), OnKey(key, op), now)
    {
      hide Exec;
      match op {
        case OpSet(value, expiry, nx, xx) => reply := SetKey(key, value, MsFromNow(expiry, now), nx, xx, now, expiry);
        case OpGet => reply := Get(key, now);
        case OpIncr(delta) => reply := IncrDecr(key, delta, now);
        case OpExpire(e) => reply := Expire(key, e, now);
        case OpPush(head, xx, values) => reply := ListPush(key, head, xx, values, now);
        case OpPop(head, count) => reply := ListPop(key, head, count, now);
        case OpLRem(count, target) => reply := LRem(key, count, target, now);
        case OpLTrim(start, stop) => reply := LTrim(key, start, stop, now);
        case OpLRange(start, stop) => reply := LRange(key, start, stop, now);
        case OpHSet(pairs) => reply := HSet(key, pairs, now);
        case OpHDel(names) => reply := HDel(key, names, now);
        case OpHGet(name) => reply := HGet(key, name, now);
        case OpHIncrBy(name, delta) => reply := HIncrBy(key, name, delta, now);
        case OpHIncrByFloat(name, step, fl) => reply := HIncrByFloat(key, name, step, fl, now);
        case OpSAdd(names) => reply := SAdd(key, names, now);
        case OpSRem(names) => reply := SRem(key, names, now);
        case OpSIsMember(name) => reply := SIsMember(key, name, now);
        case OpZAdd(flags, entries) => reply := ZAdd(key, flags, entries, now);
        case OpZRem(names) => reply := ZRem(key, names, now);
        case OpZScore(name) => reply := ZScore(key, name, now);
      }
    }

    /** The commands whose arguments are checked by the functions of `Requests`. */
    method OnRequest(r: Request, now: int) returns (reply: Reply)
      modifies this
      ensures (d, reply) == Exec(old(d), r, now)
    {
      hide OnKeyObject, Matches, Tokens, Purge, CountLive, Stored;
      match r {
        case OnKey(key, op) => reply := OnOneKey(key, op, now);
        case Del(keys) => reply := Del(keys, now);
        case Exists(keys) => reply := Exists(keys, now);
        case Keys(pattern) =>
          var _, keys, _ := Keys(pattern, _ => now, 0);
          reply := Matching(NamesOf(keys));
        case FlushAll =>
          d := map[];
          reply := Ok;
        case DbSize => reply := Int(|d|);
        case Reject => reply := Error;
        case Ignore => reply := Nil;
        case Unmodelled => reply := Nil;
      }
    }

    /** dispatch_command. */
    method Dispatch(argv: Command, fl: Floats, now: int) returns (reply: Reply)
      modifies this
      ensures (d, reply) == Exec(old(d), Decode(argv, fl), now)
    {
      hide DecodeString, DecodeList, DecodeHash, DecodeHashFloat, DecodeSet, DecodeZSet, DecodeKeys, Exec;
      if argv == [] {
        reply := OnRequest(Ignore, now);
        return;
      }
      var a := CStrs(argv);
      var name := Lower(a[0]);
      if name == "set" {
        reply := SetCommand(a, now);
      } else if name == "zadd" {
        reply := ZAddCommand(a, fl, now);
      } else {
        reply := OnRequest(Decode(argv, fl), now);
      }
    }

    /** aof_replay: every command of the file that parses is dispatched, at the time the clock shows. */
    method Replay(b: Bytes, fl: Floats, clock: nat -> int) returns (rc: int)
      modifies this
      ensures rc == (if ReplayOf(b).ok then 0 else -1) && d == ExecAll(old(d), ReplayOf(b).commands, fl, clock)
    {
      hide ReplayOf, Exec, Decode;
      var commands;
      commands, rc := ReplayFile(b);
      for i := 0 to |commands|
        invariant d == ExecAll(old(d), commands[..i], fl, clock)
      {
        var _ := Dispatch(commands[i], fl, clock(i));
        assert commands[..i + 1][..i] == commands[..i];
      }
      assert commands[..|commands|] == commands;
    }
  }

  // ---- What a pop takes and leaves ----

  ghost function Popped(l: seq<Bytes>, n: nat, head: bool): seq<Bytes>
    requires n <= |l|
  {
    if head then l[..n] else Rev(l[|l| - n..])
  }

  ghost function Left(l: seq<Bytes>, n: nat, head: bool): (r: seq<Bytes>)
    requires n <= |l|
    ensures |r| == |l| - n
  {
    if head then l[n..] else l[..|l| - n]
  }

  lemma PopNone(l: seq<Bytes>, head: bool)
    ensures Popped(l, 0, head) == [] && Left(l, 0, head) == l
  {
    Lists.RevNone();
    assert l[|l|..] == [];
  }

  lemma PopStep(l: seq<Bytes>, i: nat, head: bool)
    requires i < |l|
    ensures var left := Left(l, i, head);
            var m := |left|;
            && Popped(l, i + 1, head) == Popped(l, i, head) + [if head then left[0] else left[m - 1]]
            && Left(l, i + 1, head) == if head then left[1..] else left[..m - 1]
  {
    if !head {
      Lists.RevCons(l, |l| - i - 1);
    }
  }

  // ---- The keys that KEYS finds ----

  ghost predicate Hit(s: Store, pattern: Bytes, k: Bytes, now: int)
    requires k in s
  {
    !Expired(s[k], now) && Matches(Tokens(pattern), k)
  }

  /** The first m keys of the order that are hits, the i-th tested at clock reading n + i. */
  ghost function HitsOf(s: Store, order: seq<Bytes>, pattern: Bytes, clock: nat -> int, n: nat, m: nat): seq<Bytes>
    requires m <= |order| && forall i :: 0 <= i < |order| ==> order[i] in s
  {
    if m == 0 then []
    else
      var before := HitsOf(s, order, pattern, clock, n, m - 1);
      if Hit(s, pattern, order[m - 1], clock(n + m - 1)) then before + [order[m - 1]] else before
  }

  lemma {:induction false} FewerLater(s: Store, order: seq<Bytes>, pattern: Bytes, clock: nat -> int,
                                      n: nat, n': nat, m: nat)
    requires Advancing(clock) && n <= n' && m <= |order| && forall i :: 0 <= i < |order| ==> order[i] in s
    ensures var a, b := |HitsOf(s, order, pattern, clock, n, m)|, |HitsOf(s, order, pattern, clock, n', m)|;
            && a >= b
            && (a == b <==> forall i :: 0 <= i < m && Hit(s, pattern, order[i], clock(n + i)) ==>
                              !Expired(s[order[i]], clock(n' + i)))
  {
    hide Matches, Tokens;
    if m > 0 {
      FewerLater(s, order, pattern, clock, n, n', m - 1);
      assert clock(n + m - 1) <= clock(n' + m - 1);
      assert n + (m - 1) == n + m - 1 && n' + (m - 1) == n' + m - 1;
    }
  }

  lemma {:induction false} HitsAre(s: Store, order: seq<Bytes>, pattern: Bytes, clock: nat -> int,
                                   n: nat, now: int, m: nat)
    requires m <= |order| && (forall i :: 0 <= i < |order| ==> order[i] in s)
    requires forall j: nat :: n <= j < n + |order| ==> clock(j) == now
    ensures NamesOf(HitsOf(s, order, pattern, clock, n, m))
         == set k | k in NamesOf(order[..m]) && Hit(s, pattern, k, now)
  {
    hide Hit, NamesOf;
    if m > 0 {
      HitsAre(s, order, pattern, clock, n, now, m - 1);
      NamesSnoc(order, m - 1);
      NamesOfSnoc(HitsOf(s, order, pattern, clock, n, m - 1), order[m - 1]);
      assert clock(n + (m - 1)) == now;
    } else {
      NoNames(order);
    }
  }

  lemma StandingStill(s: Store, order: seq<Bytes>, pattern: Bytes, clock: nat -> int, n: nat, now: int)
    requires Advancing(clock) && now <= clock(n) && clock(n + |order|) == now && NamesOf(order) == s.Keys
    requires forall i :: 0 <= i < |order| ==> order[i] in s
    ensures Exec(s, Request.Keys(pattern), now) == (s, Matching(NamesOf(HitsOf(s, order, pattern, clock, n, |order|))))
  {
    hide Matches, Tokens, NamesOf, HitsOf, Advancing;
    Between(clock, n, |order|, now);
    HitsAre(s, order, pattern, clock, n, now, |order|);
    assert order[..|order|] == order;
    var hits := set k | k in s && !Expired(s[k], now) && Matches(Tokens(pattern), k);
    assert hits == set k | k in s.Keys && Hit(s, pattern, k, now);
  }

  lemma Between(clock: nat -> int, n: nat, m: nat, now: int)
    requires Advancing(clock) && now <= clock(n) && clock(n + m) == now
    ensures forall j: nat :: n <= j < n + m ==> clock(j) == now
  {
    forall j: nat | n <= j < n + m
      ensures clock(j) == now
    {
      assert clock(n) <= clock(j) <= clock(n + m);
    }
  }

  lemma StarMatches(k: Bytes)
    ensures Matches(Tokens("*"), k)
  {
    assert "*"[1..] == [] && Tokens("*")[0].Star? && Tokens("*")[1..] == [];
    assert k[|k|..] == [] && Matches([], k[|k|..]);
  }

  lemma OneKey(k: Bytes, order: seq<Bytes>, clock: nat -> int, n: nat)
    requires |order| == 1 && order[0] == k
    ensures var s := map[k := Obj(Str([]), 1)];
            HitsOf(s, order, "*", clock, n, 1) == if clock(n) < 1 then [k] else []
  {
    hide Matches, Tokens;
    StarMatches(k);
    var s := map[k := Obj(Str([]), 1)];
    assert HitsOf(s, order, "*", clock, n, 0) == [];
  }

  /** KEYS announces one key and emits none when the key expires between its two passes. */
  method KeysFails(k: Bytes) returns (count: nat, keys: seq<Bytes>)
    ensures count == 1 && keys == []
  {
    hide HitsOf, Hit, NamesOf, Exec;
    var db := new Db();
    db.d := map[k := Obj(Str([]), 1)];
    var clock: nat -> int := i => i;
    ghost var order;
    count, keys, order := db.Keys("*", clock, 0);
    assert db.d.Keys == {k} && order[0] == k;
    OneKey(k, order, clock, 0);
    OneKey(k, order, clock, 1);
  }

  lemma NamesOfSnoc(a: seq<Bytes>, x: Bytes)
    ensures NamesOf(a + [x]) == NamesOf(a) + {x}
  {
  }

  // ---- One step of each loop's specification ----

  lemma PushOne(l: seq<Bytes>, vs: seq<Bytes>, i: nat)
    requires i < |vs|
    ensures [vs[i]] + (Rev(vs[..i]) + l) == Rev(vs[..i + 1]) + l && l + vs[..i] + [vs[i]] == l + vs[..i + 1]
  {
    hide Rev;
    Lists.RevSnoc(vs[..i], vs[i]);
    assert vs[..i + 1] == vs[..i] + [vs[i]];
  }

  lemma StoredTwice(s: Store, k: Bytes, o: Option<Obj>, o': Option<Obj>)
    ensures Stored(Stored(s, k, o), k, o') == Stored(s, k, o')
  {
  }

  lemma MinusNone<V>(m: map<Bytes, V>)
    ensures m - {} == m
  {
  }

  lemma NoNames(a: seq<Bytes>)
    ensures NamesOf(a[..0]) == {} && a[..|a|] == a
  {
  }

  lemma MinusOne<V>(m: map<Bytes, V>, s: set<Bytes>, x: Bytes)
    ensures m - s - {x} == m - (s + {x}) && |m - s - {x}| == |m - s| - (if x in m - s then 1 else 0)
  {
    MinusCard(m - s, x);
  }

  lemma PlusOne(m: set<Bytes>, s: set<Bytes>, x: Bytes)
    ensures m + s + {x} == m + (s + {x}) && |m + s + {x}| == |m + s| + (if x in m + s then 0 else 1)
    ensures x in m + s ==> m + s == m + (s + {x})
  {
    assert m + s + {x} == m + (s + {x});
    assert x in m + s ==> m + s + {x} == m + s;
  }

  lemma SetMinusOne(m: set<Bytes>, s: set<Bytes>, x: Bytes)
    ensures m - s - {x} == m - (s + {x}) && |m - s - {x}| == |m - s| - (if x in m - s then 1 else 0)
  {
    assert x !in m - s ==> m - s - {x} == m - s;
  }

  lemma MinusCard<V>(n: map<Bytes, V>, x: Bytes)
    ensures |n - {x}| == |n| - (if x in n then 1 else 0)
  {
    assert (n - {x}).Keys == n.Keys - {x};
    assert |n.Keys| == |n| && |(n - {x}).Keys| == |n - {x}|;
  }

  lemma WithOne(m: map<Bytes, Bytes>, pairs: seq<(Bytes, Bytes)>, i: nat)
    requires i < |pairs|
    ensures WithFields(m, pairs[i..]) == WithFields(m[pairs[i].0 := pairs[i].1], pairs[i + 1..])
  {
    assert pairs[i..][1..] == pairs[i + 1..];
  }

  lemma WithNone(m: map<Bytes, Bytes>, pairs: seq<(Bytes, Bytes)>)
    ensures WithFields(m, pairs[|pairs|..]) == m
  {
  }

  lemma GrownBy(m: map<Bytes, Bytes>, f: Bytes, v: Bytes)
    ensures |m[f := v]| == |m| + (if f in m then 0 else 1)
  {
    assert m[f := v].Keys == m.Keys + {f};
    assert |m.Keys| == |m| && |m[f := v].Keys| == |m[f := v]|;
  }

  lemma ZAddOne(p: ZProgress, flags: ZFlags, es: seq<(Option<Score>, Bytes)>, i: nat)
    requires i < |es| && !p.bad
    ensures var (score, m) := es[i];
            ZAddAll(p, flags, es[i..]) ==
              if score.None? then p.(bad := true)
              else if (flags.nx && m in p.scores) || (flags.xx && m !in p.scores) then ZAddAll(p, flags, es[i + 1..])
              else ZAddAll(ZProgress(p.scores[m := score.value], p.added + (if m in p.scores then 0 else 1),
                                     p.changed + (if m in p.scores && p.scores[m] != score.value then 1 else 0), false),
                           flags, es[i + 1..])
  {
    assert es[i..][1..] == es[i + 1..];
  }

  lemma ZAddNone(p: ZProgress, flags: ZFlags, es: seq<(Option<Score>, Bytes)>)
    ensures ZAddAll(p, flags, es[|es|..]) == p
  {
  }

  lemma PurgeNone(s: Store, keys: seq<Bytes>, now: int)
    ensures Purge(s, keys[..0], now) == s && CountLive(s, keys[..0], now) == 0
  {
  }

  lemma PurgeSnoc(s: Store, keys: seq<Bytes>, i: nat, now: int)
    requires i < |keys|
    ensures var t, k := Purge(s, keys[..i], now), keys[i];
            && Live(t, k, now) == Live(s, k, now)
            && Purge(s, keys[..i + 1], now) == Stored(t, k, Live(t, k, now))
            && CountLive(s, keys[..i + 1], now)
               == CountLive(s, keys[..i], now) + (if Live(s, k, now).Some? then 1 else 0)
  {
    assert keys[..i + 1] == keys[..i] + [keys[i]];
    assert keys[..i + 1][..i] == keys[..i];
  }
}
