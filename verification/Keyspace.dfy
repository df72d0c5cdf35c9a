/** The data set and what commands mean for it, as values and functions. */
module Keyspace {
  import opened Orders
  import opened Ints
  import opened Indexing
  import opened Globs

  // ---- C strings and numbers as text ----

  /** The C library's conversions between doubles and text, taken as given. */
  datatype Floats = Floats(read: Bytes -> Option<Score>, show: Score -> Bytes)

  /** What strlen sees of a NUL-terminated buffer. */
  function CStr(a: Bytes): Bytes {
    if a == [] || a[0] == '\0' then [] else [a[0]] + CStr(a[1..])
  }

  predicate NulFree(a: Bytes) {
    '\0' !in a
  }

  lemma {:induction false} CStrIsNulFree(a: Bytes)
    ensures NulFree(CStr(a)) && (CStr(a) == a <==> NulFree(a))
  {
    if a != [] && a[0] != '\0' {
      CStrIsNulFree(a[1..]);
      assert a == [a[0]] + a[1..];
    }
  }

  /** It is everything up to the first NUL. */
  lemma {:induction false} CStrStops(a: Bytes)
    ensures |CStr(a)| <= |a| && CStr(a) == a[..|CStr(a)|] && (|CStr(a)| < |a| ==> a[|CStr(a)|] == '\0')
  {
    if a != [] && a[0] != '\0' {
      CStrStops(a[1..]);
      var n := |CStr(a[1..])|;
      assert a[..n + 1] == [a[0]] + a[1..][..n];
    }
  }

  // ---- The data set ----

  datatype Value =
    | Str(bytes: Bytes)
    | List(elems: seq<Bytes>)
    | Hash(fields: map<Bytes, Bytes>)
    | Set(members: set<Bytes>)
    | ZSet(scores: map<Bytes, Score>)

  /** A stored object; expireAt is a time in milliseconds, or negative for never. */
  datatype Obj = Obj(value: Value, expireAt: int)

  type Store = map<Bytes, Obj>

  /** key_expired. */
  predicate Expired(o: Obj, now: int) {
    0 <= o.expireAt <= now
  }

  /** Readings of a clock that never goes back. */
  ghost predicate Advancing(clock: nat -> int) {
    forall i: nat, j: nat :: i <= j ==> clock(i) <= clock(j)
  }

  datatype Reply =
    | Nil
    | Ok
    | Int(n: int)
    | Bulk(bytes: Bytes)
    | Array(items: seq<Bytes>)
    | Matching(keys: set<Bytes>)   // KEYS, up to order
    | ScoreIs(score: Score)
    | WrongType
    | Error

  /** The expiry options of SET: relative to now, or absolute. */
  datatype Expiry = Never | In(ms: int) | At(ms: int)

  /** A command on one key, with its arguments decoded. */
  datatype Op =
    | OpSet(value: Bytes, expiry: Expiry, nx: bool, xx: bool)
    | OpGet
    | OpIncr(delta: int)
    | OpExpire(expiry: Expiry)
    | OpPush(head: bool, xx: bool, values: seq<Bytes>)
    | OpPop(head: bool, n: nat)
    | OpLRem(count: int, target: Bytes)
    | OpLTrim(start: int, stop: int)
    | OpLRange(start: int, stop: int)
    | OpHSet(pairs: seq<(Bytes, Bytes)>)
    | OpHDel(names: seq<Bytes>)
    | OpHGet(name: Bytes)
    | OpHIncrBy(name: Bytes, delta: int)
    | OpHIncrByFloat(name: Bytes, step: Score, fl: Floats)
    | OpSAdd(names: seq<Bytes>)
    | OpSRem(names: seq<Bytes>)
    | OpSIsMember(name: Bytes)
    | OpZAdd(flags: ZFlags, entries: seq<(Option<Score>, Bytes)>)
    | OpZRem(names: seq<Bytes>)
    | OpZScore(name: Bytes)

  datatype ZFlags = ZFlags(nx: bool, xx: bool, ch: bool, incr: bool)

  // ---- Expiry times ----

  /** The absolute expiry that SET computes; a time in the past becomes "never". */
  function SetExpireAt(e: Expiry, now: int): int {
    var ms := match e case Never => -1 case In(ms) => ms case At(ms) => ms - now;
    if ms < 0 then -1 else now + ms
  }

  // ---- List arithmetic ----

  ghost function Occurrences(l: seq<Bytes>, v: Bytes): nat {
    if l == [] then 0 else Occurrences(l[1..], v) + if l[0] == v then 1 else 0
  }

  /** Drop the first n occurrences of v. */
  function DropFirst(l: seq<Bytes>, v: Bytes, n: nat): seq<Bytes> {
    if l == [] || n == 0 then l
    else if l[0] == v then DropFirst(l[1..], v, n - 1)
    else [l[0]] + DropFirst(l[1..], v, n)
  }

  function Rev(l: seq<Bytes>): seq<Bytes> {
    if l == [] then [] else Rev(l[1..]) + [l[0]]
  }

  /** LREM: from the head for a positive count, from the tail for a negative one, all for zero. */
  function LRemoved(l: seq<Bytes>, v: Bytes, count: int): seq<Bytes> {
    if count > 0 then DropFirst(l, v, count)
    else if count == 0 then DropFirst(l, v, |l|)
    else Rev(DropFirst(Rev(l), v, -count))
  }

  // ---- Maps and sets from argument lists ----

  /** Later fields win. */
  function WithFields(m: map<Bytes, Bytes>, pairs: seq<(Bytes, Bytes)>): map<Bytes, Bytes>
    decreases |pairs|
  {
    if pairs == [] then m else WithFields(m[pairs[0].0 := pairs[0].1], pairs[1..])
  }

  function NamesOf(names: seq<Bytes>): set<Bytes> {
    set n | n in names
  }

  function FieldsOf(pairs: seq<(Bytes, Bytes)>): set<Bytes> {
    set p | p in pairs :: p.0
  }

  // ---- Sorted-set additions ----

  /** Double addition without NaN: None for infinities of opposite sign. */
  function AddScores(a: Score, b: Score): Option<Score> {
    match a
    case NegInf => if b.PosInf? then None else Some(NegInf)
    case PosInf => if b.NegInf? then None else Some(PosInf)
    case Finite(x) => match b
      case NegInf => Some(NegInf)
      case PosInf => Some(PosInf)
      case Finite(y) => Some(Finite(x + y))
  }

  /** The score/member loop of ZADD: scores so far, members added and changed, and whether a bad score stopped it. */
  datatype ZProgress = ZProgress(scores: map<Bytes, Score>, added: nat, changed: nat, bad: bool)

  function ZAddAll(p: ZProgress, flags: ZFlags, entries: seq<(Option<Score>, Bytes)>): ZProgress
    decreases |entries|
  {
    if entries == [] || p.bad then p
    else if entries[0].0.None? then p.(bad := true)
    else
      var score, m := entries[0].0.value, entries[0].1;
      var known := m in p.scores;
      if (flags.nx && known) || (flags.xx && !known) then ZAddAll(p, flags, entries[1..])
      else
        ZAddAll(ZProgress(p.scores[m := score],
                          p.added + (if known then 0 else 1),
                          p.changed + (if known && p.scores[m] != score then 1 else 0),
                          false), flags, entries[1..])
  }

  // ---- What an operation does to the object under its key ----

  /** maybe_delete_key: a container that became empty goes away. */
  function Kept(o: Obj): Option<Obj> {
    if EmptyContainer(o.value) then None else Some(o)
  }

  predicate EmptyContainer(v: Value) {
    match v
    case Str(_) => false
    case List(l) => l == []
    case Hash(h) => h == map[]
    case Set(m) => m == {}
    case ZSet(z) => z == map[]
  }

  /** The object an operation works on: the live one, or a new empty one that never expires. */
  function OrNew(o: Option<Obj>, fresh_: Value): Obj {
    if o.Some? then o.value else Obj(fresh_, -1)
  }

  function OnString(op: Op, o: Option<Obj>, now: int): (Option<Obj>, Reply)
    requires op.OpSet? || op.OpGet? || op.OpIncr?
  {
    match op
    case OpSet(v, expiry, nx, xx) =>
      if (nx && o.Some?) || (xx && o.None?) then (o, Nil)
      else (Some(Obj(Str(v), SetExpireAt(expiry, now))), Ok)
    case OpGet =>
      if o.None? then (o, Nil) else if !o.value.value.Str? then (o, WrongType) else (o, Bulk(o.value.value.bytes))
    case OpIncr(delta) =>
      if o.Some? && !o.value.value.Str? then (o, WrongType)
      else
        var v := if o.Some? then ParseInt(o.value.value.bytes) else Some(0);
        if v.None? || !(LLONG_MIN <= v.value + delta <= LLONG_MAX) then (o, Error)
        else
          var nv := v.value + delta;
          (Some(Obj(Str(PrintInt(nv)), if o.Some? then o.value.expireAt else -1)), Int(nv))
  }

  function OnList(op: Op, o: Option<Obj>): (Option<Obj>, Reply)
    requires op.OpPush? || op.OpPop? || op.OpLRem? || op.OpLTrim? || op.OpLRange?
  {
    if o.Some? && !o.value.value.List? then (o, WrongType)
    else
      match op
      case OpPush(head, xx, vs) =>
        if o.None? && xx then (o, Int(0))
        else
          var was := OrNew(o, List([]));
          var l := if head then Rev(vs) + was.value.elems else was.value.elems + vs;
          (Some(was.(value := List(l))), Int(|l|))
      case OpPop(head, count) =>
        if o.None? then (o, Nil)
        else
          var l := o.value.value.elems;
          var n := if count < |l| then count else |l|;
          var popped := if head then l[..n] else Rev(l[|l| - n..]);
          var rest := if head then l[n..] else l[..|l| - n];
          (Kept(o.value.(value := List(rest))),
           if count != 1 then Array(popped) else if popped == [] then Nil else Bulk(popped[0]))
      case OpLRem(count, target) =>
        if o.None? then (o, Int(0))
        else
          var l' := LRemoved(o.value.value.elems, target, count);
          (Kept(o.value.(value := List(l'))), Int(|o.value.value.elems| - |l'|))
      case OpLTrim(start, stop) =>
        if o.None? then (o, Ok)
        else (Kept(o.value.(value := List(Slice(o.value.value.elems, start, stop)))), Ok)
      case OpLRange(start, stop) =>
        (o, Array(if o.None? then [] else Slice(o.value.value.elems, start, stop)))
  }

  function OnHash(op: Op, o: Option<Obj>): (Option<Obj>, Reply)
    requires op.OpHSet? || op.OpHDel? || op.OpHGet? || op.OpHIncrBy? || op.OpHIncrByFloat?
  {
    if o.Some? && !o.value.value.Hash? then (o, WrongType)
    else
      match op
      case OpHSet(pairs) =>
        var was := OrNew(o, Hash(map[]));
        var h := WithFields(was.value.fields, pairs);
        (Some(was.(value := Hash(h))), Int(|h| - |was.value.fields|))
      case OpHDel(names) =>
        if o.None? then (o, Int(0))
        else
          var h := o.value.value.fields - NamesOf(names);
          (Kept(o.value.(value := Hash(h))), Int(|o.value.value.fields| - |h|))
      case OpHGet(name) =>
        if o.None? || name !in o.value.value.fields then (o, Nil) else (o, Bulk(o.value.value.fields[name]))
      case OpHIncrBy(name, delta) =>
        HIncr(OrNew(o, Hash(map[])), name, delta)
      case OpHIncrByFloat(name, step, fl) =>
        HIncrFloat(OrNew(o, Hash(map[])), name, step, fl)
  }

  /** HINCRBY on a hash. */
  function HIncr(was: Obj, name: Bytes, delta: int): (Option<Obj>, Reply)
    requires was.value.Hash?
  {
    var v := if name in was.value.fields then ParseInt(was.value.fields[name]) else Some(0);
    if v.None? || !(LLONG_MIN <= v.value + delta <= LLONG_MAX) then (Some(was), Error)
    else (Some(was.(value := Hash(was.value.fields[name := PrintInt(v.value + delta)]))), Int(v.value + delta))
  }

  /** HINCRBYFLOAT on a hash. */
  function HIncrFloat(was: Obj, name: Bytes, step: Score, fl: Floats): (Option<Obj>, Reply)
    requires was.value.Hash?
  {
    var v := if name in was.value.fields then fl.read(CStr(was.value.fields[name])) else Some(Finite(0.0));
    var sum := if v.None? then None else AddScores(v.value, step);
    if sum.None? || !sum.value.Finite? then (Some(was), Error)
    else
      var text := CStr(fl.show(sum.value));
      (Some(was.(value := Hash(was.value.fields[name := text]))), Bulk(text))
  }

  function OnSet(op: Op, o: Option<Obj>): (Option<Obj>, Reply)
    requires op.OpSAdd? || op.OpSRem? || op.OpSIsMember?
  {
    if o.Some? && !o.value.value.Set? then (o, WrongType)
    else
      match op
      case OpSAdd(names) =>
        var was := OrNew(o, Set({}));
        var m := was.value.members + NamesOf(names);
        (Some(was.(value := Set(m))), Int(|m| - |was.value.members|))
      case OpSRem(names) =>
        if o.None? then (o, Int(0))
        else
          var m := o.value.value.members - NamesOf(names);
          (Kept(o.value.(value := Set(m))), Int(|o.value.value.members| - |m|))
      case OpSIsMember(name) =>
        (o, Int(if o.Some? && name in o.value.value.members then 1 else 0))
  }

  function OnZSet(op: Op, o: Option<Obj>): (Option<Obj>, Reply)
    requires op.OpZAdd? || op.OpZRem? || op.OpZScore?
  {
    if o.Some? && !o.value.value.ZSet? then (o, WrongType)
    else
      match op
      case OpZAdd(flags, entries) =>
        if o.None? && flags.xx then (o, Int(0))
        else
          var was := OrNew(o, ZSet(map[]));
          if flags.incr then ZIncr(was, flags, entries)
          else
            var p := ZAddAll(ZProgress(was.value.scores, 0, 0, false), flags, entries);
            (Some(was.(value := ZSet(p.scores))),
             if p.bad then Error else Int(if flags.ch then p.added + p.changed else p.added))
      case OpZRem(names) =>
        if o.None? then (o, Int(0))
        else
          var z := o.value.value.scores - NamesOf(names);
          (Kept(o.value.(value := ZSet(z))), Int(|o.value.value.scores| - |z|))
      case OpZScore(name) =>
        if o.None? || name !in o.value.value.scores then (o, Nil) else (o, ScoreIs(o.value.value.scores[name]))
  }

  /** ZADD INCR with its single pair. */
  function ZIncr(was: Obj, flags: ZFlags, entries: seq<(Option<Score>, Bytes)>): (Option<Obj>, Reply)
    requires was.value.ZSet?
  {
    if entries == [] then (Some(was), Int(0))
    else if entries[0].0.None? then (Some(was), Error)
    else
      var z, m := was.value.scores, entries[0].1;
      if (flags.nx && m in z) || (flags.xx && m !in z) then (Some(was), Nil)
      else
        var s := if m in z then AddScores(z[m], entries[0].0.value) else entries[0].0;
        if s.None? then (Some(was), Error)
        else (Some(was.(value := ZSet(z[m := s.value]))), ScoreIs(s.value))
  }

  /** The EXPIRE family, on an object of any type. */
  function OnAny(e: Expiry, o: Option<Obj>, now: int): (Option<Obj>, Reply) {
    if o.None? then (o, Int(0))
    else
      match e
      case Never => (o, Error)      // EXPIRE with a number of seconds that does not fit
      case In(ms) => (Some(o.value.(expireAt := now + ms)), Int(1))
      case At(ms) => (Some(o.value.(expireAt := ms)), Int(1))
  }

  function OnKeyObject(op: Op, o: Option<Obj>, now: int): (Option<Obj>, Reply) {
    match op
    case OpSet(_, _, _, _) => OnString(op, o, now)
    case OpGet => OnString(op, o, now)
    case OpIncr(_) => OnString(op, o, now)
    case OpExpire(e) => OnAny(e, o, now)
    case OpPush(_, _, _) => OnList(op, o)
    case OpPop(_, _) => OnList(op, o)
    case OpLRem(_, _) => OnList(op, o)
    case OpLTrim(_, _) => OnList(op, o)
    case OpLRange(_, _) => OnList(op, o)
    case OpHSet(_) => OnHash(op, o)
    case OpHDel(_) => OnHash(op, o)
    case OpHGet(_) => OnHash(op, o)
    case OpHIncrBy(_, _) => OnHash(op, o)
    case OpHIncrByFloat(_, _, _) => OnHash(op, o)
    case OpSAdd(_) => OnSet(op, o)
    case OpSRem(_) => OnSet(op, o)
    case OpSIsMember(_) => OnSet(op, o)
    case OpZAdd(_, _) => OnZSet(op, o)
    case OpZRem(_) => OnZSet(op, o)
    case OpZScore(_) => OnZSet(op, o)
  }

  // ---- What a request does to the store ----

  datatype Request =
    | OnKey(key: Bytes, op: Op)
    | Del(keys: seq<Bytes>)
    | Exists(keys: seq<Bytes>)
    | Keys(pattern: Bytes)
    | FlushAll
    | DbSize
    | Reject          // bad arity or arguments, or no such command
    | Ignore          // an empty command
    | Unmodelled      // a command outside this model

  /** lookup_key: the live object, with an expired one deleted on the way. */
  function Live(s: Store, k: Bytes, now: int): Option<Obj> {
    if k in s && !Expired(s[k], now) then Some(s[k]) else None
  }

  function Stored(s: Store, k: Bytes, o: Option<Obj>): Store {
    if o.Some? then s[k := o.value] else s - {k}
  }

  function Purge(s: Store, ks: seq<Bytes>, now: int): Store {
    s - set k | k in s && k in ks && Expired(s[k], now)
  }

  function CountLive(s: Store, ks: seq<Bytes>, now: int): nat {
    if ks == [] then 0 else CountLive(s, ks[..|ks| - 1], now) + if Live(s, ks[|ks| - 1], now).Some? then 1 else 0
  }

  ghost function Exec(s: Store, r: Request, now: int): (Store, Reply) {
    match r
    case OnKey(k, op) =>
      var (o, reply) := OnKeyObject(op, Live(s, k, now), now);
      (Stored(s, k, o), reply)
    case Del(ks) => (s - NamesOf(ks), Int(|s| - |s - NamesOf(ks)|))
    case Exists(ks) => (Purge(s, ks, now), Int(CountLive(s, ks, now)))
    case Keys(pattern) => (s, Matching(set k | k in s && !Expired(s[k], now) && Matches(Tokens(pattern), k)))
    case FlushAll => (map[], Ok)
    case DbSize => (s, Int(|s|))
    case Reject => (s, Error)
    case Ignore => (s, Nil)
    case Unmodelled => (s, Nil)
  }
}
