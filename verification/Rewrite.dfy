/** The log rewrite of src/aof.c: a store compiled into batches of commands, and what replaying them rebuilds. */
module Rewrite {
  import opened Orders
  import opened Ints
  import opened Resp
  import opened Keyspace
  import opened Requests
  import opened Clocks
  import opened Aof

  const BATCH: nat := 64

  /** Execute commands in order under a clock that stands still. */
  ghost function Run(s: Store, cs: seq<Command>, fl: Floats, now: int): Store {
    if cs == [] then s else Exec(Run(s, cs[..|cs| - 1], fl, now), Decode(cs[|cs| - 1], fl), now).0
  }

  lemma {:induction false} RunAppend(s: Store, cs: seq<Command>, ds: seq<Command>, fl: Floats, now: int)
    ensures Run(s, cs + ds, fl, now) == Run(Run(s, cs, fl, now), ds, fl, now)
    decreases |ds|
  {
    hide Exec, Decode;
    if ds == [] {
      assert cs + ds == cs;
    } else {
      RunAppend(s, cs, ds[..|ds| - 1], fl, now);
      assert (cs + ds)[..|cs + ds| - 1] == cs + ds[..|ds| - 1];
    }
  }

  // ---- Items: the arguments that one element contributes ----

  type Item = seq<Bytes>

  function Flatten(items: seq<Item>): seq<Bytes> {
    if items == [] then [] else Flatten(items[..|items| - 1]) + items[|items| - 1]
  }

  ghost predicate Width(items: seq<Item>, w: nat) {
    forall i :: 0 <= i < |items| ==> |items[i]| == w
  }

  lemma {:induction false} FlattenLength(items: seq<Item>, w: nat)
    requires Width(items, w)
    ensures |Flatten(items)| == w * |items|
  {
    if items != [] {
      var init, last := items[..|items| - 1], items[|items| - 1];
      FlattenLength(init, w);
      assert Flatten(items) == Flatten(init) + last && |last| == w;
      assert w * |items| == w * |init| + w;
    }
  }

  /** The commands for batches of items on one key. */
  ghost function BatchCommands(name: Bytes, key: Bytes, batches: seq<seq<Item>>): seq<Command> {
    if batches == [] then []
    else BatchCommands(name, key, batches[..|batches| - 1]) + [[name, key] + Flatten(batches[|batches| - 1])]
  }

  function Concat(batches: seq<seq<Item>>): seq<Item> {
    if batches == [] then [] else Concat(batches[..|batches| - 1]) + batches[|batches| - 1]
  }

  ghost predicate BatchSizes(batches: seq<seq<Item>>) {
    forall j :: 0 <= j < |batches| ==> 1 <= |batches[j]| <= BATCH
  }

  lemma SnocBatch(name: Bytes, key: Bytes, batches: seq<seq<Item>>, b: seq<Item>)
    ensures BatchCommands(name, key, batches + [b]) == BatchCommands(name, key, batches) + [[name, key] + Flatten(b)]
    ensures Concat(batches + [b]) == Concat(batches) + b
  {
    assert (batches + [b])[..|batches|] == batches;
  }

  lemma FlattenSnoc(items: seq<Item>, item: Item)
    ensures Flatten(items + [item]) == Flatten(items) + item
  {
    assert (items + [item])[..|items|] == items;
  }

  lemma FlattenNone()
    ensures Flatten([]) == []
  {
  }

  /** Write the one or two arguments of an item into the argument array. */
  method PutItem(argv: array<Bytes>, i: nat, item: Item)
    requires 1 <= |item| <= 2 && i + |item| <= argv.Length
    modifies argv
    ensures argv[..i] == old(argv[..i]) && argv[i..i + |item|] == item
  {
    argv[i] := item[0];
    if |item| == 2 {
      argv[i + 1] := item[1];
    }
  }

  /** The next item behind the pending ones. */
  method AppendItem(argv: array<Bytes>, i: nat, item: Item, ghost name: Bytes, ghost key: Bytes,
                    ghost pending: seq<Item>)
    requires 1 <= |item| <= 2 && 2 <= i && i + |item| <= argv.Length && argv[..i] == [name, key] + Flatten(pending)
    modifies argv
    ensures argv[..i + |item|] == [name, key] + Flatten(pending + [item]) && argv[..2] == [name, key]
  {
    hide Flatten;
    ghost var was := argv[..i];
    assert was[..2] == [name, key];
    PutItem(argv, i, item);
    FlattenSnoc(pending, item);
    assert argv[..i + |item|] == argv[..i] + argv[i..i + |item|];
    assert argv[..2] == argv[..i][..2];
  }

  /** The batching loops of aof_rewrite_key: fill the argument array, write it out when it is full, write the rest. */
  method EmitBatches(name: Bytes, key: Bytes, items: seq<Item>, w: nat)
    returns (out: seq<Command>, ghost batches: seq<seq<Item>>)
    requires 1 <= w <= 2 && Width(items, w)
    ensures out == BatchCommands(name, key, batches) && Concat(batches) == items && BatchSizes(batches)
    ensures FullButLast(batches)
  {
    hide Flatten, BatchCommands, Concat, Full, FullButLast, BatchSizes;
    var argv := new Bytes[2 + BATCH * w](_ => []);
    argv[0], argv[1] := name, key;
    var i, si := 2, 0;                    // next free argument, next free score buffer
    out, batches := [], [];
    ghost var pending: seq<Item> := [];
    FlattenNone();
    NoBatches(name, key);
    for n := 0 to |items|
      invariant 0 <= si == |pending| <= BATCH && i == 2 + w * si && (n > 0 ==> si > 0)
      invariant argv[..i] == [name, key] + Flatten(pending) && argv[..2] == [name, key]
      invariant out == BatchCommands(name, key, batches) && Concat(batches) + pending == items[..n]
      invariant Full(batches)
    {
      if i + w > argv.Length {
        SnocBatch(name, key, batches, pending);
        Sizes(batches, pending);
        out, batches := out + [argv[..i]], batches + [pending];
        i, si, pending := 2, 0, [];
        assert argv[..2] == [name, key];
      }
      assert si < BATCH && i + w <= argv.Length;
      AppendItem(argv, i, items[n], name, key, pending);
      i, si, pending := i + w, si + 1, pending + [items[n]];
      assert items[..n + 1] == items[..n] + [items[n]];
    }
    assert items[..|items|] == items;
    Sizes(batches, pending);
    if i > 2 {
      SnocBatch(name, key, batches, pending);
      out, batches := out + [argv[..i]], batches + [pending];
    }
  }

  lemma NoBatches(name: Bytes, key: Bytes)
    ensures BatchCommands(name, key, []) == [] && Concat([]) == [] && Full([])
  {
  }

  ghost predicate Full(batches: seq<seq<Item>>) {
    forall j :: 0 <= j < |batches| ==> |batches[j]| == BATCH
  }

  ghost predicate FullButLast(batches: seq<seq<Item>>) {
    forall j :: 0 <= j < |batches| - 1 ==> |batches[j]| == BATCH
  }

  lemma Sizes(batches: seq<seq<Item>>, b: seq<Item>)
    requires Full(batches)
    ensures BatchSizes(batches) && FullButLast(batches)
    ensures 1 <= |b| <= BATCH ==> BatchSizes(batches + [b]) && FullButLast(batches + [b])
    ensures |b| == BATCH ==> Full(batches + [b])
  {
  }

  // ---- What the emitted commands are decoded to ----

  predicate NulFrees(a: seq<Bytes>) {
    forall i :: 0 <= i < |a| ==> NulFree(a[i])
  }

  lemma CStrsOfNulFree(a: Command)
    requires NulFrees(a)
    ensures CStrs(a) == a
  {
    forall i | 0 <= i < |a|
      ensures CStr(a[i]) == a[i]
    {
      CStrIsNulFree(a[i]);
    }
  }

  lemma Names()
    ensures Lower("SET") == "set" && Lower("PXAT") == "pxat" && Lower("PEXPIREAT") == "pexpireat"
    ensures Lower("RPUSH") == "rpush" && Lower("HSET") == "hset" && Lower("SADD") == "sadd" && Lower("ZADD") == "zadd"
    ensures NulFrees(["SET", "PXAT", "PEXPIREAT", "RPUSH", "HSET", "SADD", "ZADD"])
  {
  }

  lemma DecodeArgs(argv: Command, fl: Floats)
    requires argv != [] && NulFrees(argv)
    ensures CStrs(argv) == argv
    ensures Lower(argv[0]) == "rpush" ==> Decode(argv, fl) == DecodeList("rpush", argv)
    ensures Lower(argv[0]) == "hset" ==> Decode(argv, fl) == DecodeHash("hset", argv)
    ensures Lower(argv[0]) == "hincrbyfloat" ==> Decode(argv, fl) == DecodeHashFloat(argv, fl)
    ensures Lower(argv[0]) == "sadd" ==> Decode(argv, fl) == DecodeSet("sadd", argv)
    ensures Lower(argv[0]) == "zadd" ==> Decode(argv, fl) == DecodeZSet("zadd", argv, fl)
    ensures Lower(argv[0]) == "set" ==> Decode(argv, fl) == DecodeString("set", argv)
    ensures Lower(argv[0]) == "pexpireat" ==> Decode(argv, fl) == DecodeKeys("pexpireat", argv)
  {
    hide DecodeList, DecodeHash, DecodeHashFloat, DecodeSet, DecodeZSet, DecodeString, DecodeKeys, CStrs, Lower;
    CStrsOfNulFree(argv);
  }

  /** A text that is read as a score and cannot be taken for one of ZADD's flags. */
  predicate IsScoreText(text: Bytes, fl: Floats) {
    fl.read(text).Some? && Lower(text) !in {"nx", "xx", "ch", "incr"}
  }

  /** This score survives printing and parsing, and its text is a short plain argument. */
  predicate ScoreOk(s: Score, fl: Floats) {
    var text := fl.show(s);
    fl.read(text) == Some(s) && IsScoreText(text, fl) && NulFree(text) && |text| < 32
  }

  /** The scores that a value holds do; nothing is asked of any other. */
  ghost predicate FloatsOk(fl: Floats, v: Value) {
    v.ZSet? ==> forall m :: m in v.scores ==> ScoreOk(v.scores[m], fl)
  }

  ghost predicate StoreFloatsOk(fl: Floats, s: Store) {
    forall k :: k in s ==> FloatsOk(fl, s[k].value)
  }

  // ---- Building a container item by item ----

  function NameOf(v: Value): Bytes {
    match v
    case Str(_) => "SET"
    case List(_) => "RPUSH"
    case Hash(_) => "HSET"
    case Set(_) => "SADD"
    case ZSet(_) => "ZADD"
  }

  function WidthOf(v: Value): nat {
    if v.Hash? || v.ZSet? then 2 else 1
  }

  function NewLike(v: Value): Value {
    match v
    case Str(_) => Str([])
    case List(_) => List([])
    case Hash(_) => Hash(map[])
    case Set(_) => Set({})
    case ZSet(_) => ZSet(map[])
  }

  /** One element's arguments that the code would emit for a container like v. */
  ghost predicate ItemFor(v: Value, it: Item, fl: Floats) {
    && |it| == WidthOf(v) && NulFrees(it)
    && (v.ZSet? ==> IsScoreText(it[0], fl))
  }

  function AddItem(v: Value, it: Item, fl: Floats): Value
    requires |it| == WidthOf(v)
  {
    match v
    case Str(_) => v
    case List(l) => List(l + [it[0]])
    case Hash(h) => Hash(h[it[0] := it[1]])
    case Set(m) => Set(m + {it[0]})
    case ZSet(z) => if fl.read(it[0]).Some? then ZSet(z[it[1] := fl.read(it[0]).value]) else v
  }

  ghost function Absorb(v: Value, items: seq<Item>, fl: Floats): (v': Value)
    requires Width(items, WidthOf(v))
    ensures NewLike(v') == NewLike(v)
  {
    if items == [] then v else AddItem(Absorb(v, items[..|items| - 1], fl), items[|items| - 1], fl)
  }

  lemma {:induction false} AbsorbAppend(v: Value, a: seq<Item>, b: seq<Item>, fl: Floats)
    requires Width(a, WidthOf(v)) && Width(b, WidthOf(v))
    ensures Width(a + b, WidthOf(v)) && Width(b, WidthOf(Absorb(v, a, fl)))
    ensures Absorb(v, a + b, fl) == Absorb(Absorb(v, a, fl), b, fl)
    decreases |b|
  {
    if b == [] {
      assert a + b == a;
    } else {
      AbsorbAppend(v, a, b[..|b| - 1], fl);
      assert (a + b)[..|a + b| - 1] == a + b[..|b| - 1];
    }
  }

  /** A store in which the container is stored under its key once it is not empty. */
  ghost function With(s: Store, key: Bytes, v: Value): Store {
    if EmptyContainer(v) then s else s[key := Obj(v, -1)]
  }

  // ---- One batch command adds its items ----

  lemma {:induction false} AbsorbList(l: seq<Bytes>, items: seq<Item>, fl: Floats)
    requires Width(items, 1)
    ensures Absorb(List(l), items, fl) == List(l + Flatten(items))
  {
    if items != [] {
      AbsorbList(l, items[..|items| - 1], fl);
    }
  }

  lemma {:induction false} AbsorbSet(m: set<Bytes>, items: seq<Item>, fl: Floats)
    requires Width(items, 1)
    ensures Absorb(Set(m), items, fl) == Set(m + NamesOf(Flatten(items)))
  {
    if items != [] {
      AbsorbSet(m, items[..|items| - 1], fl);
    }
  }

  lemma {:induction false} PairsSnoc(a: seq<Bytes>, f: Bytes, v: Bytes)
    requires |a| % 2 == 0
    ensures Pairs(a + [f, v]) == Pairs(a) + [(f, v)]
  {
    if |a| >= 2 {
      PairsSnoc(a[2..], f, v);
      assert (a + [f, v])[2..] == a[2..] + [f, v];
    } else {
      assert a + [f, v] == [f, v];
    }
  }

  lemma {:induction false} FieldsSnoc(m: map<Bytes, Bytes>, ps: seq<(Bytes, Bytes)>, p: (Bytes, Bytes))
    ensures WithFields(m, ps + [p]) == WithFields(m, ps)[p.0 := p.1]
    decreases |ps|
  {
    if ps != [] {
      FieldsSnoc(m[ps[0].0 := ps[0].1], ps[1..], p);
      assert (ps + [p])[1..] == ps[1..] + [p];
    }
  }

  lemma {:induction false} AbsorbHash(h: map<Bytes, Bytes>, items: seq<Item>, fl: Floats)
    requires Width(items, 2)
    ensures |Flatten(items)| == 2 * |items|
    ensures Absorb(Hash(h), items, fl) == Hash(WithFields(h, Pairs(Flatten(items))))
  {
    if items != [] {
      var init, last := items[..|items| - 1], items[|items| - 1];
      AbsorbHash(h, init, fl);
      PairsSnoc(Flatten(init), last[0], last[1]);
      assert last == [last[0], last[1]];
      FieldsSnoc(h, Pairs(Flatten(init)), (last[0], last[1]));
    }
  }

  lemma {:induction false} ScorePairsSnoc(a: seq<Bytes>, s: Bytes, m: Bytes, fl: Floats)
    requires |a| % 2 == 0
    ensures ScorePairs(a + [s, m], fl) == ScorePairs(a, fl) + [(fl.read(s), m)]
  {
    if |a| >= 2 {
      ScorePairsSnoc(a[2..], s, m, fl);
      assert (a + [s, m])[2..] == a[2..] + [s, m];
    } else {
      assert a + [s, m] == [s, m];
    }
  }

  const PLAIN: ZFlags := ZFlags(false, false, false, false)

  lemma {:induction false} ZAddSnoc(p: ZProgress, es: seq<(Option<Score>, Bytes)>, s: Score, m: Bytes)
    requires !ZAddAll(p, PLAIN, es).bad
    ensures var q := ZAddAll(p, PLAIN, es + [(Some(s), m)]); !q.bad && q.scores == ZAddAll(p, PLAIN, es).scores[m := s]
    decreases |es|
  {
    if es != [] {
      assert (es + [(Some(s), m)])[1..] == es[1..] + [(Some(s), m)];
      if es[0].0.Some? {
        var score, n := es[0].0.value, es[0].1;
        var known := n in p.scores;
        var p' := ZProgress(p.scores[n := score], p.added + (if known then 0 else 1),
                            p.changed + (if known && p.scores[n] != score then 1 else 0), false);
        ZAddSnoc(p', es[1..], s, m);
      }
    } else {
      assert es + [(Some(s), m)] == [(Some(s), m)];
    }
  }

  lemma {:induction false} AbsorbZSet(z: map<Bytes, Score>, items: seq<Item>, fl: Floats)
    requires Width(items, 2) && forall i :: 0 <= i < |items| ==> fl.read(items[i][0]).Some?
    ensures |Flatten(items)| == 2 * |items|
    ensures var p := ZAddAll(ZProgress(z, 0, 0, false), PLAIN, ScorePairs(Flatten(items), fl));
            !p.bad && Absorb(ZSet(z), items, fl) == ZSet(p.scores)
  {
    if items != [] {
      var init, last := items[..|items| - 1], items[|items| - 1];
      AbsorbZSet(z, init, fl);
      ScorePairsSnoc(Flatten(init), last[0], last[1], fl);
      assert last == [last[0], last[1]];
      ZAddSnoc(ZProgress(z, 0, 0, false), ScorePairs(Flatten(init), fl), fl.read(last[0]).value, last[1]);
    }
  }

  ghost predicate ItemsFor(v: Value, items: seq<Item>, fl: Floats) {
    forall i :: 0 <= i < |items| ==> ItemFor(v, items[i], fl)
  }

  lemma {:induction false} FlattenNulFree(items: seq<Item>)
    requires forall i :: 0 <= i < |items| ==> NulFrees(items[i])
    ensures NulFrees(Flatten(items))
  {
    if items != [] {
      FlattenNulFree(items[..|items| - 1]);
    }
  }

  /** The operation that a batch command is decoded to. */
  ghost function BatchOp(v: Value, args: seq<Bytes>, fl: Floats): Op {
    match v
    case Str(_) => OpGet
    case List(_) => OpPush(false, false, args)
    case Hash(_) => OpHSet(Pairs(args))
    case Set(_) => OpSAdd(args)
    case ZSet(_) => OpZAdd(PLAIN, ScorePairs(args, fl))
  }

  lemma NoFlags(a: seq<Bytes>, acc: ZFlags)
    requires a != [] && Lower(a[0]) !in {"nx", "xx", "ch", "incr"}
    ensures ZAddFlags(a, acc) == (acc, a)
  {
  }

  lemma {:induction false} FirstOfFlatten(items: seq<Item>)
    requires items != [] && forall i :: 0 <= i < |items| ==> |items[i]| == 2
    ensures |Flatten(items)| >= 2 && |Flatten(items)| % 2 == 0 && Flatten(items)[0] == items[0][0]
  {
    if |items| > 1 {
      var init := items[..|items| - 1];
      assert init[0] == items[0];
      FirstOfFlatten(init);
      assert Flatten(items) == Flatten(init) + items[|items| - 1];
    } else {
      assert Flatten(items[..0]) == [];
    }
  }

  lemma BatchDecodes(v: Value, key: Bytes, items: seq<Item>, fl: Floats)
    requires !v.Str? && items != [] && ItemsFor(v, items, fl) && NulFree(key)
    ensures Decode([NameOf(v), key] + Flatten(items), fl) == OnKey(key, BatchOp(v, Flatten(items), fl))
  {
    hide Flatten, Decode, CStrs, Lower, IsScoreText;
    var args := Flatten(items);
    var argv := [NameOf(v), key] + args;
    Names();
    FlattenNulFree(items);
    assert NulFrees(argv) by { NameNulFree(v); }
    DecodeArgs(argv, fl);
    assert argv[2..] == args;
    FlattenLength(items, WidthOf(v));
    if v.ZSet? {
      FirstOfFlatten(items);
      assert Lower(args[0]) !in {"nx", "xx", "ch", "incr"} by { PlainScore(v, items[0], fl); }
      NoFlags(args, PLAIN);
    }
  }

  lemma PlainScore(v: Value, it: Item, fl: Floats)
    requires v.ZSet? && ItemFor(v, it, fl)
    ensures fl.read(it[0]).Some? && Lower(it[0]) !in {"nx", "xx", "ch", "incr"}
  {
  }

  lemma NameNulFree(v: Value)
    ensures NulFree(NameOf(v))
  {
  }

  lemma BatchOpMeans(v: Value, items: seq<Item>, fl: Floats, now: int)
    requires !v.Str? && items != [] && ItemsFor(v, items, fl)
    ensures Width(items, WidthOf(v))
    ensures OnKeyObject(BatchOp(v, Flatten(items), fl), if EmptyContainer(v) then None else Some(Obj(v, -1)), now).0
         == Some(Obj(Absorb(v, items, fl), -1))
  {
    hide Absorb, Flatten, ZAddAll, ScorePairs, Pairs, WithFields, IsScoreText;
    match v
    case List(l) => AbsorbList(l, items, fl);
    case Set(m) => AbsorbSet(m, items, fl);
    case Hash(h) => AbsorbHash(h, items, fl);
    case ZSet(z) =>
      forall i | 0 <= i < |items|
        ensures fl.read(items[i][0]).Some?
      {
        PlainScore(v, items[i], fl);
      }
      AbsorbZSet(z, items, fl);
  }

  /** Executing a batch command adds exactly its items to the container. */
  lemma BatchMeans(s: Store, v: Value, key: Bytes, items: seq<Item>, fl: Floats, now: int)
    requires !v.Str? && items != [] && ItemsFor(v, items, fl) && NulFree(key) && key !in s
    ensures Width(items, WidthOf(v)) && !EmptyContainer(Absorb(v, items, fl))
    ensures Exec(With(s, key, v), Decode([NameOf(v), key] + Flatten(items), fl), now).0
         == With(s, key, Absorb(v, items, fl))
  {
    hide Decode, Absorb, Flatten, OnKeyObject, BatchOp, EmptyContainer, IsScoreText;
    BatchDecodes(v, key, items, fl);
    AbsorbNonEmpty(v, items, fl);
    BatchOpMeans(v, items, fl, now);
    assert Live(With(s, key, v), key, now) == if EmptyContainer(v) then None else Some(Obj(v, -1));
  }

  lemma AbsorbNonEmpty(v: Value, items: seq<Item>, fl: Floats)
    requires !v.Str? && items != [] && ItemsFor(v, items, fl)
    ensures Width(items, WidthOf(v)) && !EmptyContainer(Absorb(v, items, fl))
  {
    var it := items[|items| - 1];
    if v.ZSet? {
      PlainScore(v, it, fl);
      assert it[1] in AddItem(Absorb(v, items[..|items| - 1], fl), it, fl).scores;
    }
    if v.Set? {
      assert it[0] in AddItem(Absorb(v, items[..|items| - 1], fl), it, fl).members;
    }
    if v.Hash? {
      assert it[0] in AddItem(Absorb(v, items[..|items| - 1], fl), it, fl).fields;
    }
  }

  /** Executing all batches in order builds the container, however its items were split. */
  lemma {:induction false} BatchesMean(s: Store, v: Value, key: Bytes, batches: seq<seq<Item>>, fl: Floats, now: int)
    requires !v.Str? && EmptyContainer(v) && BatchSizes(batches) && ItemsFor(v, Concat(batches), fl)
    requires NulFree(key) && key !in s
    ensures Width(Concat(batches), WidthOf(v))
    ensures Run(s, BatchCommands(NameOf(v), key, batches), fl, now) == With(s, key, Absorb(v, Concat(batches), fl))
    decreases |batches|
  {
    hide Exec, Decode, Flatten, With, EmptyContainer, ItemFor;
    if batches == [] {
      WithEmpty(s, key, v);
    } else {
      var init, last := batches[..|batches| - 1], batches[|batches| - 1];
      var items := Concat(init);
      assert Concat(batches) == items + last;
      ItemsSplit(v, items, last, fl);
      BatchesMean(s, v, key, init, fl, now);
      AbsorbAppend(v, items, last, fl);
      var u := Absorb(v, items, fl);
      SameKind(v, u, last, fl);
      BatchMeans(s, u, key, last, fl, now);
      var cs := BatchCommands(NameOf(v), key, batches);
      assert cs[..|cs| - 1] == BatchCommands(NameOf(v), key, init);
    }
  }

  lemma WithEmpty(s: Store, key: Bytes, v: Value)
    requires EmptyContainer(v)
    ensures With(s, key, v) == s
  {
  }

  lemma ItemsSplit(v: Value, a: seq<Item>, b: seq<Item>, fl: Floats)
    requires ItemsFor(v, a + b, fl)
    ensures ItemsFor(v, a, fl) && ItemsFor(v, b, fl) && Width(a, WidthOf(v)) && Width(b, WidthOf(v))
    ensures Width(a + b, WidthOf(v))
  {
    forall i | 0 <= i < |a|
      ensures ItemFor(v, a[i], fl)
    {
      assert (a + b)[i] == a[i];
    }
    forall i | 0 <= i < |b|
      ensures ItemFor(v, b[i], fl)
    {
      assert (a + b)[|a| + i] == b[i];
    }
    assert forall i :: 0 <= i < |a + b| ==> ItemFor(v, (a + b)[i], fl);
  }

  lemma SameKind(v: Value, u: Value, items: seq<Item>, fl: Floats)
    requires NewLike(u) == NewLike(v) && !v.Str? && ItemsFor(v, items, fl)
    ensures !u.Str? && ItemsFor(u, items, fl) && NameOf(u) == NameOf(v) && WidthOf(u) == WidthOf(v)
  {
    assert u.ZSet? <==> v.ZSet?;
    forall i | 0 <= i < |items|
      ensures ItemFor(u, items[i], fl)
    {
      assert ItemFor(v, items[i], fl);
    }
  }

  // ---- Listing a container ----

  predicate NulFreeValue(v: Value) {
    match v
    case Str(b) => NulFree(b)
    case List(l) => NulFrees(l)
    case Hash(h) => forall f :: f in h ==> NulFree(f) && NulFree(h[f])
    case Set(m) => forall x :: x in m ==> NulFree(x)
    case ZSet(z) => forall x :: x in z ==> NulFree(x)
  }

  lemma AbsorbSnoc(v: Value, items: seq<Item>, it: Item, fl: Floats)
    requires Width(items, WidthOf(v)) && |it| == WidthOf(v)
    ensures Width(items + [it], WidthOf(v))
    ensures WidthOf(Absorb(v, items, fl)) == WidthOf(v)
    ensures Absorb(v, items + [it], fl) == AddItem(Absorb(v, items, fl), it, fl)
  {
    assert (items + [it])[..|items|] == items;
  }

  /** Walk a list from the head. */
  method ListItems(l: seq<Bytes>, fl: Floats) returns (items: seq<Item>)
    ensures NulFrees(l) ==> ItemsFor(List(l), items, fl)
    ensures SmallValue(List(l)) ==> SmallItems(items)
    ensures Width(items, 1) && Absorb(List([]), items, fl) == List(l)
  {
    hide Absorb;
    items := [];
    AbsorbNone(List([]), fl);
    for n := 0 to |l|
      invariant NulFrees(l) ==> ItemsFor(List(l), items, fl)
      invariant SmallValue(List(l)) ==> SmallItems(items)
      invariant Width(items, 1) && Absorb(List([]), items, fl) == List(l[..n])
    {
      AbsorbSnoc(List([]), items, [l[n]], fl);
      items := items + [[l[n]]];
      assert l[..n + 1] == l[..n] + [l[n]];
    }
    assert l[..|l|] == l;
  }

  /** Iterate a hash in whatever order its table has. */
  method HashItems(h: map<Bytes, Bytes>, fl: Floats) returns (items: seq<Item>)
    ensures NulFreeValue(Hash(h)) ==> ItemsFor(Hash(h), items, fl)
    ensures SmallValue(Hash(h)) ==> SmallItems(items)
    ensures Width(items, 2) && Absorb(Hash(map[]), items, fl) == Hash(h)
  {
    hide Absorb;
    items := [];
    var rest := h.Keys;
    AbsorbNone(Hash(map[]), fl);
    while rest != {}
      invariant rest <= h.Keys && (NulFreeValue(Hash(h)) ==> ItemsFor(Hash(h), items, fl))
      invariant (SmallValue(Hash(h)) ==> SmallItems(items)) && Width(items, 2)
      invariant Absorb(Hash(map[]), items, fl) == Hash(h - rest)
      decreases |rest|
    {
      var f :| f in rest;
      AbsorbSnoc(Hash(map[]), items, [f, h[f]], fl);
      items := items + [[f, h[f]]];
      assert (h - rest)[f := h[f]] == h - (rest - {f});
      rest := rest - {f};
    }
    assert h - rest == h;
  }

  method SetItems(m: set<Bytes>, fl: Floats) returns (items: seq<Item>)
    ensures NulFreeValue(Set(m)) ==> ItemsFor(Set(m), items, fl)
    ensures SmallValue(Set(m)) ==> SmallItems(items)
    ensures Width(items, 1) && Absorb(Set({}), items, fl) == Set(m)
  {
    hide Absorb;
    items := [];
    var rest := m;
    AbsorbNone(Set({}), fl);
    while rest != {}
      invariant rest <= m && (NulFreeValue(Set(m)) ==> ItemsFor(Set(m), items, fl))
      invariant (SmallValue(Set(m)) ==> SmallItems(items)) && Width(items, 1)
      invariant Absorb(Set({}), items, fl) == Set(m - rest)
      decreases |rest|
    {
      var x :| x in rest;
      AbsorbSnoc(Set({}), items, [x], fl);
      items := items + [[x]];
      assert m - rest + {x} == m - (rest - {x});
      rest := rest - {x};
    }
    assert m - rest == m;
  }

  /** Each score is printed before its member. */
  method ZSetItems(z: map<Bytes, Score>, fl: Floats) returns (items: seq<Item>)
    requires FloatsOk(fl, ZSet(z))
    ensures NulFreeValue(ZSet(z)) ==> ItemsFor(ZSet(z), items, fl)
    ensures SmallValue(ZSet(z)) ==> SmallItems(items)
    ensures Width(items, 2) && Absorb(ZSet(map[]), items, fl) == ZSet(z)
  {
    hide Absorb, FloatsOk, ItemFor;
    items := [];
    var rest := z.Keys;
    AbsorbNone(ZSet(map[]), fl);
    while rest != {}
      invariant rest <= z.Keys && (NulFreeValue(ZSet(z)) ==> ItemsFor(ZSet(z), items, fl))
      invariant (SmallValue(ZSet(z)) ==> SmallItems(items)) && Width(items, 2)
      invariant Absorb(ZSet(map[]), items, fl) == ZSet(z - rest)
      decreases |rest|
    {
      var x :| x in rest;
      var it := [fl.show(z[x]), x];
      ScoreItem(z, x, fl);
      AbsorbSnoc(ZSet(map[]), items, it, fl);
      items := items + [it];
      assert (z - rest)[x := z[x]] == z - (rest - {x});
      rest := rest - {x};
    }
    assert z - rest == z;
  }

  lemma ScoreItem(z: map<Bytes, Score>, x: Bytes, fl: Floats)
    requires FloatsOk(fl, ZSet(z)) && x in z
    ensures fl.read(fl.show(z[x])) == Some(z[x]) && |fl.show(z[x])| <= SMALL
    ensures NulFreeValue(ZSet(z)) ==> ItemFor(ZSet(z), [fl.show(z[x]), x], fl)
  {
    hide IsScoreText;
    assert ScoreOk(z[x], fl);
  }

  lemma AbsorbNone(v: Value, fl: Floats)
    ensures Absorb(v, [], fl) == v
  {
  }

  // ---- Sizes: what the parser's caps and the int position can carry ----

  const SMALL: nat := 0x80_0000     // 8 MB

  predicate Small(a: seq<Bytes>) {
    forall i :: 0 <= i < |a| ==> |a[i]| <= SMALL
  }

  predicate SmallCommand(c: Command) {
    |c| <= 2 + 2 * BATCH && Small(c)
  }

  predicate SmallValue(v: Value) {
    match v
    case Str(b) => |b| <= SMALL
    case List(l) => Small(l)
    case Hash(h) => forall f :: f in h ==> |f| <= SMALL && |h[f]| <= SMALL
    case Set(m) => forall x :: x in m ==> |x| <= SMALL
    case ZSet(z) => forall x :: x in z ==> |x| <= SMALL
  }

  ghost predicate SmallCommands(cs: seq<Command>) {
    forall i :: 0 <= i < |cs| ==> SmallCommand(cs[i])
  }

  ghost predicate SmallItems(items: seq<Item>) {
    forall i :: 0 <= i < |items| ==> Small(items[i])
  }

  lemma {:induction false} DigitsCount(n: nat, k: nat)
    requires 1 <= k <= 20 && n < Power10(k)
    ensures |PrintNat(n)| <= k
  {
    if n >= 10 {
      DigitsCount(n / 10, k - 1);
    }
  }

  function Power10(k: nat): nat {
    if k == 0 then 1 else 10 * Power10(k - 1)
  }

  lemma ShortNumber(n: nat)
    requires n <= SMALL
    ensures |PrintNat(n)| <= 8
  {
    assert Power10(8) == 100_000_000 by {
      assert Power10(2) == 100 && Power10(4) == 10_000 && Power10(6) == 1_000_000;
    }
    DigitsCount(n, 8);
  }

  lemma {:induction false} ArgsLength(a: Command)
    requires Small(a)
    ensures |EncodeArgs(a)| <= |a| * (SMALL + 13)
  {
    if a != [] {
      ArgsLength(a[1..]);
      ShortNumber(|a[0]|);
    }
  }

  lemma SmallCarries(c: Command)
    requires SmallCommand(c)
    ensures Carries(c)
  {
    ArgsLength(c);
    ShortNumber(|c|);
    assert |c| * (SMALL + 13) <= (2 + 2 * BATCH) * (SMALL + 13);
  }

  lemma {:induction false} SmallFlatten(items: seq<Item>)
    requires SmallItems(items)
    ensures Small(Flatten(items))
  {
    if items != [] {
      SmallFlatten(items[..|items| - 1]);
    }
  }

  lemma SmallBatch(name: Bytes, key: Bytes, items: seq<Item>, w: nat)
    requires |name| <= SMALL && |key| <= SMALL && w <= 2 && |items| <= BATCH && Width(items, w) && SmallItems(items)
    ensures SmallCommand([name, key] + Flatten(items))
  {
    hide Flatten;
    SmallFlatten(items);
    FlattenLength(items, w);
    assert w * |items| <= 2 * |items|;
  }

  lemma {:induction false} SmallBatches(name: Bytes, key: Bytes, batches: seq<seq<Item>>, w: nat)
    requires |name| <= SMALL && |key| <= SMALL && BatchSizes(batches) && w <= 2
    requires Width(Concat(batches), w) && SmallItems(Concat(batches))
    ensures SmallCommands(BatchCommands(name, key, batches))
  {
    hide Flatten, SmallCommand, Small;
    if batches != [] {
      var init, last := batches[..|batches| - 1], batches[|batches| - 1];
      var all := Concat(batches);
      assert all == Concat(init) + last;
      assert forall i :: 0 <= i < |last| ==> last[i] == all[|Concat(init)| + i];
      assert forall i :: 0 <= i < |Concat(init)| ==> Concat(init)[i] == all[i];
      SmallBatches(name, key, init, w);
      SmallBatch(name, key, last, w);
    }
  }

  /** No batch command depends on the clock. */
  lemma {:induction false} BatchesSafe(v: Value, key: Bytes, batches: seq<seq<Item>>, fl: Floats, horizon: int)
    requires !v.Str? && BatchSizes(batches) && ItemsFor(v, Concat(batches), fl) && NulFree(key)
    ensures SafeCommands(BatchCommands(NameOf(v), key, batches), fl, horizon)
    decreases |batches|
  {
    hide Decode, Flatten, ItemFor;
    if batches != [] {
      var init, last := batches[..|batches| - 1], batches[|batches| - 1];
      assert Concat(batches) == Concat(init) + last;
      ItemsSplit(v, Concat(init), last, fl);
      BatchesSafe(v, key, init, fl, horizon);
      BatchDecodes(v, key, last, fl);
    }
  }

  // ---- What becomes of a key ----

  /** The object that replaying a rewritten key at time now leaves, if any. */
  function Fate(o: Obj, now: int): Option<Obj> {
    if EmptyContainer(o.value) then None
    else if o.expireAt < 0 then Some(o.(expireAt := -1))
    else if !o.value.Str? then Some(o)
    else if o.expireAt == 0 then None                        // SET refuses PXAT 0
    else if o.expireAt < now then Some(o.(expireAt := -1))   // a past PXAT turns into "never"
    else Some(o)
  }

  lemma SetDecodes(key: Bytes, v: Bytes, fl: Floats)
    requires NulFree(key) && NulFree(v)
    ensures Decode(["SET", key, v], fl) == OnKey(key, OpSet(v, Never, false, false))
  {
    hide Decode, CStrs, Lower;
    Names();
    DecodeArgs(["SET", key, v], fl);
    assert ["SET", key, v][3..] == [];
  }

  lemma DigitsNulFree(n: nat)
    ensures NulFree(PrintInt(n)) && ParseInt(PrintInt(n)) == if n <= LLONG_MAX then Some(n) else None
  {
    ParsePrint(n);
  }

  lemma SetPxatDecodes(key: Bytes, v: Bytes, e: nat, fl: Floats)
    requires NulFree(key) && NulFree(v) && e <= LLONG_MAX
    ensures Decode(["SET", key, v, "PXAT", PrintInt(e)], fl) ==
              if e == 0 then Reject else OnKey(key, OpSet(v, At(e), false, false))
  {
    hide Decode, CStrs, Lower, PrintInt, ParseInt;
    Names();
    DigitsNulFree(e);
    var argv := ["SET", key, v, "PXAT", PrintInt(e)];
    DecodeArgs(argv, fl);
    assert argv[3..] == ["PXAT", PrintInt(e)];
    PxatOption(PrintInt(e), e);
  }

  lemma PxatOption(p: Bytes, e: nat)
    requires ParseInt(p) == Some(e)
    ensures SetOptions(["PXAT", p], SetArgs(Never, false, false)) ==
              if e == 0 then None else Some(SetArgs(At(e), false, false))
  {
    hide Lower, ParseInt;
    Names();
    var a := ["PXAT", p];
    assert a[2..] == [];
    assert "pxat" != "ex" && "pxat" != "px" && "pxat"[0] != "exat"[0];
    assert SetOptions(a[2..], SetArgs(At(e), false, false)) == Some(SetArgs(At(e), false, false));
  }

  lemma PexpireatDecodes(key: Bytes, e: nat, fl: Floats)
    requires NulFree(key) && e <= LLONG_MAX
    ensures Decode(["PEXPIREAT", key, PrintInt(e)], fl) == OnKey(key, OpExpire(At(e)))
  {
    hide Decode, CStrs, Lower, PrintInt, ParseInt;
    hide DecodeKeys, DecodeList, DecodeHash, DecodeSet, DecodeZSet, DecodeString;
    Names();
    DigitsNulFree(e);
    var argv := ["PEXPIREAT", key, PrintInt(e)];
    assert NulFree(argv[0]) by { assert argv[0] == ["SET", "PXAT", "PEXPIREAT", "RPUSH", "HSET", "SADD", "ZADD"][2]; }
    DecodeArgs(argv, fl);
    PexpireatArgs(argv, e);
  }

  lemma PexpireatArgs(a: seq<Bytes>, e: nat)
    requires |a| == 3 && ParseInt(a[2]) == Some(e)
    ensures DecodeKeys("pexpireat", a) == OnKey(a[1], OpExpire(At(e)))
  {
    hide ParseInt;
  }

  lemma RunOne(s: Store, c: Command, fl: Floats, now: int)
    ensures Run(s, [c], fl, now) == Exec(s, Decode(c, fl), now).0
  {
    assert [c][..0] == [];
  }

  lemma ShortTime(e: nat)
    requires e <= LLONG_MAX
    ensures |PrintInt(e)| <= 20
  {
    assert Power10(20) > LLONG_MAX by {
      assert Power10(4) == 10_000 && Power10(8) == 100_000_000 && Power10(12) == 1_000_000_000_000;
      assert Power10(16) == 10_000_000_000_000_000;
    }
    DigitsCount(e, 20);
  }

  /** The string case of aof_rewrite_key. */
  method RewriteString(key: Bytes, o: Obj, fl: Floats, ghost s: Store, ghost now: int) returns (out: seq<Command>)
    requires o.value.Str? && o.expireAt <= LLONG_MAX && key !in s
    ensures NulFree(key) && NulFreeValue(o.value) ==> Run(s, out, fl, now) == Stored(s, key, Fate(o, now))
    ensures |key| <= SMALL && SmallValue(o.value) ==> SmallCommands(out)
    ensures NulFree(key) && NulFreeValue(o.value) && SafeTime(o.expireAt, now) ==> SafeCommands(out, fl, now)
  {
    hide Decode, Run, PrintInt;
    if o.expireAt >= 0 {
      ShortTime(o.expireAt);
    }
    var argv := ["SET", key, o.value.bytes];
    if o.expireAt >= 0 {
      argv := argv + ["PXAT", PrintInt(o.expireAt)];
    }
    out := [argv];
    if NulFree(key) && NulFreeValue(o.value) {
      if o.expireAt >= 0 {
        assert argv == ["SET", key, o.value.bytes, "PXAT", PrintInt(o.expireAt)];
        SetPxatDecodes(key, o.value.bytes, o.expireAt, fl);
      } else {
        SetDecodes(key, o.value.bytes, fl);
      }
      RunOne(s, argv, fl, now);
    }
  }

  /** The items of a container, listed the way its type is walked. */
  method ItemsOf(v: Value, fl: Floats) returns (items: seq<Item>)
    requires !v.Str? && FloatsOk(fl, v)
    ensures NulFreeValue(v) ==> ItemsFor(v, items, fl)
    ensures SmallValue(v) ==> SmallItems(items)
    ensures Width(items, WidthOf(v)) && WidthOf(NewLike(v)) == WidthOf(v)
    ensures Absorb(NewLike(v), items, fl) == v
  {
    hide FloatsOk, Absorb;
    match v {
      case List(l) => items := ListItems(l, fl);
      case Hash(h) => items := HashItems(h, fl);
      case Set(m) => items := SetItems(m, fl);
      case ZSet(z) => items := ZSetItems(z, fl);
    }
  }

  /** The batches of a container: replayed onto any store without the key, they build it. */
  method RewriteContainer(key: Bytes, v: Value, fl: Floats, ghost s: Store, ghost now: int) returns (out: seq<Command>)
    requires !v.Str? && FloatsOk(fl, v) && key !in s
    ensures NulFree(key) && NulFreeValue(v) ==> Run(s, out, fl, now) == With(s, key, v) && SafeCommands(out, fl, now)
    ensures |key| <= SMALL && SmallValue(v) ==> SmallCommands(out)
  {
    hide Decode, FloatsOk, Run, Absorb, BatchCommands, Concat, NulFreeValue, SmallValue, SafeCommands, ItemFor, With;
    var items := ItemsOf(v, fl);
    ghost var batches;
    out, batches := EmitBatches(NameOf(v), key, items, WidthOf(v));
    if NulFree(key) && NulFreeValue(v) {
      SameKind(v, NewLike(v), items, fl);
      BatchesMean(s, NewLike(v), key, batches, fl, now);
      BatchesSafe(v, key, batches, fl, now);
    }
    if |key| <= SMALL && SmallValue(v) {
      SmallBatches(NameOf(v), key, batches, WidthOf(v));
    }
  }

  /** aof_rewrite_key: replayed onto any store without the key, its commands leave exactly the key's fate. */
  method RewriteKey(key: Bytes, o: Obj, fl: Floats, ghost s: Store, ghost now: int) returns (out: seq<Command>)
    requires o.expireAt <= LLONG_MAX && FloatsOk(fl, o.value) && key !in s
    ensures NulFree(key) && NulFreeValue(o.value) ==> Run(s, out, fl, now) == Stored(s, key, Fate(o, now))
    ensures |key| <= SMALL && SmallValue(o.value) ==> SmallCommands(out)
    ensures NulFree(key) && NulFreeValue(o.value) && SafeTime(o.expireAt, now) ==> SafeCommands(out, fl, now)
  {
    hide Decode, FloatsOk, Run, NulFreeValue, SmallValue, PrintInt, Exec, With;
    if o.value.Str? {
      out := RewriteString(key, o, fl, s, now);
      return;
    }
    out := RewriteContainer(key, o.value, fl, s, now);
    ContainerFate(s, key, o, now);
    if o.expireAt >= 0 {
      ShortTime(o.expireAt);
      var last := ["PEXPIREAT", key, PrintInt(o.expireAt)];
      if NulFree(key) {
        PexpireatDecodes(key, o.expireAt, fl);
      }
      RunAppend(s, out, [last], fl, now);
      RunOne(Run(s, out, fl, now), last, fl, now);
      out := out + [last];
    }
  }

  /** PEXPIREAT after the last batch finds the whole container, or nothing when there was nothing to write. */
  lemma ContainerFate(s: Store, key: Bytes, o: Obj, now: int)
    requires key !in s && !o.value.Str?
    ensures o.expireAt < 0 ==> With(s, key, o.value) == Stored(s, key, Fate(o, now))
    ensures o.expireAt >= 0 ==>
              Exec(With(s, key, o.value), OnKey(key, OpExpire(At(o.expireAt))), now).0 == Stored(s, key, Fate(o, now))
  {
    hide EmptyContainer;
  }

  // ---- The whole store ----

  ghost predicate NulFreeStore(s: Store) {
    forall k :: k in s ==> NulFree(k) && NulFreeValue(s[k].value)
  }

  ghost predicate SmallStore(s: Store) {
    forall k :: k in s ==> |k| <= SMALL && SmallValue(s[k].value)
  }

  /** Every key replaced by its fate. */
  ghost function Rebuilt(s: Store, now: int): Store {
    map k | k in s && Fate(s[k], now).Some? :: Fate(s[k], now).value
  }

  /** aof_rewrite: replaying the new log into an empty store leaves the fate of every key. */
  method RewriteStore(store: Store, fl: Floats, ghost now: int) returns (out: seq<Command>)
    requires StoreFloatsOk(fl, store) && forall k :: k in store ==> store[k].expireAt <= LLONG_MAX
    ensures NulFreeStore(store) ==> Run(map[], out, fl, now) == Rebuilt(store, now)
    ensures SmallStore(store) ==> SmallCommands(out)
    ensures NulFreeStore(store) && SafeStore(store, now) ==> SafeCommands(out, fl, now)
  {
    hide FloatsOk, Run, Fate, NulFreeValue, SafeTime, SafeRequest, SmallValue, SmallCommand, Rebuilt, Stored;
    out := [];
    RunNone(fl, now);
    RebuiltNone(store, now);
    var rest := store.Keys;
    while rest != {}
      invariant rest <= store.Keys
      invariant NulFreeStore(store) ==> Run(map[], out, fl, now) == Rebuilt(store - rest, now)
      invariant SmallStore(store) ==> SmallCommands(out)
      invariant NulFreeStore(store) && SafeStore(store, now) ==> SafeCommands(out, fl, now)
      decreases |rest|
    {
      var k :| k in rest;
      ghost var s := Rebuilt(store - rest, now);
      RebuiltKeys(store - rest, now);
      var cs := RewriteKey(k, store[k], fl, s, now);
      RunAppend(map[], out, cs, fl, now);
      RebuiltStep(store, rest, k, now);
      out := out + cs;
      rest := rest - {k};
    }
    assert store - rest == store;
  }

  lemma RebuiltNone(store: Store, now: int)
    ensures Rebuilt(store - store.Keys, now) == map[]
  {
  }

  lemma RebuiltKeys(s: Store, now: int)
    ensures Rebuilt(s, now).Keys <= s.Keys
  {
  }

  lemma RebuiltStep(store: Store, rest: set<Bytes>, k: Bytes, now: int)
    requires rest <= store.Keys && k in rest
    ensures Stored(Rebuilt(store - rest, now), k, Fate(store[k], now)) == Rebuilt(store - (rest - {k}), now)
  {
    hide Fate;
  }

  lemma RunNone(fl: Floats, now: int)
    ensures Run(map[], [], fl, now) == map[]
  {
  }

  /** A key comes back unchanged. */
  predicate Survives(o: Obj, now: int) {
    && !EmptyContainer(o.value) && o.expireAt >= -1
    && (o.value.Str? && o.expireAt >= 0 ==> 0 < o.expireAt && now <= o.expireAt)
  }

  /** The rewritten log rebuilds the store if and only if every key survives. */
  lemma RebuiltExact(s: Store, now: int)
    ensures Rebuilt(s, now) == s <==> forall k :: k in s ==> Survives(s[k], now)
  {
    hide EmptyContainer;
    if forall k :: k in s ==> Survives(s[k], now) {
      assert forall k :: k in s ==> Fate(s[k], now) == Some(s[k]);
    } else {
      var k :| k in s && !Survives(s[k], now);
      assert Fate(s[k], now) != Some(s[k]);
      assert k in Rebuilt(s, now) ==> Rebuilt(s, now)[k] == Fate(s[k], now).value;
    }
  }

  /** The command that a rewrite emits for a string with an expiry, replayed when that has passed: the string comes back
      without one. */
  lemma PastExpiryForgotten(k: Bytes, v: Bytes, e: nat, fl: Floats, now: int)
    requires NulFree(k) && NulFree(v) && 0 < e <= LLONG_MAX && e < now
    ensures Run(map[], [["SET", k, v, "PXAT", PrintInt(e)]], fl, now) == map[k := Obj(Str(v), -1)]
  {
    hide Decode, Run, PrintInt;
    var c := ["SET", k, v, "PXAT", PrintInt(e)];
    SetPxatDecodes(k, v, e, fl);
    RunOne(map[], c, fl, now);
  }

  // ---- Conversions that meet what is asked of them ----

  /** Decimal integers as scores. */
  function ReadInteger(text: Bytes): Option<Score> {
    var n := ParseInt(text);
    if n.None? then None else Some(Finite(n.value as real))
  }

  function ShowInteger(s: Score): Bytes {
    if s.Finite? then PrintInt(s.value.Floor) else "inf"
  }

  const INTEGERS: Floats := Floats(ReadInteger, ShowInteger)

  predicate IntegerScore(s: Score) {
    s.Finite? && s.value == s.value.Floor as real && -LLONG_MAX <= s.value.Floor <= LLONG_MAX
  }

  lemma IntegerText(n: int)
    requires -LLONG_MAX <= n <= LLONG_MAX
    ensures ParseInt(PrintInt(n)) == Some(n) && NulFree(PrintInt(n)) && |PrintInt(n)| < 32
    ensures Lower(PrintInt(n)) !in {"nx", "xx", "ch", "incr"}
  {
    ParsePrint(n);
    ShortTime(if n < 0 then -n else n);
    var text := PrintInt(n);
    assert text[0] == '-' || IsDigit(text[0]);
    assert Lower(text)[0] == text[0];
  }

  /** Every store whose sorted sets hold integer scores up to 2^63 - 1 is covered by the rewrite's results. */
  lemma IntegersOk(store: Store)
    requires forall k, m :: k in store && store[k].value.ZSet? && m in store[k].value.scores ==>
               IntegerScore(store[k].value.scores[m])
    ensures StoreFloatsOk(INTEGERS, store)
  {
    forall k, m | k in store && store[k].value.ZSet? && m in store[k].value.scores
      ensures ScoreOk(store[k].value.scores[m], INTEGERS)
    {
      IntegerText(store[k].value.scores[m].value.Floor);
    }
  }
}
