/** Saving and loading snapshots: the writer, the bounds-checked reader and the loops of rdb_save and rdb_load. */
module Rdb {
  import opened Orders
  import opened Collections
  import opened Keyspace
  import opened RdbCodec

  /** Doubles and their 64-bit patterns, taken as given. */
  datatype Doubles = Doubles(bits: Score -> nat, score: nat -> Score)

  predicate BitsOk(s: Score, d: Doubles) {
    d.bits(s) < TWO64 && d.score(d.bits(s)) == s
  }

  /** The scores that a value holds survive the way through their bit patterns; nothing is asked of any other. */
  ghost predicate DoublesOk(d: Doubles, v: Value) {
    v.ZSet? ==> forall m :: m in v.scores ==> BitsOk(v.scores[m], d)
  }

  ghost predicate StoreDoublesOk(d: Doubles, s: Store) {
    forall k :: k in s ==> DoublesOk(d, s[k].value)
  }

  // ---- The value that a payload stands for ----

  function Start(kind: nat): Value {
    if kind == LIST then List([])
    else if kind == HASH then Hash(map[])
    else if kind == SET then Set({})
    else ZSet(map[])
  }

  function Add(v: Value, it: Item, d: Doubles): Value {
    if v.List? then List(v.elems + [it.x])
    else if v.Hash? && it.Two? then Hash(v.fields[it.x := it.y])
    else if v.Set? then Set(v.members + {it.x})
    else if v.ZSet? && it.Scored? then ZSet(v.scores[it.x := d.score(it.bits)])
    else v
  }

  function Built(kind: nat, items: seq<Item>, d: Doubles): Value {
    if items == [] then Start(kind) else Add(Built(kind, items[..|items| - 1], d), items[|items| - 1], d)
  }

  lemma BuiltSnoc(kind: nat, items: seq<Item>, it: Item, d: Doubles)
    ensures Built(kind, items + [it], d) == Add(Built(kind, items, d), it, d)
    ensures EncodeItems(items + [it]) == EncodeItems(items) + EncodeItem(it)
  {
    assert (items + [it])[..|items|] == items;
  }

  lemma BuiltNone(kind: nat, d: Doubles)
    ensures Built(kind, [], d) == Start(kind) && EncodeItems([]) == []
  {
  }

  function ValueOf(p: Payload, d: Doubles): Value {
    match p
    case Raw(bytes) => Str(bytes)
    case Elements(kind, items) => Built(kind, items, d)
  }

  /** The store after loading records in order. */
  function LoadedInto(s: Store, rs: seq<Record>, d: Doubles): Store {
    if rs == [] then s
    else
      var r := rs[|rs| - 1];
      LoadedInto(s, rs[..|rs| - 1], d)[r.key := Obj(ValueOf(r.payload, d), r.expireAt)]
  }

  // ---- Reading ----

  class Reader {
    const p: Bytes
    var pos: nat

    ghost predicate Valid()
      reads this
    {
      pos <= |p|
    }

    constructor (p: Bytes, pos: nat)
      requires pos <= |p|
      ensures Valid() && this.p == p && this.pos == pos
    {
      this.p, this.pos := p, pos;
    }

    /** r_need. */
    method Need(n: nat) returns (ok: bool)
      requires Valid()
      modifies this
      ensures Valid() && ok == (old(pos) + n <= |p|) && pos == if ok then old(pos) + n else old(pos)
    {
      ok := n <= |p| - pos;
      if ok {
        pos := pos + n;
      }
    }

    /** r_u8. */
    method U8() returns (r: Option<nat>)
      requires Valid()
      modifies this
      ensures Valid() && Reads(r, GetNumber(p, old(pos), 1), pos)
    {
      var ok := Need(1);
      if !ok {
        return None;
      }
      ghost var s := p[old(pos)..old(pos) + 1];
      assert s[..0] == [] && Number(s[..0]) == 0 && s[0] == p[pos - 1];
      return Some(p[pos - 1] as int);
    }

    /** r_u32. */
    method U32() returns (r: Option<nat>)
      requires Valid()
      modifies this
      ensures Valid() && Reads(r, GetNumber(p, old(pos), 4), pos)
    {
      var ok := Need(4);
      if !ok {
        return None;
      }
      var t := p[pos - 4..pos];
      Number4(t);
      return Some(t[0] as int * 0x100_0000 + t[1] as int * 0x1_0000 + t[2] as int * 0x100 + t[3] as int);
    }

    /** The accumulation loop of r_s64, before the cast. */
    method U64() returns (r: Option<nat>)
      requires Valid()
      modifies this
      ensures Valid() && Reads(r, GetNumber(p, old(pos), 8), pos)
    {
      var ok := Need(8);
      if !ok {
        return None;
      }
      var t, u := p[pos - 8..pos], 0;
      for i := 0 to 8
        invariant u == Number(t[..i])
      {
        assert t[..i + 1][..i] == t[..i];
        u := u * 256 + t[i] as int;
      }
      assert t[..8] == t;
      return Some(u);
    }

    /** r_bytes. */
    method Text() returns (r: Option<Bytes>)
      requires Valid()
      modifies this
      ensures Valid() && Reads(r, GetText(p, old(pos)), pos)
    {
      hide GetNumber;
      var len := U32();
      if len.None? {
        return None;
      }
      var ok := Need(len.value);
      if !ok {
        return None;
      }
      return Some(p[pos - len.value..pos]);
    }

    /** One element of a container. */
    method ReadItem(kind: nat) returns (r: Option<Item>)
      requires Valid()
      modifies this
      ensures Valid() && Reads(r, GetItem(p, old(pos), kind), pos)
    {
      hide GetNumber, GetText;
      var x := Text();
      if x.None? {
        return None;
      }
      if kind == HASH {
        var y := Text();
        if y.None? {
          return None;
        }
        return Some(Two(x.value, y.value));
      } else if kind == ZSET {
        var bits := U64();
        if bits.None? {
          return None;
        }
        return Some(Scored(x.value, bits.value));
      }
      return Some(One(x.value));
    }

    /** The loops of rdb_read_obj: build a container element by element. */
    method ReadItems(kind: nat, count: nat, d: Doubles) returns (v: Option<Value>, ghost items: seq<Item>)
      requires Valid()
      modifies this
      ensures Valid() && Reads(if v.Some? then Some(items) else None, GetItems(p, old(pos), kind, count), pos)
      ensures v.Some? ==> v.value == Built(kind, items, d)
    {
      hide GetItem, Add, Built, EncodeItems;
      BuiltNone(kind, d);
      items := [];
      v := Some(Start(kind));
      for i := 0 to count
        invariant Valid() && GetItems(p, old(pos), kind, i) == Got(items, pos)
        invariant v == Some(Built(kind, items, d))
      {
        var it := ReadItem(kind);
        if it.None? {
          ItemsFail(p, old(pos), kind, i + 1, count);
          return None, items;
        }
        BuiltSnoc(kind, items, it.value, d);
        v, items := Some(Add(v.value, it.value, d)), items + [it.value];
      }
    }

    /** rdb_read_obj. */
    method ReadObj(kind: nat, d: Doubles) returns (v: Option<Value>, ghost pl: Payload)
      requires Valid()
      modifies this
      ensures Valid() && Reads(if v.Some? then Some(pl) else None, GetPayload(p, old(pos), kind), pos)
      ensures v.Some? ==> v.value == ValueOf(pl, d)
    {
      hide GetNumber, GetText, GetItems, Built;
      pl := Raw([]);
      if kind == STRING {
        var s := Text();
        if s.None? {
          return None, pl;
        }
        return Some(Str(s.value)), Raw(s.value);
      }
      if kind > ZSET {
        return None, pl;
      }
      var count := U32();
      if count.None? {
        return None, pl;
      }
      ghost var items;
      v, items := ReadItems(kind, count.value, d);
      pl := Elements(kind, items);
    }

    /** One turn of the key loop of rdb_load. */
    method ReadRecord(d: Doubles) returns (key: Bytes, o: Option<Obj>, ghost r: Record)
      requires Valid()
      modifies this
      ensures Valid() && Reads(if o.Some? then Some(r) else None, GetRecord(p, old(pos)), pos)
      ensures o.Some? ==> r.key == key && o.value == Obj(ValueOf(r.payload, d), r.expireAt)
    {
      hide GetNumber, GetText, GetPayload, ValueOf;
      key, r := [], Record([], 0, Raw([]));
      var k := Text();
      if k.None? {
        return key, None, r;
      }
      var expire := U64();
      if expire.None? {
        return key, None, r;
      }
      var kind := U8();
      if kind.None? {
        return key, None, r;
      }
      var v, pl := ReadObj(kind.value, d);
      if v.None? {
        return key, None, r;
      }
      key, o := k.value, Some(Obj(v.value, Signed(expire.value)));
      r := Record(key, Signed(expire.value), pl);
    }
  }

  /** A reader's result is what the format says, and it stands behind what it read. */
  ghost predicate Reads<T>(r: Option<T>, g: Got<T>, pos: nat) {
    if g.Got? then r == Some(g.value) && pos == g.pos else r == None
  }

  lemma Number4(t: Bytes)
    requires |t| == 4
    ensures Number(t) == t[0] as int * 0x100_0000 + t[1] as int * 0x1_0000 + t[2] as int * 0x100 + t[3] as int
  {
    var t3, t2, t1 := t[..3], t[..2], t[..1];
    assert t3[..2] == t2 && t2[..1] == t1 && t1[..0] == [];
    assert Number(t1) == t[0] as int;
    assert Number(t2) == 256 * Number(t1) + t[1] as int;
    assert Number(t3) == 256 * Number(t2) + t[2] as int;
  }

  lemma {:induction false} ItemsFail(b: Bytes, pos: nat, kind: nat, i: nat, n: nat)
    requires pos <= |b| && i <= n && GetItems(b, pos, kind, i) == Fail
    ensures GetItems(b, pos, kind, n) == Fail
    decreases n
  {
    if i < n {
      ItemsFail(b, pos, kind, i, n - 1);
    }
  }

  /** rdb_load on the bytes of a file: refuse a bad header, otherwise insert keys until one is not whole. */
  method LoadSnapshot(b: Bytes, store: Store, d: Doubles) returns (rc: int, store': Store)
    ensures Load(b).Refused? ==> rc == -1 && store' == store
    ensures Load(b).Loaded? ==> rc == 0 && store' == LoadedInto(store, Load(b).records, d)
  {
    hide GetRecord, Number, ValueOf;
    store' := store;
    if |b| < 9 + 4 + 4 || b[..9] != MAGIC {
      return -1, store;
    }
    var r := new Reader(b, 9);
    var version := r.U32();
    if version.None? || version.value != VERSION {
      return -1, store;
    }
    var count := r.U32();
    if count.None? {
      return -1, store;
    }
    ghost var rs: seq<Record> := [];
    for i := 0 to count.value
      invariant r.Valid() && store' == LoadedInto(store, rs, d)
      invariant GetRecords(b, 17, count.value) == rs + GetRecords(b, r.pos, count.value - i)
    {
      var key, o, rec := r.ReadRecord(d);
      if o.None? {
        assert rs + [] == rs;
        return 0, store';
      }
      LoadedSnoc(store, rs, rec, d);
      store', rs := store'[key := o.value], rs + [rec];
    }
    assert rs + [] == rs;
    return 0, store';
  }

  lemma LoadedSnoc(s: Store, rs: seq<Record>, r: Record, d: Doubles)
    ensures LoadedInto(s, rs + [r], d) == LoadedInto(s, rs, d)[r.key := Obj(ValueOf(r.payload, d), r.expireAt)]
  {
    assert (rs + [r])[..|rs|] == rs;
  }

  // ---- Writing ----

  // ---- A sorted set is written in the order of its list ----

  ghost predicate InListOrder(items: seq<Item>, z: map<Bytes, Score>) {
    && (forall i :: 0 <= i < |items| ==> items[i].x in z)
    && (forall i, j :: 0 <= i < j < |items| ==> Precedes(z[items[i].x], items[i].x, z[items[j].x], items[j].x))
  }

  ghost predicate Below(items: seq<Item>, z: map<Bytes, Score>, rest: set<Bytes>)
    requires rest <= z.Keys
  {
    forall i, m :: 0 <= i < |items| && m in rest ==>
      items[i].x in z && Precedes(z[items[i].x], items[i].x, z[m], m)
  }

  lemma ListedSnoc(items: seq<Item>, z: map<Bytes, Score>, rest: set<Bytes>, it: Item)
    requires rest <= z.Keys && InListOrder(items, z) && Below(items, z, rest) && it.x in rest
    requires forall m :: m in rest && m != it.x ==> Precedes(z[it.x], it.x, z[m], m)
    ensures InListOrder(items + [it], z) && Below(items + [it], z, rest - {it.x})
  {
    hide Precedes;
  }

  lemma ScoredSnoc(items: seq<Item>, z: map<Bytes, Score>, rest: set<Bytes>, m: Bytes, d: Doubles)
    requires DoublesOk(d, ZSet(z)) && rest <= z.Keys && m in rest && Built(ZSET, items, d) == ZSet(z - rest)
    requires ShortValue(ZSet(z)) ==> ItemsFit(ZSET, items)
    ensures var more := items + [Scored(m, d.bits(z[m]))];
            && Built(ZSET, more, d) == ZSet(z - (rest - {m}))
            && EncodeItems(more) == EncodeItems(items) + EncodeItem(Scored(m, d.bits(z[m])))
            && (ShortValue(ZSet(z)) ==> ItemsFit(ZSET, more))
  {
    hide Built;
    BuiltSnoc(ZSET, items, Scored(m, d.bits(z[m])), d);
    assert z - (rest - {m}) == (z - rest)[m := z[m]];
  }

  /** All but the members in rest have been written. */
  ghost predicate Draft(items: seq<Item>, z: map<Bytes, Score>, rest: set<Bytes>, d: Doubles) {
    && rest <= z.Keys && |items| + |rest| == |z.Keys| && InListOrder(items, z) && Below(items, z, rest)
    && Built(ZSET, items, d) == ZSet(z - rest) && (ShortValue(ZSet(z)) ==> ItemsFit(ZSET, items))
  }

  lemma DraftWithin(items: seq<Item>, z: map<Bytes, Score>, rest: set<Bytes>, d: Doubles)
    requires Draft(items, z, rest, d)
    ensures rest <= z.Keys
  {
  }

  lemma DraftStarts(z: map<Bytes, Score>, d: Doubles)
    ensures Draft([], z, z.Keys, d) && EncodeItems([]) == []
  {
    hide ShortValue, ItemFits;
    BuiltNone(ZSET, d);
  }

  lemma DraftSnoc(items: seq<Item>, z: map<Bytes, Score>, rest: set<Bytes>, m: Bytes, d: Doubles)
    requires DoublesOk(d, ZSet(z)) && Draft(items, z, rest, d) && m in rest && m in z
    requires forall x :: x in rest && x != m ==> x in z && Precedes(z[m], m, z[x], x)
    ensures var it := Scored(m, d.bits(z[m]));
            && Draft(items + [it], z, rest - {m}, d)
            && EncodeItems(items + [it]) == EncodeItems(items) + EncodeItem(it)
  {
    hide EncodeItems, Built, InListOrder, Below, ItemsFit, Precedes, ShortValue, DoublesOk, EncodeItem;
    ScoredSnoc(items, z, rest, m, d);
    ListedSnoc(items, z, rest, Scored(m, d.bits(z[m])));
    assert |rest - {m}| == |rest| - 1;
  }

  lemma DraftDone(items: seq<Item>, z: map<Bytes, Score>, d: Doubles)
    requires Draft(items, z, {}, d)
    ensures |items| == |z| && InListOrder(items, z)
    ensures Built(ZSET, items, d) == ZSet(z) && (ShortValue(ZSet(z)) ==> ItemsFit(ZSET, items))
  {
    hide Built, InListOrder, ShortValue, ItemsFit;
    assert z - {} == z;
  }

  /** The member that comes first in the list, of those left. */
  method Least(z: map<Bytes, Score>, rest: set<Bytes>) returns (m: Bytes)
    requires rest != {} && rest <= z.Keys
    ensures m in rest && forall x :: x in rest && x != m ==> Precedes(z[m], m, z[x], x)
  {
    hide KeyLt, Precedes;
    m :| m in rest;
    var todo := rest - {m};
    while todo != {}
      invariant todo <= rest && m in rest - todo
      invariant forall x :: x in rest - todo && x != m ==> KeyLt(z[m], m, z[x], x)
      decreases |todo|
    {
      var x :| x in todo;
      KeyLtTrichotomy(z[m], m, z[x], x);
      if KeyLt(z[x], x, z[m], m) {
        forall y | y in rest - todo && y != m
          ensures KeyLt(z[x], x, z[y], y)
        {
          KeyLtTransitive(z[x], x, z[m], m, z[y], y);
        }
        m := x;
      }
      todo := todo - {x};
    }
    forall x | x in rest && x != m
      ensures Precedes(z[m], m, z[x], x)
    {
      KeyLtPrecedes(z[m], m, z[x], x);
    }
  }

  class Writer {
    var buf: Bytes

    constructor ()
      ensures buf == []
    {
      buf := [];
    }

    /** w_u8. */
    method U8(v: nat)
      modifies this
      ensures buf == old(buf) + BigEndian(v % 256, 1)
    {
      buf := buf + [(v % 256) as char];
      assert BigEndian(v % 256, 1) == [(v % 256) as char];
    }

    /** w_u32 of a number cast to 32 bits. */
    method U32(v: nat)
      modifies this
      ensures buf == old(buf) + Count(v)
    {
      var v := v % TWO32;
      BigEndian4(v);
      buf := buf + [(v / 0x100_0000 % 256) as char, (v / 0x1_0000 % 256) as char,
                    (v / 0x100 % 256) as char, (v % 256) as char];
    }

    /** w_u64. */
    method U64(v: nat)
      modifies this
      ensures buf == old(buf) + BigEndian(v, 8)
    {
      BigEndian8(v);
      buf := buf + [(v / 0x100_0000_0000_0000 % 256) as char, (v / 0x1_0000_0000_0000 % 256) as char,
                    (v / 0x100_0000_0000 % 256) as char, (v / 0x1_0000_0000 % 256) as char,
                    (v / 0x100_0000 % 256) as char, (v / 0x1_0000 % 256) as char,
                    (v / 0x100 % 256) as char, (v % 256) as char];
    }

    /** w_bytes. */
    method PutText(x: Bytes)
      modifies this
      ensures buf == old(buf) + Text(x)
    {
      U32(|x|);
      buf := buf + x;
    }

    /** The magic, the version and the number of keys. */
    method PutHeader(count: nat)
      modifies this
      ensures buf == old(buf) + Header(count)
    {
      hide BigEndian, Count;
      buf := buf + MAGIC;
      VersionIs();
      U32(VERSION);
      U32(count);
    }

    /** A container's elements one by one, in the order in which they are given. */
    method PutItem(it: Item)
      modifies this
      ensures buf == old(buf) + EncodeItem(it)
    {
      hide Text, BigEndian;
      PutText(it.x);
      match it {
        case One(_) =>
        case Two(_, y) => PutText(y);
        case Scored(_, bits) => U64(bits);
      }
    }

    /** The list loop of rdb_write_obj. */
    method PutList(l: seq<Bytes>, ghost d: Doubles) returns (ghost items: seq<Item>)
      modifies this
      ensures buf == old(buf) + EncodeItems(items) && |items| == |l|
      ensures Built(LIST, items, d) == List(l) && (AllShort(l) ==> ItemsFit(LIST, items))
    {
      hide EncodeItem, EncodeItems, Built;
      items := [];
      BuiltNone(LIST, d);
      for n := 0 to |l|
        invariant buf == old(buf) + EncodeItems(items) && |items| == n
        invariant Built(LIST, items, d) == List(l[..n]) && (AllShort(l) ==> ItemsFit(LIST, items))
      {
        PutItem(One(l[n]));
        BuiltSnoc(LIST, items, One(l[n]), d);
        assert l[..n + 1] == l[..n] + [l[n]];
        items := items + [One(l[n])];
      }
      assert l[..|l|] == l;
    }

    /** The hash loop, in whatever order the table has. */
    method PutHash(h: map<Bytes, Bytes>, ghost d: Doubles) returns (ghost items: seq<Item>)
      modifies this
      ensures buf == old(buf) + EncodeItems(items) && |items| == |h|
      ensures Built(HASH, items, d) == Hash(h) && (ShortValue(Hash(h)) ==> ItemsFit(HASH, items))
    {
      hide EncodeItem, EncodeItems, Built;
      items := [];
      BuiltNone(HASH, d);
      var rest := h.Keys;
      while rest != {}
        invariant rest <= h.Keys && |items| + |rest| == |h.Keys|
        invariant buf == old(buf) + EncodeItems(items)
        invariant Built(HASH, items, d) == Hash(h - rest) && (ShortValue(Hash(h)) ==> ItemsFit(HASH, items))
        decreases |rest|
      {
        var f :| f in rest;
        PutItem(Two(f, h[f]));
        BuiltSnoc(HASH, items, Two(f, h[f]), d);
        assert h - (rest - {f}) == (h - rest)[f := h[f]];
        items := items + [Two(f, h[f])];
        rest := rest - {f};
      }
      assert h - {} == h;
    }

    /** The set loop. */
    method PutSet(m: set<Bytes>, ghost d: Doubles) returns (ghost items: seq<Item>)
      modifies this
      ensures buf == old(buf) + EncodeItems(items) && |items| == |m|
      ensures Built(SET, items, d) == Set(m) && (ShortValue(Set(m)) ==> ItemsFit(SET, items))
    {
      hide EncodeItem, EncodeItems, Built;
      items := [];
      BuiltNone(SET, d);
      var rest := m;
      while rest != {}
        invariant rest <= m && |items| + |rest| == |m|
        invariant buf == old(buf) + EncodeItems(items)
        invariant Built(SET, items, d) == Set(m - rest) && (ShortValue(Set(m)) ==> ItemsFit(SET, items))
        decreases |rest|
      {
        var x :| x in rest;
        PutItem(One(x));
        BuiltSnoc(SET, items, One(x), d);
        assert m - (rest - {x}) == (m - rest) + {x};
        items := items + [One(x)];
        rest := rest - {x};
      }
      assert m - {} == m;
    }

    /** The sorted-set loop. */
    method PutZSet(z: map<Bytes, Score>, d: Doubles) returns (ghost items: seq<Item>)
      requires DoublesOk(d, ZSet(z))
      modifies this
      ensures buf == old(buf) + EncodeItems(items) && |items| == |z| && InListOrder(items, z)
      ensures Built(ZSET, items, d) == ZSet(z) && (ShortValue(ZSet(z)) ==> ItemsFit(ZSET, items))
    {
      hide *;
      items := [];
      var rest := z.Keys;
      DraftStarts(z, d);
      while rest != {}
        invariant Draft(items, z, rest, d) && buf == old(buf) + EncodeItems(items)
        decreases |rest|
      {
        assert rest <= z.Keys by { DraftWithin(items, z, rest, d); }
        var m := Least(z, rest);
        PutItem(Scored(m, d.bits(z[m])));
        DraftSnoc(items, z, rest, m, d);
        ghost var more := EncodeItem(Scored(m, d.bits(z[m])));
        assert old(buf) + EncodeItems(items) + more == old(buf) + (EncodeItems(items) + more);
        items, rest := items + [Scored(m, d.bits(z[m]))], rest - {m};
      }
      DraftDone(items, z, d);
    }

    /** rdb_write_obj. */
    method PutObj(v: Value, d: Doubles) returns (ghost p: Payload)
      requires DoublesOk(d, v)
      modifies this
      ensures buf == old(buf) + EncodePayload(p) && KindOf(p) == KindCode(v) && ValueOf(p, d) == v
      ensures ShortValue(v) ==> PayloadFits(p)
      ensures v.ZSet? ==> p.Elements? && InListOrder(p.items, v.scores)
    {
      hide Text, EncodeItems, Built, DoublesOk, ItemFits, Count, InListOrder;
      ghost var items;
      match v {
        case Str(b) =>
          PutText(b);
          return Raw(b);
        case List(l) =>
          U32(|l|);
          items := PutList(l, d);
        case Hash(h) =>
          U32(|h|);
          items := PutHash(h, d);
        case Set(m) =>
          U32(|m|);
          items := PutSet(m, d);
        case ZSet(z) =>
          U32(|z|);
          items := PutZSet(z, d);
      }
      p := Elements(KindCode(v), items);
    }

    /** One turn of the key loop of rdb_save. */
    method PutRecord(key: Bytes, o: Obj, d: Doubles) returns (ghost r: Record)
      requires DoublesOk(d, o.value)
      modifies this
      ensures buf == old(buf) + EncodeRecord(r)
      ensures r.key == key && r.expireAt == o.expireAt && ValueOf(r.payload, d) == o.value
      ensures ShortEntry(key, o) ==> RecordFits(r)
    {
      hide Text, EncodePayload, ValueOf, DoublesOk, BigEndian, ShortValue, PayloadFits;
      PutText(key);
      U64(Unsigned(o.expireAt));
      U8(KindCode(o.value));
      ghost var p := PutObj(o.value, d);
      r := Record(key, o.expireAt, p);
    }
  }

  function KindCode(v: Value): (k: nat)
    ensures k < 256
  {
    match v
    case Str(_) => STRING
    case List(_) => LIST
    case Hash(_) => HASH
    case Set(_) => SET
    case ZSet(_) => ZSET
  }

  ghost predicate ItemsFit(kind: nat, items: seq<Item>) {
    forall i :: 0 <= i < |items| ==> ItemFits(kind, items[i])
  }

  predicate AllShort(l: seq<Bytes>) {
    forall i :: 0 <= i < |l| ==> |l[i]| < TWO32
  }

  /** Lengths and counts below 2^32. */
  ghost predicate ShortValue(v: Value) {
    match v
    case Str(b) => |b| < TWO32
    case List(l) => |l| < TWO32 && AllShort(l)
    case Hash(h) => |h| < TWO32 && forall f :: f in h ==> |f| < TWO32 && |h[f]| < TWO32
    case Set(m) => |m| < TWO32 && forall x :: x in m ==> |x| < TWO32
    case ZSet(z) => |z| < TWO32 && forall m :: m in z ==> |m| < TWO32
  }

  ghost predicate ShortEntry(key: Bytes, o: Obj) {
    |key| < TWO32 && -TWO63 <= o.expireAt < TWO63 && ShortValue(o.value)
  }

  lemma BigEndian4(v: nat)
    ensures BigEndian(v, 4) ==
      [(v / 0x100_0000 % 256) as char, (v / 0x1_0000 % 256) as char, (v / 0x100 % 256) as char, (v % 256) as char]
  {
    var v1, v2, v3 := v / 0x100, v / 0x1_0000, v / 0x100_0000;
    assert BigEndian(v3, 1) == [(v3 % 256) as char];
    assert v2 / 256 == v3 && v1 / 256 == v2;
    assert BigEndian(v2, 2) == BigEndian(v3, 1) + [(v2 % 256) as char];
    assert BigEndian(v1, 3) == BigEndian(v2, 2) + [(v1 % 256) as char];
  }

  lemma BigEndian8(v: nat)
    ensures BigEndian(v, 8) ==
      [(v / 0x100_0000_0000_0000 % 256) as char, (v / 0x1_0000_0000_0000 % 256) as char,
       (v / 0x100_0000_0000 % 256) as char, (v / 0x1_0000_0000 % 256) as char,
       (v / 0x100_0000 % 256) as char, (v / 0x1_0000 % 256) as char, (v / 0x100 % 256) as char, (v % 256) as char]
  {
    var h := v / 0x1_0000_0000;
    var w1, w2, w3 := v / 0x100, v / 0x1_0000, v / 0x100_0000;
    assert w1 / 256 == w2 && w2 / 256 == w3 && w3 / 256 == h;
    BigEndian4(h);
    assert h / 0x100_0000 == v / 0x100_0000_0000_0000 && h / 0x1_0000 == v / 0x1_0000_0000_0000;
    assert h / 0x100 == v / 0x100_0000_0000;
    assert BigEndian(w3, 5) == BigEndian(h, 4) + [(w3 % 256) as char];
    assert BigEndian(w2, 6) == BigEndian(w3, 5) + [(w2 % 256) as char];
    assert BigEndian(w1, 7) == BigEndian(w2, 6) + [(w1 % 256) as char];
  }

  // ---- Whole stores ----

  /** The records are the store's entries, each once. */
  ghost predicate Lists(rs: seq<Record>, store: Store, d: Doubles) {
    && |rs| == |store|
    && (forall i, j :: 0 <= i < j < |rs| ==> rs[i].key != rs[j].key)
    && (forall i :: 0 <= i < |rs| ==> Entry(rs[i], store, d))
  }

  ghost predicate Entry(r: Record, store: Store, d: Doubles) {
    r.key in store && store[r.key] == Obj(ValueOf(r.payload, d), r.expireAt)
  }

  ghost predicate ShortStore(store: Store) {
    |store| < TWO32 && forall key :: key in store ==> ShortEntry(key, store[key])
  }

  lemma {:induction false} RecordsSnoc(rs: seq<Record>, r: Record)
    ensures EncodeRecords(rs + [r]) == EncodeRecords(rs) + EncodeRecord(r)
  {
    hide EncodeRecord;
    if rs == [] {
      assert rs + [r] == [r] && [r][1..] == [];
    } else {
      RecordsSnoc(rs[1..], r);
      assert (rs + [r])[1..] == rs[1..] + [r];
    }
  }

  /** rdb_save, up to the file's bytes: the snapshot of the store's entries in whatever order the table has. */
  method SaveSnapshot(store: Store, d: Doubles) returns (file: Bytes, ghost rs: seq<Record>)
    requires StoreDoublesOk(d, store)
    ensures file == Snapshot(rs) && Lists(rs, store, d)
    ensures ShortStore(store) ==> RecordsFit(rs)
  {
    hide EncodeRecord, EncodeRecords, ShortEntry, RecordFits, DoublesOk, ValueOf, Header, Entry;
    var w := new Writer();
    w.PutHeader(|store|);
    rs := [];
    ghost var header := w.buf;
    NoRecords();
    var rest := store.Keys;
    while rest != {}
      invariant rest <= store.Keys && |rs| + |rest| == |store.Keys| && w.buf == header + EncodeRecords(rs)
      invariant forall i :: 0 <= i < |rs| ==> rs[i].key !in rest && Entry(rs[i], store, d)
      invariant forall i, j :: 0 <= i < j < |rs| ==> rs[i].key != rs[j].key
      invariant ShortStore(store) ==> forall i :: 0 <= i < |rs| ==> RecordFits(rs[i])
      invariant fresh(w)
      decreases |rest|
    {
      var key :| key in rest;
      ghost var r := w.PutRecord(key, store[key], d);
      assert Entry(r, store, d) by { IsEntry(r, store, d); }
      RecordsSnoc(rs, r);
      rs := rs + [r];
      rest := rest - {key};
    }
    file := w.buf;
  }

  lemma IsEntry(r: Record, store: Store, d: Doubles)
    requires r.key in store && r.expireAt == store[r.key].expireAt && ValueOf(r.payload, d) == store[r.key].value
    ensures Entry(r, store, d)
  {
    hide ValueOf;
  }

  lemma VersionIs()
    ensures Count(VERSION) == BigEndian(VERSION, 4)
  {
  }

  lemma NoRecords()
    ensures EncodeRecords([]) == []
  {
  }

  /** Loading the first k entries into an empty store gives exactly those keys, with their values and expiries. */
  lemma {:induction false} LoadedPrefix(rs: seq<Record>, store: Store, d: Doubles, k: nat)
    requires Lists(rs, store, d) && k <= |rs|
    ensures var s := LoadedInto(map[], rs[..k], d);
            && |s| == k && (forall key :: key in s <==> exists i :: 0 <= i < k && rs[i].key == key)
            && (forall key :: key in s ==> key in store && s[key] == store[key])
  {
    hide ValueOf, LoadedInto;
    if k > 0 {
      LoadedPrefix(rs, store, d, k - 1);
      var s, r := LoadedInto(map[], rs[..k - 1], d), rs[k - 1];
      assert rs[..k] == rs[..k - 1] + [r];
      LoadedSnoc(map[], rs[..k - 1], r, d);
      assert Entry(r, store, d) && r.key !in s;
      var s' := s[r.key := store[r.key]];
      assert |s'| == |s| + 1;
      assert forall key :: key in s' <==> key in s || key == r.key;
    } else {
      LoadedNone(d);
    }
  }

  lemma LoadedNone(d: Doubles)
    ensures LoadedInto(map[], [], d) == map[]
  {
  }

  lemma SameDomain(s: Store, store: Store)
    requires |s| == |store| && forall key :: key in s ==> key in store && s[key] == store[key]
    ensures s == store
  {
    assert |s.Keys| == |s| && |store.Keys| == |store|;
    if exists key :: key in store && key !in s {
      var key :| key in store && key !in s;
      SubsetSize(s.Keys, store.Keys - {key});
    }
  }

  /** A saved store, its file cut at any byte behind the header and loaded into an empty store: exactly the leading keys
      whose records are whole come back, unchanged, and all of them from the uncut file. */
  lemma SnapshotRestores(rs: seq<Record>, store: Store, d: Doubles, n: nat, k: nat)
    requires Lists(rs, store, d) && RecordsFit(rs) && k <= |rs|
    requires End(rs, k) <= n <= |Snapshot(rs)| && (k < |rs| ==> n < End(rs, k + 1))
    ensures Load(Snapshot(rs)[..n]) == Loaded(rs[..k])
    ensures var s := LoadedInto(map[], rs[..k], d);
            && |s| == k && (forall key :: key in s <==> exists i :: 0 <= i < k && rs[i].key == key)
            && (forall key :: key in s ==> key in store && s[key] == store[key])
            && (n == |Snapshot(rs)| ==> s == store)
  {
    hide Load, LoadedInto, EncodeRecords, RecordsFit, Entry;
    SnapshotCut(rs, n, k);
    LoadedPrefix(rs, store, d, k);
    if n == |Snapshot(rs)| {
      if k < |rs| {
        RecordsMonotone(rs, k + 1);
      }
      SameDomain(LoadedInto(map[], rs[..k], d), store);
    }
  }

  lemma {:induction false} RecordsMonotone(rs: seq<Record>, k: nat)
    requires k <= |rs|
    ensures |EncodeRecords(rs[..k])| <= |EncodeRecords(rs)|
    decreases |rs|
  {
    hide EncodeRecord;
    if k > 0 {
      RecordsMonotone(rs[1..], k - 1);
      assert rs[..k][1..] == rs[1..][..k - 1];
    }
  }

  /** Save a store, cut the file at any byte and load what is left into an empty store. Behind the header exactly the
      first k keys of the order in which they were written come back, unchanged, where k records are whole; all of them
      from the uncut file. A file cut within the header is refused. */
  method SaveCutLoad(store: Store, d: Doubles, n: nat)
    returns (rc: int, loaded: Store, size: nat, ghost rs: seq<Record>, ghost k: nat)
    requires StoreDoublesOk(d, store) && ShortStore(store)
    ensures Lists(rs, store, d) && size == |Snapshot(rs)|
    ensures n < 17 ==> rc == -1 && loaded == map[]
    ensures n >= 17 ==> rc == 0 && k <= |rs| == |store| && |loaded| == k
    ensures n >= 17 ==> forall key :: key in loaded <==> exists i :: 0 <= i < k && rs[i].key == key
    ensures n >= 17 ==> forall key :: key in loaded ==> key in store && loaded[key] == store[key]
    ensures 17 <= n < size ==> End(rs, k) <= n && (k < |rs| ==> n < End(rs, k + 1))
    ensures n >= size ==> loaded == store
  {
    hide Load, LoadedInto, EncodeRecords, RecordsFit, Entry, Snapshot, ShortStore, StoreDoublesOk;
    var file;
    file, rs := SaveSnapshot(store, d);
    size := |file|;
    var cut := if n < |file| then n else |file|;
    k := 0;
    SnapshotSize(rs);
    SnapshotCut(rs, cut, 0);
    if n >= 17 {
      k := RecordAt(rs, cut);
      SnapshotRestores(rs, store, d, cut, k);
    }
    rc, loaded := LoadSnapshot(file[..cut], map[], d);
  }

  lemma SnapshotSize(rs: seq<Record>)
    ensures |Snapshot(rs)| == 17 + |EncodeRecords(rs)|
  {
    hide EncodeRecords, BigEndian;
    assert |Header(|rs|)| == 17;
  }

  // ---- Patterns that meet what is asked of them ----

  /** Integer scores, kept as 64-bit two's complement. */
  function IntegerBits(s: Score): nat {
    if s.Finite? then Unsigned(s.value.Floor) else 0
  }

  function IntegerOf(bits: nat): Score {
    Finite(Signed(bits) as real)
  }

  const INTEGERS: Doubles := Doubles(IntegerBits, IntegerOf)

  /** Every store whose sorted sets hold 64-bit integer scores is covered by the snapshot's results. */
  lemma IntegersOk(store: Store)
    requires forall k, m :: k in store && store[k].value.ZSet? && m in store[k].value.scores ==>
               var s := store[k].value.scores[m];
               s.Finite? && s.value == s.value.Floor as real && -TWO63 <= s.value.Floor < TWO63
    ensures StoreDoublesOk(INTEGERS, store)
  {
    forall k, m | k in store && store[k].value.ZSet? && m in store[k].value.scores
      ensures BitsOk(store[k].value.scores[m], INTEGERS)
    {
      var n := store[k].value.scores[m].value.Floor;
      assert n % TWO64 == if n < 0 then n + TWO64 else n;
    }
  }

  /** A store with a sorted set that meets all that saving, cutting and loading ask of it. */
  lemma SortedSetCovered(k: Bytes, m: Bytes, n: int)
    requires |k| < TWO32 && |m| < TWO32 && -TWO63 <= n < TWO63
    ensures var s := map[k := Obj(ZSet(map[m := Finite(n as real)]), -1)];
            StoreDoublesOk(INTEGERS, s) && ShortStore(s)
  {
    var s := map[k := Obj(ZSet(map[m := Finite(n as real)]), -1)];
    IntegersOk(s);
  }
}
