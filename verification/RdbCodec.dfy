/** The snapshot format of src/rdb.c: encoders, bounds-checked readers, and how the two fit together on cut files. */
module RdbCodec {
  import opened Orders

  // ---- Numbers, big-endian ----

  const TWO32: nat := 0x1_0000_0000
  const TWO63: int := 0x8000_0000_0000_0000
  const TWO64: nat := 0x1_0000_0000_0000_0000

  function Pow256(k: nat): nat {
    if k == 0 then 1 else 256 * Pow256(k - 1)
  }

  function BigEndian(n: nat, k: nat): (s: Bytes)
    ensures |s| == k
  {
    if k == 0 then [] else BigEndian(n / 256, k - 1) + [(n % 256) as char]
  }

  function Number(s: Bytes): nat {
    if s == [] then 0 else 256 * Number(s[..|s| - 1]) + s[|s| - 1] as int
  }

  lemma {:induction false} NumberRoundTrip(n: nat, k: nat)
    requires n < Pow256(k)
    ensures Number(BigEndian(n, k)) == n
  {
    if k > 0 {
      NumberRoundTrip(n / 256, k - 1);
      var s := BigEndian(n, k);
      assert s[..|s| - 1] == BigEndian(n / 256, k - 1);
    }
  }

  lemma Widths()
    ensures Pow256(4) == TWO32 && Pow256(8) == TWO64 && Pow256(1) == 256
  {
    assert Pow256(2) == 65536 && Pow256(4) == TWO32;
    assert Pow256(6) == 65536 * TWO32 && Pow256(8) == TWO64;
  }

  /** The cast from a 64-bit signed number and back. */
  function Unsigned(v: int): nat {
    v % TWO64
  }

  function Signed(u: nat): int {
    if u < TWO63 then u else u - TWO64
  }

  // ---- Encoders ----

  /** Lengths and counts are cast to 32 bits. */
  function Count(n: nat): (s: Bytes)
    ensures |s| == 4
  {
    BigEndian(n % TWO32, 4)
  }

  function Text(x: Bytes): Bytes {
    Count(|x|) + x
  }

  /** One element of a container: a list element or set member, a field with its value, a member with its score's bits.
      */
  datatype Item = One(x: Bytes) | Two(x: Bytes, y: Bytes) | Scored(x: Bytes, bits: nat)

  function EncodeItem(it: Item): Bytes {
    match it
    case One(x) => Text(x)
    case Two(x, y) => Text(x) + Text(y)
    case Scored(x, bits) => Text(x) + BigEndian(bits, 8)
  }

  function EncodeItems(items: seq<Item>): Bytes {
    if items == [] then [] else EncodeItems(items[..|items| - 1]) + EncodeItem(items[|items| - 1])
  }

  /** A value as it lies in the file; kind is the type code. */
  datatype Payload = Raw(bytes: Bytes) | Elements(kind: nat, items: seq<Item>)

  const STRING: nat := 0
  const LIST: nat := 1
  const HASH: nat := 2
  const SET: nat := 3
  const ZSET: nat := 4

  function KindOf(p: Payload): nat {
    if p.Raw? then STRING else p.kind
  }

  function EncodePayload(p: Payload): Bytes {
    match p
    case Raw(bytes) => Text(bytes)
    case Elements(_, items) => Count(|items|) + EncodeItems(items)
  }

  datatype Record = Record(key: Bytes, expireAt: int, payload: Payload)

  function EncodeRecord(r: Record): Bytes {
    Text(r.key) + (BigEndian(Unsigned(r.expireAt), 8) + (BigEndian(KindOf(r.payload), 1) + EncodePayload(r.payload)))
  }

  function EncodeRecords(rs: seq<Record>): Bytes {
    if rs == [] then [] else EncodeRecord(rs[0]) + EncodeRecords(rs[1..])
  }

  const MAGIC: Bytes := "MINIREDIS"
  const VERSION: nat := 1

  function Header(count: nat): Bytes {
    MAGIC + (BigEndian(VERSION, 4) + Count(count))
  }

  function Snapshot(rs: seq<Record>): Bytes {
    Header(|rs|) + EncodeRecords(rs)
  }

  lemma OnesInBytes()
    ensures BigEndian(1, 4) == "\0\0\0" + [1 as char] && BigEndian(1, 8) == "\0\0\0\0\0\0\0" + [1 as char]
  {
    assert BigEndian(0, 1) == "\0" && BigEndian(0, 2) == "\0\0" && BigEndian(0, 3) == "\0\0\0";
    assert BigEndian(0, 4) == "\0\0\0\0" && BigEndian(0, 5) == "\0\0\0\0\0";
    assert BigEndian(0, 6) == "\0\0\0\0\0\0" && BigEndian(0, 7) == "\0\0\0\0\0\0\0";
  }

  /** The header of a snapshot of one key, byte by byte, and the type codes. */
  lemma HeaderBytes()
    ensures Header(1) == "MINIREDIS\0\0\0" + [1 as char] + "\0\0\0" + [1 as char]
    ensures [STRING, LIST, HASH, SET, ZSET] == [0, 1, 2, 3, 4]
  {
    hide BigEndian;
    OnesInBytes();
  }

  lemma TextOfOne(c: char)
    ensures Text([c]) == "\0\0\0" + [1 as char] + [c] && Unsigned(1) == 1 && BigEndian(0, 1) == "\0"
  {
    hide BigEndian;
    OnesInBytes();
    assert BigEndian(0, 1) == "\0" by { ZeroByte(); }
  }

  lemma ZeroByte()
    ensures BigEndian(0, 1) == "\0"
  {
  }

  /** A string key that expires at time 1, byte by byte: key, expiry, type, value. */
  lemma RecordBytes()
    ensures EncodeRecord(Record("k", 1, Raw("v")))
         == ("\0\0\0" + [1 as char] + "k")
            + (("\0\0\0\0\0\0\0" + [1 as char]) + ("\0" + ("\0\0\0" + [1 as char] + "v")))
  {
    hide BigEndian, Text, Unsigned;
    OnesInBytes();
    TextOfOne('k');
    TextOfOne('v');
  }

  // ---- What fits the format ----

  predicate ItemFits(kind: nat, it: Item) {
    match it
    case One(x) => (kind == LIST || kind == SET) && |x| < TWO32
    case Two(x, y) => kind == HASH && |x| < TWO32 && |y| < TWO32
    case Scored(x, bits) => kind == ZSET && |x| < TWO32 && bits < TWO64
  }

  ghost predicate PayloadFits(p: Payload) {
    match p
    case Raw(bytes) => |bytes| < TWO32
    case Elements(kind, items) =>
      LIST <= kind <= ZSET && |items| < TWO32 && forall i :: 0 <= i < |items| ==> ItemFits(kind, items[i])
  }

  ghost predicate RecordFits(r: Record) {
    |r.key| < TWO32 && -TWO63 <= r.expireAt < TWO63 && PayloadFits(r.payload)
  }

  // ---- Readers: the value and the position behind it, or failure at the end of the buffer ----

  datatype Got<T> = Fail | Got(value: T, pos: nat)

  function GetNumber(b: Bytes, pos: nat, k: nat): (g: Got<nat>)
    requires pos <= |b|
    ensures g.Got? ==> pos <= g.pos <= |b|
  {
    if k > |b| - pos then Fail else Got(Number(b[pos..pos + k]), pos + k)
  }

  function GetText(b: Bytes, pos: nat): (g: Got<Bytes>)
    requires pos <= |b|
    ensures g.Got? ==> pos <= g.pos <= |b|
  {
    match GetNumber(b, pos, 4)
    case Fail => Fail
    case Got(n, q) => if n > |b| - q then Fail else Got(b[q..q + n], q + n)
  }

  function GetItem(b: Bytes, pos: nat, kind: nat): (g: Got<Item>)
    requires pos <= |b|
    ensures g.Got? ==> pos <= g.pos <= |b|
  {
    match GetText(b, pos)
    case Fail => Fail
    case Got(x, q) =>
      if kind == HASH then
        match GetText(b, q) {
          case Fail => Fail
          case Got(y, q') => Got(Two(x, y), q')
        }
      else if kind == ZSET then
        match GetNumber(b, q, 8) {
          case Fail => Fail
          case Got(bits, q') => Got(Scored(x, bits), q')
        }
      else Got(One(x), q)
  }

  function GetItems(b: Bytes, pos: nat, kind: nat, n: nat): (g: Got<seq<Item>>)
    requires pos <= |b|
    ensures g.Got? ==> pos <= g.pos <= |b|
    decreases n
  {
    if n == 0 then Got([], pos)
    else
      match GetItems(b, pos, kind, n - 1)
      case Fail => Fail
      case Got(items, q) =>
        match GetItem(b, q, kind)
        case Fail => Fail
        case Got(it, q') => Got(items + [it], q')
  }

  function GetPayload(b: Bytes, pos: nat, kind: nat): (g: Got<Payload>)
    requires pos <= |b|
    ensures g.Got? ==> pos <= g.pos <= |b|
  {
    if kind == STRING then
      match GetText(b, pos) {
        case Fail => Fail
        case Got(bytes, q) => Got(Raw(bytes), q)
      }
    else if kind > ZSET then Fail
    else
      match GetNumber(b, pos, 4)
      case Fail => Fail
      case Got(n, q) =>
        match GetItems(b, q, kind, n)
        case Fail => Fail
        case Got(items, q') => Got(Elements(kind, items), q')
  }

  function GetRecord(b: Bytes, pos: nat): (g: Got<Record>)
    requires pos <= |b|
    ensures g.Got? ==> pos <= g.pos <= |b|
  {
    match GetText(b, pos)
    case Fail => Fail
    case Got(key, q0) =>
      match GetNumber(b, q0, 8)
      case Fail => Fail
      case Got(u, q1) =>
        match GetNumber(b, q1, 1)
        case Fail => Fail
        case Got(kind, q2) =>
          match GetPayload(b, q2, kind)
          case Fail => Fail
          case Got(p, q3) => Got(Record(key, Signed(u), p), q3)
  }

  /** The records read until one is not whole. */
  function GetRecords(b: Bytes, pos: nat, n: nat): seq<Record>
    requires pos <= |b|
    decreases n
  {
    if n == 0 then []
    else
      match GetRecord(b, pos)
      case Fail => []
      case Got(r, q) => [r] + GetRecords(b, q, n - 1)
  }

  /** What rdb_load makes of a file. */
  datatype Loaded = Refused | Loaded(records: seq<Record>)

  function Load(b: Bytes): Loaded {
    if |b| < 17 || b[..9] != MAGIC || Number(b[9..13]) != VERSION then Refused
    else Loaded(GetRecords(b, 17, Number(b[13..17])))
  }

  // ---- An encoding lies at a position ----

  ghost predicate Lies(b: Bytes, pos: nat, e: Bytes) {
    pos + |e| <= |b| && b[pos..pos + |e|] == e
  }

  lemma LiesSplit(b: Bytes, pos: nat, e: Bytes, f: Bytes)
    requires Lies(b, pos, e + f)
    ensures Lies(b, pos, e) && Lies(b, pos + |e|, f)
  {
    assert b[pos..pos + |e|] == b[pos..pos + |e + f|][..|e|];
    assert b[pos + |e|..pos + |e| + |f|] == b[pos..pos + |e + f|][|e|..];
  }

  lemma NumberThere(b: Bytes, pos: nat, n: nat, k: nat)
    requires pos <= |b| && Lies(b, pos, BigEndian(n, k)) && n < Pow256(k)
    ensures GetNumber(b, pos, k) == Got(n, pos + k)
  {
    NumberRoundTrip(n, k);
  }

  lemma TextThere(b: Bytes, pos: nat, x: Bytes)
    requires pos <= |b| && Lies(b, pos, Text(x)) && |x| < TWO32
    ensures GetText(b, pos) == Got(x, pos + |Text(x)|)
  {
    hide BigEndian, GetNumber, Lies;
    Widths();
    LiesSplit(b, pos, Count(|x|), x);
    NumberThere(b, pos, |x|, 4);
    LiesMeans(b, pos + 4, x);
  }

  lemma LiesMeans(b: Bytes, pos: nat, e: Bytes)
    requires Lies(b, pos, e)
    ensures pos + |e| <= |b| && b[pos..pos + |e|] == e
  {
  }

  lemma ItemThere(b: Bytes, pos: nat, kind: nat, it: Item)
    requires pos <= |b| && Lies(b, pos, EncodeItem(it)) && ItemFits(kind, it)
    ensures GetItem(b, pos, kind) == Got(it, pos + |EncodeItem(it)|)
  {
    hide BigEndian, GetNumber, GetText, Text, Lies;
    Widths();
    match it
    case One(x) => TextThere(b, pos, x);
    case Two(x, y) =>
      LiesSplit(b, pos, Text(x), Text(y));
      TextThere(b, pos, x);
      TextThere(b, pos + |Text(x)|, y);
    case Scored(x, bits) =>
      LiesSplit(b, pos, Text(x), BigEndian(bits, 8));
      TextThere(b, pos, x);
      NumberThere(b, pos + |Text(x)|, bits, 8);
  }

  lemma {:induction false} ItemsThere(b: Bytes, pos: nat, kind: nat, items: seq<Item>)
    requires pos <= |b| && Lies(b, pos, EncodeItems(items)) && forall i :: 0 <= i < |items| ==> ItemFits(kind, items[i])
    ensures GetItems(b, pos, kind, |items|) == Got(items, pos + |EncodeItems(items)|)
    decreases |items|
  {
    hide EncodeItem, GetItem, ItemFits, Lies;
    if items != [] {
      var init, last := items[..|items| - 1], items[|items| - 1];
      LiesSplit(b, pos, EncodeItems(init), EncodeItem(last));
      ItemsThere(b, pos, kind, init);
      ItemThere(b, pos + |EncodeItems(init)|, kind, last);
      assert items == init + [last];
    }
  }

  lemma PayloadThere(b: Bytes, pos: nat, p: Payload)
    requires pos <= |b| && Lies(b, pos, EncodePayload(p)) && PayloadFits(p)
    ensures GetPayload(b, pos, KindOf(p)) == Got(p, pos + |EncodePayload(p)|)
  {
    hide BigEndian, GetNumber, GetText, Text, Lies, EncodeItems, GetItems, ItemFits;
    Widths();
    match p
    case Raw(bytes) => TextThere(b, pos, bytes);
    case Elements(kind, items) =>
      LiesSplit(b, pos, Count(|items|), EncodeItems(items));
      NumberThere(b, pos, |items|, 4);
      ItemsThere(b, pos + 4, kind, items);
  }

  lemma RecordThere(b: Bytes, pos: nat, r: Record)
    requires pos <= |b| && Lies(b, pos, EncodeRecord(r)) && RecordFits(r)
    ensures GetRecord(b, pos) == Got(r, pos + |EncodeRecord(r)|)
  {
    hide BigEndian, GetNumber, GetText, Text, Lies, EncodePayload, GetPayload, Pow256;
    Widths();
    var e, t, p := BigEndian(Unsigned(r.expireAt), 8), BigEndian(KindOf(r.payload), 1), EncodePayload(r.payload);
    LiesSplit(b, pos, Text(r.key), e + (t + p));
    var q := pos + |Text(r.key)|;
    LiesSplit(b, q, e, t + p);
    LiesSplit(b, q + 8, t, p);
    TextThere(b, pos, r.key);
    NumberThere(b, q, Unsigned(r.expireAt), 8);
    NumberThere(b, q + 8, KindOf(r.payload), 1);
    PayloadThere(b, q + 9, r.payload);
  }

  // ---- Reading a cut buffer: the same value if all of it is there, failure otherwise ----

  ghost function Cut<T>(g: Got<T>, n: nat): Got<T> {
    if g.Got? && g.pos <= n then g else Fail
  }

  lemma NumberCut(b: Bytes, pos: nat, k: nat, n: nat)
    requires pos <= n <= |b|
    ensures GetNumber(b[..n], pos, k) == Cut(GetNumber(b, pos, k), n)
  {
    if k <= n - pos {
      assert b[..n][pos..pos + k] == b[pos..pos + k];
    }
  }

  lemma TextCut(b: Bytes, pos: nat, n: nat)
    requires pos <= n <= |b|
    ensures GetText(b[..n], pos) == Cut(GetText(b, pos), n)
  {
    hide GetNumber;
    NumberCut(b, pos, 4, n);
    var g := GetNumber(b, pos, 4);
    if g.Got? && g.pos <= n && g.value <= n - g.pos {
      assert b[..n][g.pos..g.pos + g.value] == b[g.pos..g.pos + g.value];
    }
  }

  lemma ItemCut(b: Bytes, pos: nat, kind: nat, n: nat)
    requires pos <= n <= |b|
    ensures GetItem(b[..n], pos, kind) == Cut(GetItem(b, pos, kind), n)
  {
    hide GetNumber, GetText;
    TextCut(b, pos, n);
    var g := GetText(b, pos);
    if g.Got? && g.pos <= n {
      TextCut(b, g.pos, n);
      NumberCut(b, g.pos, 8, n);
    }
  }

  lemma {:induction false} ItemsCut(b: Bytes, pos: nat, kind: nat, count: nat, n: nat)
    requires pos <= n <= |b|
    ensures GetItems(b[..n], pos, kind, count) == Cut(GetItems(b, pos, kind, count), n)
    decreases count
  {
    hide GetItem;
    if count > 0 {
      ItemsCut(b, pos, kind, count - 1, n);
      var g := GetItems(b, pos, kind, count - 1);
      if g.Got? && g.pos <= n {
        ItemCut(b, g.pos, kind, n);
      }
    }
  }

  lemma PayloadCut(b: Bytes, pos: nat, kind: nat, n: nat)
    requires pos <= n <= |b|
    ensures GetPayload(b[..n], pos, kind) == Cut(GetPayload(b, pos, kind), n)
  {
    hide GetNumber, GetText, GetItems;
    TextCut(b, pos, n);
    NumberCut(b, pos, 4, n);
    var g := GetNumber(b, pos, 4);
    if g.Got? && g.pos <= n {
      ItemsCut(b, g.pos, kind, g.value, n);
    }
  }

  lemma RecordCut(b: Bytes, pos: nat, n: nat)
    requires pos <= n <= |b|
    ensures GetRecord(b[..n], pos) == Cut(GetRecord(b, pos), n)
  {
    hide GetNumber, GetText, GetPayload;
    TextCut(b, pos, n);
    var g0 := GetText(b, pos);
    if g0.Got? && g0.pos <= n {
      NumberCut(b, g0.pos, 8, n);
      var g1 := GetNumber(b, g0.pos, 8);
      if g1.Got? && g1.pos <= n {
        NumberCut(b, g1.pos, 1, n);
        var g2 := GetNumber(b, g1.pos, 1);
        if g2.Got? && g2.pos <= n {
          PayloadCut(b, g2.pos, g2.value, n);
        }
      }
    }
  }

  // ---- Whole snapshots ----

  ghost predicate RecordsFit(rs: seq<Record>) {
    |rs| < TWO32 && forall i :: 0 <= i < |rs| ==> RecordFits(rs[i])
  }

  /** From position pos on, a buffer that holds the records and is cut at n yields exactly the first k, if n lies in
      the next. */
  lemma {:induction false} RecordsCut(b: Bytes, pos: nat, rs: seq<Record>, n: nat, k: nat)
    requires RecordsFit(rs) && pos <= n <= |b| && Lies(b, pos, EncodeRecords(rs)) && k <= |rs|
    requires pos + |EncodeRecords(rs[..k])| <= n && (k < |rs| ==> n < pos + |EncodeRecords(rs[..k + 1])|)
    ensures GetRecords(b[..n], pos, |rs|) == rs[..k]
    decreases |rs|
  {
    hide GetRecord, EncodeRecord, RecordFits, Lies;
    if rs != [] {
      var e := EncodeRecord(rs[0]);
      LiesSplit(b, pos, e, EncodeRecords(rs[1..]));
      RecordThere(b, pos, rs[0]);
      RecordCut(b, pos, n);
      if k == 0 {
        assert rs[..1] == [rs[0]] && rs[..1][1..] == [];
      } else {
        assert rs[..k][1..] == rs[1..][..k - 1] && (k < |rs| ==> rs[..k + 1][1..] == rs[1..][..k]);
        RecordsCut(b, pos + |e|, rs[1..], n, k - 1);
        assert [rs[0]] + rs[1..][..k - 1] == rs[..k];
      }
    }
  }

  /** Where record k of a snapshot ends. */
  function End(rs: seq<Record>, k: nat): nat
    requires k <= |rs|
  {
    17 + |EncodeRecords(rs[..k])|
  }

  /** Every cut behind the header lies in exactly one place of the record sequence. */
  lemma {:induction false} RecordAt(rs: seq<Record>, n: nat) returns (k: nat)
    requires 17 <= n <= 17 + |EncodeRecords(rs)|
    ensures k <= |rs| && End(rs, k) <= n && (k < |rs| ==> n < End(rs, k + 1))
    decreases |rs|
  {
    hide EncodeRecord;
    if rs == [] {
      return 0;
    }
    assert rs[..0] == [] && rs[..1] == [rs[0]] && rs[..1][1..] == [];
    var e := EncodeRecord(rs[0]);
    if n < 17 + |e| {
      return 0;
    }
    var j := RecordAt(rs[1..], n - |e|);
    k := j + 1;
    assert rs[..k][1..] == rs[1..][..j];
    assert k < |rs| ==> rs[..k + 1][1..] == rs[1..][..j + 1];
  }

  lemma HeaderParts(m: Bytes, v: Bytes, c: Bytes, e: Bytes, n: nat)
    requires |m| == 9 && |v| == 4 && |c| == 4 && 17 <= n <= 17 + |e|
    ensures var b := m + (v + c) + e;
            b[..n][..9] == m && b[..n][9..13] == v && b[..n][13..17] == c && Lies(b, 17, e)
  {
    var b := m + (v + c) + e;
    assert b[9..13] == (v + c)[..4] && b[13..17] == (v + c)[4..];
  }

  /** A snapshot cut anywhere behind its header loads exactly the records that lie wholly before the cut; cut earlier,
      it is refused. */
  lemma SnapshotCut(rs: seq<Record>, n: nat, k: nat)
    requires RecordsFit(rs) && n <= |Snapshot(rs)| && k <= |rs|
    ensures n < 17 ==> Load(Snapshot(rs)[..n]) == Refused
    ensures End(rs, k) <= n && (k < |rs| ==> n < End(rs, k + 1)) ==> Load(Snapshot(rs)[..n]) == Loaded(rs[..k])
  {
    hide GetRecords, EncodeRecords, RecordFits, BigEndian, Number;
    var b := Snapshot(rs);
    if End(rs, k) <= n && (k < |rs| ==> n < End(rs, k + 1)) {
      Widths();
      NumberRoundTrip(VERSION, 4);
      NumberRoundTrip(|rs|, 4);
      HeaderParts(MAGIC, BigEndian(VERSION, 4), Count(|rs|), EncodeRecords(rs), n);
      RecordsCut(b, 17, rs, n, k);
    }
  }

  /** Round trip: the whole file loads every record. */
  lemma SnapshotWhole(rs: seq<Record>)
    requires RecordsFit(rs)
    ensures Load(Snapshot(rs)) == Loaded(rs)
  {
    var b := Snapshot(rs);
    assert b[..|b|] == b && rs[..|rs|] == rs;
    SnapshotCut(rs, |b|, |rs|);
  }
}
