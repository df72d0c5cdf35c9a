/** The active expire cycle of src/db.c over the hash table: a cursor walks the buckets and deletes while it walks. */
module ExpireCycles {
  import opened Orders
  import opened Keyspace
  import opened Collections
  import opened Dicts
  import Expiry

  const MAX_KEYS: nat := 200

  /** Only entries that had expired by reading n are missing. */
  ghost predicate OnlyExpired(was: Store, s: Store, now: int) {
    && (forall k :: k in s ==> k in was && s[k] == was[k])
    && (forall k :: k in was && k !in s ==> Expired(was[k], now))
  }

  /** A cycle is a sweep, the event whose placement in a run no reply depends on. */
  lemma CycleIsSweep(was: Store, s: Store, now: int)
    ensures OnlyExpired(was, s, now) <==> s == Expiry.Swept(was, was.Keys - s.Keys, now)
  {
    if s == Expiry.Swept(was, was.Keys - s.Keys, now) {
      assert forall k :: k in was && k !in s ==> k in was.Keys - s.Keys;
    }
  }

  /** Nothing in bucket b is left that had expired at time t. */
  ghost predicate Clean(s: Store, b: nat, size: nat, hashOf: Bytes -> nat, t: int)
    requires size > 0
  {
    forall k :: k in s && hashOf(k) % size == b ==> !Expired(s[k], t)
  }

  lemma CleanShrinks(was: Store, s: Store, now: int, b: nat, size: nat, hashOf: Bytes -> nat, t: int)
    requires size > 0 && OnlyExpired(was, s, now) && Clean(was, b, size, hashOf, t)
    ensures Clean(s, b, size, hashOf, t)
  {
  }

  lemma OnlyExpiredTrans(a: Store, b: Store, c: Store, t: int, u: int)
    requires OnlyExpired(a, b, t) && OnlyExpired(b, c, u) && t <= u
    ensures OnlyExpired(a, c, u)
  {
  }

  // ---- What the table's invariant says about one bucket ----

  lemma EntryFacts(d: Dict<Obj>, b: nat, k: nat)
    requires d.Valid() && b < |d.chains| && k < |d.chains[b]|
    ensures var e := d.chains[b][k];
            && d.size == |d.chains| && e.key in d.cells && d.cells[e.key] == e && d.hashOf(e.key) % d.size == b
            && forall i, j :: 0 <= i < j < |d.chains[b]| ==> d.chains[b][i] != d.chains[b][j]
  {
    BucketOf(d.cells, d.chains, d.hashOf, b);
  }

  lemma ChainLinks(d: Dict<Obj>, b: nat)
    requires d.Valid() && b < d.size
    ensures |d.chains| == d.size == d.table.Length && Linked(d.chains[b], d.table[b])
    ensures d.table[b] == if d.chains[b] == [] then null else d.chains[b][0]
  {
  }

  /** Every key that hashes to the bucket stands in its chain. */
  lemma KeysInChain(d: Dict<Obj>, b: nat)
    requires d.Valid() && b < d.size
    ensures |d.chains| == d.size
    ensures forall key :: key in d.Model() && d.hashOf(key) % d.size == b ==>
              exists i :: 0 <= i < |d.chains[b]| && d.chains[b][i].key == key
  {
    forall key | key in d.cells && d.hashOf(key) % d.size == b
      ensures exists i :: 0 <= i < |d.chains[b]| && d.chains[b][i].key == key
    {
      CellInChain(d.cells, d.chains, d.hashOf, key);
    }
  }

  // ---- Progress along a chain ----

  /** Of the first j entries of a chain, none is left that had expired at time t. */
  ghost predicate Examined(s: Store, c: seq<Entry<Obj>>, j: nat, t: int) {
    j <= |c| && forall i :: 0 <= i < j && c[i].key in s ==> !Expired(s[c[i].key], t)
  }

  lemma ExamineStep(m: Store, was: Store, s: Store, c: seq<Entry<Obj>>, j: nat, clock: nat -> int, n: nat, i: nat)
    requires Advancing(clock) && n <= i && OnlyExpired(m, was, clock(i)) && Examined(was, c, j, clock(n)) && j < |c|
    requires c[j].key in was && s == if Expired(was[c[j].key], clock(i)) then was - {c[j].key} else was
    ensures OnlyExpired(m, s, clock(i + 1)) && Examined(s, c, j + 1, clock(n))
  {
    assert clock(n) <= clock(i) <= clock(i + 1);
  }

  lemma ExaminedStart(m: Store, c: seq<Entry<Obj>>, now: int)
    ensures OnlyExpired(m, m, now) && Examined(m, c, 0, now)
  {
  }

  lemma ExaminedAll(s: Store, c: seq<Entry<Obj>>, b: nat, size: nat, hashOf: Bytes -> nat, t: int)
    requires size > 0 && Examined(s, c, |c|, t)
    requires forall key :: key in s && hashOf(key) % size == b ==> exists i :: 0 <= i < |c| && c[i].key == key
    ensures Clean(s, b, size, hashOf, t)
  {
  }

  lemma Shrinks(m: Store, s: Store, now: int)
    requires OnlyExpired(m, s, now)
    ensures forall key :: key in s ==> key in m
  {
  }

  /** The entry under the walk, and the one its next pointer leads to. */
  lemma Standing(d: Dict<Obj>, b: nat, kept: seq<Entry<Obj>>, c: seq<Entry<Obj>>, j: nat)
    requires d.Valid() && b < d.size && b < |d.chains| && j < |c| && d.chains[b] == kept + c[j..]
    ensures d.chains[b] == kept + [c[j]] + c[j + 1..]
    ensures c[j] in d.cells.Values && c[j].next == if j + 1 < |c| then c[j + 1] else null
  {
    hide Dict.Valid;
    EntryFacts(d, b, |kept|);
    ChainLinks(d, b);
    assert d.chains[b][|kept|] == c[j] && (j + 1 < |c| ==> d.chains[b][|kept| + 1] == c[j + 1]);
  }

  class Sweeper {
    const d: Dict<Obj>
    var cursor: nat

    constructor (hashOf: Bytes -> nat)
      ensures d.Valid() && d.Model() == map[] && cursor == 0 && fresh(d) && fresh(d.table)
    {
      d := new Dict(hashOf);
      cursor := 0;
    }

    /** The entry e of bucket b, behind the entries kept and before the rest, is deleted if it has expired. */
    method Examine(b: nat, e: Entry<Obj>, now: int, ghost kept: seq<Entry<Obj>>, ghost rest: seq<Entry<Obj>>)
      returns (ghost kept': seq<Entry<Obj>>)
      requires d.Valid() && b < |d.chains| && d.chains[b] == kept + [e] + rest
      modifies d.table, d.cells.Values`next, d`used, d`chains, d`cells
      ensures d.Valid() && d.chains == old(d.chains)[b := kept' + rest] && d.cells.Values <= old(d.cells.Values)
      ensures e.key in old(d.Model())
      ensures d.Model() == if Expired(old(d.Model())[e.key], now) then old(d.Model()) - {e.key} else old(d.Model())
    {
      hide Dict.Valid, Linked;
      ghost var c := d.chains[b];
      EntryFacts(d, b, |kept|);
      assert c[|kept|] == e;
      if Expired(e.val, now) {
        var _, j := d.Delete(e.key);
        assert j == |kept|;
        kept' := kept;
        assert Without(c, |kept|) == kept + rest;
      } else {
        kept' := kept + [e];
        assert d.chains == d.chains[b := kept' + rest];
      }
    }

    /** One turn of the walk: the successor is read before the entry may go away. */
    method StepOver(b: nat, e: Entry<Obj>, now: int,
                    ghost kept: seq<Entry<Obj>>, ghost c: seq<Entry<Obj>>, ghost j: nat)
      returns (next: Entry?<Obj>, ghost kept': seq<Entry<Obj>>)
      requires d.Valid() && b < d.size && b < |d.chains| && j < |c| && e == c[j] && d.chains[b] == kept + c[j..]
      modifies d.table, d.cells.Values`next, d`used, d`chains, d`cells
      ensures d.Valid() && |d.chains| == old(|d.chains|) && d.chains[b] == kept' + c[j + 1..]
      ensures d.cells.Values <= old(d.cells.Values)
      ensures next == if j + 1 < |c| then c[j + 1] else null
      ensures e.key in old(d.Model())
      ensures d.Model() == if Expired(old(d.Model())[e.key], now) then old(d.Model()) - {e.key} else old(d.Model())
    {
      hide Dict.Valid, Dict.Model;
      Standing(d, b, kept, c, j);
      next := e.next;
      kept' := Examine(b, e, now, kept, c[j + 1..]);
    }

    /** The inner loop of db_expire_cycle: only expired entries go, and none that had expired before the walk stays. */
    method SweepBucket(b: nat, clock: nat -> int, n: nat) returns (n': nat)
      requires d.Valid() && b < d.size && Advancing(clock)
      modifies d.table, d.cells.Values`next, d`used, d`chains, d`cells
      ensures d.Valid() && d.cells.Values <= old(d.cells.Values)
      ensures b < |old(d.chains)| && n' == n + |old(d.chains)[b]|
      ensures OnlyExpired(old(d.Model()), d.Model(), clock(n'))
      ensures Clean(d.Model(), b, d.size, d.hashOf, clock(n))
    {
      hide Dict.Valid, Dict.Model, Examined, OnlyExpired, Clean, Advancing, Linked;
      KeysInChain(d, b);
      ChainLinks(d, b);
      ghost var m, c := d.Model(), d.chains[b];
      ghost var kept: seq<Entry<Obj>>, j := [], 0;
      var e := d.table[b];
      n' := n;
      ExaminedStart(m, c, clock(n));
      assert c[0..] == c;
      while e != null
        invariant d.Valid() && j <= |c| && e == (if j < |c| then c[j] else null) && n' == n + j
        invariant |d.chains| == d.size && d.chains[b] == kept + c[j..] && d.cells.Values <= old(d.cells.Values)
        invariant OnlyExpired(m, d.Model(), clock(n')) && Examined(d.Model(), c, j, clock(n))
        decreases |c| - j
      {
        ghost var was := d.Model();
        var next;
        next, kept := StepOver(b, e, clock(n'), kept, c, j);
        ExamineStep(m, was, d.Model(), c, j, clock, n, n');
        e, n', j := next, n' + 1, j + 1;
      }
      Shrinks(m, d.Model(), clock(n'));
      ExaminedAll(d.Model(), c, b, d.size, d.hashOf, clock(n));
    }

    /** db_expire_cycle, started at clock reading n: it removes only expired keys and clears the buckets it passes of
        all that had expired when it started. It passes at least one, and begins no bucket once enough entries are
        examined. */
    method Cycle(clock: nat -> int, n: nat) returns (n': nat, ghost from: nat, ghost to: nat, ghost last: nat)
      requires d.Valid() && Advancing(clock)
      modifies this, d.table, d.cells.Values`next, d`used, d`chains, d`cells
      ensures d.Valid() && d.cells.Values <= old(d.cells.Values) && n' >= n
      ensures OnlyExpired(old(d.Model()), d.Model(), clock(n'))
      ensures d.size == 0 ==> cursor == 0
      ensures d.size > 0 ==> from == (if old(cursor) >= d.size then 0 else old(cursor)) && from < to <= d.size
      ensures d.size > 0 ==> cursor == if to == d.size then 0 else to
      ensures d.size > 0 ==> n <= last <= n' && last - n < MAX_KEYS && (to == d.size || n' - n >= MAX_KEYS)
      ensures d.size > 0 ==> forall b :: from <= b < to ==> Clean(d.Model(), b, d.size, d.hashOf, clock(n))
    {
      hide Dict.Valid, Dict.Model, OnlyExpired, Clean;
      n', from, to, last := n, 0, 0, n;
      ExaminedStart(d.Model(), [], clock(n));
      if d.size == 0 {
        cursor := 0;
        return;
      }
      if cursor >= d.size {
        cursor := 0;
      }
      from := cursor;
      while n' - n < MAX_KEYS && cursor < d.size
        invariant d.Valid() && from <= cursor <= d.size && (cursor == from ==> n' == n) && n <= last <= n'
        invariant last - n < MAX_KEYS
        invariant d.cells.Values <= old(d.cells.Values)
        invariant OnlyExpired(old(d.Model()), d.Model(), clock(n'))
        invariant forall b :: from <= b < cursor ==> Clean(d.Model(), b, d.size, d.hashOf, clock(n))
        decreases d.size - cursor
      {
        var b := cursor;
        cursor := cursor + 1;
        ghost var was, i := d.Model(), n';
        last := n';
        n' := SweepBucket(b, clock, n');
        Passed(old(d.Model()), was, d.Model(), clock, n, i, n', from, b, d.size, d.hashOf);
      }
      to := cursor;
      if cursor >= d.size {
        cursor := 0;
      }
    }

    /** As many calls as there are buckets, with a table that is not resized: every key that had expired before the
        first call is gone after the last, and no live key is. */
    method CycleAll(clock: nat -> int, n: nat) returns (n': nat)
      requires d.Valid() && Advancing(clock)
      modifies this, d.table, d.cells.Values`next, d`used, d`chains, d`cells
      ensures d.Valid() && n' >= n && OnlyExpired(old(d.Model()), d.Model(), clock(n'))
      ensures forall k :: k in d.Model() ==> !Expired(d.Model()[k], clock(n))
    {
      hide Dict.Valid, Dict.Model, OnlyExpired, Clean, Advancing, Covered;
      n' := n;
      ExaminedStart(d.Model(), [], clock(n));
      if d.size == 0 {
        NoKeys(d);
        return;
      }
      ghost var first: nat, v: nat := if cursor >= d.size then 0 else cursor, 0;
      CoveredNone(d.Model(), first, d.size, d.hashOf, clock(n));
      for i := 0 to d.size
        invariant d.Valid() && n' >= n && d.cells.Values <= old(d.cells.Values)
        invariant OnlyExpired(old(d.Model()), d.Model(), clock(n'))
        invariant Covered(d.Model(), first, v, d.size, d.hashOf, clock(n))
        invariant i <= v || d.size <= v
        invariant v < d.size ==> (if cursor >= d.size then 0 else cursor) == Position(first, v, d.size)
      {
        ghost var was, m := d.Model(), n';
        ghost var from, to, last;
        n', from, to, last := Cycle(clock, n');
        CoverStep(old(d.Model()), was, d.Model(), clock, n, m, n', first, v, from, to, d.size, d.hashOf);
        v := if v < d.size then v + (to - from) else v;
      }
      CoveredAll(d.Model(), first, v, d.size, d.hashOf, clock(n));
    }
  }

  // ---- Progress around the table ----

  /** Bucket b is among the v buckets after the first, going around. */
  predicate Reached(first: nat, v: nat, size: nat, b: nat) {
    first <= b < first + v || b + size < first + v
  }

  function Position(first: nat, v: nat, size: nat): int {
    if first + v < size then first + v else first + v - size
  }

  ghost predicate Covered(s: Store, first: nat, v: nat, size: nat, hashOf: Bytes -> nat, t: int)
    requires size > 0
  {
    forall b :: 0 <= b < size && Reached(first, v, size, b) ==> Clean(s, b, size, hashOf, t)
  }

  lemma CoveredNone(s: Store, first: nat, size: nat, hashOf: Bytes -> nat, t: int)
    requires first < size
    ensures Covered(s, first, 0, size, hashOf, t)
  {
  }

  lemma CoveredAll(s: Store, first: nat, v: nat, size: nat, hashOf: Bytes -> nat, t: int)
    requires first < size <= v && Covered(s, first, v, size, hashOf, t)
    ensures forall k :: k in s ==> !Expired(s[k], t)
  {
    forall k | k in s
      ensures !Expired(s[k], t)
    {
      var b := hashOf(k) % size;
      assert Reached(first, v, size, b);
      assert Clean(s, b, size, hashOf, t);
    }
  }

  lemma NoKeys(d: Dict<Obj>)
    requires d.Valid() && d.size == 0
    ensures d.Model() == map[]
  {
    NoCells(d.cells, d.chains, d.hashOf);
  }

  /** One call carries the cover on from where the cursor stands. */
  lemma CoverStep(m: Store, was: Store, s: Store, clock: nat -> int, n: nat, i: nat, n': nat,
                  first: nat, v: nat, from: nat, to: nat, size: nat, hashOf: Bytes -> nat)
    requires Advancing(clock) && n <= i <= n' && first < size && from < to <= size
    requires OnlyExpired(m, was, clock(i)) && OnlyExpired(was, s, clock(n'))
    requires Covered(was, first, v, size, hashOf, clock(n)) && (v < size ==> from == Position(first, v, size))
    requires forall b :: from <= b < to ==> Clean(s, b, size, hashOf, clock(i))
    ensures OnlyExpired(m, s, clock(n'))
    ensures var v' := if v < size then v + (to - from) else v;
            && Covered(s, first, v', size, hashOf, clock(n))
            && (v' < size ==> (if to == size then 0 else to) == Position(first, v', size))
  {
    hide OnlyExpired, Clean;
    OnlyExpiredTrans(m, was, s, clock(i), clock(n'));
    var v' := if v < size then v + (to - from) else v;
    forall b | 0 <= b < size && Reached(first, v', size, b)
      ensures Clean(s, b, size, hashOf, clock(n))
    {
      if Reached(first, v, size, b) {
        CleanShrinks(was, s, clock(n'), b, size, hashOf, clock(n));
      } else {
        assert from <= b < to;
        CleanEarlier(s, b, size, hashOf, clock(n), clock(i));
      }
    }
  }

  lemma CleanEarlier(s: Store, b: nat, size: nat, hashOf: Bytes -> nat, t: int, u: int)
    requires size > 0 && t <= u && Clean(s, b, size, hashOf, u)
    ensures Clean(s, b, size, hashOf, t)
  {
  }

  /** One more bucket behind the cursor is clean, and the earlier ones stay so. */
  lemma Passed(m: Store, was: Store, s: Store, clock: nat -> int, n: nat, i: nat, n': nat,
               from: nat, b: nat, size: nat, hashOf: Bytes -> nat)
    requires Advancing(clock) && n <= i <= n' && from <= b < size
    requires OnlyExpired(m, was, clock(i)) && OnlyExpired(was, s, clock(n'))
    requires forall b' :: from <= b' < b ==> Clean(was, b', size, hashOf, clock(n))
    requires Clean(s, b, size, hashOf, clock(i))
    ensures OnlyExpired(m, s, clock(n')) && forall b' :: from <= b' <= b ==> Clean(s, b', size, hashOf, clock(n))
  {
    hide OnlyExpired;
    OnlyExpiredTrans(m, was, s, clock(i), clock(n'));
    assert clock(n) <= clock(i);
    forall b' | from <= b' < b
      ensures Clean(s, b', size, hashOf, clock(n))
    {
      CleanShrinks(was, s, clock(n'), b', size, hashOf, clock(n));
    }
  }
}
