/** The chained hash table of src/dict.c: buckets, chains and resizing in place. */
module Dicts {
  import opened Orders
  import opened Bits
  import opened Collections

  const INITIAL_SIZE: nat := 16

  class Entry<V> {
    const key: Bytes
    const hash: nat
    var val: V
    var next: Entry?<V>

    constructor (key: Bytes, hash: nat, val: V, next: Entry?<V>)
      ensures this.key == key && this.hash == hash && this.val == val && this.next == next
    {
      this.key, this.hash, this.val, this.next := key, hash, val, next;
    }
  }

  /** No buckets yet, or 16 times a power of two. */
  ghost predicate ValidSize(n: nat) {
    n == 0 || exists k: nat :: n == INITIAL_SIZE * Pow2(k)
  }

  /** The next pointers from head run through exactly the entries of c. */
  ghost predicate Linked<V>(c: seq<Entry<V>>, head: Entry?<V>)
    reads c`next
  {
    && head == (if c == [] then null else c[0])
    && (forall k {:trigger c[k].next} :: 0 <= k < |c| ==> c[k].next == if k + 1 < |c| then c[k + 1] else null)
  }

  /** Every entry of bucket b is the cell of its own key and hashes to b. */
  ghost predicate InBucket<V>(c: seq<Entry<V>>, b: nat, size: nat, cells: map<Bytes, Entry<V>>, hashOf: Bytes -> nat)
    requires size > 0
  {
    && (forall k :: 0 <= k < |c| ==> c[k].key in cells && cells[c[k].key] == c[k])
    && (forall k :: 0 <= k < |c| ==> c[k].hash == hashOf(c[k].key) && c[k].hash % size == b)
    && (forall j, k :: 0 <= j < k < |c| ==> c[j] != c[k])
  }

  /** The buckets hold exactly the cells. */
  ghost predicate Placed<V>(cells: map<Bytes, Entry<V>>, chains: seq<seq<Entry<V>>>, hashOf: Bytes -> nat) {
    && (chains == [] ==> cells == map[])
    && (forall b :: 0 <= b < |chains| ==> InBucket(chains[b], b, |chains|, cells, hashOf))
    && (forall key :: key in cells ==>
          |chains| > 0 && cells[key].key == key && cells[key] in chains[hashOf(key) % |chains|])
  }

  lemma {:induction false} SizeIsPow2(k: nat)
    ensures INITIAL_SIZE * Pow2(k) == Pow2(k + 4) && Pow2(k) >= 1
  {
    if k > 0 {
      SizeIsPow2(k - 1);
    } else {
      assert Pow2(1) == 2 && Pow2(2) == 4 && Pow2(3) == 8;
    }
  }

  /** The mask used by the code selects the bucket hash mod size. */
  lemma FirstSize()
    ensures ValidSize(INITIAL_SIZE)
  {
    assert INITIAL_SIZE == INITIAL_SIZE * Pow2(0);
  }

  /** Doubling keeps the size valid and makes room for one more entry, if there was none. */
  lemma NextSize(size: nat, used: nat)
    requires ValidSize(size) && size > 0 && 4 * used <= 3 * size
    ensures ValidSize(size * 2) && 4 * (used + 1) <= 3 * (size * 2)
    ensures used * 4 < size * 3 ==> 4 * (used + 1) <= 3 * size
  {
    hide ValidSize;
    var p := Sixteens(size);
    assert used <= 12 * p;
    if used * 4 < size * 3 {
      assert used + 1 <= 12 * p;
    }
  }

  lemma Sixteens(size: nat) returns (p: nat)
    requires ValidSize(size) && size > 0
    ensures p > 0 && size == 16 * p && ValidSize(size * 2)
  {
    hide Pow2;
    var k: nat :| size == INITIAL_SIZE * Pow2(k);
    Doubled(k);
    p := Pow2(k);
    assert size * 2 == INITIAL_SIZE * Pow2(k + 1);
  }

  lemma Doubled(k: nat)
    ensures Pow2(k + 1) == 2 * Pow2(k)
  {
  }

  lemma BucketIndex(h: nat, size: nat)
    requires ValidSize(size) && size > 0
    ensures BitAnd(h, size - 1) == h % size < size
  {
    hide BitAnd, Pow2;
    var k: nat :| size == INITIAL_SIZE * Pow2(k);
    SizeIsPow2(k);
    MaskIsMod(h, k + 4);
  }

  /** A key's cell is found in its bucket and nowhere else in it. */
  lemma CellInChain<V>(cells: map<Bytes, Entry<V>>, chains: seq<seq<Entry<V>>>, hashOf: Bytes -> nat, key: Bytes)
    requires Placed(cells, chains, hashOf) && |chains| > 0
    ensures var c := chains[hashOf(key) % |chains|];
            && (key in cells <==> exists k :: 0 <= k < |c| && c[k].key == key)
            && (forall k :: 0 <= k < |c| && c[k].key == key ==>
                  key in cells && cells[key] == c[k] && c[k].hash == hashOf(key))
  {
    var b := hashOf(key) % |chains|;
    assert InBucket(chains[b], b, |chains|, cells, hashOf);
    if key in cells {
      var k :| 0 <= k < |chains[b]| && chains[b][k] == cells[key];
    }
  }

  lemma PlacedSet<V>(cells: map<Bytes, Entry<V>>, chains: seq<seq<Entry<V>>>, hashOf: Bytes -> nat, b: nat, e: Entry<V>)
    requires Placed(cells, chains, hashOf) && b < |chains|
    requires e.key !in cells && e.hash == hashOf(e.key) && b == e.hash % |chains|
    ensures Placed(cells[e.key := e], chains[b := [e] + chains[b]], hashOf)
  {
    var cells', chains' := cells[e.key := e], chains[b := [e] + chains[b]];
    forall b' | 0 <= b' < |chains|
      ensures InBucket(chains'[b'], b', |chains|, cells', hashOf)
    {
      assert InBucket(chains[b'], b', |chains|, cells, hashOf);
    }
    forall key | key in cells'
      ensures cells'[key] in chains'[hashOf(key) % |chains|]
    {
      if key == e.key {
        assert chains'[b][0] == e;
      } else {
        assert cells[key] in chains[hashOf(key) % |chains|];
      }
    }
  }

  lemma PlacedDelete<V>(cells: map<Bytes, Entry<V>>, chains: seq<seq<Entry<V>>>, hashOf: Bytes -> nat, b: nat, j: nat)
    requires Placed(cells, chains, hashOf) && b < |chains| && j < |chains[b]|
    ensures Placed(cells - {chains[b][j].key}, chains[b := Without(chains[b], j)], hashOf)
  {
    var c, e := chains[b], chains[b][j];
    var c', cells' := Without(c, j), cells - {e.key};
    var chains' := chains[b := c'];
    assert InBucket(c, b, |chains|, cells, hashOf);
    forall b' | 0 <= b' < |chains|
      ensures InBucket(chains'[b'], b', |chains|, cells', hashOf)
    {
      assert InBucket(chains[b'], b', |chains|, cells, hashOf);
      if b' == b {
        WithoutBucket(c, b, |chains|, cells, hashOf, j);
      }
    }
    forall key | key in cells'
      ensures cells'[key] in chains'[hashOf(key) % |chains|]
    {
      var i :| 0 <= i < |chains[hashOf(key) % |chains|]| && chains[hashOf(key) % |chains|][i] == cells[key];
      if hashOf(key) % |chains| == b {
        assert c'[if i < j then i else i - 1] == cells[key];
      }
    }
  }

  lemma NoCells<V>(cells: map<Bytes, Entry<V>>, chains: seq<seq<Entry<V>>>, hashOf: Bytes -> nat)
    requires Placed(cells, chains, hashOf) && chains == []
    ensures cells == map[]
  {
  }

  lemma CellOf<V>(cells: map<Bytes, Entry<V>>, chains: seq<seq<Entry<V>>>, hashOf: Bytes -> nat, b: nat, k: nat)
    requires Placed(cells, chains, hashOf) && b < |chains| && k < |chains[b]|
    ensures chains[b][k].key in cells && cells[chains[b][k].key] == chains[b][k]
  {
    assert InBucket(chains[b], b, |chains|, cells, hashOf);
  }

  lemma KeysOfCells<V>(cells: map<Bytes, Entry<V>>, chains: seq<seq<Entry<V>>>, hashOf: Bytes -> nat)
    requires Placed(cells, chains, hashOf)
    ensures forall key :: key in cells ==> cells[key].key == key
  {
  }

  lemma BucketFacts<V>(cells: map<Bytes, Entry<V>>, chains: seq<seq<Entry<V>>>, hashOf: Bytes -> nat, b: nat)
    requires Placed(cells, chains, hashOf) && b < |chains|
    ensures forall k :: 0 <= k < |chains[b]| ==> chains[b][k] in cells.Values
    ensures forall j, k :: 0 <= j < k < |chains[b]| ==> chains[b][j] != chains[b][k]
  {
    assert InBucket(chains[b], b, |chains|, cells, hashOf);
  }

  /** An entry of one bucket stands in no other. */
  lemma OtherBuckets<V>(cells: map<Bytes, Entry<V>>, chains: seq<seq<Entry<V>>>, hashOf: Bytes -> nat, b: nat, k: nat)
    requires Placed(cells, chains, hashOf) && b < |chains| && k < |chains[b]|
    ensures forall b' :: 0 <= b' < |chains| && b' != b ==> chains[b][k] !in chains[b']
  {
    assert InBucket(chains[b], b, |chains|, cells, hashOf);
    forall b' | 0 <= b' < |chains| && b' != b
      ensures chains[b][k] !in chains[b']
    {
      assert InBucket(chains[b'], b', |chains|, cells, hashOf);
    }
  }

  /** A chain whose entry j has just been bypassed. */
  lemma LinkedWithout<V>(c: seq<Entry<V>>, j: nat, head: Entry?<V>)
    requires j < |c| && forall i, k :: 0 <= i < k < |c| ==> c[i] != c[k]
    requires head == if j > 0 then c[0] else if |c| > 1 then c[1] else null
    requires forall k {:trigger c[k].next} :: 0 <= k < |c| && k != j && k != j - 1 ==>
               c[k].next == if k + 1 < |c| then c[k + 1] else null
    requires j > 0 ==> c[j - 1].next == if j + 1 < |c| then c[j + 1] else null
    ensures Linked(Without(c, j), head)
  {
    var c' := Without(c, j);
    forall k | 0 <= k < |c'|
      ensures c'[k].next == if k + 1 < |c'| then c'[k + 1] else null
    {
      var i := if k < j then k else k + 1;
      assert c'[k] == c[i] && (k != j - 1 ==> c[i].next == if i + 1 < |c| then c[i + 1] else null);
      assert k + 1 < |c'| ==> c'[k + 1] == c[if k + 1 < j then k + 1 else k + 2];
    }
  }

  lemma WithoutBucket<V>(c: seq<Entry<V>>, b: nat, size: nat, cells: map<Bytes, Entry<V>>, hashOf: Bytes -> nat, j: nat)
    requires size > 0 && InBucket(c, b, size, cells, hashOf) && j < |c|
    ensures InBucket(Without(c, j), b, size, cells - {c[j].key}, hashOf)
  {
    var c' := Without(c, j);
    forall k | 0 <= k < |c'|
      ensures c'[k].key in cells - {c[j].key}
    {
      var i := if k < j then k else k + 1;
      assert c'[k] == c[i] && c[i] != c[j] && cells[c[i].key] == c[i] && cells[c[j].key] == c[j];
    }
  }

  // ---- Resizing ----

  ghost predicate Unmoved<V>(c: seq<Entry<V>>, moved: set<Entry<V>>) {
    forall k :: 0 <= k < |c| ==> c[k] !in moved
  }

  /** The new table holds exactly the moved entries, each in its new bucket. */
  ghost predicate Filled<V>(nt: array<Entry?<V>>, nc: seq<seq<Entry<V>>>, moved: set<Entry<V>>,
                            cells: map<Bytes, Entry<V>>, hashOf: Bytes -> nat)
    reads nt, moved`next
  {
    && |nc| == nt.Length > 0
    && (forall b :: 0 <= b < |nc| ==> InBucket(nc[b], b, |nc|, cells, hashOf))
    && (forall b, k :: 0 <= b < |nc| && 0 <= k < |nc[b]| ==> nc[b][k] in moved)
    && (forall e :: e in moved ==> e in nc[e.hash % |nc|])
    && (forall b :: 0 <= b < |nc| ==> Linked(nc[b], nt[b]))
  }

  /** Push one entry on the chain of its new bucket. */
  method MoveEntry<V>(nt: array<Entry?<V>>, e: Entry<V>, ghost nc: seq<seq<Entry<V>>>, ghost moved: set<Entry<V>>,
                      ghost cells: map<Bytes, Entry<V>>, hashOf: Bytes -> nat)
    returns (ghost nc': seq<seq<Entry<V>>>)
    requires Filled(nt, nc, moved, cells, hashOf) && ValidSize(nt.Length)
    requires e !in moved && e.key in cells && cells[e.key] == e && e.hash == hashOf(e.key)
    modifies nt, e`next
    ensures Filled(nt, nc', moved + {e}, cells, hashOf)
  {
    hide ValidSize;
    var idx := BitAnd(e.hash, nt.Length - 1);
    BucketIndex(e.hash, nt.Length);
    e.next := nt[idx];
    nt[idx] := e;
    nc' := nc[idx := [e] + nc[idx]];
    assert Linked(nc'[idx], nt[idx]);
    FilledPush(nt, nc, moved, cells, hashOf, e, idx);
  }

  lemma FilledPush<V>(nt: array<Entry?<V>>, nc: seq<seq<Entry<V>>>, moved: set<Entry<V>>,
                      cells: map<Bytes, Entry<V>>, hashOf: Bytes -> nat, e: Entry<V>, idx: nat)
    requires |nc| == nt.Length && idx < |nc| && idx == e.hash % |nc|
    requires forall b :: 0 <= b < |nc| ==> InBucket(nc[b], b, |nc|, cells, hashOf)
    requires forall b, k :: 0 <= b < |nc| && 0 <= k < |nc[b]| ==> nc[b][k] in moved
    requires forall e :: e in moved ==> e in nc[e.hash % |nc|]
    requires e !in moved && e.key in cells && cells[e.key] == e && e.hash == hashOf(e.key)
    requires forall b :: 0 <= b < |nc| && b != idx ==> Linked(nc[b], nt[b])
    requires Linked([e] + nc[idx], nt[idx])
    ensures Filled(nt, nc[idx := [e] + nc[idx]], moved + {e}, cells, hashOf)
  {
    var nc' := nc[idx := [e] + nc[idx]];
    assert InBucket(nc'[idx], idx, |nc|, cells, hashOf) by {
      assert InBucket(nc[idx], idx, |nc|, cells, hashOf);
    }
    forall f | f in moved + {e}
      ensures f in nc'[f.hash % |nc|]
    {
      if f == e {
        assert nc'[idx][0] == e;
      } else {
        assert f in nc[f.hash % |nc|];
      }
    }
  }

  lemma FilledEmpty<V>(nt: array<Entry?<V>>, nc: seq<seq<Entry<V>>>, cells: map<Bytes, Entry<V>>, hashOf: Bytes -> nat)
    requires |nc| == nt.Length > 0 && forall b :: 0 <= b < |nc| ==> nc[b] == [] && nt[b] == null
    ensures Filled(nt, nc, {}, cells, hashOf)
  {
  }

  lemma NothingMoved<V>(chains: seq<seq<Entry<V>>>)
    ensures forall b :: 0 <= b < |chains| ==> Unmoved(chains[b], {})
  {
  }

  lemma BucketOf<V>(cells: map<Bytes, Entry<V>>, chains: seq<seq<Entry<V>>>, hashOf: Bytes -> nat, b: nat)
    requires Placed(cells, chains, hashOf) && b < |chains|
    ensures InBucket(chains[b], b, |chains|, cells, hashOf)
  {
  }

  lemma ChainsApart<V>(cells: map<Bytes, Entry<V>>, chains: seq<seq<Entry<V>>>, hashOf: Bytes -> nat, i: nat)
    requires Placed(cells, chains, hashOf) && i < |chains|
    ensures forall b, k :: 0 <= b < |chains| && b != i && 0 <= k < |chains[b]| ==> chains[b][k] !in chains[i]
  {
    BucketOf(cells, chains, hashOf, i);
    forall b, k | 0 <= b < |chains| && b != i && 0 <= k < |chains[b]|
      ensures chains[b][k] !in chains[i]
    {
      BucketOf(cells, chains, hashOf, b);
    }
  }

  /** Moving one chain leaves the later ones unmoved. */
  lemma StillUnmoved<V>(cells: map<Bytes, Entry<V>>, chains: seq<seq<Entry<V>>>, hashOf: Bytes -> nat, i: nat,
                        was: set<Entry<V>>, moved: set<Entry<V>>)
    requires Placed(cells, chains, hashOf) && i < |chains|
    requires forall b :: i < b < |chains| ==> Unmoved(chains[b], was)
    requires forall e :: e in moved <==> e in was || e in chains[i]
    ensures forall b :: i < b < |chains| ==> Unmoved(chains[b], moved)
  {
    BucketOf(cells, chains, hashOf, i);
    forall b | i < b < |chains|
      ensures Unmoved(chains[b], moved)
    {
      BucketOf(cells, chains, hashOf, b);
      assert Unmoved(chains[b], was);
    }
  }

  lemma PlacedResized<V>(cells: map<Bytes, Entry<V>>, chains: seq<seq<Entry<V>>>, hashOf: Bytes -> nat,
                         nt: array<Entry?<V>>, nc: seq<seq<Entry<V>>>, moved: set<Entry<V>>)
    requires Placed(cells, chains, hashOf) && Filled(nt, nc, moved, cells, hashOf)
    requires forall b, k :: 0 <= b < |chains| && 0 <= k < |chains[b]| ==> chains[b][k] in moved
    ensures Placed(cells, nc, hashOf)
    ensures |nc| == nt.Length && forall b :: 0 <= b < |nc| ==> Linked(nc[b], nt[b])
  {
    forall key | key in cells
      ensures cells[key] in nc[hashOf(key) % |nc|]
    {
      var b := hashOf(key) % |chains|;
      BucketOf(cells, chains, hashOf, b);
      var k :| 0 <= k < |chains[b]| && chains[b][k] == cells[key];
      assert chains[b][k] in moved && chains[b][k].hash == hashOf(key);
    }
  }

  /** The inner loop of dict_resize: move a whole old chain. */
  method MoveChain<V>(nt: array<Entry?<V>>, head: Entry?<V>, ghost c: seq<Entry<V>>, ghost b: nat, ghost size: nat,
                      ghost nc: seq<seq<Entry<V>>>, ghost moved: set<Entry<V>>,
                      ghost cells: map<Bytes, Entry<V>>, hashOf: Bytes -> nat)
    returns (ghost nc': seq<seq<Entry<V>>>, ghost moved': set<Entry<V>>)
    requires Filled(nt, nc, moved, cells, hashOf) && ValidSize(nt.Length)
    requires size > 0 && InBucket(c, b, size, cells, hashOf) && Linked(c, head) && Unmoved(c, moved)
    modifies nt, c`next
    ensures Filled(nt, nc', moved', cells, hashOf)
    ensures forall e :: e in moved' <==> e in moved || e in c
  {
    hide ValidSize, Filled;
    ghost var j := 0;
    nc', moved' := nc, moved;
    var e := head;
    while e != null
      invariant 0 <= j <= |c| && e == if j < |c| then c[j] else null
      invariant forall k {:trigger c[k].next} :: j <= k < |c| ==> c[k].next == if k + 1 < |c| then c[k + 1] else null
      invariant Filled(nt, nc', moved', cells, hashOf)
      invariant forall e :: e in moved' <==> e in moved || e in c[..j]
      decreases |c| - j
    {
      var next := e.next;
      assert c[j] == e && c[..j + 1] == c[..j] + [e];
      nc' := MoveEntry(nt, e, nc', moved', cells, hashOf);
      moved', j, e := moved' + {e}, j + 1, next;
    }
    assert c[..j] == c;
  }

  class Dict<V> {
    var table: array<Entry?<V>>
    var size: nat
    var used: nat
    const hashOf: Bytes -> nat                // keyed by the dictionary's random seed
    ghost var chains: seq<seq<Entry<V>>>
    ghost var cells: map<Bytes, Entry<V>>     // the live entry of each key

    ghost predicate Valid()
      reads this, table, cells.Values
    {
      && size == |chains| == table.Length && ValidSize(size)
      && used == |cells| && 4 * used <= 3 * size
      && Placed(cells, chains, hashOf)
      && (forall b :: 0 <= b < size ==> Linked(chains[b], table[b]))
    }

    /** The finite map that the table stands for. */
    ghost function Model(): map<Bytes, V>
      reads this, cells.Values`val
    {
      map key | key in cells :: cells[key].val
    }

    constructor (hashOf: Bytes -> nat)
      ensures Valid() && Model() == map[] && fresh(table) && this.hashOf == hashOf && cells == map[]
    {
      this.hashOf := hashOf;
      table, size, used := new Entry?<V>[0], 0, 0;
      chains, cells := [], map[];
    }

    /** The chain walk shared by get, set and delete, with the trailing pointer that delete keeps. */
    method Find(idx: nat, key: Bytes, hash: nat) returns (prev: Entry?<V>, e: Entry?<V>, ghost j: nat)
      requires Valid() && size > 0 && hash == hashOf(key) && idx == hash % size
      ensures j <= |chains[idx]| && e == (if j < |chains[idx]| then chains[idx][j] else null)
      ensures prev == if j == 0 then null else chains[idx][j - 1]
      ensures e == null <==> key !in cells
      ensures e != null ==> e == cells[key] && e.key == key
    {

      hide Placed, ValidSize;
      ghost var c := chains[idx];
      CellInChain(cells, chains, hashOf, key);
      prev, e, j := null, table[idx], 0;
      assert Linked(c, table[idx]);
      while e != null
        invariant j <= |c| && e == if j < |c| then c[j] else null
        invariant prev == if j == 0 then null else c[j - 1]
        invariant Linked(c, table[idx]) && forall k :: 0 <= k < j ==> c[k].key != key
        decreases |c| - j
      {
        assert c[j].key == key ==> c[j].hash == hash;
        if e.hash == hash && e.key == key {
          return;
        }
        prev, e, j := e, e.next, j + 1;
      }
    }

    /** dict_get. */
    method Get(key: Bytes) returns (v: Option<V>)
      requires Valid()
      ensures v == if key in Model() then Some(Model()[key]) else None
    {
      if size == 0 {
        return None;
      }
      var h := hashOf(key);
      var idx := BitAnd(h, size - 1);
      BucketIndex(h, size);
      var _, e, _ := Find(idx, key, h);
      if e != null {
        return Some(e.val);
      }
      return None;
    }

    /** Take entry j out of bucket idx. */
    method Unlink(idx: nat, prev: Entry?<V>, e: Entry<V>, ghost j: nat)
      requires size == |chains| == table.Length && idx < size && j < |chains[idx]| && e == chains[idx][j]
      requires prev == if j == 0 then null else chains[idx][j - 1]
      requires Placed(cells, chains, hashOf)
      requires forall b :: 0 <= b < size ==> Linked(chains[b], table[b])
      modifies table, cells.Values`next
      ensures forall b :: 0 <= b < size ==> Linked(chains[idx := Without(chains[idx], j)][b], table[b])
    {
      hide Placed;
      ghost var c := chains[idx];
      BucketFacts(cells, chains, hashOf, idx);
      if prev != null {
        OtherBuckets(cells, chains, hashOf, idx, j - 1);
        prev.next := e.next;
      } else {
        table[idx] := e.next;
      }
      LinkedWithout(c, j, table[idx]);
    }

    method Drop(idx: nat, prev: Entry?<V>, e: Entry<V>, ghost j: nat)
      requires Valid() && idx < size && j < |chains[idx]| && e == chains[idx][j]
      requires prev == if j == 0 then null else chains[idx][j - 1]
      modifies table, cells.Values`next, this`used, this`chains, this`cells
      ensures Valid() && e.key in old(cells) && cells == old(cells) - {e.key}
      ensures chains == old(chains)[idx := Without(old(chains)[idx], j)]
    {
      hide Placed, ValidSize, Linked, InBucket;
      CellOf(cells, chains, hashOf, idx, j);
      PlacedDelete(cells, chains, hashOf, idx, j);
      Unlink(idx, prev, e, j);
      used := used - 1;
      chains := chains[idx := Without(chains[idx], j)];
      cells := cells - {e.key};
    }

    /** dict_delete: the value that was stored, if any. */
    method Delete(key: Bytes) returns (was: Option<V>, ghost j: nat)
      requires Valid()
      modifies table, cells.Values`next, this`used, this`chains, this`cells
      ensures Valid() && Model() == old(Model()) - {key} && cells == old(cells) - {key}
      ensures was == if key in old(Model()) then Some(old(Model()[key])) else None
      ensures key in old(cells) ==> size > 0 && j < |old(chains)[hashOf(key) % size]|
      ensures key in old(cells) ==> old(chains)[hashOf(key) % size][j] == old(cells)[key]
      ensures key in old(cells) ==>
                chains == old(chains)[hashOf(key) % size := Without(old(chains)[hashOf(key) % size], j)]
    {
      hide Placed, ValidSize, Linked, Without;
      if size == 0 {
        NoCells(cells, chains, hashOf);
        return None, 0;
      }
      var h := hashOf(key);
      var idx := BitAnd(h, size - 1);
      BucketIndex(h, size);
      var prev, e;
      prev, e, j := Find(idx, key, h);
      if e == null {
        return None, 0;
      }
      was := Some(e.val);
      Drop(idx, prev, e, j);
      ModelDropped(key);
    }

    twostate lemma ModelDropped(key: Bytes)
      requires cells == old(cells) - {key} && forall e :: e in old(cells.Values) ==> e.val == old(e.val)
      ensures Model() == old(Model()) - {key}
    {
      assert forall k :: k in cells ==> cells[k] in old(cells.Values);
    }

    /** The outer loop of dict_resize. */
    method MoveAll(nt: array<Entry?<V>>) returns (ghost nc: seq<seq<Entry<V>>>)
      requires Valid() && nt.Length > 0 && ValidSize(nt.Length) && nt != table
      requires forall b :: 0 <= b < nt.Length ==> nt[b] == null
      modifies nt, cells.Values`next
      ensures Placed(cells, nc, hashOf) && |nc| == nt.Length
      ensures forall b :: 0 <= b < |nc| ==> Linked(nc[b], nt[b])
    {
      hide Placed, ValidSize, Linked, InBucket, Filled, Unmoved;
      ghost var moved: set<Entry<V>> := {};
      nc := seq(nt.Length, _ => []);
      FilledEmpty(nt, nc, cells, hashOf);
      NothingMoved(chains);
      for i := 0 to size
        invariant Filled(nt, nc, moved, cells, hashOf)
        invariant forall b :: i <= b < size ==> Linked(chains[b], table[b]) && Unmoved(chains[b], moved)
        invariant forall b, k :: 0 <= b < i && 0 <= k < |chains[b]| ==> chains[b][k] in moved
      {
        BucketFacts(cells, chains, hashOf, i);
        BucketOf(cells, chains, hashOf, i);
        ChainsApart(cells, chains, hashOf, i);
        ghost var was := moved;
        nc, moved := MoveChain(nt, table[i], chains[i], i, size, nc, moved, cells, hashOf);
        StillUnmoved(cells, chains, hashOf, i, was, moved);
      }
      PlacedResized(cells, chains, hashOf, nt, nc, moved);
    }

    /** dict_resize: relink every entry into a fresh table. */
    method Resize(newSize: nat)
      requires Valid() && newSize > 0 && ValidSize(newSize) && 4 * used <= 3 * newSize
      modifies this`table, this`size, this`chains, cells.Values`next
      ensures Valid() && size == newSize && fresh(table)
    {
      hide Placed, ValidSize, Linked;
      var nt := new Entry?<V>[newSize](_ => null);
      ghost var nc := MoveAll(nt);
      table, size, chains := nt, newSize, nc;
    }

    /** dict_grow: after it there is room for one more entry. */
    method Grow()
      requires Valid()
      modifies this`table, this`size, this`chains, cells.Values`next
      ensures Valid() && size > 0 && 4 * (used + 1) <= 3 * size && (table == old(table) || fresh(table))
      ensures Model() == old(Model())
    {
      hide Placed, Linked, ValidSize;
      if size == 0 {
        FirstSize();
        Resize(INITIAL_SIZE);
      } else {
        NextSize(size, used);
        if used * 4 >= size * 3 {
          Resize(size * 2);
        }
      }
    }

    /** dict_set: insert or replace; the value that was stored before, if any. */
    method Set(key: Bytes, val: V) returns (was: Option<V>)
      requires Valid()
      modifies this, table, cells.Values
      ensures Valid() && Model() == old(Model())[key := val]
      ensures was == if key in old(Model()) then Some(old(Model()[key])) else None
      ensures table == old(table) || fresh(table)
      ensures forall e :: e in cells.Values ==> e in old(cells.Values) || fresh(e)
    {
      hide Placed, ValidSize, Linked;
      Grow();
      was := Put(key, val);
    }

    /** dict_set once there is room. */
    method Put(key: Bytes, val: V) returns (was: Option<V>)
      requires Valid() && size > 0 && 4 * (used + 1) <= 3 * size
      modifies table, cells.Values, this`used, this`chains, this`cells
      ensures Valid() && Model() == old(Model())[key := val]
      ensures was == if key in old(Model()) then Some(old(Model()[key])) else None
      ensures forall e :: e in cells.Values ==> e in old(cells.Values) || fresh(e)
    {
      hide Placed, ValidSize, Linked;
      var h := hashOf(key);
      var idx := BitAnd(h, size - 1);
      BucketIndex(h, size);
      var _, e, _ := Find(idx, key, h);
      if e != null {
        was := Some(e.val);
        Replace(e, val);
        return;
      }
      Push(idx, key, h, val);
      return None;
    }

    method Replace(e: Entry<V>, val: V)
      requires Valid() && e.key in cells && cells[e.key] == e
      modifies e`val
      ensures Valid() && Model() == old(Model())[e.key := val]
    {
      hide Placed, ValidSize, Linked;
      KeysOfCells(cells, chains, hashOf);
      e.val := val;
    }

    /** A new entry at the head of its bucket. */
    method Push(idx: nat, key: Bytes, h: nat, val: V)
      requires Valid() && size > 0 && h == hashOf(key) && idx == h % size && key !in cells && 4 * (used + 1) <= 3 * size
      modifies table, this`used, this`chains, this`cells
      ensures Valid() && key in cells && cells == old(cells)[key := cells[key]] && fresh(cells[key])
      ensures cells[key].val == val
    {
      hide Placed, ValidSize;
      var e := new Entry(key, h, val, table[idx]);
      table[idx] := e;
      used := used + 1;
      PlacedSet(cells, chains, hashOf, idx, e);
      chains := chains[idx := [e] + chains[idx]];
      cells := cells[key := e];
      assert Linked(chains[idx], table[idx]);
    }

    /** Any run of insertions and deletions, through any resizes: the table stands for the map that the run builds. */
    method Run(ops: seq<DictOp<V>>)
      requires Valid()
      modifies this, table, cells.Values
      ensures Valid() && Model() == Meaning(old(Model()), ops)
    {
      hide Valid, Model;
      for k := 0 to |ops|
        invariant Valid() && Model() == Meaning(old(Model()), ops[..k])
        invariant table == old(table) || fresh(table)
        invariant forall e :: e in cells.Values ==> e in old(cells.Values) || fresh(e)
      {
        assert ops[..k + 1][..k] == ops[..k];
        match ops[k] {
          case SetOp(key, val) =>
            var _ := Set(key, val);
          case DeleteOp(key) =>
            var _, _ := Delete(key);
        }
      }
      assert ops[..|ops|] == ops;
    }
  }

  datatype DictOp<V> = SetOp(key: Bytes, val: V) | DeleteOp(key: Bytes)

  ghost function Meaning<V>(m: map<Bytes, V>, ops: seq<DictOp<V>>): map<Bytes, V> {
    if ops == [] then m
    else
      var before := Meaning(m, ops[..|ops| - 1]);
      match ops[|ops| - 1]
      case SetOp(key, val) => before[key := val]
      case DeleteOp(key) => before - {key}
  }

  /** What Valid says of a table: `used` is the map's size, the load stays at three quarters, every key has one entry,
      in the bucket of its hash. */
  lemma TableShape<V>(d: Dict<V>)
    requires d.Valid()
    ensures d.used == |d.Model()| && ValidSize(d.size) && 4 * d.used <= 3 * d.size && d.Model().Keys == d.cells.Keys
    ensures forall b, k :: 0 <= b < |d.chains| && 0 <= k < |d.chains[b]| ==>
              var e := d.chains[b][k]; e.key in d.cells && d.cells[e.key] == e && d.hashOf(e.key) % d.size == b
  {
    assert d.Model().Keys == d.cells.Keys;
    assert |d.Model().Keys| == |d.Model()| && |d.cells.Keys| == |d.cells|;
    forall b, k | 0 <= b < |d.chains| && 0 <= k < |d.chains[b]|
      ensures var e := d.chains[b][k]; e.key in d.cells && d.cells[e.key] == e && d.hashOf(e.key) % d.size == b
    {
      BucketOf(d.cells, d.chains, d.hashOf, b);
    }
  }
}
