/** Iteration over an unchanged hash table, and the two-pass set commands built on it. */
module DictIters {
  import opened Orders
  import opened Dicts

  /** All entries, bucket by bucket. */
  ghost function Flat<T>(cs: seq<seq<T>>): seq<T> {
    if cs == [] then [] else Flat(cs[..|cs| - 1]) + cs[|cs| - 1]
  }

  /** How many entries stand before bucket b. */
  ghost function Offset<T>(cs: seq<seq<T>>, b: nat): nat
    requires b <= |cs|
  {
    |Flat(cs[..b])|
  }

  lemma OffsetStep<T>(cs: seq<seq<T>>, b: nat)
    requires b < |cs|
    ensures Offset(cs, b + 1) == Offset(cs, b) + |cs[b]|
  {
    assert cs[..b + 1][..b] == cs[..b];
  }

  lemma {:induction false} FlatPrefix<T>(cs: seq<seq<T>>, b: nat)
    requires b <= |cs|
    ensures Flat(cs[..b]) <= Flat(cs)
    decreases |cs|
  {
    if b < |cs| {
      var cs' := cs[..|cs| - 1];
      FlatPrefix(cs', b);
      assert cs'[..b] == cs[..b];
    } else {
      assert cs[..b] == cs;
    }
  }

  lemma FlatAt<T>(cs: seq<seq<T>>, b: nat, k: nat)
    requires b < |cs| && k < |cs[b]|
    ensures Offset(cs, b) + k < |Flat(cs)| && Flat(cs)[Offset(cs, b) + k] == cs[b][k]
  {
    FlatPrefix(cs, b + 1);
    assert cs[..b + 1][..b] == cs[..b];
    assert Flat(cs[..b + 1]) == Flat(cs[..b]) + cs[b];
    assert Flat(cs[..b + 1])[Offset(cs, b) + k] == cs[b][k];
  }

  lemma OffsetAll<T>(cs: seq<seq<T>>)
    ensures Offset(cs, |cs|) == |Flat(cs)|
  {
    assert cs[..|cs|] == cs;
  }

  lemma Shape<V>(d: Dict<V>)
    requires d.Valid()
    ensures d.size == |d.chains| == d.table.Length
  {
  }

  lemma ChainOf<V>(d: Dict<V>, b: nat)
    requires d.Valid() && b < d.size
    ensures b < |d.chains| && b < d.table.Length && Linked(d.chains[b], d.table[b])
  {
  }

  // ---- The order of iteration is an enumeration of the table ----

  predicate NoDup<T(==)>(s: seq<T>) {
    forall i, j :: 0 <= i < j < |s| ==> s[i] != s[j]
  }

  lemma {:induction false} FlatDistinct<V>(cells: map<Bytes, Entry<V>>, chains: seq<seq<Entry<V>>>,
                                           hashOf: Bytes -> nat, b: nat)
    requires Placed(cells, chains, hashOf) && b <= |chains|
    ensures NoDup(Flat(chains[..b]))
    ensures forall i :: 0 <= i < Offset(chains, b) ==>
              var e := Flat(chains[..b])[i]; e.hash % |chains| < b && e.key in cells && cells[e.key] == e
  {
    if b > 0 {
      FlatDistinct(cells, chains, hashOf, b - 1);
      assert chains[..b][..b - 1] == chains[..b - 1];
      BucketOf(cells, chains, hashOf, b - 1);
    }
  }

  ghost function KeysOf<V>(es: seq<Entry<V>>): (ks: seq<Bytes>)
    ensures |ks| == |es| && forall i :: 0 <= i < |es| ==> ks[i] == es[i].key
  {
    seq(|es|, i requires 0 <= i < |es| => es[i].key)
  }

  lemma {:induction false} NoDupCount<T>(s: seq<T>)
    requires NoDup(s)
    ensures |set x | x in s| == |s|
  {
    if s != [] {
      var s' := s[..|s| - 1];
      NoDupCount(s');
      assert s == s' + [s[|s| - 1]];
      assert (set x | x in s) == (set x | x in s') + {s[|s| - 1]};
    } else {
      assert (set x | x in s) == {};
    }
  }

  /** Every key of the table comes exactly once, and `used` counts them. */
  lemma OrderExact<V>(d: Dict<V>)
    requires d.Valid()
    ensures NoDup(KeysOf(Flat(d.chains))) && |Flat(d.chains)| == d.used
    ensures forall key :: key in KeysOf(Flat(d.chains)) <==> key in d.cells
  {
    hide Linked, ValidSize, InBucket, Flat;
    var es := Flat(d.chains);
    var ks := KeysOf(es);
    assert d.chains[..|d.chains|] == d.chains;
    FlatDistinct(d.cells, d.chains, d.hashOf, |d.chains|);
    forall key | key in d.cells
      ensures key in ks
    {
      var b := d.hashOf(key) % |d.chains|;
      var k :| 0 <= k < |d.chains[b]| && d.chains[b][k] == d.cells[key];
      FlatAt(d.chains, b, k);
      assert ks[Offset(d.chains, b) + k] == key;
    }
    NoDupCount(ks);
    assert (set key | key in ks) == d.cells.Keys;
  }

  class DictIter<V> {
    const d: Dict<V>
    var bucket: nat
    var entry: Entry?<V>
    ghost var k: nat           // index of the entry in its bucket
    ghost var pos: nat         // entries handed out so far

    ghost predicate Valid()
      reads this, d, d.table, d.cells.Values
    {
      && d.Valid() && bucket <= d.size == |d.chains|
      && (entry == null ==> pos == Offset(d.chains, bucket))
      && (entry != null ==> bucket < d.size && k < |d.chains[bucket]| && entry == d.chains[bucket][k]
                            && pos == Offset(d.chains, bucket) + k + 1)
    }

    /** dict_iter_init. */
    constructor (d: Dict<V>)
      requires d.Valid()
      ensures Valid() && this.d == d && pos == 0
    {
      hide Dict.Valid;
      Shape(d);
      this.d := d;
      bucket, entry := 0, null;
      k, pos := 0, 0;
    }

    /** dict_iter_next: the entries in order, then NULL for ever. */
    method Next() returns (e: Entry?<V>)
      requires Valid()
      modifies this
      ensures Valid()
      ensures old(pos) < |Flat(d.chains)| ==> e == Flat(d.chains)[old(pos)] && pos == old(pos) + 1
      ensures old(pos) >= |Flat(d.chains)| ==> e == null && pos == old(pos)
    {
      hide Dict.Valid, Flat;
      ghost var cs := d.chains;
      Shape(d);
      if entry != null {
        ChainOf(d, bucket);
        entry, k := entry.next, k + 1;
        if entry != null {
          FlatAt(cs, bucket, k);
          pos := pos + 1;
          return entry;
        }
        OffsetStep(cs, bucket);
        bucket := bucket + 1;
      }
      while bucket < d.size
        invariant bucket <= d.size && entry == null && pos == Offset(cs, bucket) == old(pos)
      {
        ChainOf(d, bucket);
        OffsetStep(cs, bucket);
        if d.table[bucket] != null {
          FlatAt(cs, bucket, 0);
          entry, k, pos := d.table[bucket], 0, pos + 1;
          return entry;
        }
        bucket := bucket + 1;
      }
      OffsetAll(cs);
      return null;
    }
  }
}
