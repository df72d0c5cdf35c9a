/** SINTER and SDIFF: two passes over one hash table, testing each key against the others. */
module SetCommands {
  import opened Orders
  import opened Dicts
  import opened DictIters

  datatype SetOp = Inter | Diff

  /** The keys of ks that are wanted, in order. */
  ghost function Keep(ks: seq<Bytes>, want: set<Bytes>): seq<Bytes> {
    if ks == [] then []
    else Keep(ks[..|ks| - 1], want) + if ks[|ks| - 1] in want then [ks[|ks| - 1]] else []
  }

  lemma {:induction false} KeepExact(ks: seq<Bytes>, want: set<Bytes>)
    requires NoDup(ks)
    ensures NoDup(Keep(ks, want))
    ensures forall m :: m in Keep(ks, want) <==> m in ks && m in want
  {
    if ks != [] {
      KeepExact(ks[..|ks| - 1], want);
      assert ks == ks[..|ks| - 1] + [ks[|ks| - 1]];
    }
  }

  lemma KeepStep(ks: seq<Bytes>, want: set<Bytes>, i: nat)
    requires i < |ks|
    ensures Keep(ks[..i + 1], want) == Keep(ks[..i], want) + if ks[i] in want then [ks[i]] else []
  {
    assert ks[..i + 1][..i] == ks[..i];
  }

  /** What a key must satisfy: to be in every other set, or in none of the later ones. */
  ghost predicate Passes<V>(op: SetOp, sets: seq<Dict?<V>>, base: Dict<V>, key: Bytes)
    reads set i | 0 <= i < |sets| && sets[i] != null :: sets[i]
  {
    match op
    case Inter => forall i :: 0 <= i < |sets| ==> sets[i] == base || (sets[i] != null && key in sets[i].cells)
    case Diff => forall i :: 1 <= i < |sets| ==> sets[i] == null || key !in sets[i].cells
  }

  ghost function Wanted<V>(op: SetOp, sets: seq<Dict?<V>>, base: Dict<V>): set<Bytes>
    reads base, set i | 0 <= i < |sets| && sets[i] != null :: sets[i]
  {
    set key | key in base.cells && Passes(op, sets, base, key)
  }

  /** The inner loop of both passes. */
  method Qualifies<V>(op: SetOp, sets: seq<Dict?<V>>, base: Dict<V>, key: Bytes) returns (q: bool)
    requires forall i :: 0 <= i < |sets| && sets[i] != null ==> sets[i].Valid()
    requires op.Inter? ==> forall i :: 0 <= i < |sets| ==> sets[i] != null
    ensures q == Passes(op, sets, base, key)
  {
    hide Dict.Valid;
    if op.Inter? {
      for i := 0 to |sets|
        invariant forall j :: 0 <= j < i ==> sets[j] == base || key in sets[j].cells
      {
        if sets[i] != base {
          var v := sets[i].Get(key);
          if v.None? {
            return false;
          }
        }
      }
    } else if |sets| > 0 {
      for i := 1 to |sets|
        invariant forall j :: 1 <= j < i ==> sets[j] == null || key !in sets[j].cells
      {
        if sets[i] != null {
          var v := sets[i].Get(key);
          if v.Some? {
            return false;
          }
        }
      }
    }
    return true;
  }

  /** One pass over the base table: the keys that pass, counted or emitted. */
  method Pass<V>(op: SetOp, sets: seq<Dict?<V>>, base: Dict<V>, emit: bool) returns (count: nat, out: seq<Bytes>)
    requires base.Valid() && forall i :: 0 <= i < |sets| && sets[i] != null ==> sets[i].Valid()
    requires op.Inter? ==> forall i :: 0 <= i < |sets| ==> sets[i] != null
    ensures var hits := Keep(KeysOf(Flat(base.chains)), Wanted(op, sets, base));
            count == |hits| && out == if emit then hits else []
  {
    hide Dict.Valid, Passes, Keep, Flat;
    ghost var es := Flat(base.chains);
    ghost var ks, want := KeysOf(es), Wanted(op, sets, base);
    EntriesOf(base);
    KeepNone(ks, want);
    count, out := 0, [];
    var it := new DictIter(base);
    var e := it.Next();
    while e != null
      invariant it.Valid() && fresh(it) && it.d == base
      invariant e != null ==> 1 <= it.pos <= |es| && e == es[it.pos - 1]
      invariant e == null ==> it.pos == |es|
      invariant var hits := Keep(ks[..if e == null then it.pos else it.pos - 1], want);
                count == |hits| && out == if emit then hits else []
      decreases |es| - it.pos, e != null
    {
      KeepStep(ks, want, it.pos - 1);
      var q := Qualifies(op, sets, base, e.key);
      if q {
        count := count + 1;
        if emit {
          out := out + [e.key];
        }
      }
      e := it.Next();
    }
    assert ks[..|es|] == ks;
  }

  lemma KeepNone(ks: seq<Bytes>, want: set<Bytes>)
    ensures Keep(ks[..0], want) == []
  {
  }

  lemma EntriesOf<V>(d: Dict<V>)
    requires d.Valid()
    ensures forall i :: 0 <= i < |Flat(d.chains)| ==> Flat(d.chains)[i].key in d.cells
  {
    OrderExact(d);
    forall i | 0 <= i < |Flat(d.chains)|
      ensures Flat(d.chains)[i].key in d.cells
    {
      assert KeysOf(Flat(d.chains))[i] in KeysOf(Flat(d.chains));
    }
  }

  /** SINTER: iterating only a smallest set still yields the whole intersection. */
  method Sinter<V>(sets: seq<Dict?<V>>) returns (header: nat, out: seq<Bytes>)
    requires |sets| >= 1 && forall i :: 0 <= i < |sets| && sets[i] != null ==> sets[i].Valid()
    ensures header == |out| && NoDup(out)
    ensures forall m :: m in out <==> forall i :: 0 <= i < |sets| ==> sets[i] != null && m in sets[i].cells
  {
    hide Dict.Valid, Keep, Flat;
    for i := 0 to |sets|
      invariant forall j :: 0 <= j < i ==> sets[j] != null
    {
      if sets[i] == null {
        return 0, [];
      }
    }
    var smallest: Dict<V> := sets[0];
    for i := 1 to |sets|
      invariant smallest in sets
    {
      if sets[i].used < smallest.used {
        smallest := sets[i];
      }
    }
    OrderExact(smallest);
    KeepExact(KeysOf(Flat(smallest.chains)), Wanted(Inter, sets, smallest));
    var count, emitted := Pass(Inter, sets, smallest, false);
    header := count;
    count, out := Pass(Inter, sets, smallest, true);
    forall m
      ensures m in Wanted(Inter, sets, smallest) <==> forall i :: 0 <= i < |sets| ==> m in sets[i].cells
    {
      if m in Wanted(Inter, sets, smallest) {
        assert Passes(Inter, sets, smallest, m);
      }
    }
  }

  /** SDIFF: the members of the first set that no other set has. */
  method Sdiff<V>(sets: seq<Dict?<V>>) returns (header: nat, out: seq<Bytes>)
    requires |sets| >= 1 && forall i :: 0 <= i < |sets| && sets[i] != null ==> sets[i].Valid()
    ensures header == |out| && NoDup(out)
    ensures forall m :: m in out <==> sets[0] != null && m in sets[0].cells && Passes(Diff, sets, sets[0], m)
  {
    hide Dict.Valid, Keep, Flat;
    if sets[0] == null {
      return 0, [];
    }
    OrderExact(sets[0]);
    KeepExact(KeysOf(Flat(sets[0].chains)), Wanted(Diff, sets, sets[0]));
    var count, emitted := Pass(Diff, sets, sets[0], false);
    header := count;
    count, out := Pass(Diff, sets, sets[0], true);
  }
}
