/** The sorted set: a hash table from member to node beside the skip list that owns the nodes. */
module ZSets {
  import opened Orders
  import opened SkipLists
  import Dicts

  /** The dictionary leads from each member to the live node that holds it, and to nothing else. */
  ghost predicate Agree(d: map<Bytes, Node>, ns: seq<Node>) {
    && (forall p :: 1 <= p < |ns| ==> ns[p].member in d && d[ns[p].member] == ns[p])
    && (forall m :: m in d ==> d[m].member == m && exists p :: 1 <= p < |ns| && ns[p] == d[m])
  }

  lemma AgreeInserted(d: map<Bytes, Node>, ns: seq<Node>, r: nat, x: Node)
    requires Agree(d, ns) && r < |ns| && x.member !in d
    ensures Agree(d[x.member := x], Inserted(ns, r, x))
  {
    var ns' := Inserted(ns, r, x);
    forall m | m in d
      ensures exists p :: 1 <= p < |ns'| && ns'[p] == d[m]
    {
      var p :| 1 <= p < |ns| && ns[p] == d[m];
      assert ns'[if p <= r then p else p + 1] == d[m];
    }
    assert ns'[r + 1] == x;
  }

  lemma AgreeRemoved(d: map<Bytes, Node>, ns: seq<Node>, r: nat)
    requires Agree(d, ns) && r + 1 < |ns|
    requires forall p :: 1 <= p < |ns| && p != r + 1 ==> ns[p] != ns[r + 1]
    ensures Agree(d - {ns[r + 1].member}, Removed(ns, r))
  {
    hide Removed;
    var x, ns' := ns[r + 1], Removed(ns, r);
    var d' := d - {x.member};
    forall p | 1 <= p < |ns'|
      ensures ns'[p].member in d' && d'[ns'[p].member] == ns'[p]
    {
      var q := if p <= r then p else p + 1;
      assert ns'[p] == ns[q];
      assert d[ns[q].member] == ns[q] && ns[q] != x;
    }
    forall m | m in d'
      ensures exists p :: 1 <= p < |ns'| && ns'[p] == d[m]
    {
      var p :| 1 <= p < |ns| && ns[p] == d[m];
      assert ns'[if p <= r then p else p - 1] == d[m];
    }
  }

  /** Insertion and removal bring in no other nodes, and a node stands at one position only. */
  lemma InsertedElements(ns: seq<Node>, r: nat, x: Node)
    requires r < |ns|
    ensures forall n :: n in Inserted(ns, r, x) ==> n in ns || n == x
  {
    forall n | n in Inserted(ns, r, x)
      ensures n in ns || n == x
    {
      var k :| 0 <= k < |ns| + 1 && Inserted(ns, r, x)[k] == n;
    }
  }

  lemma RemovedElements(ns: seq<Node>, r: nat)
    requires Distinct(ns) && r + 1 < |ns|
    ensures forall n :: n in Removed(ns, r) ==> n in ns
    ensures forall p :: 1 <= p < |ns| && p != r + 1 ==> ns[p] != ns[r + 1]
  {
  }

  lemma ValidShape(l: SkipList)
    requires l.Valid()
    ensures Distinct(l.nodes) && |l.nodes| == l.length + 1
  {
  }

  lemma EmptyAgrees(l: SkipList)
    requires l.Valid() && l.length == 0
    ensures Agree(map[], l.nodes) && ScoresOf(map[]) == map[]
  {
    hide Pictured;
  }

  lemma MemberOf(d: map<Bytes, Node>, ns: seq<Node>, m: Bytes)
    requires Agree(d, ns) && m in d
    ensures d[m].member == m
  {
  }

  lemma NotListed(d: map<Bytes, Node>, ns: seq<Node>, m: Bytes)
    requires Agree(d, ns) && m !in d
    ensures forall p :: 1 <= p < |ns| ==> ns[p].member != m
  {
  }

  lemma Position(d: map<Bytes, Node>, ns: seq<Node>, n: Node)
    requires Agree(d, ns) && n.member in d && d[n.member] == n
    ensures exists p :: 1 <= p < |ns| && ns[p].score == n.score && ns[p].member == n.member
  {
    var p :| 1 <= p < |ns| && ns[p] == n;
  }

  ghost function MembersUpTo(ns: seq<Node>, k: nat): set<Bytes>
    requires k <= |ns|
  {
    set p | 1 <= p < k :: ns[p].member
  }

  lemma MemberOnce(d: map<Bytes, Node>, ns: seq<Node>, q: nat)
    requires Agree(d, ns) && Distinct(ns) && 1 <= q < |ns|
    ensures forall p :: 1 <= p < q ==> ns[p].member != ns[q].member
  {
    forall p | 1 <= p < q
      ensures ns[p].member != ns[q].member
    {
      assert d[ns[p].member] == ns[p] && d[ns[q].member] == ns[q];
    }
  }

  lemma {:induction false} CountMembers(d: map<Bytes, Node>, ns: seq<Node>, k: nat)
    requires Agree(d, ns) && Distinct(ns) && 1 <= k <= |ns|
    ensures |MembersUpTo(ns, k)| == k - 1
  {
    hide Agree, Distinct;
    if k > 1 {
      CountMembers(d, ns, k - 1);
      MemberOnce(d, ns, k - 1);
      assert MembersUpTo(ns, k) == MembersUpTo(ns, k - 1) + {ns[k - 1].member};
    } else {
      assert MembersUpTo(ns, k) == {};
    }
  }

  lemma EveryMember(d: map<Bytes, Node>, ns: seq<Node>)
    requires Agree(d, ns)
    ensures MembersUpTo(ns, |ns|) == d.Keys
  {
    forall m | m in d
      ensures m in MembersUpTo(ns, |ns|)
    {
      var p :| 1 <= p < |ns| && ns[p] == d[m];
    }
  }

  /** Each member occurs at one position, and zset_len counts the members. */
  lemma OneNodePerMember(zs: ZSet)
    requires zs.Valid()
    ensures forall p, q :: 1 <= p < q < |zs.zsl.nodes| ==> zs.zsl.nodes[p].member != zs.zsl.nodes[q].member
    ensures zs.zsl.length == |zs.Scores()|
  {
    hide Pictured, Agree, Distinct, MembersUpTo, Dicts.Dict.Valid, Dicts.Dict.Model;
    var ns, d := zs.zsl.nodes, zs.dict.Model();
    ValidShape(zs.zsl);
    forall p, q | 1 <= p < q < |ns|
      ensures ns[p].member != ns[q].member
    {
      MemberOnce(d, ns, q);
    }
    CountMembers(d, ns, |ns|);
    EveryMember(d, ns);
    assert zs.Scores().Keys == d.Keys;
  }

  // ---- Whole runs ----

  datatype Op = AddOp(score: Score, member: Bytes, height: nat) | RemoveOp(member: Bytes)

  /** What a run of operations means for the member-to-score map. */
  ghost function Meaning(scores: map<Bytes, Score>, ops: seq<Op>): map<Bytes, Score> {
    if ops == [] then scores
    else
      var before := Meaning(scores, ops[..|ops| - 1]);
      match ops[|ops| - 1]
      case AddOp(score, member, _) => before[member := score]
      case RemoveOp(member) => before - {member}
  }

  ghost function ScoresOf(d: map<Bytes, Node>): (r: map<Bytes, Score>)
    ensures r.Keys == d.Keys
  {
    map m | m in d :: d[m].score
  }

  lemma ScoresChange(d: map<Bytes, Node>, m: Bytes, n: Node)
    ensures ScoresOf(d - {m}) == ScoresOf(d) - {m} && ScoresOf(d[m := n]) == ScoresOf(d)[m := n.score]
  {
  }

  class ZSet {
    const dict: Dicts.Dict<Node>
    const zsl: SkipList
    ghost var Repr: set<object>

    /** Both structures are sound, and the table of the one leads to the nodes of the other. */
    ghost predicate Valid()
      reads this, Repr
    {
      Owned() && dict.Valid() && zsl.Valid() && Agree(dict.Model(), zsl.nodes)
    }

    ghost predicate Owned()
      reads this, Repr
    {
      && this in Repr && dict in Repr && zsl in Repr && dict.table in Repr
      && dict.cells.Values <= Repr && forall n :: n in zsl.nodes ==> n in Repr
    }

    ghost function Scores(): map<Bytes, Score>
      reads this, Repr
      requires Valid()
    {
      ScoresOf(dict.Model())
    }

    constructor (hashOf: Bytes -> nat)
      ensures Valid() && Scores() == map[] && fresh(Repr)
    {
      hide SkipList.Valid, Agree, ScoresOf, Dicts.Dict.Valid, Dicts.Dict.Model;
      dict := new Dicts.Dict(hashOf);
      zsl := new SkipList();
      new;
      EmptyAgrees(zsl);
      Repr := {this, dict, dict.table, zsl} + set n | n in zsl.nodes;
    }

    /** The node that the table has for a member. */
    ghost predicate Holds(n: Node)
      reads this, Repr
      requires Valid()
    {
      n.member in dict.Model() && dict.Model()[n.member] == n
    }

    method Lookup(member: Bytes) returns (n: Option<Node>)
      requires Valid()
      ensures n.None? <==> member !in Scores()
      ensures n.Some? ==> n.value.member == member && Holds(n.value) && Scores()[member] == n.value.score
    {
      hide Pictured, Agree, Dicts.Dict.Valid;
      n := dict.Get(member);
      if n.Some? {
        MemberOf(dict.Model(), zsl.nodes, member);
      }
    }

    /** zset_add: 1 for a new member, 2 for a changed score, 0 for the same score. */
    method Add(score: Score, member: Bytes, height: nat) returns (code: int)
      requires Valid() && 1 <= height <= MAXLEVEL
      modifies Repr
      ensures Valid() && fresh(Repr - old(Repr)) && Scores() == old(Scores())[member := score]
      ensures code == if member !in old(Scores()) then 1 else if old(Scores())[member] == score then 0 else 2
    {
      hide Valid, Scores, Holds;
      var n := Lookup(member);
      if n.None? {
        Put(score, member, height);
        return 1;
      }
      if n.value.score == score {
        return 0;
      }
      Drop(n.value);
      Put(score, member, height);
      return 2;
    }

    method Put(score: Score, member: Bytes, height: nat)
      requires Valid() && 1 <= height <= MAXLEVEL && member !in Scores()
      modifies Repr
      ensures Valid() && fresh(Repr - old(Repr)) && Scores() == old(Scores())[member := score]
    {
      hide SkipList.Valid, Inserted, Agree, ScoresOf, Dicts.Dict.Valid, Dicts.Dict.Model;
      ghost var d, ns := dict.Model(), zsl.nodes;
      NotListed(d, ns, member);
      var n, r := zsl.Insert(score, member, height);
      AgreeInserted(d, ns, r, n);
      InsertedElements(ns, r, n);
      var _ := dict.Set(member, n);
      ScoresChange(d, member, n);
      Repr := Repr + {n, dict.table} + dict.cells.Values;
    }

    method Drop(n: Node)
      requires Valid() && Holds(n)
      modifies Repr
      ensures Valid() && Repr == old(Repr) && Scores() == old(Scores()) - {n.member}
    {
      hide SkipList.Valid, Removed, Agree, Distinct, ScoresOf, Dicts.Dict.Valid, Dicts.Dict.Model;
      ghost var d, ns := dict.Model(), zsl.nodes;
      assert Distinct(ns) by { ValidShape(zsl); }
      Position(d, ns, n);
      var found, r := zsl.Delete(n.score, n.member);
      RemovedElements(ns, r);
      AgreeRemoved(d, ns, r);
      var _, _ := dict.Delete(n.member);
      ScoresChange(d, n.member, n);
    }

    /** zset_remove. */
    method Remove(member: Bytes) returns (removed: bool)
      requires Valid()
      modifies Repr
      ensures Valid() && Repr == old(Repr)
      ensures removed == (member in old(Scores())) && Scores() == old(Scores()) - {member}
    {
      hide Valid, Scores, Holds;
      var n := Lookup(member);
      if n.None? {
        return false;
      }
      Drop(n.value);
      return true;
    }

    /** zset_score. */
    method GetScore(member: Bytes) returns (score: Option<Score>)
      requires Valid()
      ensures score == if member in Scores() then Some(Scores()[member]) else None
    {
      hide Valid, Scores, Holds;
      var n := Lookup(member);
      return if n.None? then None else Some(n.value.score);
    }

    /** Any run of additions and removals, with any random heights, keeps the set valid and means what it should. */
    method Run(ops: seq<Op>)
      requires Valid() && forall k :: 0 <= k < |ops| && ops[k].AddOp? ==> 1 <= ops[k].height <= MAXLEVEL
      modifies Repr
      ensures Valid() && Scores() == Meaning(old(Scores()), ops)
    {
      hide Valid, Scores;
      for k := 0 to |ops|
        invariant Valid() && Scores() == Meaning(old(Scores()), ops[..k]) && fresh(Repr - old(Repr))
      {
        assert ops[..k + 1][..k] == ops[..k];
        match ops[k] {
          case AddOp(score, member, height) =>
            var _ := Add(score, member, height);
          case RemoveOp(member) =>
            var _ := Remove(member);
        }
      }
      assert ops[..|ops|] == ops;
    }
  }
}
