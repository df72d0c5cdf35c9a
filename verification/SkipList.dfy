/** The span-indexed skip list of src/zskiplist.c, nodes relinked in place. */
module SkipLists {
  import opened Orders

  const MAXLEVEL: nat := 32

  /** One forward link and the number of level-0 nodes it covers. */
  datatype Link = Link(forward: Node?, span: nat)

  class Node {
    const score: Score
    const member: Bytes
    const height: nat          // number of links allocated with the node
    var level: seq<Link>
    var backward: Node?

    constructor (height: nat, score: Score, member: Bytes)
      ensures this.height == height && this.score == score && this.member == member
      ensures level == seq(height, _ => Link(null, 0)) && backward == null
    {
      this.height, this.score, this.member := height, score, member;
      level := seq(height, _ => Link(null, 0));
      backward := null;
    }
  }

  // ---- The picture: positions 0 (the header) to the length ----

  /** The next position after p whose node is taller than i, or |ns|. */
  ghost function Next(ns: seq<Node>, i: nat, p: nat): (q: nat)
    requires p < |ns|
    ensures p < q <= |ns|
    decreases |ns| - p
  {
    if p + 1 == |ns| then p + 1
    else if ns[p + 1].height > i then p + 1
    else Next(ns, i, p + 1)
  }

  /** The link that position p must hold at level i. */
  ghost function Expect(ns: seq<Node>, i: nat, p: nat): Link
    requires p < |ns|
  {
    var q := Next(ns, i, p);
    if q < |ns| then Link(ns[q], q - p) else Link(null, |ns| - 1 - p)
  }

  /** Every node taller than i holds the right link at level i. */
  ghost predicate LevelOk(ns: seq<Node>, i: nat)
    reads ns`level
  {
    forall p :: 0 <= p < |ns| && i < ns[p].height ==>
      i < |ns[p].level| && ns[p].level[i] == Expect(ns, i, p)
  }

  ghost predicate Shaped(ns: seq<Node>)
    reads ns`level
  {
    && |ns| >= 1 && ns[0].height == MAXLEVEL
    && (forall p :: 0 <= p < |ns| ==> 1 <= ns[p].height <= MAXLEVEL && |ns[p].level| == ns[p].height)
    && Distinct(ns)
  }

  ghost predicate Distinct(ns: seq<Node>) {
    forall p, q :: 0 <= p < q < |ns| ==> ns[p] != ns[q]
  }

  /** Strictly ascending by (score, member). */
  ghost predicate Sorted(ns: seq<Node>) {
    forall p, q :: 1 <= p < q < |ns| ==> KeyLt(ns[p].score, ns[p].member, ns[q].score, ns[q].member)
  }

  /** Each element comes before all that stand behind it. */
  ghost predicate Ascending(ns: seq<Node>) {
    forall p, q :: 1 <= p < q < |ns| ==> Precedes(ns[p].score, ns[p].member, ns[q].score, ns[q].member)
  }

  /** A sound list is ascending by score, and by the bytes of the member among equal scores. */
  lemma ListOrder(l: SkipList)
    requires l.Valid()
    ensures forall p, q :: 1 <= p < q < |l.nodes| ==>
              || l.nodes[p].score.Lt(l.nodes[q].score)
              || (l.nodes[p].score == l.nodes[q].score && LexLt(l.nodes[p].member, l.nodes[q].member))
    ensures Ascending(l.nodes)
  {
    hide KeyLt, LexLt, Shaped, BackOk, LevelOk, Next;
    forall p, q | 1 <= p < q < |l.nodes|
      ensures Precedes(l.nodes[p].score, l.nodes[p].member, l.nodes[q].score, l.nodes[q].member)
    {
      KeyLtPrecedes(l.nodes[p].score, l.nodes[p].member, l.nodes[q].score, l.nodes[q].member);
    }
  }

  ghost predicate BackOk(ns: seq<Node>)
    requires |ns| >= 1
    reads ns`backward
  {
    && ns[0].backward == null
    && (forall p :: 1 <= p < |ns| ==> ns[p].backward == if p == 1 then null else ns[p - 1])
  }

  ghost function Inserted(ns: seq<Node>, r: nat, x: Node): (ns': seq<Node>)
    requires r < |ns|
    ensures |ns'| == |ns| + 1 && ns'[r + 1] == x
    ensures forall k :: 0 <= k <= r ==> ns'[k] == ns[k]
    ensures forall k :: r + 1 < k < |ns'| ==> ns'[k] == ns[k - 1]
  {
    seq(|ns| + 1, k requires 0 <= k < |ns| + 1 => if k <= r then ns[k] else if k == r + 1 then x else ns[k - 1])
  }

  /** u is the last position up to r whose node is taller than i. */
  ghost predicate IsPred(ns: seq<Node>, i: nat, r: nat, u: nat) {
    && u <= r < |ns| && ns[u].height > i
    && (forall q :: u < q <= r ==> ns[q].height <= i)
  }

  ghost predicate IsNext(ns: seq<Node>, i: nat, p: nat, q: nat) {
    && p < q <= |ns|
    && (q < |ns| ==> ns[q].height > i)
    && (forall r :: p < r < q ==> ns[r].height <= i)
  }

  lemma {:induction false} NextSpec(ns: seq<Node>, i: nat, p: nat)
    requires p < |ns|
    ensures IsNext(ns, i, p, Next(ns, i, p))
    decreases |ns| - p
  {
    if p + 1 < |ns| && ns[p + 1].height <= i {
      NextSpec(ns, i, p + 1);
    }
  }

  lemma NextIs(ns: seq<Node>, i: nat, p: nat, q: nat)
    requires IsNext(ns, i, p, q)
    ensures Next(ns, i, p) == q
  {
    NextSpec(ns, i, p);
  }

  /** Where the next tall node is after an insertion behind position r. */
  lemma NextInserted(ns: seq<Node>, i: nat, r: nat, x: Node, p: nat)
    requires r < |ns| && p < |ns|
    ensures var ns', q := Inserted(ns, r, x), Next(ns, i, p);
            && (p >= r ==> Next(ns', i, p + 1) == q + 1)
            && (p <= r ==> Next(ns', i, p) ==
                           if q <= r then q else if x.height > i then r + 1 else q + 1)
  {
    hide Next, Inserted;
    var ns', q := Inserted(ns, r, x), Next(ns, i, p);
    NextSpec(ns, i, p);
    if p >= r {
      assert IsNext(ns', i, p + 1, q + 1);
      NextIs(ns', i, p + 1, q + 1);
    }
    if p <= r {
      var q' := if q <= r then q else if x.height > i then r + 1 else q + 1;
      assert IsNext(ns', i, p, q');
      NextIs(ns', i, p, q');
    }
  }

  /** What insertion does to the two links around the new node, u being its predecessor at level i. */
  lemma ExpectInserted(ns: seq<Node>, i: nat, r: nat, x: Node, u: nat)
    requires IsPred(ns, i, r, u)
    ensures Expect(ns, i, u).span >= r - u
    ensures var ns', was := Inserted(ns, r, x), Expect(ns, i, u);
            && Expect(ns', i, u) == (if x.height > i then Link(x, r - u + 1) else Link(was.forward, was.span + 1))
            && Expect(ns', i, r + 1) == Link(was.forward, was.span - (r - u))
  {
    hide Next, Inserted;
    NextInserted(ns, i, r, x, u);
    NextSpec(ns, i, u);
    NextIs(ns, i, r, Next(ns, i, u));
    NextInserted(ns, i, r, x, r);
  }

  /** Insertion leaves every other link of the level as it was. */
  lemma ExpectKept(ns: seq<Node>, i: nat, r: nat, x: Node, u: nat, p: nat)
    requires IsPred(ns, i, r, u) && p < |ns| && p != u && ns[p].height > i
    ensures Expect(Inserted(ns, r, x), i, if p <= r then p else p + 1) == Expect(ns, i, p)
  {
    hide Next, Inserted;
    NextInserted(ns, i, r, x, p);
    NextSpec(ns, i, p);
  }

  /** A level is right after an insertion when its two touched links are and the rest still hold what they held. */
  lemma LevelInserted(ns: seq<Node>, i: nat, r: nat, x: Node, u: nat)
    requires Shaped(ns) && IsPred(ns, i, r, u) && x !in ns
    requires i < |ns[u].level| && ns[u].level[i] == Expect(Inserted(ns, r, x), i, u)
    requires i < x.height ==> i < |x.level| && x.level[i] == Expect(Inserted(ns, r, x), i, r + 1)
    requires forall p :: 0 <= p < |ns| && p != u && i < ns[p].height ==> ns[p].level[i] == Expect(ns, i, p)
    ensures LevelOk(Inserted(ns, r, x), i)
  {
    hide Expect, Inserted, Distinct;
    var ns' := Inserted(ns, r, x);
    forall p | 0 <= p < |ns'| && i < ns'[p].height
      ensures i < |ns'[p].level| && ns'[p].level[i] == Expect(ns', i, p)
    {
      if p != r + 1 && p != u {
        ExpectKept(ns, i, r, x, u, if p <= r then p else p - 1);
      }
    }
  }

  /** The whole picture of a list whose top level is lv. */
  ghost predicate Pictured(ns: seq<Node>, lv: nat)
    reads ns`level, ns`backward
  {
    && Shaped(ns) && Sorted(ns) && BackOk(ns)
    && 1 <= lv <= MAXLEVEL
    && (forall p :: 1 <= p < |ns| ==> ns[p].height <= lv)
    && (lv > 1 ==> Next(ns, lv - 1, 0) < |ns|)
    && (forall i :: 0 <= i < lv ==> LevelOk(ns, i))
    && (forall i :: lv <= i < MAXLEVEL ==> ns[0].level[i].forward == null)
  }

  lemma PicturedInserted(ns: seq<Node>, r: nat, x: Node, lv: nat)
    requires r < |ns| && Shaped(ns) && x !in ns && 1 <= x.height <= lv <= MAXLEVEL && |x.level| == x.height
    requires Sorted(Inserted(ns, r, x)) && BackOk(Inserted(ns, r, x))
    requires forall p :: 1 <= p < |ns| ==> ns[p].height <= lv
    requires lv > 1 ==> Next(Inserted(ns, r, x), lv - 1, 0) < |ns| + 1
    requires forall i :: 0 <= i < lv ==> LevelOk(Inserted(ns, r, x), i)
    requires forall i :: lv <= i < MAXLEVEL ==> ns[0].level[i].forward == null
    ensures Pictured(Inserted(ns, r, x), lv)
  {
  }

  lemma OnlyHeader(ns: seq<Node>)
    requires |ns| == 1 && ns[0].height == MAXLEVEL && ns[0].level == seq(MAXLEVEL, _ => Link(null, 0))
    requires ns[0].backward == null
    ensures Pictured(ns, 1)
  {
    assert Expect(ns, 0, 0) == Link(null, 0);
  }

  // ---- Removal is insertion read backwards ----

  /** The sequence without position r + 1. */
  ghost function Removed(ns: seq<Node>, r: nat): (ns': seq<Node>)
    requires r + 1 < |ns|
    ensures |ns'| == |ns| - 1 && forall k :: 0 <= k < |ns'| ==> ns'[k] == if k <= r then ns[k] else ns[k + 1]
    ensures Inserted(ns', r, ns[r + 1]) == ns
  {
    ns[..r + 1] + ns[r + 2..]
  }

  lemma LevelRemoved(ns: seq<Node>, i: nat, r: nat, x: Node, u: nat)
    requires IsPred(ns, i, r, u) && forall p :: 0 <= p < |ns| ==> |ns[p].level| == ns[p].height
    requires ns[u].level[i] == Expect(ns, i, u)
    requires forall p :: 0 <= p < |ns| && p != u && i < ns[p].height ==>
      ns[p].level[i] == Expect(Inserted(ns, r, x), i, if p <= r then p else p + 1)
    ensures LevelOk(ns, i)
  {
    hide Expect, Inserted;
    forall p | 0 <= p < |ns| && i < ns[p].height
      ensures ns[p].level[i] == Expect(ns, i, p)
    {
      if p != u {
        ExpectKept(ns, i, r, x, u, p);
      }
    }
  }

  lemma ShapedRemoved(ns: seq<Node>, r: nat, lv: nat)
    requires Shaped(ns) && r + 1 < |ns| && forall p :: 1 <= p < |ns| ==> ns[p].height <= lv
    ensures Shaped(Removed(ns, r)) && ns[r + 1] !in Removed(ns, r)
    ensures forall p :: 1 <= p < |ns| - 1 ==> Removed(ns, r)[p].height <= lv
  {
    hide Removed, Inserted;
    var ns' := Removed(ns, r);
    forall p, q | 0 <= p < q < |ns'|
      ensures ns'[p] != ns'[q]
    {
      assert ns[if p <= r then p else p + 1] != ns[if q <= r then q else q + 1];
    }
    assert ns'[0] == ns[0];
    forall p | 0 <= p < |ns'|
      ensures ns'[p] != ns[r + 1] && 1 <= ns'[p].height <= MAXLEVEL && |ns'[p].level| == ns'[p].height
      ensures p >= 1 ==> ns'[p].height <= lv
    {
      assert ns'[p] == ns[if p <= r then p else p + 1];
    }
  }

  lemma PredRemoved(ns: seq<Node>, i: nat, r: nat, u: nat)
    requires r + 1 < |ns| && IsPred(ns, i, r, u)
    ensures IsPred(Removed(ns, r), i, r, u) && u <= r
  {
    hide Removed, Inserted;
  }

  lemma PredsRemoved(ns: seq<Node>, r: nat, lv: nat, update: seq<Node>, rank: seq<nat>)
    requires r + 1 < |ns| && lv <= |update| == |rank|
    requires forall i :: 0 <= i < lv ==> IsPred(ns, i, r, rank[i]) && update[i] == ns[rank[i]]
    ensures forall i :: 0 <= i < lv ==> IsPred(Removed(ns, r), i, r, rank[i])
    ensures forall i :: 0 <= i < lv ==> rank[i] <= r && update[i] == Removed(ns, r)[rank[i]]
  {
    forall i | 0 <= i < lv
      ensures IsPred(Removed(ns, r), i, r, rank[i]) && rank[i] <= r && update[i] == Removed(ns, r)[rank[i]]
    {
      PredRemoved(ns, i, r, rank[i]);
    }
  }

  /** What a picture says about the list without position r + 1, before any link has changed. */
  lemma WithoutOne(ns: seq<Node>, r: nat, lv: nat, update: seq<Node>, rank: seq<nat>)
    requires Pictured(ns, lv) && r + 1 < |ns| && |update| == |rank| == MAXLEVEL
    requires forall i :: 0 <= i < lv ==> IsPred(ns, i, r, rank[i]) && update[i] == ns[rank[i]]
    ensures var ns', x := Removed(ns, r), ns[r + 1];
            && Shaped(ns') && Sorted(ns') && x !in ns' && x.height == |x.level| >= 1 && 1 <= lv <= MAXLEVEL
            && (forall p :: 1 <= p < |ns'| ==> ns'[p].height <= lv)
            && (forall i :: 0 <= i < lv ==> IsPred(ns', i, r, rank[i]) && update[i] == ns'[rank[i]])
            && Inserted(ns', r, x) == ns && BackOk(ns) && (forall i :: 0 <= i < lv ==> LevelOk(ns, i))
            && |ns[0].level| == MAXLEVEL && (forall i :: lv <= i < MAXLEVEL ==> ns[0].level[i].forward == null)
  {
    hide LevelOk, BackOk, Sorted, Next, Inserted;
    ShapedRemoved(ns, r, lv);
    PredsRemoved(ns, r, lv, update, rank);
    SortedRemoved(Removed(ns, r), r, ns[r + 1]);
  }

  lemma SortedRemoved(ns: seq<Node>, r: nat, x: Node)
    requires r < |ns| && Sorted(Inserted(ns, r, x))
    ensures Sorted(ns)
  {
    hide Inserted, KeyLt;
    var ns' := Inserted(ns, r, x);
    forall p, q | 1 <= p < q < |ns|
      ensures KeyLt(ns[p].score, ns[p].member, ns[q].score, ns[q].member)
    {
      var p', q' := if p <= r then p else p + 1, if q <= r then q else q + 1;
      assert ns'[p'] == ns[p] && ns'[q'] == ns[q];
    }
  }

  /** What zsl_delete_node reads off the level it is about to change. */
  lemma BeforeRemoval(ns: seq<Node>, i: nat, r: nat, x: Node, u: nat)
    requires x !in ns && IsPred(ns, i, r, u) && LevelOk(Inserted(ns, r, x), i)
    requires forall p :: 0 <= p < |ns| ==> |ns[p].level| == ns[p].height
    ensures ns[u].level[i].forward == x <==> i < x.height
    ensures i < x.height ==> i < |x.level| && ns[u].level[i].span + x.level[i].span >= 1
    ensures i < x.height ==> Expect(ns, i, u) == Link(x.level[i].forward, ns[u].level[i].span + x.level[i].span - 1)
    ensures i >= x.height ==> ns[u].level[i].span >= 1
    ensures i >= x.height ==> Expect(ns, i, u) == Link(ns[u].level[i].forward, ns[u].level[i].span - 1)
  {
    hide Next, Inserted;
    var ns' := Inserted(ns, r, x);
    assert Expect(ns, i, u).forward != x;
    hide Expect;
    ExpectInserted(ns, i, r, x, u);
    assert ns'[u] == ns[u] && ns'[r + 1] == x;
  }

  /** The links that are right with x in the list, counted without it. */
  lemma OldLinks(ns: seq<Node>, i: nat, r: nat, x: Node)
    requires r < |ns| && LevelOk(Inserted(ns, r, x), i)
    requires forall p :: 0 <= p < |ns| ==> |ns[p].level| == ns[p].height
    ensures forall p :: 0 <= p < |ns| && i < ns[p].height ==>
      ns[p].level[i] == Expect(Inserted(ns, r, x), i, if p <= r then p else p + 1)
  {
    hide Expect, Inserted;
    var ns' := Inserted(ns, r, x);
    forall p | 0 <= p < |ns| && i < ns[p].height
      ensures ns[p].level[i] == Expect(ns', i, if p <= r then p else p + 1)
    {
      assert ns'[if p <= r then p else p + 1] == ns[p];
    }
  }

  /** The header's link on a level is NULL exactly when no node reaches that level. */
  lemma HeaderLink(ns: seq<Node>, i: nat)
    requires Shaped(ns) && LevelOk(ns, i) && i < MAXLEVEL
    ensures ns[0].level[i].forward != null <==> Next(ns, i, 0) < |ns|
    ensures ns[0].level[i].forward == null ==> forall p :: 1 <= p < |ns| ==> ns[p].height <= i
  {
    NextSpec(ns, i, 0);
  }

  // ---- Searching ----

  /** The three tests with which the code walks right: before a key, below a minimum, not beyond a maximum. */
  datatype Probe =
    | ByKey(score: Score, member: Bytes)
    | BelowMin(min: Score, minex: bool)
    | UpToMax(max: Score, maxex: bool)

  predicate Before(n: Node, probe: Probe) {
    match probe
    case ByKey(score, member) => KeyLt(n.score, n.member, score, member)
    case BelowMin(min, minex) => n.score.Lt(min) || (minex && n.score == min)
    case UpToMax(max, maxex) => n.score.Lt(max) || (!maxex && n.score == max)
  }

  /** In a sorted list the nodes that pass a test come first. */
  lemma BeforeDownward(ns: seq<Node>, probe: Probe, p: nat, q: nat)
    requires Sorted(ns) && 1 <= p <= q < |ns| && Before(ns[q], probe)
    ensures Before(ns[p], probe)
  {
    if p < q && probe.ByKey? {
      KeyLtTransitive(ns[p].score, ns[p].member, ns[q].score, ns[q].member, probe.score, probe.member);
    }
  }

  /** Exactly the positions up to r hold nodes before the key. */
  ghost predicate IsCut(ns: seq<Node>, probe: Probe, r: nat) {
    && r < |ns|
    && (forall p :: 1 <= p <= r ==> Before(ns[p], probe))
    && (forall p :: r < p < |ns| ==> !Before(ns[p], probe))
  }

  /** The search came to a halt at position p on level i. */
  ghost predicate Halted(ns: seq<Node>, i: nat, probe: Probe, p: nat) {
    && p < |ns| && ns[p].height > i
    && (Next(ns, i, p) < |ns| ==> !Before(ns[Next(ns, i, p)], probe))
  }

  lemma HaltedHeight(ns: seq<Node>, i: nat, probe: Probe, p: nat)
    requires Halted(ns, i, probe, p)
    ensures p < |ns| && ns[p].height > i
  {
  }

  /** Halting on level 0 behind a node that passes finds the cut. */
  lemma HaltIsCut(ns: seq<Node>, probe: Probe, r: nat)
    requires Sorted(ns) && forall p :: 0 <= p < |ns| ==> ns[p].height >= 1
    requires Halted(ns, 0, probe, r) && (r == 0 || Before(ns[r], probe))
    ensures IsCut(ns, probe, r)
  {
    NextSpec(ns, 0, r);
    forall p | 1 <= p <= r
      ensures Before(ns[p], probe)
    {
      BeforeDownward(ns, probe, p, r);
    }
    forall p | r < p < |ns|
      ensures !Before(ns[p], probe)
    {
      if Before(ns[p], probe) {
        BeforeDownward(ns, probe, r + 1, p);
      }
    }
  }

  /** If the key is anywhere, it is right behind the cut; the link there leads to it. */
  lemma AtCut(ns: seq<Node>, score: Score, member: Bytes, r: nat)
    requires Sorted(ns) && IsCut(ns, ByKey(score, member), r) && forall p :: 0 <= p < |ns| ==> ns[p].height >= 1
    ensures forall p :: 1 <= p < |ns| && ns[p].score == score && ns[p].member == member ==> p == r + 1
    ensures Expect(ns, 0, r) == if r + 1 < |ns| then Link(ns[r + 1], 1) else Link(null, 0)
  {
    KeyLtTrichotomy(score, member, score, member);
    if r + 1 < |ns| {
      KeyLtTrichotomy(ns[r + 1].score, ns[r + 1].member, score, member);
      assert !Before(ns[r + 1], ByKey(score, member));
      assert forall p :: r + 1 < p < |ns| ==> KeyLt(ns[r + 1].score, ns[r + 1].member, ns[p].score, ns[p].member);
    }
  }

  lemma BottomLevel(ns: seq<Node>, lv: nat)
    requires Pictured(ns, lv)
    ensures 1 <= lv <= MAXLEVEL && |ns| >= 1
  {
  }

  /** The node that the bottom link at the cut leads to is the only one that may hold the key. */
  lemma BehindCut(ns: seq<Node>, lv: nat, score: Score, member: Bytes, r: nat)
    requires Pictured(ns, lv) && IsCut(ns, ByKey(score, member), r)
    ensures r < |ns| && |ns[r].level| >= 1
    ensures ns[r].level[0].forward == if r + 1 < |ns| then ns[r + 1] else null
    ensures forall p :: 1 <= p < |ns| && ns[p].score == score && ns[p].member == member ==> p == r + 1
  {
    hide Next, BackOk, Before;
    AtCut(ns, score, member, r);
    assert LevelOk(ns, 0);
  }

  /** The 1-based position of a key, or 0 when it is absent. */
  ghost function RankOf(ns: seq<Node>, score: Score, member: Bytes): nat {
    if p: nat :| 1 <= p < |ns| && ns[p].score == score && ns[p].member == member then p else 0
  }

  /** The node at a 1-based position, or NULL outside the list. */
  ghost function ElementAt(ns: seq<Node>, rank: nat): Node? {
    if 1 <= rank < |ns| then ns[rank] else null
  }

  /** Rank and element-by-rank undo each other. */
  lemma RankElementInverse(ns: seq<Node>, rank: nat, score: Score, member: Bytes)
    requires Sorted(ns)
    ensures ElementAt(ns, rank) != null ==>
              var n: Node := ElementAt(ns, rank); RankOf(ns, n.score, n.member) == rank
    ensures RankOf(ns, score, member) != 0 ==>
              var n := ElementAt(ns, RankOf(ns, score, member)); n != null && n.score == score && n.member == member
  {
    if 1 <= rank < |ns| {
      forall q | 1 <= q < |ns| && q != rank
        ensures !(ns[q].score == ns[rank].score && ns[q].member == ns[rank].member)
      {
        var a, b := if q < rank then ns[q] else ns[rank], if q < rank then ns[rank] else ns[q];
        assert KeyLt(a.score, a.member, b.score, b.member);
        KeyLtTrichotomy(a.score, a.member, b.score, b.member);
      }
    }
  }

  /** A node where the search halted on level i is the predecessor of the cut on that level. */
  lemma HaltIsPred(ns: seq<Node>, i: nat, probe: Probe, u: nat, r: nat)
    requires IsCut(ns, probe, r) && u <= r && Halted(ns, i, probe, u)
    ensures IsPred(ns, i, r, u)
  {
    NextSpec(ns, i, u);
  }

  /** A key that is not there yet may go in at the cut. */
  lemma SortedInserted(ns: seq<Node>, r: nat, x: Node)
    requires Sorted(ns) && IsCut(ns, ByKey(x.score, x.member), r)
    requires forall p :: 1 <= p < |ns| ==> !(ns[p].score == x.score && ns[p].member == x.member)
    ensures Sorted(Inserted(ns, r, x))
  {
    var ns' := Inserted(ns, r, x);
    forall p, q | 1 <= p < q < |ns'|
      ensures KeyLt(ns'[p].score, ns'[p].member, ns'[q].score, ns'[q].member)
    {
      if q == r + 1 {
        assert Before(ns[p], ByKey(x.score, x.member));
      } else if p == r + 1 {
        assert !Before(ns[q - 1], ByKey(x.score, x.member));
        KeyLtTrichotomy(ns[q - 1].score, ns[q - 1].member, x.score, x.member);
      }
    }
  }

  /** The top level stays in use after an insertion. */
  lemma TopInserted(ns: seq<Node>, r: nat, x: Node, lv: nat, was: nat)
    requires r < |ns| && 1 <= was && lv == (if x.height > was then x.height else was)
    requires was > 1 ==> Next(ns, was - 1, 0) < |ns|
    ensures lv > 1 ==> Next(Inserted(ns, r, x), lv - 1, 0) < |ns| + 1
  {
    if lv > 1 {
      NextInserted(ns, lv - 1, r, x, 0);
    }
  }

  /** On level 0 a node's link leads to the next position. */
  lemma FirstLink(ns: seq<Node>, r: nat, x: Node)
    requires Shaped(ns) && x !in ns && 1 <= x.height && r < |ns| && LevelOk(Inserted(ns, r, x), 0)
    ensures |x.level| >= 1 && x.level[0] == if r + 1 < |ns| then Link(ns[r + 1], 1) else Link(null, 0)
  {
    hide Inserted, Distinct;
    var ns' := Inserted(ns, r, x);
    assert ns'[r + 1].level[0] == Expect(ns', 0, r + 1);
    assert r + 1 < |ns| ==> ns'[r + 2] == ns[r + 1];
  }

  // ---- One level at a time ----

  ghost function Links(ns: seq<Node>): (ls: seq<seq<Link>>)
    reads ns`level
    ensures |ls| == |ns| && forall p :: 0 <= p < |ns| ==> ls[p] == ns[p].level
  {
    if ns == [] then [] else Links(ns[..|ns| - 1]) + [ns[|ns| - 1].level]
  }

  predicate SameBut(a: seq<Link>, b: seq<Link>, i: nat) {
    |a| == |b| && forall j :: 0 <= j < |a| && j != i ==> a[j] == b[j]
  }

  /** Only links at level i differ from those recorded in ls. */
  ghost predicate OnlyLevel(ns: seq<Node>, ls: seq<seq<Link>>, i: nat)
    reads ns`level
  {
    |ls| == |ns| && forall p :: 0 <= p < |ns| ==> SameBut(ns[p].level, ls[p], i)
  }

  /** The links ls make the levels lo to hi right. */
  ghost predicate LinksOk(ns: seq<Node>, ls: seq<seq<Link>>, lo: nat, hi: nat) {
    && |ls| == |ns|
    && (forall p :: 0 <= p < |ns| ==> |ls[p]| == ns[p].height)
    && (forall p, j :: 0 <= p < |ns| && lo <= j < hi && j < ns[p].height ==> ls[p][j] == Expect(ns, j, p))
  }

  lemma Recorded(ns: seq<Node>, lo: nat, hi: nat)
    requires forall p :: 0 <= p < |ns| ==> |ns[p].level| == ns[p].height
    requires forall j :: lo <= j < hi ==> LevelOk(ns, j)
    ensures LinksOk(ns, Links(ns), lo, hi)
  {
    hide Expect;
    var ls := Links(ns);
    forall p, j | 0 <= p < |ns| && lo <= j < hi && j < ns[p].height
      ensures ls[p][j] == Expect(ns, j, p)
    {
      assert LevelOk(ns, j);
    }
  }

  lemma LevelsKept(ns: seq<Node>, ls: seq<seq<Link>>, i: nat, lo: nat, hi: nat)
    requires OnlyLevel(ns, ls, i) && !(lo <= i < hi) && LinksOk(ns, ls, lo, hi)
    ensures forall j :: lo <= j < hi ==> LevelOk(ns, j)
  {
    hide Expect;
    forall j | lo <= j < hi
      ensures LevelOk(ns, j)
    {
      forall p | 0 <= p < |ns| && j < ns[p].height
        ensures j < |ns[p].level| && ns[p].level[j] == Expect(ns, j, p)
      {
        assert SameBut(ns[p].level, ls[p], i);
        assert ls[p][j] == Expect(ns, j, p);
      }
    }
  }

  /** Link x behind u on level i. */
  method SpliceIn(ghost ns: seq<Node>, i: nat, ghost r: nat, x: Node, u: Node, ghost pu: nat, d: nat)
    requires Shaped(ns) && LevelOk(ns, i) && IsPred(ns, i, r, pu) && u == ns[pu] && d == r - pu
    requires x !in ns && i < x.height == |x.level|
    modifies x`level, u`level
    ensures LevelOk(Inserted(ns, r, x), i)
    ensures SameBut(x.level, old(x.level), i) && SameBut(u.level, old(u.level), i)
  {
    ExpectInserted(ns, i, r, x, pu);
    x.level := x.level[i := x.level[i].(forward := u.level[i].forward)];
    u.level := u.level[i := u.level[i].(forward := x)];
    x.level := x.level[i := x.level[i].(span := u.level[i].span - d)];
    u.level := u.level[i := u.level[i].(span := d + 1)];
    LevelInserted(ns, i, r, x, pu);
  }

  /** Account for x behind u on a level that x does not reach. */
  method PassOver(ghost ns: seq<Node>, i: nat, ghost r: nat, ghost x: Node, u: Node, ghost pu: nat)
    requires Shaped(ns) && LevelOk(ns, i) && IsPred(ns, i, r, pu) && u == ns[pu]
    requires x !in ns && x.height == |x.level| <= i
    modifies u`level
    ensures LevelOk(Inserted(ns, r, x), i)
    ensures SameBut(u.level, old(u.level), i)
  {
    ExpectInserted(ns, i, r, x, pu);
    u.level := u.level[i := u.level[i].(span := u.level[i].span + 1)];
    LevelInserted(ns, i, r, x, pu);
  }

  method LinkOne(ghost ns: seq<Node>, i: nat, ghost r: nat, x: Node, u: Node, ghost pu: nat, d: nat)
    requires Shaped(ns) && LevelOk(ns, i) && IsPred(ns, i, r, pu) && u == ns[pu] && d == r - pu
    requires x !in ns && x.height == |x.level|
    modifies x`level, u`level
    ensures LevelOk(Inserted(ns, r, x), i)
    ensures SameBut(x.level, old(x.level), i) && SameBut(u.level, old(u.level), i)
  {
    hide LevelOk, Inserted, Distinct;
    if i < x.height {
      SpliceIn(ns, i, r, x, u, pu, d);
    } else {
      PassOver(ns, i, r, x, u, pu);
    }
  }

  /** The levels up to i go over to the new picture. */
  method LinkBelow(ghost ns: seq<Node>, i: nat, ghost r: nat, x: Node, u: Node, ghost pu: nat, d: nat)
    requires Shaped(ns) && LevelOk(ns, i) && IsPred(ns, i, r, pu) && u == ns[pu] && d == r - pu
    requires x !in ns && x.height == |x.level|
    requires forall j :: 0 <= j < i ==> LevelOk(Inserted(ns, r, x), j)
    modifies x`level, u`level
    ensures SameBut(x.level, old(x.level), i) && SameBut(u.level, old(u.level), i)
    ensures forall j :: 0 <= j <= i ==> LevelOk(Inserted(ns, r, x), j)
  {
    assert r < |ns|;
    hide LevelOk, IsPred, Inserted, Distinct, LinksOk, Links;
    ghost var ns' := Inserted(ns, r, x);
    ghost var was := Links(ns');
    Recorded(ns', 0, i);
    LinkOne(ns, i, r, x, u, pu, d);
    LevelsKept(ns', was, i, 0, i);
  }

  /** One turn of the two linking loops of zsl_insert: level i goes over to the new picture. */
  method LinkLevel(ghost ns: seq<Node>, ghost lv: nat, i: nat, ghost r: nat, x: Node, u: Node, ghost pu: nat, d: nat)
    requires Shaped(ns) && IsPred(ns, i, r, pu) && u == ns[pu] && d == r - pu
    requires x !in ns && x.height == |x.level| && i < lv <= MAXLEVEL
    requires forall j :: 0 <= j < i ==> LevelOk(Inserted(ns, r, x), j)
    requires forall j :: i <= j < lv ==> LevelOk(ns, j)
    modifies x`level, u`level
    ensures SameBut(x.level, old(x.level), i) && SameBut(u.level, old(u.level), i)
    ensures forall j :: 0 <= j <= i ==> LevelOk(Inserted(ns, r, x), j)
    ensures forall j :: i < j < lv ==> LevelOk(ns, j)
  {
    assert r < |ns|;
    hide LevelOk, IsPred, Inserted, Distinct, LinksOk, Links;
    ghost var was := Links(ns);
    Recorded(ns, i + 1, lv);
    LinkBelow(ns, i, r, x, u, pu, d);
    LevelsKept(ns, was, i, i + 1, lv);
  }

  /** The two linking loops of zsl_insert. */
  method LinkAll(ghost ns: seq<Node>, x: Node, update: seq<Node>, rank: seq<nat>, lv: nat)
    requires Shaped(ns) && x !in ns && 1 <= x.height <= lv <= MAXLEVEL && |x.level| == x.height
    requires |update| == |rank| == MAXLEVEL
    requires forall i :: 0 <= i < lv ==> IsPred(ns, i, rank[0], rank[i]) && update[i] == ns[rank[i]]
    requires forall i :: 0 <= i < lv ==> LevelOk(ns, i)
    modifies ns`level, x`level
    ensures rank[0] < |ns| && Shaped(ns) && |x.level| == x.height
    ensures forall i :: 0 <= i < lv ==> LevelOk(Inserted(ns, rank[0], x), i)
    ensures forall j :: lv <= j < MAXLEVEL ==> ns[0].level[j] == old(ns[0].level[j])
  {
    assert IsPred(ns, 0, rank[0], rank[0]);
    for i := 0 to lv
      invariant Shaped(ns) && |x.level| == x.height
      invariant forall j :: 0 <= j < i ==> LevelOk(Inserted(ns, rank[0], x), j)
      invariant forall j :: i <= j < lv ==> LevelOk(ns, j)
      invariant forall j :: lv <= j < MAXLEVEL ==> ns[0].level[j] == old(ns[0].level[j])
    {
      LinkLevel(ns, lv, i, rank[0], x, update[i], rank[i], rank[0] - rank[i]);
    }
  }

  /** One turn of the loop of zsl_delete_node: level i goes back to the picture without x. */
  method UnlinkLevel(ghost ns: seq<Node>, i: nat, ghost r: nat, x: Node, u: Node, ghost pu: nat)
    requires Shaped(ns) && x !in ns && IsPred(ns, i, r, pu) && u == ns[pu]
    requires LevelOk(Inserted(ns, r, x), i)
    modifies u`level
    ensures LevelOk(ns, i)
    ensures SameBut(u.level, old(u.level), i)
  {
    hide Expect, Inserted;
    BeforeRemoval(ns, i, r, x, pu);
    OldLinks(ns, i, r, x);
    if u.level[i].forward == x {
      u.level := u.level[i := u.level[i].(span := u.level[i].span + x.level[i].span - 1)];
      u.level := u.level[i := u.level[i].(forward := x.level[i].forward)];
    } else {
      u.level := u.level[i := u.level[i].(span := u.level[i].span - 1)];
    }
    LevelRemoved(ns, i, r, x, pu);
  }

  /** The levels up to i go back. */
  method UnlinkBelow(ghost ns: seq<Node>, i: nat, ghost r: nat, x: Node, u: Node, ghost pu: nat)
    requires Shaped(ns) && x !in ns && IsPred(ns, i, r, pu) && u == ns[pu]
    requires forall j :: 0 <= j < i ==> LevelOk(ns, j)
    requires LevelOk(Inserted(ns, r, x), i)
    modifies u`level
    ensures SameBut(u.level, old(u.level), i)
    ensures forall j :: 0 <= j <= i ==> LevelOk(ns, j)
  {
    hide LevelOk, IsPred, Inserted, Distinct, LinksOk, Links;
    ghost var was := Links(ns);
    Recorded(ns, 0, i);
    UnlinkLevel(ns, i, r, x, u, pu);
    LevelsKept(ns, was, i, 0, i);
  }

  method UnlinkStep(ghost ns: seq<Node>, ghost lv: nat, i: nat, ghost r: nat, x: Node, u: Node, ghost pu: nat)
    requires Shaped(ns) && x !in ns && |x.level| == x.height && IsPred(ns, i, r, pu) && u == ns[pu] && i < lv
    requires forall j :: 0 <= j < i ==> LevelOk(ns, j)
    requires forall j :: i <= j < lv ==> LevelOk(Inserted(ns, r, x), j)
    modifies u`level
    ensures SameBut(u.level, old(u.level), i)
    ensures forall j :: 0 <= j <= i ==> LevelOk(ns, j)
    ensures forall j :: i < j < lv ==> LevelOk(Inserted(ns, r, x), j)
  {
    assert r < |ns|;
    hide LevelOk, IsPred, Inserted, Distinct, LinksOk, Links;
    ghost var ns' := Inserted(ns, r, x);
    ghost var was := Links(ns');
    Recorded(ns', i + 1, lv);
    UnlinkBelow(ns, i, r, x, u, pu);
    LevelsKept(ns', was, i, i + 1, lv);
  }

  /** The loop of zsl_delete_node. */
  method UnlinkAll(ghost ns: seq<Node>, ghost r: nat, x: Node, update: seq<Node>, ghost rank: seq<nat>, lv: nat)
    requires Shaped(ns) && x !in ns && |x.level| == x.height && r < |ns| && lv <= MAXLEVEL == |update| == |rank|
    requires forall i :: 0 <= i < lv ==> IsPred(ns, i, r, rank[i]) && update[i] == ns[rank[i]]
    requires forall i :: 0 <= i < lv ==> LevelOk(Inserted(ns, r, x), i)
    modifies ns`level
    ensures Shaped(ns)
    ensures forall i :: 0 <= i < lv ==> LevelOk(ns, i)
    ensures forall j :: lv <= j < MAXLEVEL ==> ns[0].level[j] == old(ns[0].level[j])
  {
    for i := 0 to lv
      invariant Shaped(ns) && |x.level| == x.height
      invariant forall j :: 0 <= j < i ==> LevelOk(ns, j)
      invariant forall j :: i <= j < lv ==> LevelOk(Inserted(ns, r, x), j)
      invariant forall j :: lv <= j < MAXLEVEL ==> ns[0].level[j] == old(ns[0].level[j])
    {
      UnlinkStep(ns, lv, i, r, x, update[i], rank[i]);
    }
  }

  class SkipList {
    var header: Node
    var tail: Node?
    var length: nat
    var level: nat
    ghost var nodes: seq<Node>   // the header, then the elements in order

    ghost predicate Valid()
      reads this, nodes
    {
      && Pictured(nodes, level) && header == nodes[0] && length == |nodes| - 1
      && tail == (if length == 0 then null else nodes[length])
    }

    constructor ()
      ensures Valid() && fresh(nodes) && length == 0 && level == 1
    {
      hide Pictured;
      header := new Node(MAXLEVEL, Finite(0.0), []);
      tail, length, level := null, 0, 1;
      new;
      nodes := [header];
      OnlyHeader(nodes);
    }

    /** The walk along one level: go right while the next node passes, adding up spans. */
    method Walk(i: nat, start: Node, probe: Probe, ghost p: nat) returns (x: Node, covered: nat, ghost q: nat)
      requires Valid() && i < level && p < |nodes| && start == nodes[p] && i < start.height
      requires p == 0 || Before(start, probe)
      ensures p <= q < |nodes| && x == nodes[q] && covered == q - p
      ensures q == 0 || Before(x, probe)
      ensures Halted(nodes, i, probe, q)
    {
      hide Sorted, BackOk;
      x, covered, q := start, 0, p;
      assert LevelOk(nodes, i);
      while x.level[i].forward != null && Before(x.level[i].forward, probe)
        invariant p <= q < |nodes| && x == nodes[q] && i < x.height && covered == q - p
        invariant q == 0 || Before(x, probe)
        decreases |nodes| - q
      {
        NextSpec(nodes, i, q);
        q := Next(nodes, i, q);
        covered := covered + x.level[i].span;
        x := x.level[i].forward;
      }
    }

    /** The descent of zsl_insert and zsl_delete: update[] and rank[] per level. */
    method Search(score: Score, member: Bytes) returns (update: seq<Node>, rank: seq<nat>)
      requires Valid()
      ensures |update| == |rank| == MAXLEVEL
      ensures IsCut(nodes, ByKey(score, member), rank[0])
      ensures forall i :: 0 <= i < level ==> IsPred(nodes, i, rank[0], rank[i]) && update[i] == nodes[rank[i]]
    {
      hide Sorted, BackOk, LevelOk, Halted, IsPred;
      var x, probe := header, ByKey(score, member);
      update, rank := seq(MAXLEVEL, _ => x), seq(MAXLEVEL, _ => 0);
      ghost var pos: nat := 0;
      for i := level downto 0
        invariant |update| == |rank| == MAXLEVEL
        invariant pos < |nodes| && x == nodes[pos] && i <= x.height
        invariant pos == if i == level then 0 else rank[i]
        invariant pos == 0 || Before(x, probe)
        invariant forall j :: i <= j < level ==>
          rank[j] <= pos && update[j] == nodes[rank[j]] && Halted(nodes, j, probe, rank[j])
      {
        var covered;
        x, covered, pos := Walk(i, x, probe, pos);
        HaltedHeight(nodes, i, probe, pos);
        rank := rank[i := (if i == level - 1 then 0 else rank[i + 1]) + covered];
        update := update[i := x];
      }
      HaltIsCut(nodes, probe, pos);
      forall i | 0 <= i < level
        ensures IsPred(nodes, i, pos, rank[i])
      {
        HaltIsPred(nodes, i, probe, rank[i], pos);
      }
    }

    /** The descent of zsl_get_rank and of the two range searches. */
    method Descend(probe: Probe) returns (x: Node, rank: nat)
      requires Valid()
      ensures rank < |nodes| && x == nodes[rank] && IsCut(nodes, probe, rank)
    {
      hide Sorted, BackOk, LevelOk, Halted;
      x, rank := header, 0;
      for i := level downto 0
        invariant rank < |nodes| && x == nodes[rank] && i <= x.height
        invariant rank == 0 || Before(x, probe)
        invariant i < level ==> Halted(nodes, i, probe, rank)
      {
        var covered;
        ghost var q;
        x, covered, q := Walk(i, x, probe, rank);
        rank := rank + covered;
        HaltedHeight(nodes, i, probe, rank);
      }
      HaltIsCut(nodes, probe, rank);
    }

    /** The first part of zsl_insert after the search: open the levels above the current top. */
    method Raise(height: nat, update0: seq<Node>, rank0: seq<nat>) returns (update: seq<Node>, rank: seq<nat>)
      requires Valid() && height <= MAXLEVEL && |update0| == |rank0| == MAXLEVEL && rank0[0] < |nodes|
      requires forall i :: 0 <= i < level ==> IsPred(nodes, i, rank0[0], rank0[i]) && update0[i] == nodes[rank0[i]]
      modifies this`level, header`level
      ensures level == (if height > old(level) then height else old(level)) && Shaped(nodes)
      ensures forall i :: 0 <= i < level ==> LevelOk(nodes, i)
      ensures forall i :: level <= i < MAXLEVEL ==> header.level[i].forward == null
      ensures |update| == |rank| == MAXLEVEL && rank[0] == rank0[0]
      ensures forall i :: 0 <= i < level ==> IsPred(nodes, i, rank[0], rank[i]) && update[i] == nodes[rank[i]]
    {
      update, rank := update0, rank0;
      if height > level {
        for i := level to height
          invariant Shaped(nodes) && level == old(level)
          invariant forall j :: 0 <= j < i ==> LevelOk(nodes, j)
          invariant forall j :: level <= j < MAXLEVEL ==> header.level[j].forward == null
          invariant |update| == |rank| == MAXLEVEL && rank[0] == rank0[0]
          invariant forall j :: 0 <= j < i ==> IsPred(nodes, j, rank[0], rank[j]) && update[j] == nodes[rank[j]]
        {
          rank, update := rank[i := 0], update[i := header];
          OpenLevel(i);
        }
        level := height;
      }
    }

    /** A new level holds only the header's link over the whole list. */
    method OpenLevel(i: nat)
      requires Shaped(nodes) && header == nodes[0] && length == |nodes| - 1 && i < MAXLEVEL
      requires forall p :: 1 <= p < |nodes| ==> nodes[p].height <= i
      requires forall j :: 0 <= j < i ==> LevelOk(nodes, j)
      requires header.level[i].forward == null
      modifies header`level
      ensures forall j :: 0 <= j <= i ==> LevelOk(nodes, j)
      ensures SameBut(header.level, old(header.level), i) && header.level[i].forward == null
    {
      Recorded(nodes, 0, i);
      ghost var was := Links(nodes);
      header.level := header.level[i := header.level[i].(span := length)];
      LevelsKept(nodes, was, i, 0, i);
      NextIs(nodes, i, 0, |nodes|);
    }

    /** The backward pointers and the tail around a node that has just been linked in. */
    method Hook(ghost ns: seq<Node>, ghost r: nat, x: Node, u: Node)
      requires Shaped(ns) && BackOk(ns) && header == ns[0] && r < |ns| && u == ns[r] && x !in ns
      requires |x.level| >= 1 && x.level[0].forward == if r + 1 < |ns| then ns[r + 1] else null
      requires tail == if |ns| == 1 then null else ns[|ns| - 1]
      modifies ns`backward, x`backward, this`tail, this`length
      ensures BackOk(Inserted(ns, r, x))
      ensures tail == Inserted(ns, r, x)[|ns|] && length == old(length) + 1
    {
      x.backward := if u == header then null else u;
      if x.level[0].forward != null {
        x.level[0].forward.backward := x;
      } else {
        tail := x;
      }
      length := length + 1;
    }

    /** Hook leaves the forward links alone. */
    method HookOnly(ghost ns: seq<Node>, ghost r: nat, x: Node, u: Node)
      requires Shaped(ns) && BackOk(ns) && header == ns[0] && r < |ns| && u == ns[r]
      requires x !in ns && x.height == |x.level| >= 1 && 1 <= level
      requires tail == if |ns| == 1 then null else ns[|ns| - 1]
      requires forall i :: 0 <= i < level ==> LevelOk(Inserted(ns, r, x), i)
      modifies ns`backward, x`backward, this`tail, this`length
      ensures BackOk(Inserted(ns, r, x))
      ensures tail == Inserted(ns, r, x)[|ns|] && length == old(length) + 1
      ensures forall i :: 0 <= i < level ==> LevelOk(Inserted(ns, r, x), i)
    {
      hide LevelOk, BackOk, Inserted, Distinct, LinksOk, Links;
      FirstLink(ns, r, x);
      ghost var ns' := Inserted(ns, r, x);
      ghost var was := Links(ns');
      Recorded(ns', 0, level);
      Hook(ns, r, x, u);
      LevelsKept(ns', was, level, 0, level);
    }

    /** All links of a new node behind position r, forward and back. */
    method LinkBoth(ghost ns: seq<Node>, ghost r: nat, x: Node, update: seq<Node>, rank: seq<nat>)
      requires Shaped(ns) && BackOk(ns) && header == ns[0]
      requires tail == if |ns| == 1 then null else ns[|ns| - 1]
      requires x !in ns && 1 <= x.height <= level <= MAXLEVEL && |x.level| == x.height
      requires |update| == |rank| == MAXLEVEL && rank[0] == r < |ns|
      requires forall i :: 0 <= i < level ==> IsPred(ns, i, r, rank[i]) && update[i] == ns[rank[i]]
      requires forall i :: 0 <= i < level ==> LevelOk(ns, i)
      requires forall i :: level <= i < MAXLEVEL ==> ns[0].level[i].forward == null
      modifies ns, x, this`tail, this`length
      ensures Shaped(ns) && BackOk(Inserted(ns, r, x)) && |x.level| == x.height
      ensures tail == Inserted(ns, r, x)[|ns|] && length == old(length) + 1
      ensures forall i :: 0 <= i < level ==> LevelOk(Inserted(ns, r, x), i)
      ensures forall i :: level <= i < MAXLEVEL ==> ns[0].level[i].forward == null
    {
      assert IsPred(ns, 0, r, rank[0]);
      LinkAll(ns, x, update, rank, level);
      HookOnly(ns, r, x, update[0]);
    }

    /** Link a new node behind position r: the whole picture moves on. */
    method Attach(ghost r: nat, x: Node, update: seq<Node>, rank: seq<nat>)
      requires Shaped(nodes) && BackOk(nodes) && header == nodes[0] && length == |nodes| - 1
      requires tail == if length == 0 then null else nodes[length]
      requires x !in nodes && 1 <= x.height <= level <= MAXLEVEL && |x.level| == x.height
      requires |update| == |rank| == MAXLEVEL && rank[0] == r < |nodes| && Sorted(Inserted(nodes, r, x))
      requires forall i :: 0 <= i < level ==> IsPred(nodes, i, r, rank[i]) && update[i] == nodes[rank[i]]
      requires forall i :: 0 <= i < level ==> LevelOk(nodes, i)
      requires forall p :: 1 <= p < |nodes| ==> nodes[p].height <= level
      requires level > 1 ==> Next(Inserted(nodes, r, x), level - 1, 0) < |nodes| + 1
      requires forall i :: level <= i < MAXLEVEL ==> nodes[0].level[i].forward == null
      modifies nodes, x, this`tail, this`length, this`nodes
      ensures Valid() && nodes == Inserted(old(nodes), r, x)
    {
      hide Sorted, BackOk, LevelOk, IsPred;
      ghost var ns := nodes;
      nodes := Inserted(ns, r, x);
      LinkBoth(ns, r, x, update, rank);
      PicturedInserted(ns, r, x, level);
    }

    /** zsl_insert, for any height the random level may choose. */
    method Insert(score: Score, member: Bytes, height: nat) returns (x: Node, ghost r: nat)
      requires Valid() && 1 <= height <= MAXLEVEL
      requires forall p :: 1 <= p < |nodes| ==> !(nodes[p].score == score && nodes[p].member == member)
      modifies this, nodes
      ensures Valid() && fresh(x)
      ensures x.score == score && x.member == member && x.height == height
      ensures r < |old(nodes)| && nodes == Inserted(old(nodes), r, x) && Ascending(nodes)
    {
      hide Sorted, BackOk, LevelOk, IsPred, Inserted, Next, Before, Ascending;
      ghost var top := level;
      var update, rank := Search(score, member);
      r := rank[0];
      update, rank := Raise(height, update, rank);
      x := new Node(height, score, member);
      SortedInserted(nodes, r, x);
      TopInserted(nodes, r, x, level, top);
      Attach(r, x, update, rank);
      ListOrder(this);
    }

    /** The backward pointers and the tail after x has been unlinked. */
    method Unhook(ghost ns: seq<Node>, ghost r: nat, x: Node)
      requires Shaped(ns) && x !in ns && r < |ns| && BackOk(Inserted(ns, r, x)) && header == ns[0]
      requires |x.level| >= 1 && x.level[0].forward == if r + 1 < |ns| then ns[r + 1] else null
      requires tail == Inserted(ns, r, x)[|ns|]
      modifies ns`backward, this`tail
      ensures BackOk(ns)
      ensures tail == if |ns| == 1 then null else ns[|ns| - 1]
    {
      ghost var ns' := Inserted(ns, r, x);
      assert ns'[r + 1] == x && (r + 1 < |ns| ==> ns'[r + 2] == ns[r + 1]);
      assert forall p :: 0 <= p < |ns| ==> ns[p] == ns'[if p <= r then p else p + 1];
      if x.level[0].forward != null {
        x.level[0].forward.backward := x.backward;
      } else {
        tail := x.backward;
      }
    }

    /** Drop the levels that only the header still reaches, and count the node off. */
    method Shrink()
      requires Shaped(nodes) && Sorted(nodes) && BackOk(nodes) && header == nodes[0] && 1 <= level <= MAXLEVEL
      requires length == |nodes| && tail == if length == 1 then null else nodes[length - 1]
      requires forall p :: 1 <= p < |nodes| ==> nodes[p].height <= level
      requires forall i :: 0 <= i < level ==> LevelOk(nodes, i)
      requires forall i :: level <= i < MAXLEVEL ==> header.level[i].forward == null
      modifies this`level, this`length
      ensures Valid()
    {
      hide Sorted, BackOk, LevelOk, Next;
      while level > 1 && header.level[level - 1].forward == null
        modifies this`level
        invariant 1 <= level <= old(level)
        invariant forall p :: 1 <= p < |nodes| ==> nodes[p].height <= level
        invariant forall i :: level <= i < MAXLEVEL ==> header.level[i].forward == null
      {
        HeaderLink(nodes, level - 1);
        level := level - 1;
      }
      HeaderLink(nodes, level - 1);
      length := length - 1;
    }

    /** Unhook leaves the forward links alone. */
    method UnhookOnly(ghost ns: seq<Node>, ghost r: nat, x: Node)
      requires Shaped(ns) && x !in ns && r < |ns| && BackOk(Inserted(ns, r, x)) && header == ns[0]
      requires |x.level| >= 1 && x.level[0].forward == if r + 1 < |ns| then ns[r + 1] else null
      requires tail == Inserted(ns, r, x)[|ns|]
      requires forall i :: 0 <= i < level ==> LevelOk(ns, i)
      modifies ns`backward, this`tail
      ensures BackOk(ns)
      ensures tail == if |ns| == 1 then null else ns[|ns| - 1]
      ensures forall i :: 0 <= i < level ==> LevelOk(ns, i)
    {
      hide LevelOk, BackOk, LinksOk, Links;
      ghost var was := Links(ns);
      Recorded(ns, 0, level);
      Unhook(ns, r, x);
      LevelsKept(ns, was, level, 0, level);
    }

    /** All links around x, forward and back. */
    method Detach(ghost ns: seq<Node>, ghost r: nat, x: Node, update: seq<Node>, ghost rank: seq<nat>)
      requires Shaped(ns) && x !in ns && x.height == |x.level| && r < |ns| && header == ns[0]
      requires 1 <= level <= MAXLEVEL == |update| == |rank| && 1 <= x.height
      requires forall i :: 0 <= i < level ==> IsPred(ns, i, r, rank[i]) && update[i] == ns[rank[i]]
      requires forall i :: 0 <= i < level ==> LevelOk(Inserted(ns, r, x), i)
      requires forall i :: level <= i < MAXLEVEL ==> header.level[i].forward == null
      requires BackOk(Inserted(ns, r, x)) && tail == Inserted(ns, r, x)[|ns|]
      modifies ns, this`tail
      ensures Shaped(ns) && BackOk(ns)
      ensures tail == if |ns| == 1 then null else ns[|ns| - 1]
      ensures forall i :: 0 <= i < level ==> LevelOk(ns, i)
      ensures forall i :: level <= i < MAXLEVEL ==> header.level[i].forward == null
    {
      hide LevelOk, BackOk, IsPred, Next, Inserted;
      FirstLink(ns, r, x);
      UnlinkAll(ns, r, x, update, rank, level);
      UnhookOnly(ns, r, x);
    }

    /** zsl_delete_node: unlink the node x that stands at position r + 1. */
    method DeleteNode(x: Node, update: seq<Node>, ghost r: nat, ghost rank: seq<nat>)
      requires Valid() && r + 1 < |nodes| && x == nodes[r + 1] && |update| == |rank| == MAXLEVEL
      requires forall i :: 0 <= i < level ==> IsPred(nodes, i, r, rank[i]) && update[i] == nodes[rank[i]]
      modifies this, nodes
      ensures Valid() && nodes == Removed(old(nodes), r)
    {
      hide Pictured, Shaped, LevelOk, BackOk, Sorted, IsPred, Next, Inserted;
      ghost var ns := Removed(nodes, r);
      WithoutOne(nodes, r, level, update, rank);
      Detach(ns, r, x, update, rank);
      nodes := ns;
      Shrink();
    }

    /** zsl_delete. */
    method Delete(score: Score, member: Bytes) returns (found: bool, ghost r: nat)
      requires Valid()
      modifies this, nodes
      ensures Valid()
      ensures found <==>
        exists p :: 1 <= p < |old(nodes)| && old(nodes)[p].score == score && old(nodes)[p].member == member
      ensures !found ==> nodes == old(nodes)
      ensures found ==> r + 1 < |old(nodes)| && nodes == Removed(old(nodes), r)
      ensures found ==> old(nodes)[r + 1].score == score && old(nodes)[r + 1].member == member
    {
      hide Pictured, IsCut, IsPred, Removed;
      BottomLevel(nodes, level);
      var update, rank := Search(score, member);
      r := rank[0];
      BehindCut(nodes, level, score, member, r);
      var x := update[0].level[0].forward;
      if x != null && x.score == score && x.member == member {
        DeleteNode(x, update, r, rank);
        return true, r;
      }
      return false, r;
    }

    /** zsl_get_rank. */
    method GetRank(score: Score, member: Bytes) returns (rank: nat)
      requires Valid()
      ensures rank == RankOf(nodes, score, member)
    {
      hide Pictured, IsCut;
      var x, r := Descend(ByKey(score, member));
      BehindCut(nodes, level, score, member, r);
      var y := x.level[0].forward;
      if y != null && y.score == score && y.member == member {
        return r + 1;
      }
      return 0;
    }

    /** zsl_get_element_by_rank. */
    method GetElementByRank(rank: nat) returns (x: Node?)
      requires Valid()
      ensures x == ElementAt(nodes, rank)
    {
      hide Sorted, BackOk;
      if rank == 0 {
        return null;
      }
      var y, traversed: nat := header, 0;
      for i := level downto 0
        invariant traversed < |nodes| && y == nodes[traversed] && i <= y.height && traversed < rank
        invariant i == 0 ==> |nodes| <= rank
      {
        assert LevelOk(nodes, i);
        while y.level[i].forward != null && traversed + y.level[i].span <= rank
          invariant traversed < |nodes| && y == nodes[traversed] && i < y.height && traversed <= rank
          decreases |nodes| - traversed
        {
          NextSpec(nodes, i, traversed);
          traversed := traversed + y.level[i].span;
          y := y.level[i].forward;
        }
        if traversed == rank {
          return y;
        }
      }
      return null;
    }

    /** zsl_first_in_score_range. */
    method FirstInScoreRange(min: Score, minex: bool) returns (x: Node?, ghost r: nat)
      requires Valid()
      ensures IsCut(nodes, BelowMin(min, minex), r) && x == ElementAt(nodes, r + 1)
    {
      hide BackOk, Sorted;
      var y;
      y, r := Descend(BelowMin(min, minex));
      assert LevelOk(nodes, 0);
      return y.level[0].forward, r;
    }

    /** zsl_last_in_score_range. */
    method LastInScoreRange(max: Score, maxex: bool) returns (x: Node?, ghost r: nat)
      requires Valid()
      ensures IsCut(nodes, UpToMax(max, maxex), r) && x == ElementAt(nodes, r)
    {
      hide BackOk, Sorted;
      var y;
      y, r := Descend(UpToMax(max, maxex));
      return if y == header then null else y, r;
    }
  }
}
