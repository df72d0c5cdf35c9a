/** The range reads on sorted sets: ZCOUNT, ZRANGEBYSCORE with LIMIT, ZRANGE and ZREVRANGE. */
module ZRanges {
  import opened Orders
  import opened SkipLists
  import Dicts
  import ZSets
  import opened Indexing
  import opened Ints

  const SIZE_T: int := 0x1_0000_0000_0000_0000

  datatype Range = Range(min: Score, minex: bool, max: Score, maxex: bool)

  /** The score meets both bounds. */
  predicate InRange(score: Score, rg: Range) {
    && (if rg.minex then rg.min.Lt(score) else rg.min.Lt(score) || rg.min == score)
    && (if rg.maxex then score.Lt(rg.max) else score.Lt(rg.max) || score == rg.max)
  }

  /** For numbers as bounds that means the four kinds of interval; infinite bounds let everything through. */
  lemma RangeOfNumbers(x: real, a: real, b: real, s: Score, rg: Range)
    requires rg.min == Finite(a) && rg.max == Finite(b)
    ensures InRange(Finite(x), rg) <==>
              (if rg.minex then a < x else a <= x) && (if rg.maxex then x < b else x <= b)
    ensures InRange(s, Range(NegInf, false, PosInf, false))
  {
  }

  /** The nodes whose score is in range, in list order. */
  ghost function Select(ns: seq<Node>, rg: Range): (sel: seq<Node>) {
    if ns == [] then []
    else Select(ns[..|ns| - 1], rg) + if InRange(ns[|ns| - 1].score, rg) then [ns[|ns| - 1]] else []
  }

  lemma SelectStep(ns: seq<Node>, rg: Range, k: nat)
    requires 1 < k <= |ns|
    ensures Select(ns[1..k], rg) == Select(ns[1..k - 1], rg) + if InRange(ns[k - 1].score, rg) then [ns[k - 1]] else []
  {
    hide InRange;
    assert ns[1..k][..k - 2] == ns[1..k - 1];
  }

  lemma InBlock(ns: seq<Node>, rg: Range, a: nat, b: nat, p: nat)
    requires IsCut(ns, BelowMin(rg.min, rg.minex), a) && IsCut(ns, UpToMax(rg.max, rg.maxex), b)
    requires 1 <= p < |ns|
    ensures InRange(ns[p].score, rg) <==> a < p <= b
  {
    assert Before(ns[p], BelowMin(rg.min, rg.minex)) <==> p <= a;
    assert Before(ns[p], UpToMax(rg.max, rg.maxex)) <==> p <= b;
  }

  /** What lies below k of the block of positions a + 1 to b. */
  ghost function BlockUpTo(ns: seq<Node>, a: nat, b: nat, k: nat): seq<Node>
    requires k <= |ns|
  {
    if a < b && a + 1 < k then ns[a + 1..if b + 1 < k then b + 1 else k] else []
  }

  lemma BlockStep(ns: seq<Node>, a: nat, b: nat, k: nat)
    requires 1 < k <= |ns|
    ensures BlockUpTo(ns, a, b, k) == BlockUpTo(ns, a, b, k - 1) + if a < k - 1 <= b then [ns[k - 1]] else []
  {
  }

  /** The nodes selected from a sorted list are the contiguous block between the two cuts. */
  lemma {:induction false} SelectIsBlock(ns: seq<Node>, rg: Range, a: nat, b: nat, k: nat)
    requires IsCut(ns, BelowMin(rg.min, rg.minex), a) && IsCut(ns, UpToMax(rg.max, rg.maxex), b)
    requires 1 <= k <= |ns|
    ensures Select(ns[1..k], rg) == BlockUpTo(ns, a, b, k)
  {
    hide IsCut, InRange;
    if k == 1 {
      assert ns[1..1] == [];
    } else {
      hide Select, BlockUpTo;
      SelectIsBlock(ns, rg, a, b, k - 1);
      SelectStep(ns, rg, k);
      InBlock(ns, rg, a, b, k - 1);
      BlockStep(ns, a, b, k);
    }
  }

  ghost function Selected(l: SkipList, rg: Range): seq<Node>
    requires l.Valid()
    reads l, l.nodes
  {
    Select(l.nodes[1..], rg)
  }

  /** The selection lies between the cuts, and the ranks of its end nodes are the cuts' positions. */
  lemma CutsOf(l: SkipList, rg: Range, a: nat, b: nat)
    requires l.Valid() && IsCut(l.nodes, BelowMin(rg.min, rg.minex), a) && IsCut(l.nodes, UpToMax(rg.max, rg.maxex), b)
    ensures a < |l.nodes| && b < |l.nodes|
    ensures Selected(l, rg) == if a < b then l.nodes[a + 1..b + 1] else []
    ensures a + 1 < |l.nodes| ==> RankOf(l.nodes, l.nodes[a + 1].score, l.nodes[a + 1].member) == a + 1
    ensures b > 0 ==> RankOf(l.nodes, l.nodes[b].score, l.nodes[b].member) == b
  {
    hide LevelOk, BackOk, Next, Select, RankOf, InRange;
    SelectIsBlock(l.nodes, rg, a, b, |l.nodes|);
    assert l.nodes[1..|l.nodes|] == l.nodes[1..];
    RankElementInverse(l.nodes, a + 1, PosInf, []);
    RankElementInverse(l.nodes, b, PosInf, []);
  }

  /** The common opening of ZCOUNT and ZRANGEBYSCORE: the end nodes of the range and their ranks, if any. */
  method Ends(l: SkipList, rg: Range) returns (first: Node?, last: Node?, rfirst: nat, rlast: nat)
    requires l.Valid()
    ensures first == null ==> Selected(l, rg) == []
    ensures first != null ==> last != null && 1 <= rfirst <= rlast < |l.nodes|
    ensures first != null ==> first == l.nodes[rfirst] && last == l.nodes[rlast]
    ensures first != null ==> Selected(l, rg) == l.nodes[rfirst..rlast + 1]
  {
    hide SkipList.Valid, IsCut, RankOf, Selected;
    ghost var a, b;
    rfirst, rlast := 0, 0;
    first, a := l.FirstInScoreRange(rg.min, rg.minex);
    last, b := l.LastInScoreRange(rg.max, rg.maxex);
    CutsOf(l, rg, a, b);
    if first == null || last == null {
      return null, last, 0, 0;
    }
    rfirst := l.GetRank(first.score, first.member);
    rlast := l.GetRank(last.score, last.member);
    if rfirst == 0 || rlast == 0 || rfirst > rlast {
      return null, last, 0, 0;
    }
  }

  /** ZCOUNT. */
  method ZCount(l: SkipList, rg: Range) returns (n: nat)
    requires l.Valid()
    ensures n == |Selected(l, rg)|
  {
    var first, last, rfirst, rlast := Ends(l, rg);
    if first == null {
      return 0;
    }
    return rlast - rfirst + 1;
  }

  ghost function MembersIn(ns: seq<Node>, rg: Range, k: nat): set<Bytes>
    requires k <= |ns|
  {
    set p | 1 <= p < k && InRange(ns[p].score, rg) :: ns[p].member
  }

  lemma MembersStep(d: map<Bytes, Node>, ns: seq<Node>, rg: Range, k: nat)
    requires ZSets.Agree(d, ns) && Distinct(ns) && 1 < k <= |ns|
    ensures |MembersIn(ns, rg, k)| == |MembersIn(ns, rg, k - 1)| + if InRange(ns[k - 1].score, rg) then 1 else 0
  {
    hide InRange, Distinct, ZSets.Agree;
    var n := ns[k - 1];
    if InRange(n.score, rg) {
      ZSets.MemberOnce(d, ns, k - 1);
      assert MembersIn(ns, rg, k) == MembersIn(ns, rg, k - 1) + {n.member};
    } else {
      assert MembersIn(ns, rg, k) == MembersIn(ns, rg, k - 1);
    }
  }

  lemma {:induction false} SelectCounts(d: map<Bytes, Node>, ns: seq<Node>, rg: Range, k: nat)
    requires ZSets.Agree(d, ns) && Distinct(ns) && 1 <= k <= |ns|
    ensures |Select(ns[1..k], rg)| == |MembersIn(ns, rg, k)|
  {
    hide InRange, Distinct, ZSets.Agree;
    if k == 1 {
      assert MembersIn(ns, rg, k) == {} && ns[1..1] == [];
    } else {
      hide Select, MembersIn;
      SelectCounts(d, ns, rg, k - 1);
      SelectStep(ns, rg, k);
      MembersStep(d, ns, rg, k);
    }
  }

  /** ZCOUNT on a sorted set: the number of members whose score meets both bounds. */
  lemma CountIsMembers(zs: ZSets.ZSet, rg: Range)
    requires zs.Valid()
    ensures |Selected(zs.zsl, rg)| == |set m | m in zs.Scores() && InRange(zs.Scores()[m], rg)|
  {
    hide SkipList.Valid, Select, MembersIn, InRange, Distinct, ZSets.Agree, Dicts.Dict.Valid, Dicts.Dict.Model;
    var ns, d := zs.zsl.nodes, zs.dict.Model();
    ZSets.ValidShape(zs.zsl);
    SelectCounts(d, ns, rg, |ns|);
    assert ns[1..|ns|] == ns[1..];
    AllMembers(d, ns, rg);
    assert (set m | m in zs.Scores() && InRange(zs.Scores()[m], rg)) == (set m | m in d && InRange(d[m].score, rg));
  }

  lemma AllMembers(d: map<Bytes, Node>, ns: seq<Node>, rg: Range)
    requires ZSets.Agree(d, ns)
    ensures MembersIn(ns, rg, |ns|) == set m | m in d && InRange(d[m].score, rg)
  {
    hide InRange;
    forall m | m in d && InRange(d[m].score, rg)
      ensures m in MembersIn(ns, rg, |ns|)
    {
      var p :| 1 <= p < |ns| && ns[p] == d[m];
    }
  }

  datatype Item = Member(name: Bytes) | ScoreOf(score: Score)

  /** One reply element per node, or two with WITHSCORES. */
  function Item1(n: Node, withscores: bool): seq<Item> {
    [Member(n.member)] + if withscores then [ScoreOf(n.score)] else []
  }

  ghost function Items(ns: seq<Node>, withscores: bool): (items: seq<Item>)
    ensures |items| == |ns| * (if withscores then 2 else 1)
  {
    if ns == [] then [] else Items(ns[..|ns| - 1], withscores) + Item1(ns[|ns| - 1], withscores)
  }

  /** The reply lists the nodes in order: each member, followed by its score if scores are wanted. */
  ghost predicate Lists(out: seq<Item>, ns: seq<Node>, withscores: bool) {
    && |out| == |ns| * (if withscores then 2 else 1)
    && (forall i :: 0 <= i < |ns| && !withscores ==> out[i] == Member(ns[i].member))
    && (forall i :: 0 <= i < |ns| && withscores ==>
          out[2 * i] == Member(ns[i].member) && out[2 * i + 1] == ScoreOf(ns[i].score))
  }

  lemma {:induction false} ItemsList(ns: seq<Node>, withscores: bool)
    ensures Lists(Items(ns, withscores), ns, withscores)
  {
    if ns != [] {
      ItemsList(ns[..|ns| - 1], withscores);
    }
  }

  /** LIMIT offset count; a negative count means no limit. */
  ghost function Page<T>(sel: seq<T>, offset: nat, limit: int): seq<T> {
    if offset >= |sel| then []
    else if limit < 0 || offset + limit >= |sel| then sel[offset..]
    else sel[offset..offset + limit]
  }

  lemma ForwardOf(l: SkipList, p: nat)
    requires l.Valid() && p < |l.nodes|
    ensures |l.nodes[p].level| >= 1 && l.nodes[p].level[0].forward == ElementAt(l.nodes, p + 1)
  {
    assert LevelOk(l.nodes, 0);
  }

  lemma OnePlace(l: SkipList, p: nat, q: nat)
    requires l.Valid() && p < |l.nodes| && q < |l.nodes| && l.nodes[p] == l.nodes[q]
    ensures p == q
  {
    assert Distinct(l.nodes);
  }

  /** The LIMIT offset loop: step to the node at the offset, or to NULL beyond the last one. */
  method SkipTo(l: SkipList, first: Node, last: Node, offset: nat, ghost rfirst: nat, ghost rlast: nat)
    returns (x: Node?)
    requires l.Valid() && 1 <= rfirst <= rlast < |l.nodes| && first == l.nodes[rfirst] && last == l.nodes[rlast]
    ensures x == if rfirst + offset <= rlast then l.nodes[rfirst + offset] else null
  {
    hide Pictured;
    var y, skip := first, offset;
    while skip > 0
      invariant 0 <= skip <= offset && rfirst + offset - skip <= rlast && y == l.nodes[rfirst + offset - skip]
    {
      ForwardOf(l, rfirst + offset - skip);
      if y == last {
        OnePlace(l, rfirst + offset - skip, rlast);
        return null;
      }
      y := y.level[0].forward;
      skip := skip - 1;
    }
    return y;
  }

  /** The emission loop of ZRANGEBYSCORE, from position p to position rlast at most. */
  method Emit(l: SkipList, start: Node?, last: Node, emit: int, withscores: bool, ghost p: nat, ghost rlast: nat)
    returns (out: seq<Item>)
    requires l.Valid() && 1 <= p && rlast < |l.nodes| && last == l.nodes[rlast]
    requires start == if p <= rlast then l.nodes[p] else null
    requires p <= rlast ==> 0 <= emit <= rlast - p + 1
    ensures out == Items(if p <= rlast then l.nodes[p..p + emit] else [], withscores)
  {
    hide Pictured, Items;
    EmptyItems(withscores);
    var x, j := start, 0;
    out := [];
    while j < emit && x != null
      invariant p > rlast ==> x == null && out == []
      invariant p <= rlast ==> 0 <= j <= emit && out == Items(l.nodes[p..p + j], withscores)
      invariant x != null ==> p <= p + j <= rlast && x == l.nodes[p + j]
      invariant p <= rlast && j < emit ==> x != null
      decreases emit - j
    {
      ItemsStep(l.nodes, p, j, withscores);
      out := out + Item1(x, withscores);
      ForwardOf(l, p + j);
      if x == last {
        OnePlace(l, p + j, rlast);
        break;
      }
      x := x.level[0].forward;
      j := j + 1;
    }
  }

  lemma ItemsStep(ns: seq<Node>, p: nat, j: nat, withscores: bool)
    requires p + j < |ns|
    ensures Items(ns[p..p + j + 1], withscores) == Items(ns[p..p + j], withscores) + Item1(ns[p + j], withscores)
  {
    assert ns[p..p + j + 1][..j] == ns[p..p + j];
  }

  /** The clamp on the number of elements announced. */
  function EmitCount(total: nat, offset: nat, limit: int): int {
    var emit := if limit < 0 then total - offset else limit;
    var emit' := if emit < 0 then 0 else emit;
    if emit' > total - offset then total - offset else emit'
  }

  /** Within the selection the clamp is the page length; beyond it, it goes negative. */
  lemma EmitCountIsPage<T>(block: seq<T>, offset: nat, limit: int)
    ensures offset <= |block| ==>
              0 <= EmitCount(|block|, offset, limit) <= |block| - offset
              && Page(block, offset, limit) == block[offset..offset + EmitCount(|block|, offset, limit)]
    ensures block == [] ==> Page(block, offset, limit) == []
    ensures offset > |block| ==>
              EmitCount(|block|, offset, limit) == |block| - offset && Page(block, offset, limit) == []
  {
  }

  lemma SizeTHeader(emit: int, k: nat)
    requires -LLONG_MAX <= emit <= LLONG_MAX && 1 <= k <= 2
    ensures emit >= 0 ==> (emit * k) % SIZE_T == emit * k
    ensures emit < 0 ==> (emit * k) % SIZE_T == SIZE_T + emit * k > 0
  {
    if emit < 0 {
      var v := emit * k + SIZE_T;
      assert 0 < v < SIZE_T && (emit * k) % SIZE_T == v;
    }
  }

  /** ZRANGEBYSCORE: the page of the selection is always right; its announced length only up to the last element. */
  method ZRangeByScore(l: SkipList, rg: Range, withscores: bool, offset: nat, limit: int)
    returns (header: nat, out: seq<Item>)
    requires l.Valid() && l.length <= LLONG_MAX && offset <= LLONG_MAX && -1 <= limit <= LLONG_MAX
    ensures out == Items(Page(Selected(l, rg), offset, limit), withscores)
    ensures Lists(out, Page(Selected(l, rg), offset, limit), withscores)
    ensures header == |out| <==> Selected(l, rg) == [] || offset <= |Selected(l, rg)|
    ensures Selected(l, rg) != [] && offset > |Selected(l, rg)| ==>
              out == [] && header == SIZE_T - (offset - |Selected(l, rg)|) * (if withscores then 2 else 1)
  {
    hide Pictured, Select, Items, Page, Lists;
    ItemsList(Page(Selected(l, rg), offset, limit), withscores);
    var first, last, rfirst, rlast := Ends(l, rg);
    EmptyItems(withscores);
    EmitCountIsPage(Selected(l, rg), offset, limit);
    if first == null {
      return 0, [];
    }
    var total := rlast - rfirst + 1;
    var x := SkipTo(l, first, last, offset, rfirst, rlast);
    var emit := EmitCount(total, offset, limit);
    SizeTHeader(emit, if withscores then 2 else 1);
    header := (emit * if withscores then 2 else 1) % SIZE_T;
    out := Emit(l, x, last, emit, withscores, rfirst + offset, rlast);
    SubSlice(l.nodes, rfirst, rlast + 1, offset, emit);
  }

  lemma SubSlice<T>(s: seq<T>, a: nat, b: nat, i: nat, n: int)
    requires a <= b <= |s|
    ensures i <= b - a && 0 <= n <= b - a - i ==> s[a..b][i..i + n] == s[a + i..a + i + n]
  {
    if i <= b - a && 0 <= n <= b - a - i {
      var u, w := s[a..b][i..i + n], s[a + i..a + i + n];
      assert forall k :: 0 <= k < n ==> u[k] == w[k];
    }
  }

  lemma EmptyItems(withscores: bool)
    ensures Items([], withscores) == []
  {
  }

  /** Asking beyond the last element announces a huge array: one match and LIMIT 2 with any count. */
  method AnnouncementFails(l: SkipList, rg: Range, limit: nat) returns (header: nat, out: seq<Item>)
    requires l.Valid() && l.length <= LLONG_MAX && limit <= LLONG_MAX && |Selected(l, rg)| == 1
    ensures out == [] && header == 0xffff_ffff_ffff_ffff
  {
    hide SkipList.Valid, Selected;
    header, out := ZRangeByScore(l, rg, false, 2, limit);
  }

  lemma BackwardOf(l: SkipList, p: nat)
    requires l.Valid() && 1 <= p < |l.nodes|
    ensures l.nodes[p].backward == if p == 1 then null else l.nodes[p - 1]
  {
  }

  /** The elements in the order of the command. */
  ghost function Elements(l: SkipList, reverse: bool): seq<Node>
    requires |l.nodes| > 0
    reads l
  {
    if reverse then Reversed(l.nodes[1..]) else l.nodes[1..]
  }

  /** Where the walk stands at element i, and the node its pointer leads to. */
  lemma ElementPlace(l: SkipList, reverse: bool, i: nat)
    requires l.Valid() && i < l.length
    ensures |l.nodes| == l.length + 1 && |Elements(l, reverse)| == l.length
    ensures Elements(l, reverse)[i] == ElementAt(l.nodes, if reverse then l.length - i else i + 1)
    ensures var x := Elements(l, reverse)[i];
            && |x.level| >= 1
            && (i + 1 < l.length ==>
                  (if reverse then x.backward else x.level[0].forward) == Elements(l, reverse)[i + 1])
  {
    hide Pictured;
    ForwardOf(l, if reverse then l.length - i else i + 1);
    BackwardOf(l, if reverse then l.length - i else i + 1);
  }

  /** The walk from element start over count elements. */
  method Stroll(l: SkipList, first: Node, start: nat, count: nat, reverse: bool, withscores: bool)
    returns (out: seq<Item>)
    requires l.Valid() && start + count <= |Elements(l, reverse)| && count > 0 && first == Elements(l, reverse)[start]
    ensures out == Items(Elements(l, reverse)[start..start + count], withscores)
  {
    hide SkipList.Valid, Elements, Items;
    Lengths(l, reverse);
    EmptyItems(withscores);
    ghost var elems := Elements(l, reverse);
    var x := first;
    out := [];
    assert elems[start..start] == [];
    for i := 0 to count
      invariant i < count ==> x == elems[start + i]
      invariant out == Items(elems[start..start + i], withscores)
    {
      ElementPlace(l, reverse, start + i);
      ItemsStep(elems, start, i, withscores);
      out := out + Item1(x, withscores);
      x := if reverse then x.backward else x.level[0].forward;
    }
  }

  /** ZRANGE and ZREVRANGE: the nodes by rank, walked along forward or backward pointers, with their scores if wanted;
      the announced length is that of what is emitted. */
  method ZRange(l: SkipList, start: int, stop: int, reverse: bool, withscores: bool)
    returns (header: nat, out: seq<Item>)
    requires l.Valid()
    ensures out == Items(Slice(Elements(l, reverse), start, stop), withscores) && header == |out|
    ensures Lists(out, Slice(Elements(l, reverse), start, stop), withscores)
  {
    hide SkipList.Valid, Slice, Elements, ElementAt, Items, Lists;
    Lengths(l, reverse);
    ItemsList(Slice(Elements(l, reverse), start, stop), withscores);
    EmptyItems(withscores);
    var n := Normalize(l.length, start, stop);
    SliceOfNormal(Elements(l, reverse), start, stop, n);
    if n.Void? {
      return 0, [];
    }
    ElementPlace(l, reverse, n.start);
    var x := l.GetElementByRank(if reverse then l.length - n.start else n.start + 1);
    var count := n.stop - n.start + 1;
    header := if withscores then count * 2 else count;
    out := Stroll(l, x, n.start, count, reverse, withscores);
  }

  lemma Lengths(l: SkipList, reverse: bool)
    requires l.Valid()
    ensures |l.nodes| == l.length + 1 && |Elements(l, reverse)| == l.length
  {
  }
}
