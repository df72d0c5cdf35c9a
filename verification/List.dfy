/** The doubly linked list of src/list.c, and the list commands that walk and relink it. */
module Lists {
  import opened Orders
  import opened Collections
  import opened Indexing
  import opened Keyspace

  class ListNode {
    var prev: ListNode?
    var next: ListNode?
    const val: Bytes

    constructor (val: Bytes)
      ensures this.val == val && prev == null && next == null
    {
      this.val, prev, next := val, null, null;
    }
  }

  ghost function NodeOr(ns: seq<ListNode>, k: int): ListNode? {
    if 0 <= k < |ns| then ns[k] else null
  }

  ghost predicate Distinct(ns: seq<ListNode>) {
    forall i, j :: 0 <= i < j < |ns| ==> ns[i] != ns[j]
  }

  /** Following next visits ns in order, following prev visits it backwards. */
  ghost predicate Chained(ns: seq<ListNode>)
    reads ns`next, ns`prev
  {
    && (forall k {:trigger ns[k].next} :: 0 <= k < |ns| ==> ns[k].next == NodeOr(ns, k + 1))
    && (forall k {:trigger ns[k].prev} :: 0 <= k < |ns| ==> ns[k].prev == NodeOr(ns, k - 1))
  }

  /** The sequence that the nodes hold. */
  function Values(ns: seq<ListNode>): (vs: seq<Bytes>)
    ensures |vs| == |ns| && forall i :: 0 <= i < |ns| ==> vs[i] == ns[i].val
  {
    seq(|ns|, i requires 0 <= i < |ns| => ns[i].val)
  }

  function Spliced<T>(s: seq<T>, p: nat, x: T): seq<T>
    requires p <= |s|
  {
    s[..p] + [x] + s[p..]
  }

  /** The links after a node has been put at position p. */
  lemma ChainedSpliced(ns: seq<ListNode>, p: nat, n: ListNode)
    requires p <= |ns| && n !in ns && Distinct(ns)
    requires n.next == NodeOr(ns, p) && n.prev == NodeOr(ns, p - 1)
    requires forall k {:trigger ns[k].next} :: 0 <= k < |ns| ==>
               ns[k].next == if k + 1 == p then n else NodeOr(ns, k + 1)
    requires forall k {:trigger ns[k].prev} :: 0 <= k < |ns| ==> ns[k].prev == if k == p then n else NodeOr(ns, k - 1)
    ensures Chained(Spliced(ns, p, n)) && Distinct(Spliced(ns, p, n))
  {
    var ms := Spliced(ns, p, n);
    forall k | 0 <= k < |ms|
      ensures ms[k].next == NodeOr(ms, k + 1) && ms[k].prev == NodeOr(ms, k - 1)
    {
      var i := if k < p then k else k - 1;
      assert k != p ==> ms[k] == ns[i];
    }
  }

  lemma SplicedShape(ns: seq<ListNode>, p: nat, n: ListNode, repr: set<ListNode>)
    requires p <= |ns| && forall k :: 0 <= k < |ns| ==> ns[k] in repr
    ensures var ms := Spliced(ns, p, n);
            && |ms| == |ns| + 1 && Values(ms) == Spliced(Values(ns), p, n.val)
            && NodeOr(ms, 0) == (if p == 0 then n else NodeOr(ns, 0))
            && NodeOr(ms, |ns|) == (if p == |ns| then n else NodeOr(ns, |ns| - 1))
            && forall k :: 0 <= k < |ms| ==> ms[k] in repr + {n}
  {
  }

  /** The links after the node at position p has been bypassed. */
  lemma ChainedWithout(ns: seq<ListNode>, p: nat)
    requires p < |ns| && Distinct(ns)
    requires forall k {:trigger ns[k].next} :: 0 <= k < |ns| && k != p ==>
               ns[k].next == NodeOr(ns, if k + 1 == p then p + 1 else k + 1)
    requires forall k {:trigger ns[k].prev} :: 0 <= k < |ns| && k != p ==>
               ns[k].prev == NodeOr(ns, if k == p + 1 then p - 1 else k - 1)
    ensures Chained(Without(ns, p)) && Distinct(Without(ns, p))
  {
    hide Distinct;
    var ms := Without(ns, p);
    DistinctWithout(ns, p);
    forall k | 0 <= k < |ms|
      ensures ms[k].next == NodeOr(ms, k + 1) && ms[k].prev == NodeOr(ms, k - 1)
    {
      var i := if k < p then k else k + 1;
      assert ms[k] == ns[i];
      assert NodeOr(ms, k + 1) == NodeOr(ns, if k + 1 < p then k + 1 else k + 2);
      assert NodeOr(ms, k - 1) == NodeOr(ns, if k - 1 < p then k - 1 else k);
    }
  }

  /** The links of list_insert_after behind a node; true when the new node is the last. */
  method LinkIn(node: ListNode, n: ListNode, ghost ns: seq<ListNode>, ghost p: nat) returns (atEnd: bool)
    requires Chained(ns) && Distinct(ns) && n !in ns && 0 < p <= |ns| && node == ns[p - 1]
    modifies ns`next, ns`prev, n`next, n`prev
    ensures Chained(Spliced(ns, p, n)) && Distinct(Spliced(ns, p, n)) && atEnd == (p == |ns|)
  {
    hide Distinct, Spliced;
    Apart(ns, p);
    n.prev := node;
    n.next := node.next;
    atEnd := node.next == null;
    if node.next != null {
      node.next.prev := n;
    }
    node.next := n;
    ChainedSpliced(ns, p, n);
  }

  lemma SplicedEnds<T>(s: seq<T>, x: T)
    ensures Spliced(s, 0, x) == [x] + s && Spliced(s, |s|, x) == s + [x]
  {
  }

  lemma WithoutShape(ns: seq<ListNode>, p: nat, repr: set<ListNode>)
    requires p < |ns| && forall k :: 0 <= k < |ns| ==> ns[k] in repr
    ensures var ms := Without(ns, p);
            && |ms| == |ns| - 1
            && NodeOr(ms, 0) == (if p == 0 then NodeOr(ns, 1) else ns[0])
            && NodeOr(ms, |ms| - 1) == (if p == |ms| then NodeOr(ns, |ns| - 2) else ns[|ns| - 1])
            && forall k :: 0 <= k < |ms| ==> ms[k] in repr
    ensures Without(ns, 0) == ns[1..] && Without(ns, |ns| - 1) == ns[..|ns| - 1]
  {
  }

  lemma DistinctWithout(ns: seq<ListNode>, p: nat)
    requires p < |ns| && Distinct(ns)
    ensures Distinct(Without(ns, p))
  {
  }

  class LinkedList {
    var head: ListNode?
    var tail: ListNode?
    var len: nat
    ghost var nodes: seq<ListNode>
    ghost var Repr: set<ListNode>     // every node the list has ever held

    ghost predicate Valid()
      reads this, Repr
    {
      && (forall k :: 0 <= k < |nodes| ==> nodes[k] in Repr)
      && len == |nodes| && head == NodeOr(nodes, 0) && tail == NodeOr(nodes, |nodes| - 1)
      && Distinct(nodes) && Chained(nodes)
    }

    ghost function Contents(): seq<Bytes>
      reads this
    {
      Values(nodes)
    }

    lemma Shape()
      requires Valid()
      ensures len == |nodes| && head == NodeOr(nodes, 0) && tail == NodeOr(nodes, |nodes| - 1)
    {
    }

    /** list_create. */
    constructor ()
      ensures Valid() && Contents() == [] && Repr == {}
    {
      head, tail, len := null, null, 0;
      nodes, Repr := [], {};
    }

    /** list_insert_after: behind the node, or at the head for NULL. */
    method InsertAfter(node: ListNode?, val: Bytes, ghost p: nat)
      requires Valid() && p <= |nodes| && node == NodeOr(nodes, p - 1)
      modifies this, Repr`next, Repr`prev
      ensures Valid() && fresh(Repr - old(Repr)) && Contents() == Spliced(old(Contents()), p, val)
    {
      hide Chained, Distinct, Values, Spliced;
      SplicedEnds(Contents(), val);
      if node == null {
        PushHead(val);
      } else {
        LinkBehind(node, val, p);
      }
    }

    method LinkBehind(node: ListNode, val: Bytes, ghost p: nat)
      requires Valid() && 0 < p <= |nodes| && node == nodes[p - 1]
      modifies this, Repr`next, Repr`prev
      ensures Valid() && fresh(Repr - old(Repr)) && Contents() == Spliced(old(Contents()), p, val)
    {
      hide Chained, Distinct, Spliced, Values;
      ghost var ns := nodes;
      var n := new ListNode(val);
      var atEnd := LinkIn(node, n, ns, p);
      if atEnd {
        tail := n;
      }
      len := len + 1;
      SplicedShape(ns, p, n, Repr);
      nodes, Repr := Spliced(ns, p, n), Repr + {n};
    }

    /** list_push_head. */
    method PushHead(val: Bytes)
      requires Valid()
      modifies this, Repr`next, Repr`prev
      ensures Valid() && fresh(Repr - old(Repr)) && Contents() == [val] + old(Contents())
    {
      hide Distinct, Spliced, Values;
      SplicedEnds(Contents(), val);
      ghost var ns := nodes;
      Apart(ns, 0);
      var n := new ListNode(val);
      n.next := head;
      if head != null {
        head.prev := n;
      } else {
        tail := n;
      }
      head := n;
      len := len + 1;
      ChainedSpliced(ns, 0, n);
      SplicedShape(ns, 0, n, Repr);
      nodes, Repr := Spliced(ns, 0, n), Repr + {n};
    }

    /** list_push_tail. */
    method PushTail(val: Bytes)
      requires Valid()
      modifies this, Repr`next, Repr`prev
      ensures Valid() && fresh(Repr - old(Repr)) && Contents() == old(Contents()) + [val]
    {
      hide Distinct, Spliced, Values;
      SplicedEnds(Contents(), val);
      ghost var ns := nodes;
      Apart(ns, |ns|);
      var n := new ListNode(val);
      n.prev := tail;
      if tail != null {
        tail.next := n;
      } else {
        head := n;
      }
      tail := n;
      len := len + 1;
      ChainedSpliced(ns, |ns|, n);
      SplicedShape(ns, |ns|, n, Repr);
      nodes, Repr := Spliced(ns, |ns|, n), Repr + {n};
    }

    /** list_pop_head. */
    method PopHead() returns (v: Option<Bytes>)
      requires Valid()
      modifies this, Repr`next, Repr`prev
      ensures Valid() && Repr == old(Repr) && (v.None? <==> old(nodes) == [])
      ensures v.None? ==> nodes == []
      ensures v.Some? ==> v.value == old(Contents()[0]) && nodes == old(nodes)[1..]
    {
      hide Distinct, Without;
      if head == null {
        return None;
      }
      ghost var ns := nodes;
      Apart(ns, 0);
      v := Some(head.val);
      head := head.next;
      if head != null {
        head.prev := null;
      } else {
        tail := null;
      }
      len := len - 1;
      WithoutShape(ns, 0, Repr);
      nodes := Without(ns, 0);
      ChainedWithout(ns, 0);
    }

    /** list_pop_tail. */
    method PopTail() returns (v: Option<Bytes>)
      requires Valid()
      modifies this, Repr`next, Repr`prev
      ensures Valid() && Repr == old(Repr) && (v.None? <==> old(nodes) == [])
      ensures v.None? ==> nodes == []
      ensures v.Some? ==> v.value == old(Contents()[|nodes| - 1]) && nodes == old(nodes)[..old(|nodes|) - 1]
    {
      hide Distinct, Without;
      if tail == null {
        return None;
      }
      ghost var ns := nodes;
      ghost var p := |ns| - 1;
      Apart(ns, p);
      v := Some(tail.val);
      tail := tail.prev;
      if tail != null {
        tail.next := null;
      } else {
        head := null;
      }
      len := len - 1;
      WithoutShape(ns, p, Repr);
      nodes := Without(ns, p);
      ChainedWithout(ns, p);
    }

    /** list_detach of the node at position p. */
    method Detach(node: ListNode, ghost p: nat) returns (val: Bytes)
      requires Valid() && p < |nodes| && node == nodes[p]
      modifies this, Repr`next, Repr`prev
      ensures Valid() && Repr == old(Repr) && val == node.val && nodes == Without(old(nodes), p)
    {
      hide Distinct, Without;
      ghost var ns := nodes;
      Apart(ns, p);
      if node.prev != null {
        node.prev.next := node.next;
      } else {
        head := node.next;
      }
      if node.next != null {
        node.next.prev := node.prev;
      } else {
        tail := node.prev;
      }
      len := len - 1;
      val := node.val;
      WithoutShape(ns, p, Repr);
      nodes := Without(ns, p);
      ChainedWithout(ns, p);
    }

    /** list_node_at: the indexed node, found from the nearer end. */
    method NodeAt(index: int) returns (x: ListNode?)
      requires Valid()
      ensures x == NodeOr(nodes, Effective(len, index))
    {
      hide Distinct;
      var n, index := len, index;
      if index < 0 {
        index := index + n;
      }
      if index < 0 || index >= n {
        return null;
      }
      if index <= n / 2 {
        x := head;
        for i := 0 to index
          invariant x == nodes[i]
        {
          x := x.next;
        }
      } else {
        x := tail;
        for i := n - 1 downto index
          invariant x == nodes[i]
        {
          x := x.prev;
        }
      }
    }

    // ---- The walks of the list commands ----

    /** The values from head to tail. */
    method ToSeq() returns (vs: seq<Bytes>)
      requires Valid()
      ensures vs == Contents()
    {
      hide Chained, Distinct;
      vs := [];
      var x := head;
      while x != null
        invariant |vs| <= |nodes| && x == NodeOr(nodes, |vs|) && vs == Contents()[..|vs|]
        decreases |nodes| - |vs|
      {
        NextAt(nodes, |vs|);
        vs := vs + [x.val];
        x := x.next;
      }
    }

    /** The walk of cmd_lrange: the announced length and the values. */
    method Range(start: int, stop: int) returns (header: nat, vs: seq<Bytes>)
      requires Valid()
      ensures vs == Slice(Contents(), start, stop) && header == |vs|
    {
      hide Slice, Valid;
      Shape();
      var range := Normalize(len, start, stop);
      SliceOfNormal(Contents(), start, stop, range);
      header, vs := 0, [];
      if range.Void? {
        return;
      }
      var n := range.stop - range.start + 1;
      header := n;
      var x := NodeAt(range.start);
      for i := 0 to n
        invariant vs == Contents()[range.start..range.start + i] && x == NodeOr(nodes, range.start + i)
      {
        assert Contents()[range.start..range.start + i + 1] == vs + [x.val];
        ValidNext(range.start + i);
        vs := vs + [x.val];
        x := x.next;
      }
    }

    lemma ValidNext(k: nat)
      requires Valid() && k < |nodes|
      ensures nodes[k].next == NodeOr(nodes, k + 1)
    {
      NextAt(nodes, k);
    }

    /** LTRIM on a live list; true when nothing would be left, in which case the key goes instead. */
    method Trim(start: int, stop: int) returns (empty: bool)
      requires Valid()
      modifies this, Repr`next, Repr`prev
      ensures Valid() && Repr == old(Repr) && (empty <==> Slice(old(Contents()), start, stop) == [])
      ensures Contents() == if empty then old(Contents()) else Slice(old(Contents()), start, stop)
    {
      hide Slice, Valid;
      Shape();
      var range := Normalize(len, start, stop);
      SliceOfNormal(Contents(), start, stop, range);
      if range.Void? {
        return true;
      }
      ghost var ns := nodes;
      var x, i := head, 0;
      assert ns[0..] == ns;
      while x != null && i < range.start
        invariant Valid() && Repr == old(Repr) && 0 <= i <= range.start && nodes == ns[i..] && x == NodeOr(ns, i)
      {
        Shape();
        var next := DropHeadNode(x);
        x, i := next, i + 1;
      }
      var target := range.stop - range.start + 1;
      Shape();
      TrimTail(target);
      assert ns[range.start..][..target] == ns[range.start..range.stop + 1];
      return false;
    }

    /** One turn of LTRIM's first loop. */
    method DropHeadNode(x: ListNode) returns (next: ListNode?)
      requires Valid() && nodes != [] && x == nodes[0]
      modifies this, Repr`next, Repr`prev
      ensures Valid() && Repr == old(Repr) && nodes == old(nodes)[1..] && next == NodeOr(old(nodes), 1)
    {
      hide Chained, Distinct;
      NextAt(nodes, 0);
      next := x.next;
      var _ := Detach(x, 0);
    }

    /** LTRIM's second loop. */
    method TrimTail(target: nat)
      requires Valid() && target <= len
      modifies this, Repr`next, Repr`prev
      ensures Valid() && Repr == old(Repr) && nodes == old(nodes)[..target]
    {
      hide Valid;
      Shape();
      while len > target
        invariant Valid() && Repr == old(Repr) && target <= len == |nodes| && nodes == old(nodes)[..len]
      {
        var _ := PopTail();
        Shape();
      }
    }

    /** One turn of a removing walk: the neighbours are read before the node may go away. */
    method Visit(x: ListNode, target: Bytes, ghost a: seq<ListNode>, ghost b: seq<ListNode>)
      returns (prev: ListNode?, next: ListNode?, hit: bool)
      requires Valid() && nodes == a + [x] + b
      modifies this, Repr`next, Repr`prev
      ensures Valid() && Repr == old(Repr) && hit == (x.val == target) && nodes == if hit then a + b else old(nodes)
      ensures prev == NodeOr(a, |a| - 1) && next == NodeOr(b, 0)
    {
      hide Chained, Distinct;
      NextAt(nodes, |a|);
      prev, next, hit := x.prev, x.next, x.val == target;
      if hit {
        var _ := Detach(x, |a|);
      }
    }

    /** LREM from the head: at most limit matches, or all of them for no limit. */
    method RemoveForward(target: Bytes, limit: nat) returns (removed: nat)
      requires Valid()
      modifies this, Repr`next, Repr`prev
      ensures Valid() && Repr == old(Repr)
      ensures Contents() == DropFirst(old(Contents()), target, if limit == 0 then |old(Contents())| else limit)
      ensures removed == |old(Contents())| - |Contents()|
    {
      hide Valid, Values, DropFirst, Ahead;
      Shape();
      ghost var left: nat := if limit == 0 then len else limit;
      ghost var kept: seq<ListNode>, rest, goal := [], nodes, DropFirst(Contents(), target, left);
      var x := head;
      removed := 0;
      AheadStart(rest, target, left);
      while x != null && (limit == 0 || removed < limit)
        invariant Valid() && Repr == old(Repr) && x == NodeOr(rest, 0) && nodes == kept + rest
        invariant removed + |kept| + |rest| == old(len)
        invariant removed + left == (if limit == 0 then old(len) else limit)
        invariant Ahead(kept, rest, target, left, goal)
        decreases |rest|
      {
        DropHead(kept, rest, target, left, goal);
        Turn(kept, rest);
        var _, next, hit := Visit(x, target, kept, rest[1..]);
        if hit {
          removed, left := removed + 1, left - 1;
        } else {
          kept := kept + [rest[0]];
        }
        x, rest := next, rest[1..];
      }
      Shape();
      AheadEnd(kept, rest, target, left, goal);
    }

    /** LREM from the tail. */
    method RemoveBackward(target: Bytes, limit: nat) returns (removed: nat)
      requires Valid()
      modifies this, Repr`next, Repr`prev
      ensures Valid() && Repr == old(Repr) && Contents() == DropLast(old(Contents()), target, limit)
      ensures removed == |old(Contents())| - |Contents()|
    {
      hide Valid, Values, DropLast, Behind;
      Shape();
      ghost var left, kept: seq<ListNode>, rest, goal := limit, [], nodes, DropLast(Contents(), target, limit);
      var x := tail;
      removed := 0;
      BehindStart(rest, target, limit);
      while x != null && removed < limit
        invariant Valid() && Repr == old(Repr) && x == NodeOr(rest, |rest| - 1) && nodes == rest + kept
        invariant removed + |kept| + |rest| == old(len) && removed + left == limit
        invariant Behind(rest, kept, target, left, goal)
        decreases |rest|
      {
        ghost var init, last := rest[..|rest| - 1], rest[|rest| - 1];
        TurnBack(rest, kept);
        DropTail(kept, init, last, target, left, goal);
        var prev, _, hit := Visit(x, target, init, kept);
        if hit {
          removed, left := removed + 1, left - 1;
        } else {
          kept := [last] + kept;
        }
        x, rest := prev, init;
      }
      Shape();
      BehindEnd(rest, kept, target, left, goal);
    }

    /** The walk of cmd_lrem. */
    method Remove(count: int, target: Bytes) returns (removed: nat)
      requires Valid()
      modifies this, Repr`next, Repr`prev
      ensures Valid() && Repr == old(Repr) && Contents() == LRemoved(old(Contents()), target, count)
      ensures removed == |old(Contents())| - |Contents()|
    {
      hide DropFirst, DropLast, Values, Rev;
      if count >= 0 {
        removed := RemoveForward(target, count);
      } else {
        removed := RemoveBackward(target, -count);
        DropLastIsRev(old(Contents()), target, -count);
      }
    }

    /** The walk of cmd_linsert: the new length, or -1 when there is no pivot. */
    method Insert(before: bool, pivot: Bytes, val: Bytes) returns (r: int, ghost p: nat)
      requires Valid()
      modifies this, Repr`next, Repr`prev
      ensures Valid() && fresh(Repr - old(Repr))
      ensures r == -1 <==> pivot !in old(Contents())
      ensures r == -1 ==> Contents() == old(Contents())
      ensures r != -1 ==> p < old(len) && old(Contents())[p] == pivot && pivot !in old(Contents())[..p]
      ensures r != -1 ==> Contents() == Spliced(old(Contents()), if before then p else p + 1, val) && r == |Contents()|
    {
      hide Chained, Distinct, Spliced;
      var x := head;
      p := 0;
      while x != null
        invariant Valid() && Repr == old(Repr) && nodes == old(nodes) && p <= |nodes| && x == NodeOr(nodes, p)
        invariant pivot !in Contents()[..p]
        decreases |nodes| - p
      {
        NextAt(nodes, p);
        if x.val == pivot {
          assert Contents()[p] == pivot;
          if before {
            InsertAfter(x.prev, val, p);
          } else {
            InsertAfter(x, val, p + 1);
          }
          return len, p;
        }
        assert Contents()[..p + 1] == Contents()[..p] + [x.val];
        x, p := x.next, p + 1;
      }
      assert Contents()[..p] == Contents();
      r := -1;
    }
  }

  /** A list that holds the values. */
  method FromSeq(vs: seq<Bytes>) returns (l: LinkedList)
    ensures l.Valid() && l.Contents() == vs && fresh(l) && fresh(l.Repr)
  {
    hide LinkedList.Valid;
    l := new LinkedList();
    for i := 0 to |vs|
      invariant l.Valid() && l.Contents() == vs[..i] && fresh(l) && fresh(l.Repr)
    {
      l.PushTail(vs[i]);
      assert vs[..i + 1] == vs[..i] + [vs[i]];
    }
    assert vs[..|vs|] == vs;
  }

  lemma NextAt(ns: seq<ListNode>, k: nat)
    requires Chained(ns) && k < |ns|
    ensures ns[k].next == NodeOr(ns, k + 1) && ns[k].prev == NodeOr(ns, k - 1)
  {
  }

  lemma Turn(kept: seq<ListNode>, rest: seq<ListNode>)
    requires rest != []
    ensures kept + rest == kept + [rest[0]] + rest[1..]
  {
  }

  lemma TurnBack(rest: seq<ListNode>, kept: seq<ListNode>)
    requires rest != []
    ensures var init, last := rest[..|rest| - 1], rest[|rest| - 1];
            rest == init + [last] && rest + kept == init + [last] + kept == init + ([last] + kept)
  {
  }

  /** The node at p and its neighbours differ from all others. */
  lemma Apart(ns: seq<ListNode>, p: nat)
    requires p <= |ns| && Distinct(ns)
    ensures p < |ns| ==> forall k :: 0 <= k < |ns| && k != p ==> ns[k] != ns[p]
    ensures p > 0 ==> forall k :: 0 <= k < |ns| && k != p - 1 ==> ns[k] != ns[p - 1]
    ensures p + 1 < |ns| ==> forall k :: 0 <= k < |ns| && k != p + 1 ==> ns[k] != ns[p + 1]
  {
  }

  // ---- Dropping matches from either end ----

  function DropLast(l: seq<Bytes>, v: Bytes, n: nat): seq<Bytes> {
    if l == [] || n == 0 then l
    else
      var init, last := l[..|l| - 1], l[|l| - 1];
      if last == v then DropLast(init, v, n - 1) else DropLast(init, v, n) + [last]
  }

  /** What a removing walk from the head will leave: the nodes it kept, and the rest without its first n matches. */
  ghost predicate Ahead(kept: seq<ListNode>, rest: seq<ListNode>, v: Bytes, n: nat, goal: seq<Bytes>) {
    Values(kept) + DropFirst(Values(rest), v, n) == goal
  }

  lemma AheadStart(ns: seq<ListNode>, v: Bytes, n: nat)
    ensures Ahead([], ns, v, n, DropFirst(Values(ns), v, n))
  {
  }

  lemma AheadEnd(kept: seq<ListNode>, rest: seq<ListNode>, v: Bytes, n: nat, goal: seq<Bytes>)
    requires (rest == [] || n == 0) && Ahead(kept, rest, v, n, goal)
    ensures goal == Values(kept + rest)
  {
  }

  lemma DropHead(kept: seq<ListNode>, rest: seq<ListNode>, v: Bytes, n: nat, goal: seq<Bytes>)
    requires rest != [] && n > 0 && Ahead(kept, rest, v, n, goal)
    ensures if rest[0].val == v then Ahead(kept, rest[1..], v, n - 1, goal)
            else Ahead(kept + [rest[0]], rest[1..], v, n, goal)
  {
    assert Values(rest)[1..] == Values(rest[1..]);
    assert Values(kept + [rest[0]]) == Values(kept) + [rest[0].val];
  }

  /** The same from the tail. */
  ghost predicate Behind(rest: seq<ListNode>, kept: seq<ListNode>, v: Bytes, n: nat, goal: seq<Bytes>) {
    DropLast(Values(rest), v, n) + Values(kept) == goal
  }

  lemma BehindStart(ns: seq<ListNode>, v: Bytes, n: nat)
    ensures Behind(ns, [], v, n, DropLast(Values(ns), v, n))
  {
  }

  lemma BehindEnd(rest: seq<ListNode>, kept: seq<ListNode>, v: Bytes, n: nat, goal: seq<Bytes>)
    requires (rest == [] || n == 0) && Behind(rest, kept, v, n, goal)
    ensures goal == Values(rest + kept)
  {
  }

  lemma DropTail(kept: seq<ListNode>, init: seq<ListNode>, last: ListNode, v: Bytes, n: nat, goal: seq<Bytes>)
    requires n > 0 && Behind(init + [last], kept, v, n, goal)
    ensures if last.val == v then Behind(init, kept, v, n - 1, goal) else Behind(init, [last] + kept, v, n, goal)
  {
    assert Values(init + [last])[..|init|] == Values(init);
    assert Values([last] + kept) == [last.val] + Values(kept);
  }

  lemma RevNone()
    ensures Rev([]) == []
  {
  }

  lemma RevCons(l: seq<Bytes>, i: nat)
    requires i < |l|
    ensures Rev(l[i..]) == Rev(l[i + 1..]) + [l[i]]
  {
    assert l[i..][1..] == l[i + 1..];
  }

  lemma {:induction false} RevSnoc(l: seq<Bytes>, x: Bytes)
    ensures Rev(l + [x]) == [x] + Rev(l)
  {
    if l != [] {
      RevSnoc(l[1..], x);
      assert (l + [x])[1..] == l[1..] + [x];
    }
  }

  lemma {:induction false} RevRev(l: seq<Bytes>)
    ensures Rev(Rev(l)) == l
  {
    if l != [] {
      RevRev(l[1..]);
      RevSnoc(Rev(l[1..]), l[0]);
    }
  }

  lemma {:induction false} DropLastIsRev(l: seq<Bytes>, v: Bytes, n: nat)
    ensures DropLast(l, v, n) == Rev(DropFirst(Rev(l), v, n))
  {
    if l == [] || n == 0 {
      RevRev(l);
    } else {
      var init, last := l[..|l| - 1], l[|l| - 1];
      assert l == init + [last];
      RevSnoc(init, last);
      assert Rev(l)[1..] == Rev(init);
      if last == v {
        DropLastIsRev(init, v, n - 1);
      } else {
        DropLastIsRev(init, v, n);
        var d := DropFirst(Rev(init), v, n);
        assert ([last] + d)[1..] == d;
      }
    }
  }

  // ---- What LREM removes, position by position ----

  /** Element i is one of the n matches nearest to the chosen end. */
  ghost predicate Leaves(l: seq<Bytes>, v: Bytes, fromHead: bool, n: nat, i: nat)
    requires i < |l|
  {
    l[i] == v && (if fromHead then Occurrences(l[..i], v) else Occurrences(l[i + 1..], v)) < n
  }

  /** The elements among the first m that stay, in order. */
  ghost function Stay(l: seq<Bytes>, v: Bytes, fromHead: bool, n: nat, m: nat): seq<Bytes>
    requires m <= |l|
  {
    if m == 0 then []
    else Stay(l, v, fromHead, n, m - 1) + if Leaves(l, v, fromHead, n, m - 1) then [] else [l[m - 1]]
  }

  lemma {:induction false} OccurrencesSnoc(l: seq<Bytes>, x: Bytes, v: Bytes)
    ensures Occurrences(l + [x], v) == Occurrences(l, v) + (if x == v then 1 else 0)
  {
    if l != [] {
      OccurrencesSnoc(l[1..], x, v);
      assert (l + [x])[1..] == l[1..] + [x];
    }
  }

  lemma {:induction false} DropFirstSnoc(l: seq<Bytes>, x: Bytes, v: Bytes, n: nat)
    ensures DropFirst(l + [x], v, n) == DropFirst(l, v, n) + if x == v && Occurrences(l, v) < n then [] else [x]
  {
    if l != [] && n > 0 {
      DropFirstSnoc(l[1..], x, v, if l[0] == v then n - 1 else n);
      assert (l + [x])[1..] == l[1..] + [x];
    }
  }

  function Min(a: nat, b: nat): nat {
    if a < b then a else b
  }

  lemma {:induction false} ForwardExact(l: seq<Bytes>, v: Bytes, n: nat, m: nat)
    requires m <= |l|
    ensures DropFirst(l[..m], v, n) == Stay(l, v, true, n, m)
    ensures |DropFirst(l[..m], v, n)| == m - Min(n, Occurrences(l[..m], v))
  {
    if m > 0 {
      ForwardExact(l, v, n, m - 1);
      assert l[..m] == l[..m - 1] + [l[m - 1]];
      DropFirstSnoc(l[..m - 1], l[m - 1], v, n);
      OccurrencesSnoc(l[..m - 1], l[m - 1], v);
    }
  }

  /** Seen from the tail, the last element only shifts how many matches are still to go. */
  lemma {:induction false} StayInit(l: seq<Bytes>, v: Bytes, n: nat, m: nat)
    requires m < |l| && n > 0
    ensures Stay(l, v, false, n, m) == Stay(l[..|l| - 1], v, false, if l[|l| - 1] == v then n - 1 else n, m)
  {
    if m > 0 {
      var init := l[..|l| - 1];
      StayInit(l, v, n, m - 1);
      assert l[m..] == init[m..] + [l[|l| - 1]];
      OccurrencesSnoc(init[m..], l[|l| - 1], v);
    }
  }

  lemma {:induction false} StayAll(l: seq<Bytes>, v: Bytes, m: nat)
    requires m <= |l|
    ensures Stay(l, v, false, 0, m) == l[..m]
  {
    if m > 0 {
      StayAll(l, v, m - 1);
    }
  }

  lemma {:induction false} BackwardExact(l: seq<Bytes>, v: Bytes, n: nat)
    ensures DropLast(l, v, n) == Stay(l, v, false, n, |l|)
    ensures |DropLast(l, v, n)| == |l| - Min(n, Occurrences(l, v))
  {
    if n == 0 {
      StayAll(l, v, |l|);
      assert l[..|l|] == l;
    } else if l != [] {
      var init, last := l[..|l| - 1], l[|l| - 1];
      assert l == init + [last] && l[|l|..] == [];
      OccurrencesSnoc(init, last, v);
      BackwardExact(init, v, if last == v then n - 1 else n);
      StayInit(l, v, n, |init|);
    }
  }

  lemma {:induction false} OccurrencesBound(l: seq<Bytes>, v: Bytes)
    ensures Occurrences(l, v) <= |l|
  {
    if l != [] {
      OccurrencesBound(l[1..], v);
    }
  }

  /** LREM removes exactly the min(|count|, occurrences) matches nearest to its end, all for zero, and nothing else
      moves. */
  lemma RemovedExact(l: seq<Bytes>, v: Bytes, count: int)
    ensures var n := if count == 0 then |l| else if count > 0 then count else -count;
            && LRemoved(l, v, count) == Stay(l, v, count >= 0, n, |l|)
            && |l| - |LRemoved(l, v, count)| == Min(n, Occurrences(l, v))
            && (count == 0 ==> |l| - |LRemoved(l, v, count)| == Occurrences(l, v))
  {
    hide DropFirst, DropLast, Stay, Rev, Occurrences;
    OccurrencesBound(l, v);
    assert l[..|l|] == l;
    if count >= 0 {
      ForwardExact(l, v, if count == 0 then |l| else count, |l|);
    } else {
      BackwardExact(l, v, -count);
      DropLastIsRev(l, v, -count);
    }
  }
}
