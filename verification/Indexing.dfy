/** Redis-style index ranges: negative indices count from the end, both ends are included. */
module Indexing {

  /** What index i of a sequence of the given length means. */
  function Effective(len: nat, i: int): int {
    if i < 0 then len + i else i
  }

  /** range_normalize: None when the range is void, otherwise the clipped ends. */
  datatype Normal = Void | Block(start: int, stop: int)

  method Normalize(len: nat, start0: int, stop0: int) returns (n: Normal)
    ensures n.Void? ==> forall k :: !Covers(len, start0, stop0, k)
    ensures n.Block? ==> 0 <= n.start <= n.stop < len
    ensures n.Block? ==> forall k :: n.start <= k <= n.stop <==> Covers(len, start0, stop0, k)
  {
    var start, stop := start0, stop0;
    if start < 0 {
      start := len + start;
    }
    if stop < 0 {
      stop := len + stop;
    }
    if start < 0 {
      start := 0;
    }
    if start > stop || start >= len {
      return Void;
    }
    if stop >= len {
      stop := len - 1;
    }
    return Block(start, stop);
  }

  /** Index k is asked for by the range. */
  predicate Covers(len: nat, start: int, stop: int, k: int) {
    0 <= k < len && Effective(len, start) <= k <= Effective(len, stop)
  }

  /** 0 is the first index and -1 the last; 0 to -1 is everything. */
  lemma Ends(len: nat, k: int)
    ensures Covers(len, 0, 0, k) <==> len > 0 && k == 0
    ensures Covers(len, -1, -1, k) <==> len > 0 && k == len - 1
    ensures Covers(len, 0, -1, k) <==> 0 <= k < len
  {
  }

  /** The part of s that the range covers. */
  function Slice<T>(s: seq<T>, start: int, stop: int): (r: seq<T>)
    ensures |r| <= |s|
  {
    var lo := if Effective(|s|, start) < 0 then 0 else Effective(|s|, start);
    var hi := if Effective(|s|, stop) >= |s| then |s| else Effective(|s|, stop) + 1;
    if lo < hi then s[lo..hi] else []
  }

  lemma SliceOfNormal<T>(s: seq<T>, start: int, stop: int, n: Normal)
    requires n.Void? ==> forall k :: !Covers(|s|, start, stop, k)
    requires n.Block? ==> 0 <= n.start <= n.stop < |s|
    requires n.Block? ==> forall k :: n.start <= k <= n.stop <==> Covers(|s|, start, stop, k)
    ensures Slice(s, start, stop) == if n.Void? then [] else s[n.start..n.stop + 1]
  {
    var lo := if Effective(|s|, start) < 0 then 0 else Effective(|s|, start);
    var hi := if Effective(|s|, stop) >= |s| then |s| else Effective(|s|, stop) + 1;
    if lo < hi {
      assert Covers(|s|, start, stop, lo) && Covers(|s|, start, stop, hi - 1);
      assert !Covers(|s|, start, stop, lo - 1) && !Covers(|s|, start, stop, hi);
    }
    if n.Block? {
      assert Covers(|s|, start, stop, n.start) && Covers(|s|, start, stop, n.stop);
    }
  }

  ghost function Reversed<T>(s: seq<T>): (r: seq<T>)
    ensures |r| == |s| && forall i :: 0 <= i < |s| ==> r[i] == s[|s| - 1 - i]
  {
    seq(|s|, i requires 0 <= i < |s| => s[|s| - 1 - i])
  }
}
