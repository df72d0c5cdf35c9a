/** Byte strings, sorted-set scores and the order in which the skip list keeps its nodes. */
module Orders {

  /** A byte buffer; every character stands for one byte. */
  type Bytes = string

  datatype Option<+T> = None | Some(value: T)

  /** A sorted-set score: a double other than NaN. */
  datatype Score = NegInf | Finite(value: real) | PosInf {
    predicate Lt(s: Score) {
      match this
      case NegInf => !s.NegInf?
      case Finite(v) => s.PosInf? || (s.Finite? && v < s.value)
      case PosInf => false
    }
  }

  /** C memcmp over two buffers of equal length. */
  function Memcmp(a: Bytes, b: Bytes): int
    requires |a| == |b|
  {
    if a == [] then 0
    else if a[0] != b[0] then a[0] as int - b[0] as int
    else Memcmp(a[1..], b[1..])
  }

  /** member_cmp: memcmp over the common length, then the shorter first. */
  function MemberCmp(a: Bytes, b: Bytes): int {
    var n := if |a| < |b| then |a| else |b|;
    var r := Memcmp(a[..n], b[..n]);
    if r != 0 then r else if |a| < |b| then -1 else if |a| > |b| then 1 else 0
  }

  /** Lexicographic order on bytes, as a definition independent of MemberCmp. */
  predicate LexLt(a: Bytes, b: Bytes) {
    b != [] && (a == [] || a[0] < b[0] || (a[0] == b[0] && LexLt(a[1..], b[1..])))
  }

  /** The comparator's sign decides the lexicographic order, and zero means equal. */
  lemma {:induction false} MemberCmpIsLex(a: Bytes, b: Bytes)
    ensures MemberCmp(a, b) < 0 <==> LexLt(a, b)
    ensures MemberCmp(a, b) > 0 <==> LexLt(b, a)
    ensures MemberCmp(a, b) == 0 <==> a == b
  {
    if a != [] && b != [] && a[0] == b[0] {
      MemberCmpIsLex(a[1..], b[1..]);
      var n := if |a| < |b| then |a| else |b|;
      assert a[..n][1..] == a[1..][..n - 1];
      assert b[..n][1..] == b[1..][..n - 1];
      assert a == [a[0]] + a[1..] && b == [b[0]] + b[1..];
    }
  }

  /** What decides the order: the first byte in which the two differ, or the end of the shorter one. */
  lemma {:induction false} LexFirstDifference(a: Bytes, b: Bytes)
    ensures LexLt(a, b)
      <==> exists i :: 0 <= i <= |a| && i < |b| && a[..i] == b[..i] && (i == |a| || a[i] < b[i])
  {
    if a == [] || b == [] || a[0] != b[0] {
      if LexLt(a, b) {
        assert a[..0] == b[..0];
      }
      forall i | 0 < i <= |a| && i < |b|
        ensures a[..i] != b[..i]
      {
        assert a[..i][0] != b[..i][0];
      }
    } else {
      LexFirstDifference(a[1..], b[1..]);
      if LexLt(a, b) {
        var a', b' := a[1..], b[1..];
        var i :| 0 <= i <= |a'| && i < |b'| && a'[..i] == b'[..i] && (i == |a'| || a'[i] < b'[i]);
        assert a[..i + 1] == [a[0]] + a[1..][..i] && b[..i + 1] == [b[0]] + b[1..][..i];
      }
      if i :| 0 <= i <= |a| && i < |b| && a[..i] == b[..i] && (i == |a| || a[i] < b[i]) {
        assert i > 0 && a[1..][..i - 1] == a[..i][1..] && b[1..][..i - 1] == b[..i][1..];
      }
    }
  }

  /** Scores are in the order of the numbers they stand for, between the two infinities. */
  lemma ScoreOrder(x: real, y: real, s: Score)
    ensures Finite(x).Lt(Finite(y)) <==> x < y
    ensures NegInf.Lt(s) <==> s != NegInf
    ensures s.Lt(PosInf) <==> s != PosInf
    ensures !s.Lt(NegInf) && !PosInf.Lt(s)
  {
  }

  lemma {:induction false} LexTransitive(a: Bytes, b: Bytes, c: Bytes)
    requires LexLt(a, b) && LexLt(b, c)
    ensures LexLt(a, c)
  {
    if a != [] && a[0] == b[0] == c[0] {
      LexTransitive(a[1..], b[1..], c[1..]);
    }
  }

  /** The skip list's ordering test: by score, ties by member. */
  predicate KeyLt(s: Score, m: Bytes, s': Score, m': Bytes) {
    s.Lt(s') || (s == s' && MemberCmp(m, m') < 0)
  }

  /** The order in which a sorted set lists its elements: ascending by score, and by member among equal scores. */
  ghost predicate Precedes(s: Score, m: Bytes, s': Score, m': Bytes) {
    s.Lt(s') || (s == s' && LexLt(m, m'))
  }

  /** The code's test decides that order. */
  lemma KeyLtPrecedes(s: Score, m: Bytes, s': Score, m': Bytes)
    ensures KeyLt(s, m, s', m') <==> Precedes(s, m, s', m')
  {
    MemberCmpIsLex(m, m');
  }

  lemma KeyLtTransitive(s: Score, m: Bytes, s': Score, m': Bytes, s'': Score, m'': Bytes)
    requires KeyLt(s, m, s', m') && KeyLt(s', m', s'', m'')
    ensures KeyLt(s, m, s'', m'')
  {
    MemberCmpIsLex(m, m');
    MemberCmpIsLex(m', m'');
    MemberCmpIsLex(m, m'');
    if s == s' == s'' {
      LexTransitive(m, m', m'');
    }
  }

  /** Exactly one of: less, equal, greater. */
  lemma KeyLtTrichotomy(s: Score, m: Bytes, s': Score, m': Bytes)
    ensures KeyLt(s, m, s', m') || KeyLt(s', m', s, m) || (s == s' && m == m')
    ensures !(KeyLt(s, m, s', m') && KeyLt(s', m', s, m))
    ensures !KeyLt(s, m, s, m)
  {
    MemberCmpIsLex(m, m');
    MemberCmpIsLex(m', m);
    MemberCmpIsLex(m, m);
  }
}
