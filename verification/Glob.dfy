/** The glob matcher of src/util.c. A pattern is a NUL-terminated string: its bytes up to the terminator. */
module Globs {
  import opened Orders

  // ---- What a pattern denotes ----

  datatype Token =
    | Star
    | AnyByte
    | OneOf(negated: bool, ranges: seq<(char, char)>)
    | Literal(byte: char)
    | Unterminated                 // a class without its closing bracket

  predicate InRanges(c: char, ranges: seq<(char, char)>) {
    exists i :: 0 <= i < |ranges| && ranges[i].0 <= c <= ranges[i].1
  }

  /** The single bytes a token stands for, literals compared as given. */
  predicate Admits(t: Token, c: char) {
    match t
    case Star => false
    case AnyByte => true
    case OneOf(negated, ranges) => InRanges(c, ranges) != negated
    case Literal(b) => c == b
    case Unterminated => false
  }

  /** The declared language: a star is any split of the subject. */
  ghost predicate Denotes(ts: seq<Token>, s: Bytes) {
    if ts == [] then s == []
    else if ts[0].Star? then exists i :: 0 <= i <= |s| && Denotes(ts[1..], s[i..])
    else s != [] && Admits(ts[0], s[0]) && Denotes(ts[1..], s[1..])
  }

  // ---- From pattern to tokens ----

  /** The members of a class after its opening bracket and negation; the first byte is always a member. */
  datatype ClassBody = Closed(ranges: seq<(char, char)>, rest: Bytes) | Open(rest: Bytes)

  function ClassItems(q: Bytes, first: bool): (r: ClassBody)
    ensures |r.rest| <= |q| && (r.Closed? ==> |r.rest| < |q|)
  {
    if q == [] then Open(q)
    else if !first && q[0] == ']' then Closed([], q[1..])
    else
      var ranged := |q| >= 3 && q[1] == '-' && q[2] != ']';
      var item := (q[0], if ranged then q[2] else q[0]);
      match ClassItems(q[if ranged then 3 else 1..], false)
      case Open(rest) => Open(rest)
      case Closed(ranges, rest) => Closed([item] + ranges, rest)
  }

  predicate Negates(q: Bytes) {
    q != [] && (q[0] == '!' || q[0] == '^')
  }

  /** The first token of a pattern and what follows it. */
  function FirstToken(p: Bytes): (r: (Token, Bytes))
    requires p != []
    ensures |r.1| < |p|
  {
    if p[0] == '*' then (Star, p[1..])
    else if p[0] == '?' then (AnyByte, p[1..])
    else if p[0] == '[' then
      var neg := Negates(p[1..]);
      match ClassItems(p[if neg then 2 else 1..], true)
      case Open(rest) => (Unterminated, rest)
      case Closed(ranges, rest) => (OneOf(neg, ranges), rest)
    else (Literal(p[0]), p[1..])
  }

  function Tokens(p: Bytes): seq<Token>
    decreases |p|
  {
    if p == [] then [] else [FirstToken(p).0] + Tokens(FirstToken(p).1)
  }

  // ---- The code compares a literal as a signed char ----

  /** A byte read through a plain (signed) char. */
  function SignedChar(c: char): int {
    if c as int >= 128 then c as int - 256 else c as int
  }

  predicate Accepts(t: Token, c: char) {
    if t.Literal? then SignedChar(t.byte) == c as int else Admits(t, c)
  }

  /** The language the code accepts. */
  ghost predicate Matches(ts: seq<Token>, s: Bytes) {
    if ts == [] then s == []
    else if ts[0].Star? then exists i :: 0 <= i <= |s| && Matches(ts[1..], s[i..])
    else s != [] && Accepts(ts[0], s[0]) && Matches(ts[1..], s[1..])
  }

  /** A class body of which some members have been read already. */
  function Behind(done: seq<(char, char)>, r: ClassBody): ClassBody {
    match r
    case Open(rest) => Open(rest)
    case Closed(ranges, rest) => Closed(done + ranges, rest)
  }

  lemma ItemStep(q: Bytes, first: bool, done: seq<(char, char)>)
    requires q != [] && (first || q[0] != ']')
    ensures var ranged := |q| >= 3 && q[1] == '-' && q[2] != ']';
            Behind(done, ClassItems(q, first))
              == Behind(done + [(q[0], if ranged then q[2] else q[0])], ClassItems(q[if ranged then 3 else 1..], false))
  {
    var ranged := |q| >= 3 && q[1] == '-' && q[2] != ']';
    var item := (q[0], if ranged then q[2] else q[0]);
    var r := ClassItems(q[if ranged then 3 else 1..], false);
    if r.Closed? {
      assert done + ([item] + r.ranges) == done + [item] + r.ranges;
    }
  }

  lemma NothingRead(c: char, r: ClassBody)
    ensures Behind([], r) == r && !InRanges(c, [])
  {
    if r.Closed? {
      assert [] + r.ranges == r.ranges;
    }
  }

  lemma ItemsEnd(q: Bytes, first: bool, done: seq<(char, char)>)
    requires q == [] || (!first && q[0] == ']')
    ensures Behind(done, ClassItems(q, first)) == if q == [] then Open(q) else Closed(done, q[1..])
  {
    assert done + [] == done;
  }

  /** glob_class: whether c is in the class, and the pattern after it; nothing after an unterminated one matters. */
  method GlobClass(p: Bytes, c: char) returns (hit: bool, rest: Bytes)
    requires p != [] && p[0] == '['
    ensures hit == Accepts(FirstToken(p).0, c)
    ensures rest == FirstToken(p).1
  {
    hide ClassItems, InRanges;
    var q, negate := p[1..], false;
    if q != [] && (q[0] == '!' || q[0] == '^') {
      negate := true;
      q := q[1..];
    }
    assert q == p[if Negates(p[1..]) then 2 else 1..];
    ghost var body := ClassItems(q, true);
    var matched, first := false, true;
    ghost var done: seq<(char, char)> := [];
    NothingRead(c, body);
    while q != [] && (first || q[0] != ']')
      invariant matched == InRanges(c, done) && body == Behind(done, ClassItems(q, first))
      decreases |q|
    {
      ItemStep(q, first, done);
      var lo := q[0];
      ghost var q0 := q;
      q := q[1..];
      var hi := lo;
      if q != [] && q[0] == '-' && |q| >= 2 && q[1] != ']' {
        hi := q[1];
        q := q[2..];
      }
      assert q == q0[if |q0| >= 3 && q0[1] == '-' && q0[2] != ']' then 3 else 1..];
      if lo <= c <= hi {
        matched := true;
      }
      InRangesSnoc(c, done, (lo, hi));
      first, done := false, done + [(lo, hi)];
    }
    ItemsEnd(q, first, done);
    if q == [] || q[0] != ']' {
      return false, q;
    }
    return matched != negate, q[1..];
  }

  lemma InRangesSnoc(c: char, rs: seq<(char, char)>, r: (char, char))
    ensures InRanges(c, rs + [r]) <==> InRanges(c, rs) || r.0 <= c <= r.1
  {
    assert (rs + [r])[|rs|] == r;
    if InRanges(c, rs) {
      var i :| 0 <= i < |rs| && rs[i].0 <= c <= rs[i].1;
      assert (rs + [r])[i] == rs[i];
    }
  }

  /** A run of stars is one star. */
  lemma StarStar(ts: seq<Token>, s: Bytes)
    requires ts != [] && ts[0].Star?
    ensures Matches([Star] + ts, s) <==> Matches(ts, s)
  {
    assert ([Star] + ts)[1..] == ts;
    assert s[0..] == s;
    if Matches([Star] + ts, s) {
      var i :| 0 <= i <= |s| && Matches(ts, s[i..]);
      var j :| 0 <= j <= |s[i..]| && Matches(ts[1..], s[i..][j..]);
      assert s[i..][j..] == s[i + j..];
    }
  }

  lemma StarFirst(p: Bytes)
    requires p != [] && p[0] == '*'
    ensures Tokens(p) == [Star] + Tokens(p[1..])
  {
  }

  lemma StarRun(p: Bytes, s: Bytes)
    requires p != [] && p[0] == '*'
    ensures Matches([Star] + Tokens(p), s) <==> Matches([Star] + Tokens(p[1..]), s)
  {
    hide Matches;
    StarFirst(p);
    StarStar(Tokens(p), s);
  }

  lemma StarMeans(p: Bytes, s: Bytes)
    ensures Matches([Star] + Tokens(p), s) <==> exists i :: 0 <= i <= |s| && Matches(Tokens(p), s[i..])
    ensures p == [] ==> Matches([Star] + Tokens(p), s)
  {
    hide Tokens;
    var ts := [Star] + Tokens(p);
    assert ts[0].Star? && ts[1..] == Tokens(p);
    if p == [] {
      assert Tokens(p) == [] by { NoTokens(); }
      assert s[|s|..] == [] && Matches(Tokens(p), s[|s|..]);
    }
  }

  lemma NoTokens()
    ensures Tokens([]) == []
  {
  }

  lemma FirstMatches(p: Bytes, s: Bytes)
    requires p != [] && p[0] != '*'
    ensures Matches(Tokens(p), s)
      <==> s != [] && Accepts(FirstToken(p).0, s[0]) && Matches(Tokens(FirstToken(p).1), s[1..])
  {
    hide Accepts;
    assert Tokens(p)[1..] == Tokens(FirstToken(p).1);
  }

  lemma EmptyMatches(s: Bytes)
    ensures Matches(Tokens([]), s) <==> s == []
  {
  }

  lemma SingleFirst(p: Bytes, c: char)
    requires p != [] && p[0] != '*' && p[0] != '['
    ensures FirstToken(p).1 == p[1..]
    ensures Accepts(FirstToken(p).0, c) <==> p[0] == '?' || SignedChar(p[0]) == c as int
  {
  }

  /** glob_rec. */
  method GlobRec(p: Bytes, s: Bytes) returns (b: bool)
    ensures b == Matches(Tokens(p), s)
    decreases |p|
  {
    hide Matches, Tokens, FirstToken, Accepts;
    if p == [] {
      EmptyMatches(s);
      return s == [];
    }
    if p[0] == '*' {
      var p' := p[1..];
      StarFirst(p);
      while p' != [] && p'[0] == '*'
        invariant |p'| < |p| && (Matches(Tokens(p), s) <==> Matches([Star] + Tokens(p'), s))
        decreases |p'|
      {
        StarRun(p', s);
        p' := p'[1..];
      }
      StarMeans(p', s);
      if p' == [] {
        return true;
      }
      for q := 0 to |s| + 1
        invariant forall i :: 0 <= i < q ==> !Matches(Tokens(p'), s[i..])
      {
        var hit := GlobRec(p', s[q..]);
        if hit {
          return true;
        }
      }
      return false;
    }
    FirstMatches(p, s);
    if s == [] {
      return false;
    }
    if p[0] == '?' {
      SingleFirst(p, s[0]);
      b := GlobRec(p[1..], s[1..]);
      return;
    }
    if p[0] == '[' {
      var hit, rest := GlobClass(p, s[0]);
      if !hit {
        return false;
      }
      b := GlobRec(rest, s[1..]);
      return;
    }
    SingleFirst(p, s[0]);
    if SignedChar(p[0]) == s[0] as int {
      b := GlobRec(p[1..], s[1..]);
      return;
    }
    return false;
  }

  // ---- When the code meets the declared language ----

  predicate IsByte(c: char) {
    c as int < 256
  }

  predicate IsBytes(s: Bytes) {
    forall i :: 0 <= i < |s| ==> IsByte(s[i])
  }

  /** A literal byte of 128 or more, which no subject byte equals in the code's comparison. */
  predicate HighLiteral(ts: seq<Token>) {
    exists i :: 0 <= i < |ts| && ts[i].Literal? && ts[i].byte as int >= 128
  }

  predicate LiteralBytes(ts: seq<Token>) {
    forall i :: 0 <= i < |ts| && ts[i].Literal? ==> IsByte(ts[i].byte)
  }

  lemma {:induction false} TokensAreBytes(p: Bytes)
    requires IsBytes(p)
    ensures LiteralBytes(Tokens(p))
    decreases |p|
  {
    if p != [] {
      SuffixToken(p);
      TokensAreBytes(FirstToken(p).1);
    }
  }

  lemma SuffixToken(p: Bytes)
    requires p != [] && IsBytes(p)
    ensures IsBytes(FirstToken(p).1)
  {
    if p[0] == '[' {
      SuffixItems(p[if Negates(p[1..]) then 2 else 1..], true);
    }
  }

  lemma {:induction false} SuffixItems(q: Bytes, first: bool)
    requires IsBytes(q)
    ensures IsBytes(ClassItems(q, first).rest)
  {
    if q != [] && (first || q[0] != ']') {
      SuffixItems(q[if |q| >= 3 && q[1] == '-' && q[2] != ']' then 3 else 1..], false);
    }
  }

  /** Some byte, or the empty string for a star, satisfies the token. */
  ghost predicate Satisfiable(t: Token) {
    t.Star? || exists c: char :: IsByte(c) && Admits(t, c)
  }

  ghost predicate AllSatisfiable(ts: seq<Token>) {
    forall i :: 0 <= i < |ts| ==> Satisfiable(ts[i])
  }

  lemma {:induction false} HighNeverMatches(ts: seq<Token>, s: Bytes)
    requires HighLiteral(ts) && LiteralBytes(ts)
    ensures !Matches(ts, s)
    decreases |ts|
  {
    assert forall i :: 0 <= i < |ts[1..]| ==> ts[1..][i] == ts[i + 1];
    var i :| 0 <= i < |ts| && ts[i].Literal? && ts[i].byte as int >= 128;
    if ts[0].Star? {
      assert ts[1..][i - 1] == ts[i];
      forall j | 0 <= j <= |s|
        ensures !Matches(ts[1..], s[j..])
      {
        HighNeverMatches(ts[1..], s[j..]);
      }
    } else if i > 0 && s != [] {
      assert ts[1..][i - 1] == ts[i];
      HighNeverMatches(ts[1..], s[1..]);
    }
  }

  lemma {:induction false} UnsatisfiableDenotesNothing(ts: seq<Token>, s: Bytes)
    requires !AllSatisfiable(ts) && IsBytes(s)
    ensures !Denotes(ts, s)
    decreases |ts|
  {
    var i :| 0 <= i < |ts| && !Satisfiable(ts[i]);
    if ts[0].Star? {
      assert ts[1..][i - 1] == ts[i];
      forall j | 0 <= j <= |s|
        ensures !Denotes(ts[1..], s[j..])
      {
        UnsatisfiableDenotesNothing(ts[1..], s[j..]);
      }
    } else if i > 0 && s != [] {
      assert ts[1..][i - 1] == ts[i];
      UnsatisfiableDenotesNothing(ts[1..], s[1..]);
    }
  }

  lemma {:induction false} LowAgrees(ts: seq<Token>, s: Bytes)
    requires !HighLiteral(ts)
    ensures Matches(ts, s) <==> Denotes(ts, s)
    decreases |ts|
  {
    if ts != [] {
      assert forall i :: 0 <= i < |ts[1..]| ==> ts[1..][i] == ts[i + 1];
      assert !HighLiteral(ts[1..]);
      if ts[0].Star? {
        forall j | 0 <= j <= |s|
          ensures Matches(ts[1..], s[j..]) <==> Denotes(ts[1..], s[j..])
        {
          LowAgrees(ts[1..], s[j..]);
        }
      } else if s != [] {
        LowAgrees(ts[1..], s[1..]);
      }
    }
  }

  /** A subject in the declared language, one byte per token and nothing for a star. */
  lemma {:induction false} Sample(ts: seq<Token>) returns (s: Bytes)
    requires AllSatisfiable(ts)
    ensures IsBytes(s) && Denotes(ts, s)
    decreases |ts|
  {
    if ts == [] {
      return [];
    }
    assert forall i :: 0 <= i < |ts[1..]| ==> ts[1..][i] == ts[i + 1];
    var rest := Sample(ts[1..]);
    if ts[0].Star? {
      assert rest[0..] == rest;
      return rest;
    }
    assert Satisfiable(ts[0]);
    var c: char :| IsByte(c) && Admits(ts[0], c);
    s := [c] + rest;
    assert s[1..] == rest;
  }

  /** The code accepts exactly the declared language of a pattern, unless that language is not empty and needs a high
      literal. */
  lemma GlobExact(p: Bytes)
    requires IsBytes(p)
    ensures (forall s: Bytes :: IsBytes(s) ==> (Matches(Tokens(p), s) <==> Denotes(Tokens(p), s)))
      <==> !HighLiteral(Tokens(p)) || !AllSatisfiable(Tokens(p))
  {
    var ts := Tokens(p);
    TokensAreBytes(p);
    if !HighLiteral(ts) {
      forall s: Bytes
        ensures Matches(ts, s) <==> Denotes(ts, s)
      {
        LowAgrees(ts, s);
      }
    } else {
      forall s: Bytes
        ensures !Matches(ts, s)
      {
        HighNeverMatches(ts, s);
      }
      if AllSatisfiable(ts) {
        var s := Sample(ts);
        assert Denotes(ts, s) && !Matches(ts, s);
      } else {
        forall s: Bytes | IsBytes(s)
          ensures !Denotes(ts, s)
        {
          UnsatisfiableDenotesNothing(ts, s);
        }
      }
    }
  }

  /** A pattern that is just byte 233 does not match that byte. */
  lemma HighLiteralFails(p: Bytes)
    requires p == "\U{E9}"
    ensures Denotes(Tokens(p), p) && !Matches(Tokens(p), p)
  {
    assert FirstToken(p) == (Literal(p[0]), []);
    assert Tokens(p) == [Literal(p[0])];
    assert p[0] as int == 233;
  }
}
