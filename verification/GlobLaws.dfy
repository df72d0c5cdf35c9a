/** What patterns mean, byte by byte: laws about which subjects the matcher takes, stated on the pattern as written. */
module GlobLaws {
  import opened Orders
  import opened Globs

  /** The matcher takes subject s for pattern p. */
  ghost predicate Takes(p: Bytes, s: Bytes) {
    Matches(Tokens(p), s)
  }

  // ---- Patterns outside classes ----

  /** The empty pattern takes the empty subject only. */
  lemma EmptyPattern(s: Bytes)
    ensures Takes([], s) <==> s == []
  {
    EmptyMatches(s);
  }

  /** A star stands for any bytes, also none. */
  lemma StarPattern(p: Bytes, s: Bytes)
    ensures Takes("*" + p, s) <==> exists i :: 0 <= i <= |s| && Takes(p, s[i..])
  {
    hide Matches, Tokens;
    assert ("*" + p)[0] == '*' && ("*" + p)[1..] == p;
    StarFirst("*" + p);
    StarMeans(p, s);
    forall i | 0 <= i <= |s|
      ensures Takes(p, s[i..]) <==> Matches(Tokens(p), s[i..])
    {
    }
  }

  /** A question mark stands for one byte. */
  lemma AnyBytePattern(p: Bytes, s: Bytes)
    ensures Takes("?" + p, s) <==> s != [] && Takes(p, s[1..])
  {
    hide Matches, Tokens, FirstToken, Accepts;
    var w := "?" + p;
    assert w[0] == '?' && w[1..] == p;
    FirstMatches(w, s);
    if s != [] {
      SingleFirst(w, s[0]);
    }
  }

  /** Any other byte below 128 stands for itself. */
  lemma BytePattern(c: char, p: Bytes, s: Bytes)
    requires c !in {'*', '?', '['} && c as int < 128
    ensures Takes([c] + p, s) <==> s != [] && s[0] == c && Takes(p, s[1..])
  {
    hide Matches, Tokens, FirstToken, Accepts;
    var w := [c] + p;
    assert w[0] == c && w[1..] == p;
    FirstMatches(w, s);
    if s != [] {
      SingleFirst(w, s[0]);
    }
  }

  // ---- Classes ----

  /** The inside of a class that its closing bracket may follow: its first byte is a member whatever it is. */
  predicate Inside(b: Bytes) {
    b != [] && ']' !in b[1..]
  }

  predicate Mark(c: char) {
    c == '!' || c == '^'
  }

  /** The ranges that the inside of a class lists; a single byte is a range of one. */
  function RangesOf(b: Bytes): seq<(char, char)>
    decreases |b|
  {
    if b == [] then []
    else if |b| >= 3 && b[1] == '-' then [(b[0], b[2])] + RangesOf(b[3..])
    else [(b[0], b[0])] + RangesOf(b[1..])
  }

  lemma {:induction false} ItemsOfInside(b: Bytes, q: Bytes, first: bool)
    requires if first then Inside(b) else ']' !in b
    ensures ClassItems(b + ("]" + q), first) == Closed(RangesOf(b), q)
    decreases |b|
  {
    var w := b + ("]" + q);
    if b == [] {
      assert w[0] == ']' && w[1..] == q;
    } else if |b| >= 3 && b[1] == '-' {
      assert w[0] == b[0] && w[1] == '-' && w[2] == b[2] && b[1..][1] == b[2];
      assert w[3..] == b[3..] + ("]" + q);
      NoBracket(b, 3);
      ItemsOfInside(b[3..], q, false);
    } else {
      assert w[0] == b[0] && w[1..] == b[1..] + ("]" + q);
      assert |b| >= 2 ==> w[1] == b[1];
      assert |b| == 1 ==> w[1] == ']';
      assert |b| == 2 ==> w[2] == ']';
      NoBracket(b, 1);
      ItemsOfInside(b[1..], q, false);
    }
  }

  lemma NoBracket(b: Bytes, i: nat)
    requires 1 <= i <= |b| && ']' !in b[1..]
    ensures ']' !in b[i..]
  {
    forall j | 0 <= j < |b[i..]|
      ensures b[i..][j] != ']'
    {
      assert b[i..][j] == b[1..][i - 1 + j];
    }
  }

  lemma ClassToken(w: Bytes, rest: Bytes, rs: seq<(char, char)>, q: Bytes)
    requires w != [] && w[0] == '[' && rest == w[if Negates(w[1..]) then 2 else 1..]
    requires ClassItems(rest, true) == Closed(rs, q)
    ensures FirstToken(w) == (OneOf(Negates(w[1..]), rs), q)
  {
    hide ClassItems;
  }

  lemma PlainToken(b: Bytes, q: Bytes)
    requires Inside(b) && !Mark(b[0])
    ensures FirstToken("[" + b + "]" + q) == (OneOf(false, RangesOf(b)), q)
  {
    hide ClassItems, RangesOf, FirstToken;
    var w := "[" + b + "]" + q;
    assert w[0] == '[' && w[1] == b[0] && !Negates(w[1..]);
    assert w[1..] == b + ("]" + q);
    ItemsOfInside(b, q, true);
    ClassToken(w, b + ("]" + q), RangesOf(b), q);
  }

  lemma MarkedToken(m: char, b: Bytes, q: Bytes)
    requires Inside(b) && Mark(m)
    ensures FirstToken("[" + [m] + b + "]" + q) == (OneOf(true, RangesOf(b)), q)
  {
    hide ClassItems, RangesOf, FirstToken;
    var w := "[" + [m] + b + "]" + q;
    assert w[0] == '[' && w[1] == m && Negates(w[1..]);
    assert w[2..] == b + ("]" + q);
    ItemsOfInside(b, q, true);
    ClassToken(w, b + ("]" + q), RangesOf(b), q);
  }

  /** A plain class and what follows it. */
  lemma PlainClass(b: Bytes, q: Bytes, s: Bytes)
    requires Inside(b) && !Mark(b[0])
    ensures Takes("[" + b + "]" + q, s) <==> s != [] && InRanges(s[0], RangesOf(b)) && Takes(q, s[1..])
  {
    hide Matches, Tokens, FirstToken, RangesOf, InRanges;
    PlainToken(b, q);
    assert ("[" + b + "]" + q)[0] == '[';
    FirstMatches("[" + b + "]" + q, s);
  }

  /** A negated class and what follows it. */
  lemma MarkedClass(m: char, b: Bytes, q: Bytes, s: Bytes)
    requires Inside(b) && Mark(m)
    ensures Takes("[" + [m] + b + "]" + q, s) <==> s != [] && !InRanges(s[0], RangesOf(b)) && Takes(q, s[1..])
  {
    hide Matches, Tokens, FirstToken, RangesOf, InRanges;
    MarkedToken(m, b, q);
    assert ("[" + [m] + b + "]" + q)[0] == '[';
    FirstMatches("[" + [m] + b + "]" + q, s);
  }

  lemma OneByte(p: Bytes, c: char)
    ensures [c][1..] == [] && Takes([], []) && p + [] == p
  {
    EmptyPattern([]);
  }

  /** A class takes one byte; what follows it takes the rest. */
  lemma ClassThen(b: Bytes, q: Bytes, s: Bytes)
    requires Inside(b) && !Mark(b[0])
    ensures Takes("[" + b + "]" + q, s) <==> s != [] && Takes("[" + b + "]", [s[0]]) && Takes(q, s[1..])
  {
    hide Takes;
    PlainClass(b, q, s);
    if s != [] {
      OneByte("[" + b + "]", s[0]);
      PlainClass(b, [], [s[0]]);
    }
  }

  /** A negated class takes exactly the bytes that the class without its mark refuses, before any pattern. */
  lemma NegatedClass(m: char, b: Bytes, q: Bytes, s: Bytes)
    requires Inside(b) && !Mark(b[0]) && Mark(m)
    ensures Takes("[" + [m] + b + "]" + q, s) <==> s != [] && !Takes("[" + b + "]", [s[0]]) && Takes(q, s[1..])
  {
    hide Takes;
    MarkedClass(m, b, q, s);
    if s != [] {
      OneByte("[" + b + "]", s[0]);
      PlainClass(b, [], [s[0]]);
    }
  }

  /** A range takes exactly the bytes from its first to its last. */
  lemma RangeClass(x: char, y: char, c: char)
    requires !Mark(x) && y != ']'
    ensures Takes(['[', x, '-', y, ']'], [c]) <==> x <= c <= y
  {
    var b := [x, '-', y];
    assert b[1..] == ['-', y];
    assert b[3..] == [] && RangesOf(b) == [(x, y)];
    assert "[" + b + "]" + [] == ['[', x, '-', y, ']'];
    PlainClass(b, [], [c]);
    OneByte([], c);
    assert [(x, y)][0] == (x, y);
  }

  /** A single byte in a class takes itself, also a closing bracket. */
  lemma ByteClass(x: char, c: char)
    requires !Mark(x)
    ensures Takes(['[', x, ']'], [c]) <==> c == x
  {
    var b := [x];
    assert b[1..] == [] && RangesOf(b) == [(x, x)];
    assert "[" + b + "]" + [] == ['[', x, ']'];
    PlainClass(b, [], [c]);
    OneByte([], c);
    assert [(x, x)][0] == (x, x);
  }

  lemma InRangesCons(c: char, r: (char, char), rs: seq<(char, char)>)
    ensures InRanges(c, [r] + rs) <==> r.0 <= c <= r.1 || InRanges(c, rs)
  {
    assert ([r] + rs)[0] == r;
    forall i | 0 <= i < |rs|
      ensures ([r] + rs)[i + 1] == rs[i]
    {
    }
    if InRanges(c, [r] + rs) && !(r.0 <= c <= r.1) {
      var i :| 0 <= i < |[r] + rs| && ([r] + rs)[i].0 <= c <= ([r] + rs)[i].1;
      assert ([r] + rs)[i] == rs[i - 1];
    }
  }

  /** A class with more than one member takes what its first member takes, or what the rest takes. */
  lemma ClassUnion(first: Bytes, rest: Bytes, c: char)
    requires |first| == 1 || (|first| == 3 && first[1] == '-' && first[2] != ']')
    requires rest != [] && ']' !in rest && !Mark(first[0]) && !Mark(rest[0]) && (|first| == 1 ==> rest[0] != '-')
    ensures Takes("[" + (first + rest) + "]", [c]) <==> Takes("[" + first + "]", [c]) || Takes("[" + rest + "]", [c])
  {
    hide Takes;
    var b := first + rest;
    assert b[1..] == first[1..] + rest && rest[1..] == rest[1..];
    assert Inside(b) && Inside(first) && Inside(rest);
    var item := if |first| == 1 then (first[0], first[0]) else (first[0], first[2]);
    assert b[|first|..] == rest && first[|first|..] == [];
    assert |first| == 1 ==> |b| < 3 || b[1] == rest[0];
    assert RangesOf(b) == [item] + RangesOf(rest) && RangesOf(first) == [item] + [];
    InRangesCons(c, item, RangesOf(rest));
    InRangesCons(c, item, []);
    OneByte("[" + b + "]", c);
    OneByte("[" + first + "]", c);
    OneByte("[" + rest + "]", c);
    PlainClass(b, [], [c]);
    PlainClass(first, [], [c]);
    PlainClass(rest, [], [c]);
  }

  /** A closing bracket that comes first is a member. */
  lemma BracketMember(r: Bytes)
    requires ']' !in r && !(|r| >= 2 && r[0] == '-')
    ensures Takes("[" + ("]" + r) + "]", "]")
  {
    hide Takes;
    var b := "]" + r;
    assert b[1..] == r && b[0] == ']' && Inside(b);
    assert RangesOf(b) == [(']', ']')] + RangesOf(r);
    InRangesCons(']', (']', ']'), RangesOf(r));
    OneByte("[" + b + "]", ']');
    PlainClass(b, [], "]");
  }

  /** A class that is never closed takes nothing. */
  lemma UnclosedClass(b: Bytes, s: Bytes)
    requires var inside := if b != [] && Mark(b[0]) then b[1..] else b; inside == [] || ']' !in inside[1..]
    ensures !Takes("[" + b, s)
  {
    var w, neg := "[" + b, b != [] && Mark(b[0]);
    var inside := if neg then b[1..] else b;
    assert w[0] == '[' && w[1..] == b && w[if neg then 2 else 1..] == inside;
    NeverClosed(inside, true);
    assert FirstToken(w).0 == Unterminated by { hide ClassItems; }
    hide Matches, Tokens, FirstToken;
    FirstMatches(w, s);
  }

  lemma {:induction false} NeverClosed(b: Bytes, first: bool)
    requires b == [] || (if first then ']' !in b[1..] else ']' !in b)
    ensures ClassItems(b, first).Open?
    decreases |b|
  {
    if b != [] {
      var k := if |b| >= 3 && b[1] == '-' && b[2] != ']' then 3 else 1;
      if !first {
        assert forall i :: 0 <= i < |b[1..]| ==> b[1..][i] == b[i + 1];
      }
      NoBracket(b, k);
      NeverClosed(b[k..], false);
    }
  }
}
