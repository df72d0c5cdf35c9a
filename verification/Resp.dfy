/** The request parser of src/resp.c: arrays of bulk or simple strings, one frame at a time. */
module Resp {
  import opened Orders
  import opened Ints

  const MAX_ARGC: nat := 0x10_0000
  const MAX_BULK_LEN: nat := 0x2000_0000
  const CRLF: Bytes := "\r\n"

  type Command = seq<Bytes>

  datatype ParsedArg = Arg(value: Bytes, size: nat) | ArgMore | ArgBad
  datatype Parsed = Done(size: nat, argv: Command) | More | Bad

  // ---- What a frame is, read off the unread bytes ----

  /** Length of the first line, when its CRLF is already there. */
  function LineLength(s: Bytes): (k: Option<nat>)
    ensures k.Some? ==> k.value + 2 <= |s| && s[k.value..k.value + 2] == CRLF
  {
    if |s| < 2 then None
    else if s[0] == '\r' && s[1] == '\n' then Some(0)
    else
      var k := LineLength(s[1..]);
      if k.Some? then Some(k.value + 1) else None
  }

  function ParseArg(s: Bytes): (a: ParsedArg)
    ensures a.Arg? ==> 0 < a.size <= |s|
  {
    if s == [] then ArgMore
    else if s[0] != '$' && s[0] != '+' then ArgBad
    else
      var k := LineLength(s);
      if k.None? then ArgMore
      else if s[0] == '+' then Arg(s[1..k.value], k.value + 2)
      else
        var n := ParseInt(s[1..k.value]);
        var p := k.value + 2;
        if n.None? then ArgBad
        else if n.value < 0 then Arg([], p)
        else if n.value > MAX_BULK_LEN then ArgBad
        else if n.value + 2 > |s| - p then ArgMore
        else if s[p + n.value..p + n.value + 2] != CRLF then ArgBad
        else Arg(s[p..p + n.value], p + n.value + 2)
  }

  function ParseArgs(s: Bytes, n: nat): (r: Parsed)
    ensures r.Done? ==> r.size <= |s| && |r.argv| == n
  {
    if n == 0 then Done(0, [])
    else
      match ParseArg(s)
      case ArgMore => More
      case ArgBad => Bad
      case Arg(v, p) =>
        match ParseArgs(s[p..], n - 1)
        case More => More
        case Bad => Bad
        case Done(q, argv) => Done(p + q, [v] + argv)
  }

  /** resp_parse_command as a function of the buffer. */
  function ParseCommand(s: Bytes): (r: Parsed)
    ensures r.Done? ==> 0 < r.size <= |s| && |r.argv| <= MAX_ARGC
  {
    if s == [] then More
    else if s[0] != '*' then Bad
    else
      var k := LineLength(s);
      if k.None? then More
      else if k.value < 2 then Bad
      else
        var n := ParseInt(s[1..k.value]);
        if n.None? || n.value < 0 || n.value > MAX_ARGC then Bad
        else
          match ParseArgs(s[k.value + 2..], n.value)
          case More => More
          case Bad => Bad
          case Done(q, argv) => Done(k.value + 2 + q, argv)
  }

  // ---- More bytes never change a verdict ----

  lemma {:induction false} LineStable(s: Bytes, t: Bytes)
    requires LineLength(s).Some?
    ensures LineLength(s + t) == LineLength(s)
  {
    if !(s[0] == '\r' && s[1] == '\n') {
      LineStable(s[1..], t);
      assert (s + t)[1..] == s[1..] + t;
    }
  }

  lemma LineStart(s: Bytes)
    ensures LineLength(s) == Some(0) ==> s[0] == '\r'
  {
  }

  lemma ArgStable(s: Bytes, t: Bytes)
    requires !ParseArg(s).ArgMore?
    ensures ParseArg(s + t) == ParseArg(s)
  {
    hide LineLength, ParseInt;
    LineStart(s);
    var k := LineLength(s);
    if k.Some? && (s[0] == '$' || s[0] == '+') {
      LineStable(s, t);
      assert (s + t)[1..k.value] == s[1..k.value];
      var n := ParseInt(s[1..k.value]);
      var p := k.value + 2;
      if s[0] == '$' && n.Some? && 0 <= n.value <= |s| - p - 2 {
        assert (s + t)[p + n.value..p + n.value + 2] == s[p + n.value..p + n.value + 2];
        assert (s + t)[p..p + n.value] == s[p..p + n.value];
      }
    }
  }

  lemma {:induction false} ArgsStable(s: Bytes, t: Bytes, n: nat)
    requires !ParseArgs(s, n).More?
    ensures ParseArgs(s + t, n) == ParseArgs(s, n)
  {
    hide ParseArg;
    if n > 0 {
      ArgStable(s, t);
      match ParseArg(s)
      case ArgBad =>
      case Arg(v, p) =>
        ArgsStable(s[p..], t, n - 1);
        assert (s + t)[p..] == s[p..] + t;
    }
  }

  /** A complete frame or a protocol error stays what it is when more bytes arrive. */
  lemma CommandStable(s: Bytes, t: Bytes)
    requires !ParseCommand(s).More?
    ensures ParseCommand(s + t) == ParseCommand(s)
  {
    hide ParseArgs, ParseInt, LineLength;
    LineStart(s);
    if s[0] == '*' {
      var k := LineLength(s).value;
      LineStable(s, t);
      assert (s + t)[1..k] == s[1..k];
      var n := ParseInt(s[1..k]);
      if k >= 2 && n.Some? && 0 <= n.value <= MAX_ARGC {
        assert (s + t)[k + 2..] == s[k + 2..] + t;
        ArgsStable(s[k + 2..], t, n.value);
      }
    }
  }

  /** Every strict prefix of a complete frame asks for more. */
  lemma StrictPrefixIsMore(s: Bytes, i: nat)
    requires ParseCommand(s).Done? && i < ParseCommand(s).size
    ensures ParseCommand(s[..i]) == More
  {
    hide ParseCommand;
    assert s[..i] + s[i..] == s;
    if !ParseCommand(s[..i]).More? {
      CommandStable(s[..i], s[i..]);
    }
  }

  // ---- Printing ----

  /** One argument as a bulk string. */
  function EncodeArg(a: Bytes): Bytes {
    "$" + PrintNat(|a|) + CRLF + a + CRLF
  }

  function EncodeArgs(argv: Command): Bytes {
    if argv == [] then [] else EncodeArg(argv[0]) + EncodeArgs(argv[1..])
  }

  /** aw_write_command: the frame of a command. */
  function EncodeCommand(argv: Command): Bytes {
    "*" + PrintNat(|argv|) + CRLF + EncodeArgs(argv)
  }

  /** The frame of INCR k, byte by byte. */
  lemma FrameBytes()
    ensures EncodeCommand(["INCR", "k"]) == "*2\r\n$4\r\nINCR\r\n$1\r\nk\r\n"
  {
    var a: Command := ["INCR", "k"];
    assert a[1..] == ["k"] && a[1..][1..] == [];
    assert PrintNat(2) == "2" && PrintNat(4) == "4" && PrintNat(1) == "1";
    assert EncodeArgs(["k"]) == EncodeArg("k") + EncodeArgs([]);
    assert EncodeArgs(a) == EncodeArg("INCR") + EncodeArgs(["k"]);
  }

  /** Within the parser's caps. */
  predicate Fits(argv: Command) {
    |argv| <= MAX_ARGC && forall i :: 0 <= i < |argv| ==> |argv[i]| <= MAX_BULK_LEN
  }

  lemma {:induction false} LineOf(line: Bytes, t: Bytes)
    requires '\r' !in line
    ensures LineLength(line + CRLF + t) == Some(|line|)
  {
    var s := line + CRLF + t;
    if line != [] {
      assert s[0] == line[0] && line[0] in line;
      assert s[1..] == line[1..] + CRLF + t;
      LineOf(line[1..], t);
    }
  }

  lemma NumberLine(c: char, n: nat, t: Bytes)
    requires c != '\r' && n <= LLONG_MAX
    ensures var s := [c] + PrintNat(n) + CRLF + t;
            && LineLength(s) == Some(1 + |PrintNat(n)|)
            && ParseInt(s[1..1 + |PrintNat(n)|]) == Some(n)
            && s[1 + |PrintNat(n)| + 2..] == t
  {
    var line := [c] + PrintNat(n);
    forall i | 0 <= i < |line|
      ensures line[i] != '\r'
    {
      assert i > 0 ==> IsDigit(PrintNat(n)[i - 1]);
    }
    LineOf(line, t);
    var s := [c] + PrintNat(n) + CRLF + t;
    assert s == line + CRLF + t;
    assert s[1..1 + |PrintNat(n)|] == PrintNat(n);
    assert PrintInt(n) == PrintNat(n);
    ParsePrint(n);
  }

  lemma ArgRoundTrip(a: Bytes, t: Bytes)
    requires |a| <= MAX_BULK_LEN
    ensures ParseArg(EncodeArg(a) + t) == Arg(a, |EncodeArg(a)|)
  {
    hide LineLength, ParseInt, PrintNat;
    var s, tail := EncodeArg(a) + t, a + CRLF + t;
    assert s == ['$'] + PrintNat(|a|) + CRLF + tail;
    NumberLine('$', |a|, tail);
    var p := 1 + |PrintNat(|a|)| + 2;
    assert s[p..p + |a|] == tail[..|a|] == a;
    assert s[p + |a|..p + |a| + 2] == tail[|a|..|a| + 2] == CRLF;
  }

  lemma {:induction false} ArgsRoundTrip(argv: Command, t: Bytes)
    requires forall i :: 0 <= i < |argv| ==> |argv[i]| <= MAX_BULK_LEN
    ensures ParseArgs(EncodeArgs(argv) + t, |argv|) == Done(|EncodeArgs(argv)|, argv)
  {
    hide ParseArg, EncodeArg;
    if argv != [] {
      var rest := EncodeArgs(argv[1..]) + t;
      assert EncodeArgs(argv) + t == EncodeArg(argv[0]) + rest;
      ArgRoundTrip(argv[0], rest);
      assert (EncodeArg(argv[0]) + rest)[|EncodeArg(argv[0])|..] == rest;
      ArgsRoundTrip(argv[1..], t);
      assert [argv[0]] + argv[1..] == argv;
    }
  }

  /** Parsing inverts printing, whatever follows the frame. */
  lemma CommandRoundTrip(argv: Command, t: Bytes)
    requires Fits(argv)
    ensures ParseCommand(EncodeCommand(argv) + t) == Done(|EncodeCommand(argv)|, argv)
  {
    hide ParseArgs, EncodeArgs, LineLength, ParseInt, PrintNat;
    var tail := EncodeArgs(argv) + t;
    assert EncodeCommand(argv) + t == ['*'] + PrintNat(|argv|) + CRLF + tail;
    NumberLine('*', |argv|, tail);
    ArgsRoundTrip(argv, t);
  }

  // ---- The parser as it runs, advancing a position ----

  /** The conversion of a position to the int that is returned. */
  function ToInt32(n: nat): (r: int)
    ensures r <= n
  {
    (n + 0x8000_0000) % 0x1_0000_0000 - 0x8000_0000
  }

  lemma SmallSize(n: nat)
    requires n < 0x8000_0000
    ensures ToInt32(n) == n
  {
  }

  /** get_line. */
  method GetLine(buf: Bytes, pos: nat) returns (lineEnd: Option<nat>)
    requires pos <= |buf|
    ensures lineEnd.Some? <==> LineLength(buf[pos..]).Some?
    ensures lineEnd.Some? ==> lineEnd.value == pos + LineLength(buf[pos..]).value
  {
    var i := pos;
    while i + 1 < |buf|
      invariant pos <= i <= |buf|
      invariant LineLength(buf[pos..]).Some? <==> LineLength(buf[i..]).Some?
      invariant LineLength(buf[i..]).Some? ==> LineLength(buf[pos..]).value == i - pos + LineLength(buf[i..]).value
    {
      assert buf[i..][1..] == buf[i + 1..];
      if buf[i] == '\r' && buf[i + 1] == '\n' {
        return Some(i);
      }
      i := i + 1;
    }
    return None;
  }

  /** What is parsed after p bytes and the arguments in done, given the verdict on the rest. */
  function After(p: nat, done: Command, r: Parsed): Parsed {
    if r.Done? then Done(p + r.size, done + r.argv) else r
  }

  /** One turn of the argument loop: the argument at pos, or the verdict that ends the parse. */
  method ParseArgAt(buf: Bytes, pos: nat) returns (a: ParsedArg)
    requires pos <= |buf|
    ensures a == ParseArg(buf[pos..])
  {
    hide LineLength, ParseInt;
    ghost var s := buf[pos..];
    LineStart(s);
    if pos >= |buf| {
      return ArgMore;
    }
    var t := buf[pos];
    if t != '$' && t != '+' {
      return ArgBad;
    }
    var lineEnd := GetLine(buf, pos);
    if lineEnd.None? {
      return ArgMore;
    }
    var p := lineEnd.value + 2;
    assert buf[pos + 1..lineEnd.value] == s[1..lineEnd.value - pos];
    if t == '$' {
      var n := StringToLL(buf[pos + 1..lineEnd.value]);
      if n.None? {
        return ArgBad;
      }
      if n.value < 0 {
        return Arg([], p - pos);
      }
      if n.value > MAX_BULK_LEN {
        return ArgBad;
      }
      if n.value + 2 > |buf| - p {
        return ArgMore;
      }
      ghost var end := s[p - pos + n.value..p - pos + n.value + 2];
      assert end[0] == buf[p + n.value] && end[1] == buf[p + n.value + 1] && CRLF == ['\r', '\n'];
      if buf[p + n.value] != '\r' || buf[p + n.value + 1] != '\n' {
        return ArgBad;
      }
      assert end == CRLF;
      assert buf[p..p + n.value] == s[p - pos..p - pos + n.value];
      return Arg(buf[p..p + n.value], p + n.value + 2 - pos);
    }
    return Arg(buf[pos + 1..lineEnd.value], p - pos);
  }

  lemma ArgTurn(buf: Bytes, pos: nat, n: nat, p: nat, past: Command)
    requires pos <= |buf| && n > 0 && ParseArg(buf[pos..]).Arg?
    ensures var a := ParseArg(buf[pos..]);
            && pos + a.size <= |buf|
            && After(p, past, ParseArgs(buf[pos..], n))
               == After(p + a.size, past + [a.value], ParseArgs(buf[pos + a.size..], n - 1))
  {
    hide ParseArg;
    var a := ParseArg(buf[pos..]);
    assert buf[pos..][a.size..] == buf[pos + a.size..];
    var r := ParseArgs(buf[pos + a.size..], n - 1);
    if r.Done? {
      assert past + ([a.value] + r.argv) == past + [a.value] + r.argv;
    }
  }

  /** The argument loop: the arguments from a position on, or the verdict that ends the parse. */
  method ParseArgsAt(buf: Bytes, start: nat, count: nat) returns (r: Parsed)
    requires start <= |buf|
    ensures r == ParseArgs(buf[start..], count)
  {
    hide ParseArg;
    var pos, argv := start, [];
    ghost var goal := ParseArgs(buf[start..], count);
    NothingBefore(goal);
    for i := 0 to count
      invariant start <= pos <= |buf| && goal == After(pos - start, argv, ParseArgs(buf[pos..], count - i))
    {
      var a := ParseArgAt(buf, pos);
      match a {
        case ArgMore =>
          return More;
        case ArgBad =>
          return Bad;
        case Arg(v, size) =>
          ArgTurn(buf, pos, count - i, pos - start, argv);
          argv, pos := argv + [v], pos + size;
      }
    }
    r := Done(pos - start, argv);
  }

  lemma NothingBefore(r: Parsed)
    ensures After(0, [], r) == r
  {
  }

  /** Bytes consumed, 0 for an incomplete frame, -1 for a protocol error. */
  predicate Parses(buf: Bytes, consumed: int, argv: Command) {
    match ParseCommand(buf)
    case Done(size, a) => consumed == ToInt32(size) && argv == a
    case More => consumed == 0
    case Bad => consumed == -1
  }

  /** resp_parse_command. */
  method ParseBuffer(buf: Bytes) returns (consumed: int, argv: Command)
    ensures Parses(buf, consumed, argv)
  {
    hide LineLength, ParseInt, ParseArgs;
    argv := [];
    LineStart(buf);
    if |buf| == 0 {
      return 0, [];
    }
    if buf[0] != '*' {
      return -1, [];
    }
    assert buf[0..] == buf;
    var lineEnd := GetLine(buf, 0);
    if lineEnd.None? {
      return 0, [];
    }
    if lineEnd.value < 2 {
      return -1, [];
    }
    var count := StringToLL(buf[1..lineEnd.value]);
    if count.None? || count.value < 0 || count.value > MAX_ARGC {
      return -1, [];
    }
    var start := lineEnd.value + 2;
    var r := ParseArgsAt(buf, start, count.value);
    match r {
      case Done(size, a) =>
        return ToInt32(start + size), a;
      case More =>
        return 0, [];
      case Bad =>
        return -1, [];
    }
  }
}
