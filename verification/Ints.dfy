/** Decimal integers: the bounded parser of src/util.c and the printer that %lld and %zu stand for. */
module Ints {
  import opened Orders

  const LLONG_MAX: int := 0x7fff_ffff_ffff_ffff
  const LLONG_MIN: int := -0x8000_0000_0000_0000

  predicate IsDigit(c: char) {
    '0' <= c <= '9'
  }

  function DigitOf(c: char): nat
    requires IsDigit(c)
  {
    c as int - '0' as int
  }

  predicate AllDigits(s: Bytes) {
    forall i :: 0 <= i < |s| ==> IsDigit(s[i])
  }

  /** The number that a string of digits denotes. */
  function DigitsValue(s: Bytes): nat
    requires AllDigits(s)
  {
    if s == [] then 0 else 10 * DigitsValue(s[..|s| - 1]) + DigitOf(s[|s| - 1])
  }

  /** An optional sign and at least one digit, with magnitude at most LLONG_MAX. */
  function ParseInt(s: Bytes): Option<int> {
    var signed := s != [] && (s[0] == '-' || s[0] == '+');
    var body := if signed then s[1..] else s;
    if body == [] || !AllDigits(body) || DigitsValue(body) > LLONG_MAX then None
    else
      var v: int := DigitsValue(body);
      Some(if s[0] == '-' then -v else v)
  }

  lemma {:induction false} PrefixValue(s: Bytes, i: nat)
    requires AllDigits(s) && i <= |s|
    ensures DigitsValue(s[..i]) <= DigitsValue(s)
    decreases |s|
  {
    if i < |s| {
      PrefixValue(s[..|s| - 1], i);
      assert s[..|s| - 1][..i] == s[..i];
    } else {
      assert s[..i] == s;
    }
  }

  lemma PrefixStep(s: Bytes, i: nat)
    requires i < |s| && AllDigits(s[..i]) && IsDigit(s[i])
    ensures AllDigits(s[..i + 1]) && DigitsValue(s[..i + 1]) == 10 * DigitsValue(s[..i]) + DigitOf(s[i])
  {
    assert s[..i + 1][..i] == s[..i];
  }

  /** string_to_ll_n. */
  method StringToLL(s: Bytes) returns (r: Option<int>)
    ensures r == ParseInt(s)
  {
    if |s| == 0 {
      return None;
    }
    var start, neg := 0, false;
    if s[0] == '-' {
      neg, start := true, 1;
      if |s| == 1 {
        return None;
      }
    } else if s[0] == '+' {
      start := 1;
      if |s| == 1 {
        return None;
      }
    }
    ghost var body := s[start..];
    assert body == if s[0] == '-' || s[0] == '+' then s[1..] else s;
    var v, i := 0, start;
    while i < |s|
      invariant start <= i <= |s| && AllDigits(body[..i - start]) && v == DigitsValue(body[..i - start]) <= LLONG_MAX
    {
      if s[i] < '0' || s[i] > '9' {
        assert !IsDigit(body[i - start]);
        return None;
      }
      var d := s[i] as int - '0' as int;
      PrefixStep(body, i - start);
      if v > (LLONG_MAX - d) / 10 {
        if AllDigits(body) {
          PrefixValue(body, i - start + 1);
        }
        return None;
      }
      v := v * 10 + d;
      i := i + 1;
    }
    assert body[..i - start] == body;
    return Some(if neg then -v else v);
  }

  /** Decimal digits of a number, without leading zeros. */
  function PrintNat(n: nat): (s: Bytes)
    ensures s != [] && AllDigits(s)
  {
    var last := [('0' as int + n % 10) as char];
    if n < 10 then last else PrintNat(n / 10) + last
  }

  function PrintInt(n: int): Bytes {
    if n < 0 then "-" + PrintNat(-n) else PrintNat(n)
  }

  lemma {:induction false} PrintNatValue(n: nat)
    ensures DigitsValue(PrintNat(n)) == n
  {
    if n >= 10 {
      PrintNatValue(n / 10);
      assert PrintNat(n)[..|PrintNat(n)| - 1] == PrintNat(n / 10);
    }
  }

  /** Digits are decimal, and the sign comes first. */
  lemma Decimal()
    ensures PrintInt(-105) == "-105" && ParseInt("-105") == Some(-105)
  {
    assert 105 / 10 == 10 && 105 % 10 == 5 && 10 / 10 == 1 && 10 % 10 == 0;
    assert PrintNat(1) == "1" && PrintNat(10) == "10" && PrintNat(105) == "105";
    hide ParseInt;
    ParsePrint(-105);
  }

  /** Nothing, a sign alone, and anything but digits behind it are no numbers. */
  lemma NoNumber(s: Bytes, i: nat)
    requires s == "" || s == "-" || s == "+" || (0 < i < |s| && !('0' <= s[i] <= '9'))
    ensures ParseInt(s) == None
  {
    var signed := s != [] && (s[0] == '-' || s[0] == '+');
    var body := if signed then s[1..] else s;
    if 0 < i < |s| && !('0' <= s[i] <= '9') {
      assert !IsDigit(body[if signed then i - 1 else i]);
    }
  }

  /** Parsing inverts printing exactly on the numbers whose magnitude fits; LLONG_MIN is printed but not read back. */
  lemma ParsePrint(n: int)
    ensures ParseInt(PrintInt(n)) == if -LLONG_MAX <= n <= LLONG_MAX then Some(n) else None
  {
    PrintNatValue(if n < 0 then -n else n);
    if n < 0 {
      assert PrintInt(n)[1..] == PrintNat(-n);
    } else {
      assert IsDigit(PrintNat(n)[0]);
    }
  }
}
