/** The C standard library functions the core relies on, as pure
    definitions: `strstr`, `strpbrk`, `strtok`, `atoi` and `%d`
    formatting. */
module LibC {
  import opened CTypes

  /** `sub` occurs in `s` starting at offset `i`. */
  predicate OccursAt(s: string, sub: string, i: int)
  {
    0 <= i && i + |sub| <= |s| && s[i..i + |sub|] == sub
  }

  /** `strstr(s, sub) != NULL`. */
  predicate Contains(s: string, sub: string)
  {
    exists i :: 0 <= i <= |s| && OccursAt(s, sub, i)
  }

  /** A prefix that does not hold the first character of `sub` does not
      change whether `sub` occurs. */
  lemma ContainsSkipsPrefix(p: string, t: string, sub: string)
    requires |sub| > 0 && sub[0] !in p
    ensures Contains(p + t, sub) <==> Contains(t, sub)
  {
    var s := p + t;
    forall i | 0 <= i <= |s| && OccursAt(s, sub, i)
      ensures 0 <= i - |p| <= |t| && OccursAt(t, sub, i - |p|)
    {
      assert s[i..i + |sub|][0] == s[i];
      assert i >= |p|;
      assert t[i - |p|..i - |p| + |sub|] == s[i..i + |sub|];
    }
    forall j | 0 <= j <= |t| && OccursAt(t, sub, j)
      ensures OccursAt(s, sub, j + |p|)
    {
      assert s[j + |p|..j + |p| + |sub|] == t[j..j + |sub|];
    }
  }

  /** An occurrence at a given offset is found. */
  lemma ContainsAt(s: string, sub: string, i: nat)
    requires i + |sub| <= |s| && s[i..i + |sub|] == sub
    ensures Contains(s, sub)
  {
    assert OccursAt(s, sub, i);
  }

  /** A string without the first character of `sub` does not contain it. */
  lemma AbsentFirstChar(s: string, sub: string)
    requires |sub| > 0 && sub[0] !in s
    ensures !Contains(s, sub)
  {
    forall i | 0 <= i <= |s|
      ensures !OccursAt(s, sub, i)
    {
      if i + |sub| <= |s| {
        assert s[i..i + |sub|][0] == s[i];
      }
    }
  }

  /** A string shorter than `sub` does not contain it. */
  lemma ShorterNotContains(s: string, sub: string)
    requires |s| < |sub|
    ensures !Contains(s, sub)
  {
  }

  // ---------------------------------------------------------------------
  // Character classes and number conversion of the C library

  predicate IsDigit(c: char)
  {
    '0' <= c <= '9'
  }

  /** `isspace` in the C locale. */
  predicate IsSpace(c: char)
  {
    c == ' ' || c == '\t' || c == '\n' || c == '\U{0B}' || c == '\U{0C}' || c == '\r'
  }

  /** `strpbrk(s, "0123456789") != NULL`. */
  predicate HasDigit(s: string)
  {
    exists i :: 0 <= i < |s| && IsDigit(s[i])
  }

  predicate AllDigits(s: string)
  {
    forall i :: 0 <= i < |s| ==> IsDigit(s[i])
  }

  /** Length of the leading run of white space. */
  function SpaceRun(s: string): (n: nat)
    ensures n <= |s|
  {
    if s == [] || !IsSpace(s[0]) then 0 else 1 + SpaceRun(s[1..])
  }

  /** Length of the leading run of decimal digits. */
  function DigitRun(s: string): (n: nat)
    ensures n <= |s|
    ensures AllDigits(s[..n])
    ensures n < |s| ==> !IsDigit(s[n])
  {
    if s == [] || !IsDigit(s[0]) then 0
    else
      var n := 1 + DigitRun(s[1..]);
      assert s[..n] == [s[0]] + s[1..][..n - 1];
      n
  }

  function DigitValue(c: char): nat
    requires IsDigit(c)
  {
    (c as int) - ('0' as int)
  }

  function DigitChar(d: nat): (c: char)
    requires d < 10
    ensures IsDigit(c) && DigitValue(c) == d
  {
    (('0' as int) + d) as char
  }

  /** The number a string of decimal digits denotes. */
  function DecimalValue(d: string): nat
    requires AllDigits(d)
  {
    if d == [] then 0
    else DecimalValue(d[..|d| - 1]) * 10 + DigitValue(d[|d| - 1])
  }

  /** `atoi`: white space, an optional sign, then as many digits as follow.
      The C result is an `int`; overflow is undefined there and is left
      unbounded here. */
  function AtoiValue(s: string): int
  {
    var r := s[SpaceRun(s)..];
    if |r| > 0 && (r[0] == '-' || r[0] == '+') then
      var value: int := DecimalValue(r[1..][..DigitRun(r[1..])]);
      if r[0] == '-' then -value else value
    else
      DecimalValue(r[..DigitRun(r)])
  }

  /** `atoi` stored into a `uint32_t`. */
  function Atoi(s: string): U32
  {
    ToU32(AtoiValue(s))
  }

  /** Decimal digits of a natural number, most significant first. */
  function NatToDecimal(n: nat): (s: string)
    ensures |s| > 0 && AllDigits(s)
  {
    if n < 10 then [DigitChar(n)]
    else
      var p := NatToDecimal(n / 10);
      assert AllDigits(p + [DigitChar(n % 10)]) by {
        forall i | 0 <= i < |p| + 1
          ensures IsDigit((p + [DigitChar(n % 10)])[i])
        {
          if i < |p| {
            assert (p + [DigitChar(n % 10)])[i] == p[i];
          }
        }
      }
      p + [DigitChar(n % 10)]
  }

  /** `%d` of an `int`. */
  function IntToDecimal(x: int): string
  {
    if x < 0 then "-" + NatToDecimal(-x) else NatToDecimal(x)
  }

  lemma {:induction false} DecimalRoundTrip(n: nat)
    ensures DecimalValue(NatToDecimal(n)) == n
  {
    if n >= 10 {
      var s := NatToDecimal(n);
      var p := NatToDecimal(n / 10);
      assert s[..|s| - 1] == p;
      DecimalRoundTrip(n / 10);
    }
  }

  lemma {:induction false} DigitRunOfDigits(s: string)
    requires AllDigits(s)
    ensures DigitRun(s) == |s|
    decreases |s|
  {
    if s != [] {
      DigitRunOfDigits(s[1..]);
    }
  }

  /** `atoi` reads back every number `%d` prints. */
  lemma AtoiOfDecimal(x: int)
    ensures AtoiValue(IntToDecimal(x)) == x
  {
    var s := IntToDecimal(x);
    var d := NatToDecimal(if x < 0 then -x else x);
    assert SpaceRun(s) == 0 by {
      assert s[0] == '-' || IsDigit(s[0]);
    }
    assert s[0..] == s;
    DecimalRoundTrip(if x < 0 then -x else x);
    DigitRunOfDigits(d);
    if x < 0 {
      assert s[1..] == d;
      assert d[..|d|] == d;
    } else {
      assert s[..|d|] == d;
    }
  }

  // ---------------------------------------------------------------------
  // strtok with a one-character delimiter string

  /** Length of the leading run of characters other than `d`. */
  function RunLength(s: string, d: char): (n: nat)
    ensures n <= |s|
    ensures d !in s[..n]
    ensures n < |s| ==> s[n] == d
  {
    if s == [] || s[0] == d then 0
    else
      var n := 1 + RunLength(s[1..], d);
      assert s[..n] == [s[0]] + s[1..][..n - 1];
      n
  }

  /** The successive results of `strtok(s, delim)`, `strtok(NULL, delim)`,
      ... for `delim` = the one character `d`: the non-empty runs between
      delimiters, in order (empty runs are skipped). */
  function Tokens(s: string, d: char): (toks: seq<string>)
    ensures forall i :: 0 <= i < |toks| ==> |toks[i]| > 0 && d !in toks[i]
    decreases |s|
  {
    if s == [] then []
    else if s[0] == d then Tokens(s[1..], d)
    else [s[..RunLength(s, d)]] + Tokens(s[RunLength(s, d)..], d)
  }

  lemma {:induction false} RunLengthOfWord(a: string, d: char, rest: string)
    requires d !in a
    ensures RunLength(a + [d] + rest, d) == |a|
    decreases |a|
  {
    if a != [] {
      assert (a + [d] + rest)[1..] == a[1..] + [d] + rest;
      RunLengthOfWord(a[1..], d, rest);
    }
  }

  lemma {:induction false} RunLengthOfLastWord(a: string, d: char)
    requires d !in a
    ensures RunLength(a, d) == |a|
    decreases |a|
  {
    if a != [] {
      RunLengthOfLastWord(a[1..], d);
    }
  }

  /** A non-empty word without the delimiter, followed by the delimiter, is
      the next token. */
  lemma TokensOfWord(a: string, d: char, rest: string)
    requires |a| > 0 && d !in a
    ensures Tokens(a + [d] + rest, d) == [a] + Tokens(rest, d)
  {
    var s := a + [d] + rest;
    RunLengthOfWord(a, d, rest);
    assert s[..|a|] == a;
    assert s[|a|..] == [d] + rest;
    assert s[|a|..][1..] == rest;
  }

  /** A non-empty word without the delimiter is one token. */
  lemma TokensOfLastWord(a: string, d: char)
    requires |a| > 0 && d !in a
    ensures Tokens(a, d) == [a]
  {
    RunLengthOfLastWord(a, d);
    assert a[..|a|] == a;
    assert a[|a|..] == [];
  }

  /** Leading delimiters are skipped. */
  lemma TokensSkipDelimiter(d: char, rest: string)
    ensures Tokens([d] + rest, d) == Tokens(rest, d)
  {
    assert ([d] + rest)[1..] == rest;
  }

  lemma DecimalHasNoDot(x: int)
    ensures |IntToDecimal(x)| > 0 && '.' !in IntToDecimal(x) && HasDigit(IntToDecimal(x))
  {
    var s := IntToDecimal(x);
    assert IsDigit(s[|s| - 1]);
  }
}
