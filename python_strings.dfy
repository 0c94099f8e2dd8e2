/** The Python string methods the event-signature scanner relies on:
    `find`, `split` on one character, `join`, `strip`, `startswith` and
    `endswith`, with Python's semantics. */
module PythonStrings {
  import opened LibC

  /** `s.find(sub)`: the first offset at which `sub` occurs, or -1. */
  function Find(s: string, sub: string): (r: int)
    ensures -1 <= r <= |s|
    ensures r == -1 <==> !Contains(s, sub)
    ensures r >= 0 ==> OccursAt(s, sub, r)
    ensures r >= 0 ==> forall j :: 0 <= j < r ==> !OccursAt(s, sub, j)
    decreases |s|
  {
    if |sub| <= |s| && s[..|sub|] == sub then
      assert OccursAt(s, sub, 0);
      0
    else if s == [] then
      assert forall i :: 0 <= i <= |s| ==> !OccursAt(s, sub, i);
      -1
    else
      var r := Find(s[1..], sub);
      assert !OccursAt(s, sub, 0);
      ShiftOccurs(s, sub);
      if r == -1 then -1 else r + 1
  }

  /** Occurrences in the tail of a string are the occurrences past its
      first character. */
  lemma ShiftOccurs(s: string, sub: string)
    requires s != []
    ensures forall j :: 1 <= j ==> (OccursAt(s, sub, j) <==> OccursAt(s[1..], sub, j - 1))
    ensures !OccursAt(s, sub, 0) ==> (Contains(s, sub) <==> Contains(s[1..], sub))
  {
    forall j | 1 <= j && j + |sub| <= |s|
      ensures OccursAt(s, sub, j) <==> OccursAt(s[1..], sub, j - 1)
    {
      var u, v := s[1..][j - 1..j - 1 + |sub|], s[j..j + |sub|];
      assert |u| == |v| == |sub|;
      forall t | 0 <= t < |sub|
        ensures u[t] == v[t]
      {
        assert u[t] == s[1..][j - 1 + t] == s[j + t];
      }
      assert u == v;
    }
    if !OccursAt(s, sub, 0) && Contains(s, sub) {
      var i :| 0 <= i <= |s| && OccursAt(s, sub, i);
      assert OccursAt(s[1..], sub, i - 1);
    }
    if Contains(s[1..], sub) {
      var i :| 0 <= i <= |s[1..]| && OccursAt(s[1..], sub, i);
      assert OccursAt(s, sub, i + 1);
    }
  }

  /** `s.split(d)` for a one-character separator: the pieces between the
      separators, empty pieces included. */
  function Split(s: string, d: char): (r: seq<string>)
    ensures |r| >= 1
    ensures |r| > 1 <==> d in s
    ensures forall k :: 0 <= k < |r| ==> d !in r[k]
  {
    if s == [] then [""]
    else if s[0] == d then [""] + Split(s[1..], d)
    else
      var t := Split(s[1..], d);
      [[s[0]] + t[0]] + t[1..]
  }

  /** `d.join(fs)`: the pieces with the separator between them. */
  function Join(fs: seq<string>, d: char): string
  {
    if fs == [] then ""
    else if |fs| == 1 then fs[0]
    else fs[0] + [d] + Join(fs[1..], d)
  }

  /** Joining the pieces of a split gives back the string. */
  lemma {:induction false} JoinSplit(s: string, d: char)
    ensures Join(Split(s, d), d) == s
  {
    if s != [] {
      var t := Split(s[1..], d);
      JoinSplit(s[1..], d);
      if s[0] == d {
        assert Split(s, d)[1..] == t;
      } else if |t| == 1 {
        assert [s[0]] + t[0] == s;
      } else {
        var u := Split(s, d);
        assert u[1..] == t[1..];
        assert Join(t, d) == t[0] + [d] + Join(t[1..], d);
      }
    }
  }

  /** Splitting pieces without the separator after joining them gives
      back the pieces. */
  lemma {:induction false} SplitJoin(fs: seq<string>, d: char)
    requires |fs| >= 1 && forall k :: 0 <= k < |fs| ==> d !in fs[k]
    ensures Split(Join(fs, d), d) == fs
    decreases |fs|, |fs[0]|
  {
    if |fs| == 1 {
      SplitNoSeparator(fs[0], d);
    } else if fs[0] == [] {
      assert Join(fs, d) == [d] + Join(fs[1..], d);
      assert ([d] + Join(fs[1..], d))[1..] == Join(fs[1..], d);
      SplitJoin(fs[1..], d);
    } else {
      var gs := [fs[0][1..]] + fs[1..];
      assert gs[1..] == fs[1..];
      SplitJoin(gs, d);
      assert Join(gs, d) == fs[0][1..] + [d] + Join(fs[1..], d);
      assert Join(fs, d) == [fs[0][0]] + Join(gs, d);
      assert Join(fs, d)[1..] == Join(gs, d);
      assert [fs[0][0]] + fs[0][1..] == fs[0];
    }
  }

  /** A string without the separator is a single piece. */
  lemma {:induction false} SplitNoSeparator(s: string, d: char)
    requires d !in s
    ensures Split(s, d) == [s]
  {
    if s != [] {
      SplitNoSeparator(s[1..], d);
      assert [s[0]] + s[1..] == s;
    }
  }

  /** `s.lstrip(cs)`: `s` without its leading characters from `cs`. */
  function LStrip(s: string, cs: set<char>): (r: string)
    ensures |r| <= |s| && r == s[|s| - |r|..]
    ensures forall i :: 0 <= i < |s| - |r| ==> s[i] in cs
    ensures r == [] || r[0] !in cs
  {
    if s != [] && s[0] in cs then LStrip(s[1..], cs) else s
  }

  /** `s.rstrip(cs)`: `s` without its trailing characters from `cs`. */
  function RStrip(s: string, cs: set<char>): (r: string)
    ensures |r| <= |s| && r == s[..|r|]
    ensures forall i :: |r| <= i < |s| ==> s[i] in cs
    ensures r == [] || r[|r| - 1] !in cs
  {
    if s != [] && s[|s| - 1] in cs then RStrip(s[..|s| - 1], cs) else s
  }

  /** `s.strip(cs)`: both ends stripped. */
  function Strip(s: string, cs: set<char>): string
  {
    RStrip(LStrip(s, cs), cs)
  }

  /** The stripped text is a piece of the original flanked only by
      characters from `cs`, and begins and ends outside `cs`. */
  lemma StripBounds(s: string, cs: set<char>) returns (a: nat)
    ensures var r := Strip(s, cs);
      && a + |r| <= |s| && r == s[a..a + |r|]
      && (forall i :: 0 <= i < a ==> s[i] in cs)
      && (forall i :: a + |r| <= i < |s| ==> s[i] in cs)
    ensures var r := Strip(s, cs); r == [] || (r[0] !in cs && r[|r| - 1] !in cs)
  {
    var l := LStrip(s, cs);
    var r := RStrip(l, cs);
    assert Strip(s, cs) == r;
    a := |s| - |l|;
    assert l == s[a..];
    assert r == l[..|r|];
    assert r == s[a..a + |r|] by {
      assert s[a..][..|r|] == s[a..a + |r|];
    }
    assert forall i :: 0 <= i < a ==> s[i] in cs;
    forall i | a + |r| <= i < |s|
      ensures s[i] in cs
    {
      assert s[i] == l[i - a];
      assert l[i - a] in cs;
    }
    if r != [] {
      assert r[0] == l[0] && l[0] !in cs;
    }
  }

  /** Stripping twice is stripping once. */
  lemma StripIdempotent(s: string, cs: set<char>)
    ensures Strip(Strip(s, cs), cs) == Strip(s, cs)
  {
    var a := StripBounds(s, cs);
    var r := Strip(s, cs);
    assert LStrip(r, cs) == r;
    assert RStrip(r, cs) == r;
  }

  /** `s.startswith(p)`. */
  predicate StartsWith(s: string, p: string)
  {
    |p| <= |s| && s[..|p|] == p
  }

  /** `s.endswith(p)`. */
  predicate EndsWith(s: string, p: string)
  {
    |p| <= |s| && s[|s| - |p|..] == p
  }
}
