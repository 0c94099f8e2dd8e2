/** String helpers of util/src/util/string.c. A freshly allocated result
    buffer is returned as a value; allocation failure is a parameter. */
module UtilString {
  import opened Wrappers

  const NUL: char := '\0'

  // ---------------------------------------------------------------------
  // cat_strings and malloc_string

  /** A `char*` argument as its text: NULL counts as the empty string. */
  function TextOf(arg: Option<string>): string
  {
    if arg.Some? then arg.value else ""
  }

  /** safe_strlen. */
  function SafeStrlen(arg: Option<string>): (n: nat)
    ensures n == |TextOf(arg)|
    ensures arg.None? ==> n == 0
  {
    match arg
    case None => 0
    case Some(s) => |s|
  }

  /** The arguments joined in order. */
  function Concat(args: seq<Option<string>>): string
  {
    if args == [] then "" else Concat(args[..|args| - 1]) + TextOf(args[|args| - 1])
  }

  /** Sum of the argument lengths, the buffer size cat_strings computes
      before the terminator. */
  function TotalLength(args: seq<Option<string>>): nat
  {
    if args == [] then 0 else TotalLength(args[..|args| - 1]) + SafeStrlen(args[|args| - 1])
  }

  /** cat_strings: sizes the buffer, then appends each argument. */
  method CatStrings(args: seq<Option<string>>, allocOk: bool) returns (r: Option<string>)
    ensures r.None? <==> !allocOk
    ensures r.Some? ==> r.value == Concat(args) && |r.value| == TotalLength(args)
  {
    var totalLength := 0;
    var i := 0;
    while i != |args|
      invariant 0 <= i <= |args|
      invariant totalLength == TotalLength(args[..i])
    {
      assert args[..i + 1][..i] == args[..i];
      totalLength := totalLength + SafeStrlen(args[i]);
      i := i + 1;
    }
    if !allocOk {
      return None;
    }
    var buffer := "";
    i := 0;
    while i != |args|
      invariant 0 <= i <= |args|
      invariant buffer == Concat(args[..i])
    {
      assert args[..i + 1][..i] == args[..i];
      if args[i].Some? {
        buffer := buffer + args[i].value;
      }
      i := i + 1;
    }
    assert args[..|args|] == args;
    ConcatLength(args);
    return Some(buffer);
  }

  lemma {:induction false} ConcatLength(args: seq<Option<string>>)
    ensures |Concat(args)| == TotalLength(args)
    decreases |args|
  {
    if args != [] {
      ConcatLength(args[..|args| - 1]);
    }
  }

  /** Joining two argument lists joins their texts. */
  lemma {:induction false} ConcatAppend(a: seq<Option<string>>, b: seq<Option<string>>)
    ensures Concat(a + b) == Concat(a) + Concat(b)
    decreases |b|
  {
    if b == [] {
      assert a + b == a;
    } else {
      assert (a + b)[..|a + b| - 1] == a + b[..|b| - 1];
      ConcatAppend(a, b[..|b| - 1]);
    }
  }

  /** NULL and empty arguments contribute nothing: the result depends only
      on the non-empty texts. */
  lemma {:induction false} ConcatSkipsEmpty(a: seq<Option<string>>, b: seq<Option<string>>, arg: Option<string>)
    requires TextOf(arg) == ""
    ensures Concat(a + [arg] + b) == Concat(a + b)
  {
    ConcatAppend(a + [arg], b);
    ConcatAppend(a, b);
    assert (a + [arg])[..|a|] == a;
  }

  /** malloc_string: an equal copy, or NULL when allocation fails. */
  method MallocString(str: string, allocOk: bool) returns (r: Option<string>)
    ensures r.None? <==> !allocOk
    ensures r.Some? ==> r.value == str
  {
    if !allocOk {
      return None;
    }
    var buffer := "";
    var i := 0;
    while i != |str|
      invariant 0 <= i <= |str|
      invariant buffer == str[..i]
    {
      buffer := buffer + [str[i]];
      i := i + 1;
    }
    return Some(buffer);
  }

  // ---------------------------------------------------------------------
  // strtowcs and wcstostr

  /** A `char` (signed, 8 bits). */
  type NarrowChar = c: int | -0x80 <= c < 0x80

  /** A `wchar_t` (signed, 32 bits). */
  type WideChar = c: int | -0x8000_0000 <= c < 0x8000_0000

  /** `(char)w`: keeps the low 8 bits, read as signed. */
  function ToNarrow(w: WideChar): (c: NarrowChar)
    ensures (c - w) % 0x100 == 0
  {
    (w + 0x80) % 0x100 - 0x80
  }

  /** strtowcs: each `char` widened by `(wchar_t)`. */
  method StrToWcs(str: seq<NarrowChar>, allocOk: bool) returns (r: Option<seq<WideChar>>)
    ensures r.None? <==> !allocOk
    ensures r.Some? ==> |r.value| == |str| && forall i :: 0 <= i < |str| ==> r.value[i] == str[i]
  {
    if !allocOk {
      return None;
    }
    var wcs: seq<WideChar> := [];
    var i := 0;
    while i != |str|
      invariant 0 <= i <= |str|
      invariant |wcs| == i && forall k :: 0 <= k < i ==> wcs[k] == str[k]
    {
      wcs := wcs + [str[i] as WideChar];
      i := i + 1;
    }
    return Some(wcs);
  }

  /** wcstostr: each `wchar_t` narrowed by `(char)`. */
  method WcsToStr(wcs: seq<WideChar>, allocOk: bool) returns (r: Option<seq<NarrowChar>>)
    ensures r.None? <==> !allocOk
    ensures r.Some? ==> |r.value| == |wcs| && forall i :: 0 <= i < |wcs| ==> r.value[i] == ToNarrow(wcs[i])
  {
    if !allocOk {
      return None;
    }
    var str: seq<NarrowChar> := [];
    var i := 0;
    while i != |wcs|
      invariant 0 <= i <= |wcs|
      invariant |str| == i && forall k :: 0 <= k < i ==> str[k] == ToNarrow(wcs[k])
    {
      str := str + [ToNarrow(wcs[i])];
      i := i + 1;
    }
    return Some(str);
  }

  /** Narrowing undoes widening: every `char` survives the round trip. */
  lemma NarrowAfterWiden(c: NarrowChar)
    ensures ToNarrow(c as WideChar) == c
  {
  }

  /** Widening undoes narrowing exactly for the wide characters that fit in
      a `char`. */
  lemma WidenAfterNarrow(w: WideChar)
    ensures ToNarrow(w) == w <==> -0x80 <= w < 0x80
  {
  }

  /** Converting a string to wide characters and back yields the
      string. */
  method RoundTrip(str: seq<NarrowChar>) returns (back: seq<NarrowChar>)
    ensures back == str
  {
    var w := StrToWcs(str, true);
    var n := WcsToStr(w.value, true);
    back := n.value;
    assert forall i :: 0 <= i < |str| ==> back[i] == ToNarrow(str[i] as WideChar) == str[i];
  }

  // ---------------------------------------------------------------------
  // crlf2lf

  /** The C string stored in a buffer: its first `n` characters, followed by
      the terminator. */
  predicate IsCString(b: seq<char>, n: nat)
  {
    n < |b| && b[n] == NUL && NUL !in b[..n]
  }

  /** The text with every carriage return removed. */
  function RemoveCR(s: string): (r: string)
    ensures '\r' !in r
    ensures |r| <= |s|
  {
    if s == [] then ""
    else RemoveCR(s[..|s| - 1]) + (if s[|s| - 1] == '\r' then "" else [s[|s| - 1]])
  }

  /** The loop of crlf2lf as written, one iteration per call, over the whole
      buffer: `src` reads, `target` writes. `None` means that the loop reads
      beyond the buffer. */
  function AsWrittenLoop(b: seq<char>, src: nat, target: nat): Option<seq<char>>
    requires target <= src
    decreases |b| - src
  {
    if src >= |b| then None
    else if b[src] == NUL then
      Some(if target != src then b[target := NUL] else b)
    else
      var s := if b[src] == '\r' then src + 1 else src;
      if s >= |b| then None
      else AsWrittenLoop(b[target := b[s]], s + 1, target + 1)
  }

  /** crlf2lf as written, on a buffer holding a C string. */
  function Crlf2lfAsWritten(b: seq<char>): Option<seq<char>>
  {
    AsWrittenLoop(b, 0, 0)
  }

  /** A string ending in a carriage return makes the loop skip the
      terminator and read past the buffer. */
  lemma AsWrittenReadsPastTrailingCR()
    ensures Crlf2lfAsWritten(['a', '\r', NUL]) == None
  {
    var b := ['a', '\r', NUL];
    assert b[0 := 'a'] == b;
    assert AsWrittenLoop(b, 0, 0) == AsWrittenLoop(b, 1, 1);
    assert b[1 := NUL] == ['a', NUL, NUL];
    assert AsWrittenLoop(b, 1, 1) == AsWrittenLoop(['a', NUL, NUL], 3, 2);
  }

  /** A doubled carriage return loses only one of them, so a second call
      changes the result again: the as-written function is not
      idempotent. */
  lemma AsWrittenNotIdempotent()
    ensures Crlf2lfAsWritten(['\r', '\r', '\n', NUL]) == Some(['\r', '\n', NUL, NUL])
    ensures Crlf2lfAsWritten(['\r', '\n', NUL, NUL]) == Some(['\n', NUL, NUL, NUL])
  {
    var b := ['\r', '\r', '\n', NUL];
    assert b[0 := '\r'] == b;
    assert AsWrittenLoop(b, 0, 0) == AsWrittenLoop(b, 2, 1);
    var b1 := b[1 := '\n'];
    assert b1 == ['\r', '\n', '\n', NUL];
    assert AsWrittenLoop(b, 2, 1) == AsWrittenLoop(b1, 3, 2);
    assert b1[2 := NUL] == ['\r', '\n', NUL, NUL];
    var c := ['\r', '\n', NUL, NUL];
    var c1 := c[0 := '\n'];
    assert c1 == ['\n', '\n', NUL, NUL];
    assert AsWrittenLoop(c, 0, 0) == AsWrittenLoop(c1, 2, 1);
    assert c1[1 := NUL] == ['\n', NUL, NUL, NUL];
  }

  /** Every carriage return of the text is followed by a character that is
      neither a carriage return nor the end of the text. */
  predicate CRsPaired(s: string)
  {
    forall i :: 0 <= i < |s| && s[i] == '\r' ==> i + 1 < |s| && s[i + 1] != '\r'
  }

  /** Where every carriage return is paired, crlf2lf as written does what
      it was meant to: it removes them all and terminates the result. */
  lemma AsWrittenAgreesWhenPaired(b: seq<char>, n: nat)
    requires IsCString(b, n) && CRsPaired(b[..n])
    ensures Crlf2lfAsWritten(b).Some?
    ensures var r := Crlf2lfAsWritten(b).value;
      var m := |RemoveCR(b[..n])|;
      m < |r| && r[..m] == RemoveCR(b[..n]) && r[m] == NUL
  {
    assert b[..0] == [];
    AsWrittenLoopInvariant(b, n, b, 0);
  }

  /** The state of the as-written loop after consuming `src` characters of a
      paired text: the output so far is those characters without carriage
      returns, and the unread part of the buffer is untouched. */
  predicate PairedState(b0: seq<char>, n: nat, b: seq<char>, src: nat)
  {
    && IsCString(b0, n) && CRsPaired(b0[..n])
    && src <= n && |b| == |b0| && b[src..] == b0[src..]
    && (src == 0 || b0[src - 1] != '\r')
    && |RemoveCR(b0[..src])| <= src
    && b[..|RemoveCR(b0[..src])|] == RemoveCR(b0[..src])
  }

  lemma {:induction false} AsWrittenLoopInvariant(b0: seq<char>, n: nat, b: seq<char>, src: nat)
    requires PairedState(b0, n, b, src)
    ensures AsWrittenLoop(b, src, |RemoveCR(b0[..src])|).Some?
    ensures var r := AsWrittenLoop(b, src, |RemoveCR(b0[..src])|).value;
      var m := |RemoveCR(b0[..n])|;
      m < |r| && r[..m] == RemoveCR(b0[..n]) && r[m] == NUL
    decreases n - src
  {
    if src == n {
      LoopEnd(b0, n, b);
    } else {
      var b', src' := LoopAdvance(b0, n, b, src);
      AsWrittenLoopInvariant(b0, n, b', src');
    }
  }

  /** At the terminator the loop stops with the text already in place. */
  lemma LoopEnd(b0: seq<char>, n: nat, b: seq<char>)
    requires PairedState(b0, n, b, n)
    ensures AsWrittenLoop(b, n, |RemoveCR(b0[..n])|).Some?
    ensures var r := AsWrittenLoop(b, n, |RemoveCR(b0[..n])|).value;
      var m := |RemoveCR(b0[..n])|;
      m < |r| && r[..m] == RemoveCR(b0[..n]) && r[m] == NUL
  {
    SuffixHead(b, b0, n);
  }

  /** One iteration of the loop on a paired text keeps the state. */
  lemma LoopAdvance(b0: seq<char>, n: nat, b: seq<char>, src: nat) returns (b': seq<char>, src': nat)
    requires PairedState(b0, n, b, src) && src < n
    ensures src < src' <= n && PairedState(b0, n, b', src')
    ensures AsWrittenLoop(b, src, |RemoveCR(b0[..src])|)
         == AsWrittenLoop(b', src', |RemoveCR(b0[..src'])|)
  {
    var target := |RemoveCR(b0[..src])|;
    var s := CharToCopy(b0, n, src);
    PairedUnread(b0, n, b, src, s);
    b' := b[target := b[s]];
    src' := s + 1;
    LoopUnfold(b, src, target, s);
    PairedStep(b0, n, b, src, s, b');
    assert |RemoveCR(b0[..src'])| == target + 1;
  }

  /** In the paired state the characters not yet read are the original
      ones. */
  lemma PairedUnread(b0: seq<char>, n: nat, b: seq<char>, src: nat, s: nat)
    requires PairedState(b0, n, b, src) && src <= s < n
    ensures |RemoveCR(b0[..src])| <= src < |b| && s < |b|
    ensures b[src] == b0[src] && b[s] == b0[s]
  {
    assert n < |b0|;
    SuffixHead(b, b0, src);
    SuffixHead(b, b0, s);
  }

  /** One unfolding of the as-written loop at an ordinary position. */
  lemma LoopUnfold(b: seq<char>, src: nat, target: nat, s: nat)
    requires target <= src < |b| && b[src] != NUL
    requires s == (if b[src] == '\r' then src + 1 else src) && s < |b|
    ensures AsWrittenLoop(b, src, target) == AsWrittenLoop(b[target := b[s]], s + 1, target + 1)
  {
  }

  /** Copying the next kept character moves the paired state past it. */
  lemma PairedStep(b0: seq<char>, n: nat, b: seq<char>, src: nat, s: nat, b': seq<char>)
    requires PairedState(b0, n, b, src) && src <= s < n
    requires b0[s] != '\r' && b[s] == b0[s]
    requires RemoveCR(b0[..s + 1]) == RemoveCR(b0[..src]) + [b0[s]]
    requires b' == b[|RemoveCR(b0[..src])| := b[s]]
    ensures PairedState(b0, n, b', s + 1)
  {
    var target := |RemoveCR(b0[..src])|;
    UpdateKeepsOthers(b, target, b[s], s + 1);
  }

  /** The character an iteration copies: the current one, or the one after
      a carriage return, which in a paired text is an ordinary character. */
  lemma CharToCopy(b0: seq<char>, n: nat, src: nat) returns (s: nat)
    requires IsCString(b0, n) && CRsPaired(b0[..n]) && src < n
    ensures s == if b0[src] == '\r' then src + 1 else src
    ensures s < n && b0[s] != '\r' && b0[src] != NUL
    ensures RemoveCR(b0[..s + 1]) == RemoveCR(b0[..src]) + [b0[s]]
  {
    assert b0[src] == b0[..n][src];
    s := if b0[src] == '\r' then src + 1 else src;
    if b0[src] == '\r' {
      assert s < n && b0[..n][s] != '\r';
      assert b0[s] == b0[..n][s];
      RemoveCRPrefixStep(b0, src);
    }
    RemoveCRPrefixStep(b0, s);
  }

  lemma SuffixHead(b: seq<char>, b0: seq<char>, i: nat)
    requires |b| == |b0|
    requires exists k :: 0 <= k <= i < |b| && b[k..] == b0[k..]
    ensures b[i] == b0[i]
  {
    var k :| 0 <= k <= i < |b| && b[k..] == b0[k..];
    assert b[k..][i - k] == b0[k..][i - k];
  }

  lemma RemoveCRPrefixStep(s: string, i: nat)
    requires i < |s|
    ensures RemoveCR(s[..i + 1]) == RemoveCR(s[..i]) + (if s[i] == '\r' then "" else [s[i]])
  {
    assert s[..i + 1][..i] == s[..i];
  }

  lemma UpdateKeepsOthers(b: seq<char>, target: nat, x: char, from: nat)
    requires target < from <= |b|
    ensures b[target := x][..target + 1] == b[..target] + [x]
    ensures b[target := x][from..] == b[from..]
  {
  }

  /** crlf2lf with its evident intent: every carriage return is skipped and
      the text is terminated right after the last character kept. */
  method Crlf2lf(buf: array<char>, ghost n: nat)
    requires IsCString(buf[..], n)
    modifies buf
    ensures var m := |RemoveCR(old(buf[..n]))|;
      buf[..m] == RemoveCR(old(buf[..n])) && buf[m] == NUL
  {
    ghost var s := buf[..n];
    var src := 0;
    var target := 0;
    while buf[src] != NUL
      invariant 0 <= target <= src <= n
      invariant buf[src..] == old(buf[src..])
      invariant target == |RemoveCR(s[..src])|
      invariant buf[..target] == RemoveCR(s[..src])
      decreases n - src
    {
      assert buf[src] == s[src] by {
        assert old(buf[src..])[0] == buf[src..][0];
      }
      assert buf[src + 1..] == old(buf[src + 1..]) by {
        assert buf[src + 1..] == buf[src..][1..];
        assert old(buf[src + 1..]) == old(buf[src..])[1..];
      }
      RemoveCRPrefixStep(s, src);
      if buf[src] == '\r' {
        src := src + 1;
      } else {
        ghost var before := buf[..];
        buf[target] := buf[src];
        UpdateKeepsOthers(before, target, s[src], src + 1);
        assert buf[..] == before[target := s[src]];
        target := target + 1;
        src := src + 1;
      }
    }
    assert s[..src] == s;
    buf[target] := NUL;
  }

  /** Removing carriage returns twice is removing them once. */
  lemma {:induction false} RemoveCRIdempotent(s: string)
    ensures RemoveCR(RemoveCR(s)) == RemoveCR(s)
  {
    NoCRUnchanged(RemoveCR(s));
  }

  /** Text without carriage returns is left as it is. */
  lemma {:induction false} NoCRUnchanged(s: string)
    requires '\r' !in s
    ensures RemoveCR(s) == s
    decreases |s|
  {
    if s != [] {
      NoCRUnchanged(s[..|s| - 1]);
    }
  }

  /** Carriage returns are removed piecewise: the other characters keep
      their order. */
  lemma {:induction false} RemoveCRDistributes(a: string, b: string)
    ensures RemoveCR(a + b) == RemoveCR(a) + RemoveCR(b)
    decreases |b|
  {
    if b == [] {
      assert a + b == a;
    } else {
      var init := b[..|b| - 1];
      var tail := if b[|b| - 1] == '\r' then "" else [b[|b| - 1]];
      assert (a + b)[..|a + b| - 1] == a + init;
      assert (a + b)[|a + b| - 1] == b[|b| - 1];
      assert RemoveCR(a + b) == RemoveCR(a + init) + tail;
      assert RemoveCR(b) == RemoveCR(init) + tail;
      RemoveCRDistributes(a, init);
    }
  }
}
