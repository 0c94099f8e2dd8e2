/** Plugin objects and version handling of framework/src/plugin.c. */
module FrameworkPlugin {
  import opened CTypes
  import opened Wrappers
  import opened LibC

  /** `struct plugin_api_version_t`. */
  datatype Version = Version(major: U32, minor: U32, patch: U32)

  /** The part of `struct plugin_t` this model tracks: the name and version
      of its `info` member. */
  class Plugin {
    var name: string
    var version: Version

    constructor (name: string, version: Version)
      ensures this.name == name && this.version == version
    {
      this.name := name;
      this.version := version;
    }

    /** plugin_set_version: writes exactly the three version fields. */
    method SetVersion(major: U32, minor: U32, patch: U32)
      modifies this
      ensures version == Version(major, minor, patch)
      ensures name == old(name)
    {
      version := Version(major, minor, patch);
    }
  }

  // ---------------------------------------------------------------------
  // plugin_extract_version_from_string

  /** Index of the first token holding a digit, or the number of tokens. */
  function FirstWithDigit(toks: seq<string>): (k: nat)
    ensures k <= |toks|
    ensures forall i :: 0 <= i < k ==> !HasDigit(toks[i])
    ensures k < |toks| ==> HasDigit(toks[k])
  {
    if toks == [] then 0
    else if HasDigit(toks[0]) then 0
    else 1 + FirstWithDigit(toks[1..])
  }

  /** The number read from token `i`, or `(uint32_t)-1` when there is none. */
  function FieldAt(toks: seq<string>, i: nat): U32
  {
    if i < |toks| then Atoi(toks[i]) else U32_MAX
  }

  /** The three out-parameters plugin_extract_version_from_string writes:
      the first token holding a digit and the two tokens after it. */
  function ExtractedFields(file: string): Version
  {
    var toks := Tokens(file, '.');
    var k := FirstWithDigit(toks);
    Version(FieldAt(toks, k), FieldAt(toks, k + 1), FieldAt(toks, k + 2))
  }

  /** No field holds the "missing" sentinel `(uint32_t)-1`. */
  predicate Complete(v: Version)
  {
    v.major != U32_MAX && v.minor != U32_MAX && v.patch != U32_MAX
  }

  /** The version a file name denotes, if plugin_extract_version_from_string
      succeeds on it. */
  function ExtractVersion(file: string): Option<Version>
  {
    if Complete(ExtractedFields(file)) then Some(ExtractedFields(file)) else None
  }

  /** plugin_extract_version_from_string. The tokens `strtok` hands out one
      by one are taken from `Tokens`. */
  method ExtractVersionFromString(file: string) returns (ok: bool, major: U32, minor: U32, patch: U32)
    ensures Version(major, minor, patch) == ExtractedFields(file)
    ensures ok <==> Complete(Version(major, minor, patch))
    ensures ok <==> ExtractVersion(file).Some?
  {
    var toks := Tokens(file, '.');
    major, minor, patch := U32_MAX, U32_MAX, U32_MAX;
    var pch := 0;
    while pch < |toks| && !HasDigit(toks[pch])
      invariant 0 <= pch <= |toks|
      invariant forall i :: 0 <= i < pch ==> !HasDigit(toks[i])
    {
      pch := pch + 1;
    }
    assert pch == FirstWithDigit(toks);
    if pch < |toks| {
      major := Atoi(toks[pch]);
    }
    pch := pch + 1;
    if pch < |toks| {
      minor := Atoi(toks[pch]);
    }
    pch := pch + 1;
    if pch < |toks| {
      patch := Atoi(toks[pch]);
    }
    ok := !(major == U32_MAX || minor == U32_MAX || patch == U32_MAX);
  }

  // ---------------------------------------------------------------------
  // plugin_get_version_string

  /** A `uint32_t` passed where `%d` expects an `int`: values of 2^31 and
      above print as negative numbers. */
  function AsSignedInt(x: U32): int
  {
    if x >= 0x8000_0000 then x - U32_LIMIT else x
  }

  /** plugin_get_version_string: `sprintf(str, "%d.%d.%d", ...)`. */
  function VersionString(v: Version): string
  {
    IntToDecimal(AsSignedInt(v.major)) + "." + IntToDecimal(AsSignedInt(v.minor)) + "."
      + IntToDecimal(AsSignedInt(v.patch))
  }

  // ---------------------------------------------------------------------
  // Properties

  lemma SignedRoundTrip(x: U32)
    ensures ToU32(AsSignedInt(x)) == x
  {
  }

  /** Three words joined by '.' tokenise back into the three words. */
  lemma TokensOfThreeWords(a: string, b: string, c: string)
    requires |a| > 0 && '.' !in a
    requires |b| > 0 && '.' !in b
    requires |c| > 0 && '.' !in c
    ensures Tokens(a + "." + b + "." + c, '.') == [a, b, c]
  {
    assert a + "." + b + "." + c == a + ['.'] + (b + ['.'] + c);
    TokensOfWord(a, '.', b + ['.'] + c);
    TokensOfWord(b, '.', c);
    TokensOfLastWord(c, '.');
  }

  /** A field printed by `%d` reads back as the same `uint32_t`. */
  lemma FieldRoundTrip(x: U32)
    ensures Atoi(IntToDecimal(AsSignedInt(x))) == x
  {
    AtoiOfDecimal(AsSignedInt(x));
    SignedRoundTrip(x);
  }

  /** Every version survives printing and re-parsing field by field; the
      result counts as a successful extraction exactly when no field is
      `(uint32_t)-1`, which `%d` prints as "-1" and so reads back as the
      "missing" sentinel. */
  lemma VersionRoundTrip(v: Version)
    ensures ExtractedFields(VersionString(v)) == v
    ensures ExtractVersion(VersionString(v)) == (if Complete(v) then Some(v) else None)
  {
    var toks := VersionTokens(v);
    assert FirstWithDigit(toks) == 0;
    FieldRoundTrip(v.major);
    FieldRoundTrip(v.minor);
    FieldRoundTrip(v.patch);
  }

  /** The printed version splits at its dots into the three printed fields. */
  lemma VersionTokens(v: Version) returns (toks: seq<string>)
    ensures toks == Tokens(VersionString(v), '.')
    ensures toks == [IntToDecimal(AsSignedInt(v.major)), IntToDecimal(AsSignedInt(v.minor)),
                     IntToDecimal(AsSignedInt(v.patch))]
    ensures HasDigit(toks[0])
  {
    var a := IntToDecimal(AsSignedInt(v.major));
    var b := IntToDecimal(AsSignedInt(v.minor));
    var c := IntToDecimal(AsSignedInt(v.patch));
    DecimalHasNoDot(AsSignedInt(v.major));
    DecimalHasNoDot(AsSignedInt(v.minor));
    DecimalHasNoDot(AsSignedInt(v.patch));
    TokensOfThreeWords(a, b, c);
    toks := [a, b, c];
  }

  /** A leading word without digits is skipped: the version is read from
      what follows it. */
  lemma SkipsWordWithoutDigits(w: string, rest: string)
    requires |w| > 0 && '.' !in w && !HasDigit(w)
    ensures ExtractedFields(w + "." + rest) == ExtractedFields(rest)
  {
    assert w + "." + rest == w + ['.'] + rest;
    TokensOfWord(w, '.', rest);
    var toks := Tokens(w + "." + rest, '.');
    var tail := Tokens(rest, '.');
    assert toks == [w] + tail;
    assert toks[1..] == tail;
    var k := FirstWithDigit(tail);
    assert FirstWithDigit(toks) == k + 1;
    assert FieldAt(toks, k + 1) == FieldAt(tail, k);
    assert FieldAt(toks, k + 2) == FieldAt(tail, k + 1);
    assert FieldAt(toks, k + 3) == FieldAt(tail, k + 2);
  }

  /** Fewer than three numbered tokens make the extraction fail. */
  lemma MissingFieldFails(file: string)
    requires FirstWithDigit(Tokens(file, '.')) + 2 >= |Tokens(file, '.')|
    ensures ExtractVersion(file).None?
  {
  }
}
