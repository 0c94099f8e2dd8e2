/** Loading and looking up plugins, from
    plugins/plugin_manager/src/plugin_manager.c. */
module PluginManager {
  import opened CTypes
  import opened Wrappers
  import opened LibC
  import opened FrameworkPlugin

  /** `plugin_search_criteria_t`. */
  datatype Criteria = Minimum | Exact

  /** A version as one number whose order is the lexicographic order of
      (major, minor, patch). */
  function VersionKey(v: Version): int
  {
    (v.major * U32_LIMIT + v.minor) * U32_LIMIT + v.patch
  }

  /** plugin_version_acceptable: whether the version in a file name
      satisfies the wanted version under the criteria. */
  function VersionAcceptable(wanted: Version, file: string, criteria: Criteria): (r: bool)
    ensures ExtractVersion(file).None? ==> !r
    ensures criteria == Exact ==> (r <==> ExtractVersion(file) == Some(wanted))
    ensures criteria == Minimum ==>
      (r <==> ExtractVersion(file).Some? && VersionKey(ExtractVersion(file).value) >= VersionKey(wanted))
  {
    match ExtractVersion(file)
    case None => false
    case Some(found) =>
      match criteria
      case Exact =>
        found.major == wanted.major && found.minor == wanted.minor && found.patch == wanted.patch
      case Minimum =>
        || found.major > wanted.major
        || (found.major == wanted.major && found.minor > wanted.minor)
        || (found.major == wanted.major && found.minor == wanted.minor && found.patch >= wanted.patch)
  }

  /** The game object, as far as plugins are concerned. */
  class Game {
    /** `game->plugins`, in the order LIST_FOR_EACH visits it: from the tail
        to the head, which is the order of the pushes. */
    var plugins: seq<Plugin>

    constructor ()
      ensures plugins == []
    {
      plugins := [];
    }

    /** Whether a loaded plugin carries the name. */
    predicate HasPluginNamed(name: string)
      reads this, plugins
    {
      exists i :: 0 <= i < |plugins| && plugins[i].name == name
    }

    /** plugin_get_by_name: the first loaded plugin with the name, or null. */
    method GetByName(name: string) returns (r: Plugin?)
      ensures r == null <==> !HasPluginNamed(name)
      ensures r != null ==> exists i :: 0 <= i < |plugins| && plugins[i] == r && r.name == name
                                && forall j :: 0 <= j < i ==> plugins[j].name != name
    {
      var i := 0;
      while i != |plugins|
        invariant 0 <= i <= |plugins|
        invariant forall j :: 0 <= j < i ==> plugins[j].name != name
      {
        if plugins[i].name == name {
          return plugins[i];
        }
        i := i + 1;
      }
      return null;
    }

    /** plugin_load. The directory listing, the outcome of opening the module
        and finding its four entry points, the plugin object its
        `plugin_init` returns and the outcome of `list_push` are parameters.
        The result of `list_push` is ignored: when it fails the plugin is
        returned all the same, without being held in the list. */
    method Load(name: string, wanted: Version, criteria: Criteria, listing: seq<string>,
                moduleOk: bool, initResult: Plugin?, pushOk: bool)
      returns (r: Plugin?)
      modifies this
      ensures old(HasPluginNamed(name)) ==> r == null
      ensures r == null ==> plugins == old(plugins)
      ensures r != null ==> r == initResult && plugins == old(plugins) + (if pushOk then [r] else [])
      ensures r != null <==>
        && !old(HasPluginNamed(name))
        && FirstMatch(name, wanted, criteria, listing).Some?
        && moduleOk && initResult != null
        && VersionAcceptable(initResult.version, FirstMatch(name, wanted, criteria, listing).value, Exact)
    {
      var existing := GetByName(name);
      if existing != null {
        return null;
      }
      var filename := FindPlugin(name, wanted, criteria, listing);
      if filename.None? {
        return null;
      }
      if !moduleOk {
        return null;
      }
      if initResult == null {
        return null;
      }
      if !VersionAcceptable(initResult.version, filename.value, Exact) {
        return null;
      }
      if pushOk {
        plugins := plugins + [initResult];
      }
      return initResult;
    }
  }

  /** Whether a file name is a candidate for a plugin: it contains the
      plugin's name and its version is acceptable. */
  predicate Candidate(name: string, wanted: Version, criteria: Criteria, file: string)
  {
    Contains(file, name) && VersionAcceptable(wanted, file, criteria)
  }

  /** The first candidate in a listing. */
  function FirstMatch(name: string, wanted: Version, criteria: Criteria, listing: seq<string>): (r: Option<string>)
    ensures r.None? <==> forall i :: 0 <= i < |listing| ==> !Candidate(name, wanted, criteria, listing[i])
  {
    if listing == [] then None
    else if Candidate(name, wanted, criteria, listing[0]) then Some(listing[0])
    else
      var r := FirstMatch(name, wanted, criteria, listing[1..]);
      assert forall i :: 1 <= i < |listing| ==> listing[i] == listing[1..][i - 1];
      r
  }

  /** find_plugin over a given directory listing (in list order). */
  method FindPlugin(name: string, wanted: Version, criteria: Criteria, listing: seq<string>)
    returns (fileFound: Option<string>)
    ensures fileFound == FirstMatch(name, wanted, criteria, listing)
  {
    fileFound := None;
    var i := 0;
    while i != |listing|
      invariant 0 <= i <= |listing|
      invariant fileFound.None? ==> forall j :: 0 <= j < i ==> !Candidate(name, wanted, criteria, listing[j])
      invariant fileFound.Some? ==> fileFound == FirstMatch(name, wanted, criteria, listing)
    {
      if fileFound.None? && Contains(listing[i], name) && VersionAcceptable(wanted, listing[i], criteria) {
        fileFound := Some(listing[i]);
        FirstMatchIsFirstCandidate(name, wanted, criteria, listing, i);
      }
      i := i + 1;
    }
    if fileFound.None? {
      assert FirstMatch(name, wanted, criteria, listing).None?;
    }
  }

  /** A candidate preceded by none is the first match. */
  lemma {:induction false} FirstMatchIsFirstCandidate(name: string, wanted: Version, criteria: Criteria,
                                                       listing: seq<string>, i: nat)
    requires i < |listing| && Candidate(name, wanted, criteria, listing[i])
    requires forall j :: 0 <= j < i ==> !Candidate(name, wanted, criteria, listing[j])
    ensures FirstMatch(name, wanted, criteria, listing) == Some(listing[i])
    decreases i
  {
    if i > 0 {
      var rest := listing[1..];
      assert rest[i - 1] == listing[i];
      assert forall j :: 0 <= j < i - 1 ==> rest[j] == listing[j + 1];
      FirstMatchIsFirstCandidate(name, wanted, criteria, rest, i - 1);
      assert !Candidate(name, wanted, criteria, listing[0]);
    }
  }

  /** An exact request accepts precisely the file versions a minimum request
      accepts that are also no newer than the wanted one. */
  lemma ExactIsMinimumAndAtMost(wanted: Version, file: string)
    ensures VersionAcceptable(wanted, file, Exact) <==>
      VersionAcceptable(wanted, file, Minimum) && VersionKey(ExtractVersion(file).value) <= VersionKey(wanted)
  {
    if VersionAcceptable(wanted, file, Minimum) && VersionKey(ExtractVersion(file).value) <= VersionKey(wanted) {
      KeyInjective(ExtractVersion(file).value, wanted);
    }
  }

  /** Distinct versions have distinct keys. */
  lemma KeyInjective(a: Version, b: Version)
    requires VersionKey(a) == VersionKey(b)
    ensures a == b
  {
    assert a.patch == VersionKey(a) % U32_LIMIT;
    assert b.patch == VersionKey(b) % U32_LIMIT;
    assert a.major * U32_LIMIT + a.minor == VersionKey(a) / U32_LIMIT;
    assert b.major * U32_LIMIT + b.minor == VersionKey(b) / U32_LIMIT;
  }

  /** A file named by a plugin's own version string passes the loader's
      exact check precisely when no field is `(uint32_t)-1`. */
  lemma OwnVersionStringAcceptable(v: Version)
    ensures VersionAcceptable(v, VersionString(v), Exact) <==> Complete(v)
  {
    VersionRoundTrip(v);
  }
}
