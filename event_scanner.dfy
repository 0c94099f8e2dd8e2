/** The event-signature scanner of scripts/check-event-signatures.py. It
    collects the C sources of the engine, follows block comments and
    preprocessor lines from line to line, recognises the event markers,
    resolves the plugin that owns each file and merges what it finds into a
    registry keyed by event identifier. The file system enters as
    functions: the steps of `os.walk` from a directory, the lines of a file
    and the `os.listdir` listing of a directory. */
module EventScanner {
  import opened Wrappers
  import opened LibC
  import opened PythonStrings

  // ---------------------------------------------------------------------
  // FileCollection

  /** One step of `os.walk`: a directory, its sub-folders and its files. */
  datatype WalkStep = WalkStep(root: string, subFolders: seq<string>, files: seq<string>)

  /** `any(file.endswith(extension) for extension in extensions)`. */
  predicate HasExtension(file: string, extensions: seq<string>)
  {
    exists i :: 0 <= i < |extensions| && EndsWith(file, extensions[i])
  }

  /** `os.path.join(root, file)`. */
  function PathJoin(root: string, file: string): string
  {
    if StartsWith(file, "/") then file
    else if root == [] || EndsWith(root, "/") then root + file
    else root + "/" + file
  }

  /** The paths collected from the files of one walk step. */
  function Matching(root: string, files: seq<string>, extensions: seq<string>): seq<string>
  {
    if files == [] then []
    else
      var f := files[|files| - 1];
      Matching(root, files[..|files| - 1], extensions)
        + (if HasExtension(f, extensions) then [PathJoin(root, f)] else [])
  }

  /** The paths collected from a whole walk. */
  function Walked(steps: seq<WalkStep>, extensions: seq<string>): seq<string>
  {
    if steps == [] then []
    else
      var st := steps[|steps| - 1];
      Walked(steps[..|steps| - 1], extensions) + Matching(st.root, st.files, extensions)
  }

  /** The paths collect_files returns for the given directories. */
  function Collected(directories: seq<string>, walk: string -> seq<WalkStep>, extensions: seq<string>)
    : seq<string>
  {
    if directories == [] then []
    else
      Collected(directories[..|directories| - 1], walk, extensions)
        + Walked(walk(directories[|directories| - 1]), extensions)
  }

  /** A walk step contributes exactly its files with a wanted extension,
      joined to its directory. */
  lemma {:induction false} MatchingMembers(root: string, files: seq<string>, extensions: seq<string>, p: string)
    ensures p in Matching(root, files, extensions) <==>
      exists f :: f in files && HasExtension(f, extensions) && p == PathJoin(root, f)
  {
    if files != [] {
      var init := files[..|files| - 1];
      assert files == init + [files[|files| - 1]];
      MatchingMembers(root, init, extensions, p);
    }
  }

  /** A walk contributes exactly what its steps contribute. */
  lemma {:induction false} WalkedMembers(steps: seq<WalkStep>, extensions: seq<string>, p: string)
    ensures p in Walked(steps, extensions) <==>
      exists k :: 0 <= k < |steps| && p in Matching(steps[k].root, steps[k].files, extensions)
  {
    if steps != [] {
      var init := steps[..|steps| - 1];
      WalkedMembers(init, extensions, p);
      if p in Walked(init, extensions) {
        var k :| 0 <= k < |init| && p in Matching(init[k].root, init[k].files, extensions);
        assert steps[k] == init[k];
      }
      if exists k :: 0 <= k < |steps| && p in Matching(steps[k].root, steps[k].files, extensions) {
        var k :| 0 <= k < |steps| && p in Matching(steps[k].root, steps[k].files, extensions);
        if k < |init| {
          assert init[k] == steps[k];
        }
      }
    }
  }

  /** collect_files returns exactly the walked files, under any of the
      directories, whose name ends with one of the extensions. */
  lemma {:induction false} CollectedMembers(directories: seq<string>, walk: string -> seq<WalkStep>,
                                             extensions: seq<string>, p: string)
    ensures p in Collected(directories, walk, extensions) <==>
      exists k :: 0 <= k < |directories| && InWalk(walk, directories[k], extensions, p)
  {
    if directories != [] {
      var init := directories[..|directories| - 1];
      var last := directories[|directories| - 1];
      CollectedMembers(init, walk, extensions, p);
      assert Collected(directories, walk, extensions)
        == Collected(init, walk, extensions) + Walked(walk(last), extensions);
      if p in Collected(init, walk, extensions) {
        var k :| 0 <= k < |init| && InWalk(walk, init[k], extensions, p);
        assert directories[k] == init[k];
      } else if InWalk(walk, last, extensions, p) {
        assert directories[|directories| - 1] == last;
      }
      if exists k :: 0 <= k < |directories| && InWalk(walk, directories[k], extensions, p) {
        var k :| 0 <= k < |directories| && InWalk(walk, directories[k], extensions, p);
        if k < |init| {
          assert init[k] == directories[k];
        }
      }
    }
  }

  /** `p` is found by walking `directory`. */
  predicate InWalk(walk: string -> seq<WalkStep>, directory: string, extensions: seq<string>, p: string)
  {
    p in Walked(walk(directory), extensions)
  }

  /** `[x for x in files if x.find(directory) == -1]`. */
  function Without(files: seq<string>, directory: string): seq<string>
  {
    if files == [] then []
    else
      var f := files[|files| - 1];
      Without(files[..|files| - 1], directory) + (if Find(f, directory) == -1 then [f] else [])
  }

  /** The list exclude_directories leaves, one directory after another. */
  function Excluded(files: seq<string>, directories: seq<string>): seq<string>
  {
    if directories == [] then files
    else Without(Excluded(files, directories[..|directories| - 1]), directories[|directories| - 1])
  }

  /** No directory of `directories` occurs in `path`. */
  predicate OutsideAll(path: string, directories: seq<string>)
  {
    forall k :: 0 <= k < |directories| ==> Find(path, directories[k]) == -1
  }

  /** A single pass over the paths that keeps those containing none of the
      directories, in their order. */
  function KeptPaths(files: seq<string>, directories: seq<string>): seq<string>
  {
    if files == [] then []
    else
      var f := files[|files| - 1];
      KeptPaths(files[..|files| - 1], directories) + (if OutsideAll(f, directories) then [f] else [])
  }

  /** Filtering out one more directory after a pass is a pass with that
      directory added. */
  lemma {:induction false} WithoutKept(files: seq<string>, directories: seq<string>, d: string)
    ensures Without(KeptPaths(files, directories), d) == KeptPaths(files, directories + [d])
  {
    if files != [] {
      var init := files[..|files| - 1];
      var f := files[|files| - 1];
      WithoutKept(init, directories, d);
      var ds := directories + [d];
      assert OutsideAll(f, ds) <==> OutsideAll(f, directories) && Find(f, d) == -1 by {
        assert forall k :: 0 <= k < |directories| ==> ds[k] == directories[k];
        assert ds[|directories|] == d;
      }
      var kept := KeptPaths(init, directories);
      if OutsideAll(f, directories) {
        assert (kept + [f])[..|kept + [f]| - 1] == kept;
      } else {
        assert kept + [] == kept;
      }
    }
  }

  /** Excluding the directories one after another is one pass keeping the
      paths that contain none of them: the other paths keep their order. */
  lemma {:induction false} ExcludedIsOnePass(files: seq<string>, directories: seq<string>)
    ensures Excluded(files, directories) == KeptPaths(files, directories)
    decreases |directories|
  {
    if directories == [] {
      NoDirectoryKeepsAll(files);
    } else {
      var init := directories[..|directories| - 1];
      var d := directories[|directories| - 1];
      ExcludedIsOnePass(files, init);
      WithoutKept(files, init, d);
      assert init + [d] == directories;
    }
  }

  /** With no directory to exclude every path stays. */
  lemma {:induction false} NoDirectoryKeepsAll(files: seq<string>)
    ensures KeptPaths(files, []) == files
  {
    if files != [] {
      var init, f := files[..|files| - 1], files[|files| - 1];
      NoDirectoryKeepsAll(init);
      assert OutsideAll(f, []);
      assert KeptPaths(files, []) == KeptPaths(init, []) + [f];
      assert init + [f] == files;
    }
  }

  /** After exclude_directories a path remains exactly when it was there
      and contains none of the directories. */
  lemma {:induction false} KeptMembers(files: seq<string>, directories: seq<string>, p: string)
    ensures p in KeptPaths(files, directories) <==> p in files && OutsideAll(p, directories)
  {
    if files != [] {
      var init := files[..|files| - 1];
      assert files == init + [files[|files| - 1]];
      KeptMembers(init, directories, p);
    }
  }

  /** `FileCollection`: the wanted extensions and the files found. */
  class FileCollection {
    var files: seq<string>
    const extensions: seq<string>

    constructor (extensions: seq<string>)
      ensures files == [] && this.extensions == extensions
    {
      files := [];
      this.extensions := extensions;
    }

    /** collect_files: walks each directory in turn and keeps every file
        with a wanted extension. */
    method CollectFiles(directories: seq<string>, walk: string -> seq<WalkStep>) returns (r: seq<string>)
      modifies this
      ensures files == Collected(directories, walk, extensions) && r == files
    {
      files := [];
      var d := 0;
      while d < |directories|
        invariant d <= |directories|
        invariant files == Collected(directories[..d], walk, extensions)
      {
        assert directories[..d + 1][..d] == directories[..d];
        CollectWalk(walk(directories[d]));
        d := d + 1;
      }
      assert directories[..d] == directories;
      return files;
    }

    /** The loops of collect_files over the steps of one `os.walk`. */
    method CollectWalk(steps: seq<WalkStep>)
      modifies this
      ensures files == old(files) + Walked(steps, extensions)
    {
      var s := 0;
      while s < |steps|
        invariant s <= |steps|
        invariant files == old(files) + Walked(steps[..s], extensions)
      {
        assert steps[..s + 1][..s] == steps[..s];
        CollectStep(steps[s]);
        s := s + 1;
      }
      assert steps[..s] == steps;
    }

    /** The innermost loop of collect_files, over the files of one walk
        step. */
    method CollectStep(step: WalkStep)
      modifies this
      ensures files == old(files) + Matching(step.root, step.files, extensions)
    {
      var i := 0;
      while i < |step.files|
        invariant i <= |step.files|
        invariant files == old(files) + Matching(step.root, step.files[..i], extensions)
      {
        assert step.files[..i + 1][..i] == step.files[..i];
        var file := step.files[i];
        if HasExtension(file, extensions) {
          files := files + [PathJoin(step.root, file)];
        }
        i := i + 1;
      }
      assert step.files[..i] == step.files;
    }

    /** exclude_directories: drops, directory after directory, every path
        that contains the directory. */
    method ExcludeDirectories(directories: seq<string>)
      modifies this
      ensures files == Excluded(old(files), directories)
    {
      var d := 0;
      while d < |directories|
        invariant d <= |directories|
        invariant files == Excluded(old(files), directories[..d])
      {
        assert directories[..d + 1][..d] == directories[..d];
        files := Without(files, directories[d]);
        d := d + 1;
      }
      assert directories[..d] == directories;
    }
  }

  // ---------------------------------------------------------------------
  // Comments and preprocessor lines

  /** The flags `comments` and `macro` of __extract_data. Both are set
      before the loop over the files, so they carry over from one file to
      the next. */
  datatype Lex = Lex(comments: bool, macro: bool)

  /** The flags after a line, and whether the line is extracted from. */
  datatype LineVerdict = LineVerdict(next: Lex, extract: bool)

  /** A line whose text, stripped of blanks and tabs, starts with '#'. */
  predicate IsDirective(line: string)
  {
    StartsWith(Strip(line, {' ', '\t'}), "#")
  }

  /** A line whose text, stripped of blanks, tabs and newlines, ends with a
      backslash. */
  predicate IsContinued(line: string)
  {
    EndsWith(Strip(line, {' ', '\t', '\n'}), "\\")
  }

  /** The flag updates at the head of the line loop: a comment opener sets
      `comments`, a comment closer then clears it; a directive or a
      continued line sets `macro`; otherwise a set `macro` is cleared and
      the line skipped. A line is extracted from when neither flag is left
      set. */
  function Classify(st: Lex, line: string): LineVerdict
  {
    var opening := if Find(line, "/*") != -1 then true else st.comments;
    var comments := if Find(line, "*/") != -1 then false else opening;
    if IsDirective(line) || IsContinued(line) then LineVerdict(Lex(comments, true), false)
    else if st.macro then LineVerdict(Lex(comments, false), false)
    else LineVerdict(Lex(comments, false), !comments)
  }

  /** A line is extracted from exactly when it is no directive, does not
      continue, does not follow a macro line and leaves no comment open. */
  lemma ClassifyExtracts(st: Lex, line: string)
    ensures var v := Classify(st, line);
      v.extract <==> !IsDirective(line) && !IsContinued(line) && !st.macro && !v.next.comments
  {
  }

  /** Directives and continued lines are never extracted from and keep the
      next line in macro state. */
  lemma DirectiveSkipped(st: Lex, line: string)
    requires IsDirective(line) || IsContinued(line)
    ensures !Classify(st, line).extract && Classify(st, line).next.macro
  {
  }

  /** The first line after a macro line that does not itself continue it is
      skipped too, and clears the macro state. */
  lemma MacroTailSkipped(st: Lex, line: string)
    requires st.macro && !IsDirective(line) && !IsContinued(line)
    ensures !Classify(st, line).extract && !Classify(st, line).next.macro
  {
  }

  /** A line holding a comment closer leaves no comment open; while a comment is open
      nothing is extracted. */
  lemma CommentFlag(st: Lex, line: string)
    ensures Find(line, "*/") != -1 ==> !Classify(st, line).next.comments
    ensures Find(line, "/*") != -1 && Find(line, "*/") == -1 ==> Classify(st, line).next.comments
    ensures Classify(st, line).next.comments ==> !Classify(st, line).extract
  {
  }

  /** A comment opened and closed on one line closes on its own line, so that
      line is extracted from when nothing else prevents it. */
  lemma OneLineCommentExtracted(line: string)
    requires Find(line, "*/") != -1 && !IsDirective(line) && !IsContinued(line)
    ensures Classify(Lex(false, false), line).extract
  {
  }

  // ---------------------------------------------------------------------
  // Event records

  /** `Event`: where and how an event was declared, defined and created.
      Its `collected_fire_args` list is never filled and is left out. */
  datatype Event = Event(declarationFile: string, definitionFile: string, creationFile: string,
                         declaration: string, definition: string, globalName: string)

  /** `Event()`: every field empty. */
  const NewEvent := Event("", "", "", "", "", "")

  /** The record under `name`, created empty when missing. */
  function Lookup(events: map<string, Event>, name: string): Event
  {
    if name in events then events[name] else NewEvent
  }

  /** The identifier an `EVENT_H(`/`EVENT_C(` line names: its second
      '('-piece stripped of ')' and newlines. */
  function MarkedName(line: string): string
  {
    var pieces := Split(line, '(');
    if |pieces| > 1 then Strip(pieces[1], {')', '\n'}) else ""
  }

  /** The declaration branch: a line holding "EVENT_H" and a '(' records
      its file and identifier as the declaration. */
  function Declare(events: map<string, Event>, file: string, line: string): map<string, Event>
  {
    if Find(line, "EVENT_H") != -1 && '(' in line then
      var name := MarkedName(line);
      events[name := Lookup(events, name).(declarationFile := file, declaration := name)]
    else events
  }

  /** The definition branch: a line holding "EVENT_C" and a '(' records
      its file and identifier as the definition. */
  function Define(events: map<string, Event>, file: string, line: string): map<string, Event>
  {
    if Find(line, "EVENT_C") != -1 && '(' in line then
      var name := MarkedName(line);
      events[name := Lookup(events, name).(definitionFile := file, definition := name)]
    else events
  }

  /** The creation branch: a line holding "event_create" and a '=' records
      the creating file and the global name "plugin.display" under the
      identifier left of the '='; the display name is the second ','-piece
      stripped of blanks, quotes, ')', ';' and newlines. None where the
      line has no ',' and the script raises IndexError. */
  function Create(events: map<string, Event>, file: string, plugin: string, line: string)
    : Option<map<string, Event>>
  {
    if Find(line, "event_create") != -1 && '=' in line then
      var name := Strip(Split(line, '=')[0], {' ', '\n'});
      var fields := Split(line, ',');
      if |fields| < 2 then None
      else
        var global := plugin + "." + Strip(fields[1], {' ', '"', ')', ';', '\n'});
        Some(events[name := Lookup(events, name).(creationFile := file, globalName := global)])
    else Some(events)
  }

  /** The arguments an EVENT_FIRE line passes, the event first: the
      ','-pieces stripped of newlines, tabs, blanks and ';', the first cut
      after its '(' and the last losing its final character. None where the
      first piece has no '(' and the script raises IndexError. */
  function FireArgs(line: string): Option<seq<string>>
  {
    var pieces := Split(line, ',');
    var args := seq(|pieces|, k requires 0 <= k < |pieces| => Strip(pieces[k], {'\n', '\t', ' ', ';'}));
    var head := Split(args[0], '(');
    if |head| < 2 then None
    else
      var named := args[0 := Strip(head[1], {' '})];
      var last := named[|named| - 1];
      Some(named[|named| - 1 := if last == [] then [] else last[..|last| - 1]])
  }

  /** The scanner's state between lines: the registry and the flags. */
  datatype Scan = Scan(events: map<string, Event>, lex: Lex)

  /** One pass of the line loop. The four marker tests are independent: a
      line may be a declaration, a definition, a creation and a fire at
      once. None where the script raises. */
  function ScanLine(s: Scan, file: string, plugin: string, line: string): Option<Scan>
  {
    var v := Classify(s.lex, line);
    if !v.extract then Some(Scan(s.events, v.next))
    else
      match Create(Define(Declare(s.events, file, line), file, line), file, plugin, line)
      case None => None
      case Some(created) =>
        if Find(line, "EVENT_FIRE") != -1 && FireArgs(line).None? then None
        else Some(Scan(created, v.next))
  }

  /** The line loop over one file. */
  function ScanLines(s: Scan, file: string, plugin: string, lines: seq<string>): Option<Scan>
  {
    if lines == [] then Some(s)
    else
      match ScanLines(s, file, plugin, lines[..|lines| - 1])
      case None => None
      case Some(t) => ScanLine(t, file, plugin, lines[|lines| - 1])
  }

  /** The start of __extract_data: no events, both flags clear. */
  const Start := Scan(map[], Lex(false, false))

  /** The file loop of __extract_data. */
  function ScanFiles(s: Scan, files: seq<string>, read: string -> seq<string>, listdir: string -> seq<string>)
    : Option<Scan>
  {
    if files == [] then Some(s)
    else
      var f := files[|files| - 1];
      match ScanFiles(s, files[..|files| - 1], read, listdir)
      case None => None
      case Some(t) => ScanLines(t, f, PluginName(f, listdir), read(f))
  }

  // ---------------------------------------------------------------------
  // Properties of the extraction

  /** A declaration line records the file and identifier under that
      identifier and changes nothing else; without a '(' it creates no
      record. */
  lemma DeclareRecords(events: map<string, Event>, file: string, line: string)
    ensures Find(line, "EVENT_H") != -1 && '(' in line ==>
      var name := Strip(Split(line, '(')[1], {')', '\n'});
      var r := Declare(events, file, line);
      && r.Keys == events.Keys + {name}
      && r[name] == Lookup(events, name).(declarationFile := file, declaration := name)
      && (forall k :: k in events && k != name ==> r[k] == events[k])
    ensures '(' !in line ==> Declare(events, file, line) == events
  {
  }

  /** A definition line records the file and identifier under that
      identifier and changes nothing else. */
  lemma DefineRecords(events: map<string, Event>, file: string, line: string)
    ensures Find(line, "EVENT_C") != -1 && '(' in line ==>
      var name := Strip(Split(line, '(')[1], {')', '\n'});
      var r := Define(events, file, line);
      && r.Keys == events.Keys + {name}
      && r[name] == Lookup(events, name).(definitionFile := file, definition := name)
      && (forall k :: k in events && k != name ==> r[k] == events[k])
    ensures '(' !in line ==> Define(events, file, line) == events
  {
  }

  /** A creation line records the creating file and the global name
      "plugin.display"; the declaration and definition of the record are
      left as they were. */
  lemma CreateRecords(events: map<string, Event>, file: string, plugin: string, line: string)
    requires Find(line, "event_create") != -1 && '=' in line && ',' in line
    ensures Create(events, file, plugin, line).Some?
    ensures var name := Strip(Split(line, '=')[0], {' ', '\n'});
      var r := Create(events, file, plugin, line).value;
      && name in r
      && r[name].creationFile == file
      && r[name].globalName == plugin + "." + Strip(Split(line, ',')[1], {' ', '"', ')', ';', '\n'})
      && r[name].declaration == Lookup(events, name).declaration
      && r[name].declarationFile == Lookup(events, name).declarationFile
      && r[name].definition == Lookup(events, name).definition
      && r[name].definitionFile == Lookup(events, name).definitionFile
      && (forall k :: k in events && k != name ==> r[k] == events[k])
  {
  }

  /** A line the flags exclude changes no record. */
  lemma SkippedLineKeepsEvents(s: Scan, file: string, plugin: string, line: string)
    requires !Classify(s.lex, line).extract
    ensures ScanLine(s, file, plugin, line) == Some(Scan(s.events, Classify(s.lex, line).next))
  {
  }

  /** Records are never dropped, and a record's global name changes only
      on a creation line. */
  lemma ScanLineKeeps(s: Scan, file: string, plugin: string, line: string)
    requires ScanLine(s, file, plugin, line).Some?
    ensures var t := ScanLine(s, file, plugin, line).value;
      && s.events.Keys <= t.events.Keys
      && (Find(line, "event_create") == -1 ==>
            forall k :: k in t.events ==> t.events[k].globalName == Lookup(s.events, k).globalName)
  {
    var t := ScanLine(s, file, plugin, line).value;
    if Classify(s.lex, line).extract {
      var d := Declare(s.events, file, line);
      var e := Define(d, file, line);
      DeclareKeepsNames(s.events, file, line);
      DefineKeepsNames(d, file, line);
      var c := Create(e, file, plugin, line);
      assert c.Some? && t.events == c.value;
      assert e.Keys <= c.value.Keys;
      if Find(line, "event_create") == -1 {
        assert c.value == e;
        forall k | k in t.events
          ensures t.events[k].globalName == Lookup(s.events, k).globalName
        {
          assert t.events[k] == Lookup(e, k);
        }
      }
    }
  }

  /** The declaration branch adds at most one record and changes no global
      name. */
  lemma DeclareKeepsNames(events: map<string, Event>, file: string, line: string)
    ensures events.Keys <= Declare(events, file, line).Keys
    ensures forall k :: Lookup(Declare(events, file, line), k).globalName == Lookup(events, k).globalName
  {
  }

  /** The definition branch adds at most one record and changes no global
      name. */
  lemma DefineKeepsNames(events: map<string, Event>, file: string, line: string)
    ensures events.Keys <= Define(events, file, line).Keys
    ensures forall k :: Lookup(Define(events, file, line), k).globalName == Lookup(events, k).globalName
  {
  }

  /** Over a whole file, records are never dropped and global names change
      only where a creation line was scanned. */
  lemma {:induction false} ScanLinesKeeps(s: Scan, file: string, plugin: string, lines: seq<string>)
    requires ScanLines(s, file, plugin, lines).Some?
    ensures var t := ScanLines(s, file, plugin, lines).value;
      && s.events.Keys <= t.events.Keys
      && ((forall i :: 0 <= i < |lines| ==> Find(lines[i], "event_create") == -1) ==>
            forall k :: k in t.events ==> t.events[k].globalName == Lookup(s.events, k).globalName)
  {
    if lines != [] {
      var init := lines[..|lines| - 1];
      ScanLinesKeeps(s, file, plugin, init);
      var m := ScanLines(s, file, plugin, init).value;
      ScanLineKeeps(m, file, plugin, lines[|lines| - 1]);
      var t := ScanLines(s, file, plugin, lines).value;
      if forall i :: 0 <= i < |lines| ==> Find(lines[i], "event_create") == -1 {
        assert forall i :: 0 <= i < |init| ==> init[i] == lines[i];
        forall k | k in t.events
          ensures t.events[k].globalName == Lookup(s.events, k).globalName
        {
          if k !in m.events {
            assert Lookup(m.events, k).globalName == "" by {
              assert Lookup(m.events, k) == NewEvent;
            }
          }
        }
      }
    }
  }

  /** Once the script raises, the rest of the files do not matter. */
  lemma {:induction false} ScanFilesFailure(s: Scan, files: seq<string>, n: nat,
                                            read: string -> seq<string>, listdir: string -> seq<string>)
    requires n <= |files| && ScanFiles(s, files[..n], read, listdir).None?
    ensures ScanFiles(s, files, read, listdir).None?
    decreases |files| - n
  {
    if n < |files| {
      assert files[..n + 1][..n] == files[..n];
      ScanFilesFailure(s, files, n + 1, read, listdir);
    } else {
      assert files[..n] == files;
    }
  }

  // ---------------------------------------------------------------------
  // Plugin names

  /** The directory listing of a path holds the build descriptor. */
  predicate HasMarker(folders: seq<string>, i: nat, listdir: string -> seq<string>)
    requires i <= |folders|
  {
    "CMakeLists.txt" in listdir(Join(folders[..i], '/'))
  }

  /** The search of __determine_plugin_name_from_file_path from the
      ancestor of `i` folders upwards. */
  function AncestorPlugin(folders: seq<string>, i: nat, listdir: string -> seq<string>): string
    requires i < |folders|
  {
    if i == 0 then "builtin"
    else if HasMarker(folders, i, listdir) then folders[i - 1]
    else AncestorPlugin(folders, i - 1, listdir)
  }

  /** __determine_plugin_name_from_file_path, as a function. */
  function PluginName(path: string, listdir: string -> seq<string>): string
  {
    if Find(path, "plugins/") == -1 then "builtin"
    else
      var folders := Split(path, '/');
      AncestorPlugin(folders, |folders| - 1, listdir)
  }

  /** The search yields the name of the nearest ancestor directory holding
      the build descriptor. */
  lemma {:induction false} AncestorPluginNearest(folders: seq<string>, i: nat, listdir: string -> seq<string>, j: nat)
    requires 1 <= j <= i < |folders| && HasMarker(folders, j, listdir)
    requires forall m :: j < m <= i ==> !HasMarker(folders, m, listdir)
    ensures AncestorPlugin(folders, i, listdir) == folders[j - 1]
  {
    if j < i {
      AncestorPluginNearest(folders, i - 1, listdir, j);
    }
  }

  /** With no ancestor holding the build descriptor the file is built in. */
  lemma {:induction false} AncestorPluginNone(folders: seq<string>, i: nat, listdir: string -> seq<string>)
    requires i < |folders|
    requires forall j :: 1 <= j <= i ==> !HasMarker(folders, j, listdir)
    ensures AncestorPlugin(folders, i, listdir) == "builtin"
  {
    if i > 0 {
      AncestorPluginNone(folders, i - 1, listdir);
    }
  }

  /** A path outside "plugins/" belongs to "builtin". */
  lemma OutsidePluginsIsBuiltin(path: string, listdir: string -> seq<string>)
    requires !Contains(path, "plugins/")
    ensures PluginName(path, listdir) == "builtin"
  {
  }

  // ---------------------------------------------------------------------
  // The checker

  /** `EventChecker`: the registry of events found. */
  class EventChecker {
    var events: map<string, Event>

    constructor ()
      ensures events == map[]
    {
      events := map[];
    }

    /** __determine_plugin_name_from_file_path: outside "plugins/" the
        file is built in; otherwise the ancestors are searched from the
        nearest upwards for a CMakeLists.txt, and the name of the first
        directory holding one is the plugin's. */
    method DeterminePluginName(path: string, listdir: string -> seq<string>) returns (name: string)
      ensures name == PluginName(path, listdir)
    {
      if Find(path, "plugins/") == -1 {
        return "builtin";
      }
      var folders := Split(path, '/');
      var i := |folders| - 1;
      while i > 0
        invariant 0 <= i < |folders|
        invariant AncestorPlugin(folders, |folders| - 1, listdir) == AncestorPlugin(folders, i, listdir)
      {
        var newPath := Join(folders[..i], '/');
        if "CMakeLists.txt" in listdir(newPath) {
          return folders[i - 1];
        }
        i := i - 1;
      }
      return "builtin";
    }

    /** __extract_data: starts from an empty registry and scans every file
        in turn with the plugin its path resolves to. Reports false where
        the script raises. */
    method ExtractData(files: seq<string>, read: string -> seq<string>, listdir: string -> seq<string>)
      returns (ok: bool)
      modifies this
      ensures ok <==> ScanFiles(Start, files, read, listdir).Some?
      ensures ok ==> events == ScanFiles(Start, files, read, listdir).value.events
    {
      events := map[];
      var lex := Lex(false, false);
      var f := 0;
      while f < |files|
        invariant f <= |files|
        invariant ScanFiles(Start, files[..f], read, listdir) == Some(Scan(events, lex))
      {
        ghost var before := Scan(events, lex);
        assert files[..f + 1][..f] == files[..f];
        var plugin := DeterminePluginName(files[f], listdir);
        assert ScanFiles(Start, files[..f + 1], read, listdir)
          == ScanLines(before, files[f], plugin, read(files[f]));
        var fileOk;
        fileOk, lex := ScanFile(files[f], plugin, read(files[f]), lex);
        if !fileOk {
          ScanFilesFailure(Start, files, f + 1, read, listdir);
          return false;
        }
        f := f + 1;
      }
      assert files[..f] == files;
      return true;
    }

    /** The line loop of __extract_data over one file. */
    method ScanFile(file: string, plugin: string, lines: seq<string>, lex0: Lex) returns (ok: bool, lex: Lex)
      modifies this
      ensures ok <==> ScanLines(Scan(old(events), lex0), file, plugin, lines).Some?
      ensures ok ==> Scan(events, lex) == ScanLines(Scan(old(events), lex0), file, plugin, lines).value
    {
      lex := lex0;
      ghost var start := Scan(events, lex0);
      var i := 0;
      while i < |lines|
        invariant i <= |lines|
        invariant ScanLines(start, file, plugin, lines[..i]) == Some(Scan(events, lex))
      {
        ghost var before := Scan(events, lex);
        assert lines[..i + 1][..i] == lines[..i];
        assert ScanLines(start, file, plugin, lines[..i + 1]) == ScanLine(before, file, plugin, lines[i]);
        var lineOk;
        lineOk, lex := ScanOneLine(file, plugin, lines[i], lex);
        if !lineOk {
          ScanLinesFailure(start, file, plugin, lines, i + 1);
          return false, lex;
        }
        i := i + 1;
      }
      assert lines[..i] == lines;
      return true, lex;
    }

    /** The body of the line loop: the flag updates, then the marker
        branches. */
    method ScanOneLine(file: string, plugin: string, line: string, lex0: Lex) returns (ok: bool, lex: Lex)
      modifies this
      ensures ok <==> ScanLine(Scan(old(events), lex0), file, plugin, line).Some?
      ensures ok ==> Scan(events, lex) == ScanLine(Scan(old(events), lex0), file, plugin, line).value
    {
      var comments := lex0.comments;
      var macro := lex0.macro;
      if Find(line, "/*") != -1 {
        comments := true;
      }
      if Find(line, "*/") != -1 {
        comments := false;
      }
      if StartsWith(Strip(line, {' ', '\t'}), "#") {
        macro := true;
      } else if EndsWith(Strip(line, {' ', '\t', '\n'}), "\\") {
        macro := true;
      } else if macro {
        return true, Lex(comments, false);
      }
      if comments || macro {
        return true, Lex(comments, macro);
      }
      events := Declare(events, file, line);
      events := Define(events, file, line);
      var created := Create(events, file, plugin, line);
      if created.None? {
        return false, lex0;
      }
      events := created.value;
      if Find(line, "EVENT_FIRE") != -1 {
        var args := FireArgs(line);
        if args.None? {
          return false, lex0;
        }
      }
      return true, Lex(comments, macro);
    }
  }

  /** Once a line raises, the rest of the file does not matter. */
  lemma {:induction false} ScanLinesFailure(s: Scan, file: string, plugin: string, lines: seq<string>, n: nat)
    requires n <= |lines| && ScanLines(s, file, plugin, lines[..n]).None?
    ensures ScanLines(s, file, plugin, lines).None?
    decreases |lines| - n
  {
    if n < |lines| {
      assert lines[..n + 1][..n] == lines[..n];
      ScanLinesFailure(s, file, plugin, lines, n + 1);
    } else {
      assert lines[..n] == lines;
    }
  }
}
