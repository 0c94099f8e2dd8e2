/** Command-line switch parsing of lightship/src/argv.c (argv_parse). */
module ArgvParser {
  import opened Wrappers

  /** The result object `struct arg_obj_t` that argv_parse allocates and fills. */
  datatype ArgObj = ArgObj(runGame: bool, showHelp: bool)

  /** NO_DASH, SINGLE_DASH and DOUBLE_DASH. */
  datatype SwitchType = NoDash | SingleDash | DoubleDash

  /** How argv_parse classifies one argument by its leading dashes. */
  function SwitchTypeOf(arg: string): SwitchType
  {
    if |arg| >= 1 && arg[0] == '-' then
      if |arg| >= 2 && arg[1] == '-' then DoubleDash else SingleDash
    else
      NoDash
  }

  /** Whether one argument asks for the help text: a single-dash switch group
      containing `h`, or exactly `--help`. */
  predicate RequestsHelp(arg: string)
  {
    match SwitchTypeOf(arg)
    case NoDash => false
    case SingleDash => 'h' in arg[1..]
    case DoubleDash => arg[2..] == "help"
  }

  /** Whether any argument after the program name asks for help. */
  predicate HelpRequested(argv: seq<string>)
  {
    exists i :: 1 <= i < |argv| && RequestsHelp(argv[i])
  }

  /** argv_parse. `argv[0]` is the program name and is never inspected as a
      switch; `allocOk` is the outcome of the allocation of the result object.
      Printing the help text is left out. */
  method ArgvParse(argv: seq<string>, allocOk: bool) returns (r: Option<ArgObj>)
    requires |argv| >= 1
    ensures r.None? <==> !allocOk
    ensures r.Some? ==> r.value.showHelp == HelpRequested(argv)
    ensures r.Some? ==> r.value.runGame == !r.value.showHelp
  {
    if !allocOk {
      return None;
    }
    var runGame := true;
    var showHelp := false;
    var i := 1;
    while i != |argv|
      invariant 1 <= i <= |argv|
      invariant showHelp <==> exists j :: 1 <= j < i && RequestsHelp(argv[j])
    {
      var arg := argv[i];
      var switchType := NoDash;
      var start := 0;
      if |arg| >= 1 && arg[0] == '-' {
        switchType := SingleDash;
        start := 1;
        if |arg| >= 2 && arg[1] == '-' {
          switchType := DoubleDash;
          start := 2;
        }
      }
      assert switchType == SwitchTypeOf(arg);
      if switchType == SingleDash {
        var k := start;
        var sawH := false;
        while k < |arg|
          invariant start <= k <= |arg|
          invariant sawH <==> 'h' in arg[start..k]
        {
          if arg[k] == 'h' {
            sawH := true;
          }
          assert arg[start..k + 1] == arg[start..k] + [arg[k]];
          k := k + 1;
        }
        assert arg[start..k] == arg[1..];
        if sawH {
          showHelp := true;
        }
      }
      if switchType == DoubleDash {
        if arg[start..] == "help" {
          showHelp := true;
        }
      }
      assert showHelp <==> (exists j :: 1 <= j < i && RequestsHelp(argv[j])) || RequestsHelp(argv[i]);
      i := i + 1;
    }
    if showHelp {
      runGame := false;
    }
    return Some(ArgObj(runGame, showHelp));
  }

  /** Any single-dash argument containing `h` anywhere requests help. */
  lemma SingleDashWithHRequestsHelp(argv: seq<string>, i: int)
    requires 1 <= i < |argv|
    requires |argv[i]| >= 2 && argv[i][0] == '-' && argv[i][1] != '-'
    requires 'h' in argv[i]
    ensures HelpRequested(argv)
  {
    var arg := argv[i];
    var k :| 0 <= k < |arg| && arg[k] == 'h';
    assert arg[1..][k - 1] == 'h';
  }

  /** `--help` requests help; any other double-dash word does not. */
  lemma DoubleDashOnlyHelp(arg: string)
    requires |arg| >= 2 && arg[0] == '-' && arg[1] == '-'
    ensures RequestsHelp(arg) <==> arg == "--help"
  {
    if arg[2..] == "help" {
      assert arg == arg[..2] + arg[2..];
    }
  }

  /** Arguments without a leading dash are ignored: adding one never changes
      whether help is shown. */
  lemma PlainWordsIgnored(argv: seq<string>, word: string)
    requires |argv| >= 1
    requires |word| == 0 || word[0] != '-'
    ensures HelpRequested(argv + [word]) == HelpRequested(argv)
  {
    var argv' := argv + [word];
    if HelpRequested(argv') {
      var j :| 1 <= j < |argv'| && RequestsHelp(argv'[j]);
      assert j < |argv|;
      assert RequestsHelp(argv[j]);
    }
    if HelpRequested(argv) {
      var j :| 1 <= j < |argv| && RequestsHelp(argv[j]);
      assert argv'[j] == argv[j];
    }
  }
}
