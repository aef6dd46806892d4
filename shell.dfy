/**
 * The shell's top level: execute_one, run_command's dispatch, the history
 * record of a line, and one turn of the read loop shared by
 * interactive_main and batch_main. The shell's globals (rc, the alias
 * table, the history array, PATH and the working directory) live in the
 * class `Wsh`, whose methods are proved against the functions of this
 * module.
 */
module Shell {
  import opened Types
  import opened Tokenizer
  import opened DynamicArrays
  import opened Commands
  import opened Builtins
  import opened Pipelines

  // ---------------------------------------------------------------------
  // One external command

  /** The status execute_one makes of a child's wait status: success only
      for a normal exit with 0; a signal or a failed waitpid is a failure. */
  function WaitStatus(w: WaitResult): (code: int)
    ensures code == EXIT_SUCCESS <==> w == Exited(0)
    ensures code == EXIT_SUCCESS || code == EXIT_FAILURE
  {
    if w == Exited(0) then EXIT_SUCCESS else EXIT_FAILURE
  }

  /** execute_one: nothing to run is a success; a name given as a path runs
      as it is; any other name is looked up in PATH first. It never changes
      the session. */
  function External(s: Session, env: Env, argv: seq<string>): (o: Outcome)
    ensures o.session == s
    ensures o.code == EXIT_SUCCESS || o.code == EXIT_FAILURE
  {
    if argv == [] then Outcome(EXIT_SUCCESS, s, [])
    else if IsAbsOrRel(argv[0]) then Outcome(WaitStatus(env.run(argv[0], argv)), s, [])
    else match SearchPath(s.path, argv[0], env.executable)
      case NoSearchPath => Outcome(EXIT_FAILURE, s, [EmptyPath])
      case NotFound => Outcome(EXIT_FAILURE, s, [CmdNotFound(argv[0])])
      case Found(full) => Outcome(WaitStatus(env.run(full, argv)), s, [])
  }

  /** A program found through PATH succeeds exactly when some non-empty PATH
      directory holds it as an executable and the copy in the first such
      directory exits with 0; with no such directory it fails with a
      not-found message, and with an empty PATH with the empty-path one. */
  lemma ExternalSearch(s: Session, env: Env, argv: seq<string>)
    requires argv != [] && !IsAbsOrRel(argv[0])
    ensures s.path == "" ==> External(s, env, argv) == Outcome(EXIT_FAILURE, s, [EmptyPath])
    ensures s.path != "" && (forall d :: d in Components(s.path) ==> !env.executable(d + "/" + argv[0])) ==>
              External(s, env, argv) == Outcome(EXIT_FAILURE, s, [CmdNotFound(argv[0])])
    ensures External(s, env, argv).code == EXIT_SUCCESS ==>
              var ds := Components(s.path);
              exists i :: 0 <= i < |ds| && ds[i] != "" && env.executable(ds[i] + "/" + argv[0]) &&
                env.run(ds[i] + "/" + argv[0], argv) == Exited(0) &&
                forall j :: 0 <= j < i ==> !env.executable(ds[j] + "/" + argv[0])
  {
    SearchPathMeaning(s.path, argv[0], env.executable);
  }

  /** The execution method of execute_one. */
  method ExecuteOne(s: Session, env: Env, argv: seq<string>) returns (code: int, out: seq<Msg>)
    ensures code == External(s, env, argv).code && out == External(s, env, argv).out
  {
    if |argv| == 0 {
      return EXIT_SUCCESS, [];
    }
    var execPath := argv[0];
    if !IsAbsOrRel(argv[0]) {
      var found := FindInPath(s.path, argv[0], env.executable);
      match found {
        case NoSearchPath => return EXIT_FAILURE, [EmptyPath];
        case NotFound => return EXIT_FAILURE, [CmdNotFound(argv[0])];
        case Found(full) => execPath := full;
      }
    }
    var status := env.run(execPath, argv);
    code := if status == Exited(0) then EXIT_SUCCESS else EXIT_FAILURE;
    out := [];
  }

  // ---------------------------------------------------------------------
  // run_command

  /** What run_command leaves undefined: a pipeline's undefined stages, or
      an alias value with too many tokens. */
  predicate CommandDefined(s: Session, env: Env, argv: seq<string>)
  {
    argv != [] ==>
      ("|" in argv ==> PipelineDefined(s, env, argv)) &&
      ("|" !in argv ==> ExpansionFits(s.aliases, argv))
  }

  /** run_command: a line with a "|" word is a pipeline, which leaves the
      session as it is; otherwise the leading alias is expanded and a
      builtin runs in the shell itself, anything else as a child. */
  function Command(s: Session, env: Env, argv: seq<string>): (o: Outcome)
    requires CommandDefined(s, env, argv)
    ensures o.code in {EXIT_SUCCESS, EXIT_FAILURE, RC_EXIT_REQUEST}
    ensures o.session.rc == s.rc && o.session.history == s.history
  {
    if argv == [] then Outcome(EXIT_SUCCESS, s, [])
    else if "|" in argv then
      var p := Pipeline(s, env, argv);
      Outcome(p.code, s, p.out)
    else
      var use := Expanded(s.aliases, argv);
      if use != [] && IsBuiltinName(use[0]) then Dispatch(s, env, use)
      else External(s, env, use)
  }

  /** A command ends with success, failure or a request to stop, and asks
      to stop exactly when, with no pipe, it expands to a bare `exit`. It
      never changes the status or the history itself, and only a builtin
      run in the shell changes anything. */
  lemma CommandCodes(s: Session, env: Env, argv: seq<string>)
    requires CommandDefined(s, env, argv)
    ensures Command(s, env, argv).code in {EXIT_SUCCESS, EXIT_FAILURE, RC_EXIT_REQUEST}
    ensures Command(s, env, argv).code == RC_EXIT_REQUEST <==>
              argv != [] && "|" !in argv && Expanded(s.aliases, argv) == ["exit"]
    ensures Command(s, env, argv).session.rc == s.rc
    ensures Command(s, env, argv).session.history == s.history
    ensures ("|" in argv || Command(s, env, argv).code != EXIT_SUCCESS) ==> Command(s, env, argv).session == s
    ensures Command(s, env, argv).session != s ==>
              argv != [] && "|" !in argv && Expanded(s.aliases, argv) != [] &&
              IsBuiltinName(Expanded(s.aliases, argv)[0]) && Command(s, env, argv).code == EXIT_SUCCESS
  {
    if argv != [] {
      var use := Expanded(s.aliases, argv);
      if "|" in argv {
        PipelineResult(s, env, argv);
      } else if use != [] && IsBuiltinName(use[0]) {
        DispatchCodes(s, env, use);
        if Dispatch(s, env, use).code != EXIT_SUCCESS {
          FailureKeepsSession(s, env, use);
        }
      }
    }
  }

  /** An alias stands for its value's words: after `alias NAME = VALUE`,
      the command `NAME ARGS` runs as VALUE's tokens followed by ARGS. */
  lemma AliasThenCommand(s: Session, env: Env, name: string, value: string, args: seq<string>)
    requires name != "" && name != "|" && value != "|" && "alias" !in s.aliases
    requires "|" !in args && |args| + 1 < MAX_ARGS
    requires FitsArgv(value)
    ensures var o := Command(s, env, ["alias", name, "=", value]);
            o.code == EXIT_SUCCESS &&
            CommandDefined(o.session, env, [name] + args) &&
            Expanded(o.session.aliases, [name] + args) == Take(AliasTokens(value) + args, MAX_ARGS - 1)
  {
    var line := ["alias", name, "=", value];
    assert "|" !in line by {
      assert line[0] == "alias" && line[1] == name && line[2] == "=" && line[3] == value;
      assert line[0] != "|" && line[2] != "|";
    }
    assert Expanded(s.aliases, line) == line;
    assert Dispatch(s, env, line) == Alias(s, line);
    var o := Command(s, env, line);
    assert o.session.aliases == s.aliases[name := value];
    var argv := [name] + args;
    assert argv[1..] == args;
  }

  // ---------------------------------------------------------------------
  // One line of input

  /** The history text of a line: the line without one trailing newline. */
  function StripNewline(line: string): (r: string)
    ensures line == r || (line == r + "\n")
    ensures |line| > 0 && line[|line| - 1] == '\n' ==> line == r + "\n"
  {
    if |line| > 0 && line[|line| - 1] == '\n' then line[..|line| - 1] else line
  }

  datatype StepResult = StepResult(session: Session, stop: bool, out: seq<Msg>)

  /** What a turn leaves undefined: more tokens than the argument vector
      holds, or an undefined command. */
  predicate StepDefined(s: Session, env: Env, line: string)
  {
    FitsArgv(line) && (Tokenize(line).Some? ==> CommandDefined(s, env, Tokenize(line).value))
  }

  /** One turn of the read loop: an unclosed quote sets the status to
      failure; a blank line does nothing; a bare `exit` stops with the
      status of the last command before it; any other command sets the
      status to its code and the line goes into the history. */
  function LineStep(s: Session, env: Env, line: string): (r: StepResult)
    requires StepDefined(s, env, line)
    ensures r.stop ==> r.session.rc == s.rc && r.session.history == s.history
    ensures r.session.rc == s.rc || r.session.rc == EXIT_SUCCESS || r.session.rc == EXIT_FAILURE
    ensures r.session.history == s.history || r.session.history == s.history + [StripNewline(line)]
  {
    match Tokenize(line)
    case None => StepResult(s.(rc := EXIT_FAILURE), false, [MissingClosingQuote])
    case Some(argv) =>
      if argv == [] then StepResult(s, false, [])
      else
        var o := Command(s, env, argv);
        if o.code == RC_EXIT_REQUEST then StepResult(o.session, true, o.out)
        else StepResult(o.session.(rc := o.code, history := o.session.history + [StripNewline(line)]), false, o.out)
  }

  /** The turn's effects, case by case. */
  lemma LineStepEffects(s: Session, env: Env, line: string)
    requires StepDefined(s, env, line)
    ensures var r := LineStep(s, env, line);
            (Tokenize(line).None? ==> r.session == s.(rc := EXIT_FAILURE) && !r.stop) &&
            (Tokenize(line) == Some([]) ==> r == StepResult(s, false, [])) &&
            (r.stop <==> Tokenize(line).Some? && Tokenize(line).value != [] &&
                         "|" !in Tokenize(line).value && Expanded(s.aliases, Tokenize(line).value) == ["exit"]) &&
            (r.stop ==> r.session == s)
  {
    if Tokenize(line).Some? {
      CommandCodes(s, env, Tokenize(line).value);
    }
  }

  /** Every command other than a bare `exit`, failed or not, is recorded
      once in the history, and its code, success or failure, becomes the
      status. */
  lemma LineStepRecords(s: Session, env: Env, line: string)
    requires StepDefined(s, env, line)
    requires Tokenize(line).Some? && Tokenize(line).value != []
    requires !LineStep(s, env, line).stop
    ensures var r := LineStep(s, env, line);
            r.session.history == s.history + [StripNewline(line)] &&
            r.session.rc == Command(s, env, Tokenize(line).value).code &&
            (r.session.rc == EXIT_SUCCESS || r.session.rc == EXIT_FAILURE)
  {
    CommandCodes(s, env, Tokenize(line).value);
  }

  /** A pipeline never stops the shell and never changes anything but the
      status and the history, even when a stage is `exit`. */
  lemma PipelineLine(s: Session, env: Env, line: string)
    requires StepDefined(s, env, line)
    requires Tokenize(line).Some? && "|" in Tokenize(line).value
    ensures var r := LineStep(s, env, line);
            !r.stop &&
            r.session == s.(rc := Pipeline(s, env, Tokenize(line).value).code,
                            history := s.history + [StripNewline(line)])
  {
    PipelineResult(s, env, Tokenize(line).value);
  }

  /** Alias values stay well formed from one turn to the next, so expanding
      one never meets an unclosed quote. */
  lemma LineStepKeepsAliasesWellFormed(s: Session, env: Env, line: string)
    requires StepDefined(s, env, line) && AliasesWellFormed(s.aliases)
    ensures AliasesWellFormed(LineStep(s, env, line).session.aliases)
  {
    if Tokenize(line).Some? && Tokenize(line).value != [] {
      var argv := Tokenize(line).value;
      TokenizeWellFormed(line);
      CommandKeepsAliasesWellFormed(s, env, argv);
    }
  }

  lemma CommandKeepsAliasesWellFormed(s: Session, env: Env, argv: seq<string>)
    requires CommandDefined(s, env, argv) && AliasesWellFormed(s.aliases)
    requires forall t :: t in argv ==> WellFormedToken(t)
    ensures AliasesWellFormed(Command(s, env, argv).session.aliases)
  {
    if argv != [] && "|" !in argv {
      var use := Expanded(s.aliases, argv);
      ExpansionWellFormed(s.aliases, argv);
      if use != [] && IsBuiltinName(use[0]) {
        DispatchKeepsAliasesWellFormed(s, env, use);
      }
    }
  }

  // ---------------------------------------------------------------------
  // The read loop

  /** The turns the loop reaches are defined. */
  predicate ScriptDefined(s: Session, env: Env, lines: seq<string>)
    decreases |lines|
  {
    lines == [] ||
    (StepDefined(s, env, lines[0]) &&
     (!LineStep(s, env, lines[0]).stop ==> ScriptDefined(LineStep(s, env, lines[0]).session, env, lines[1..])))
  }

  /** batch_main (and interactive_main, whose rc main returns): turns until
      a bare `exit` or the end of the input; the result is the status then. */
  function Script(s: Session, env: Env, lines: seq<string>): (rc: int)
    requires ScriptDefined(s, env, lines)
    ensures rc == s.rc || rc == EXIT_SUCCESS || rc == EXIT_FAILURE
    decreases |lines|
  {
    if lines == [] then s.rc
    else
      var r := LineStep(s, env, lines[0]);
      if r.stop then r.session.rc else Script(r.session, env, lines[1..])
  }

  /** Starting from a success or failure status, the shell ends with a
      success or failure status: the stop request itself is never the
      result. */
  lemma {:induction false} ScriptStatus(s: Session, env: Env, lines: seq<string>)
    requires ScriptDefined(s, env, lines)
    requires s.rc == EXIT_SUCCESS || s.rc == EXIT_FAILURE
    ensures Script(s, env, lines) == EXIT_SUCCESS || Script(s, env, lines) == EXIT_FAILURE
    decreases |lines|
  {
    if lines != [] {
      var line := lines[0];
      var r := LineStep(s, env, line);
      LineStepEffects(s, env, line);
      if !r.stop && Tokenize(line).Some? && Tokenize(line).value != [] {
        LineStepRecords(s, env, line);
      }
      if !r.stop {
        ScriptStatus(r.session, env, lines[1..]);
      }
    }
  }

  /** `exit` returns the status of the command before it, not a status of
      its own: a script whose failing line is followed by `exit` fails. */
  lemma ExitKeepsStatus(s: Session, env: Env, lines: seq<string>)
    requires ScriptDefined(s, env, lines) && lines != []
    requires Tokenize(lines[0]) == Some(["exit"]) && "exit" !in s.aliases
    ensures Script(s, env, lines) == s.rc
  {
    var argv := ["exit"];
    assert "|" !in argv;
    assert Expanded(s.aliases, argv) == argv;
    LineStepEffects(s, env, lines[0]);
  }

  /** An unclosed quote is a failure the status remembers: the script
      `echo 'oops` then `exit` ends with status 1. */
  lemma UnclosedQuoteThenExit(s: Session, env: Env)
    requires "exit" !in s.aliases
    ensures ScriptDefined(s, env, ["echo 'oops\n", "exit\n"])
    ensures Script(s, env, ["echo 'oops\n", "exit\n"]) == EXIT_FAILURE
  {
    ExampleUnclosed();
    SingleWordLine("exit");
    assert "exit" + "\n" == "exit\n";
    assert Tokenize("exit\n") == Some(["exit"]);
    var s1 := s.(rc := EXIT_FAILURE);
    assert LineStep(s, env, "echo 'oops\n") == StepResult(s1, false, [MissingClosingQuote]);
    var rest := ["echo 'oops\n", "exit\n"][1..];
    assert rest == ["exit\n"];
    ExitKeepsStatus(s1, env, rest);
  }

  // ---------------------------------------------------------------------
  // The shell's globals

  class Wsh {
    var rc: int
    var aliases: map<string, string>
    var history: DynamicArray
    var path: string
    var cwd: string
    ghost var Repr: set<object>

    ghost predicate Valid()
      reads this, Repr
    {
      this in Repr && history in Repr && history.Repr <= Repr && this !in history.Repr &&
      history.Valid() && history.capacity > 0 &&
      AliasesWellFormed(aliases)
    }

    /** The globals as a session. */
    function State(): Session
      reads this, Repr
      requires Valid()
    {
      Session(rc, aliases, history.Elements(), path, cwd)
    }

    /** main's setup: status success, no aliases, a history with room for
        16 lines, and PATH set to /bin. */
    constructor (startDir: string)
      ensures Valid() && fresh(Repr)
      ensures State() == Session(EXIT_SUCCESS, map[], [], "/bin", startDir)
      ensures history.capacity == 16
    {
      rc := EXIT_SUCCESS;
      aliases := map[];
      history := new DynamicArray(16);
      path := "/bin";
      cwd := startDir;
      new;
      Repr := {this} + history.Repr;
    }

    /** history_add_raw_line: the line without its trailing newline is
        appended to the history. */
    method AddHistory(line: string)
      requires Valid()
      modifies Repr
      ensures Valid() && fresh(Repr - old(Repr))
      ensures State() == old(State()).(history := old(State()).history + [StripNewline(line)])
    {
      var text := line;
      if |text| > 0 && text[|text| - 1] == '\n' {
        text := text[..|text| - 1];
      }
      history.Put(text);
      Repr := Repr + history.Repr;
    }

    /** run_command: the pipe scan, then a pipeline, a builtin in the shell
        (whose new aliases, PATH and directory are kept) or a child. */
    method RunCommand(env: Env, argv: seq<string>) returns (code: int, out: seq<Msg>)
      requires Valid() && CommandDefined(State(), env, argv)
      requires forall t :: t in argv ==> WellFormedToken(t)
      modifies this
      ensures Valid() && Repr == old(Repr) && history == old(history)
      ensures State() == Command(old(State()), env, argv).session
      ensures code == Command(old(State()), env, argv).code && out == Command(old(State()), env, argv).out
    {
      if |argv| == 0 {
        return EXIT_SUCCESS, [];
      }
      var hasPipe := false;
      var i := 0;
      while i < |argv| && !hasPipe
        invariant 0 <= i <= |argv|
        invariant !hasPipe ==> forall j :: 0 <= j < i ==> argv[j] != "|"
        invariant hasPipe ==> "|" in argv
      {
        if argv[i] == "|" {
          hasPipe := true;
        }
        i := i + 1;
      }
      var s := State();
      if hasPipe {
        var r := RunPipeline(s, env, argv);
        return r.code, r.out;
      }
      var expanded := ExpandLeadingAlias(aliases, argv);
      var use := if expanded.Some? then expanded.value else argv;
      if |use| > 0 && IsBuiltinName(use[0]) {
        var o := Dispatch(s, env, use);
        DispatchCodes(s, env, use);
        CommandKeepsAliasesWellFormed(s, env, argv);
        aliases := o.session.aliases;
        path := o.session.path;
        cwd := o.session.cwd;
        return o.code, o.out;
      }
      code, out := ExecuteOne(s, env, use);
    }

    /** One turn of the read loop on `line`; `stop` is the exit request. */
    method HandleLine(env: Env, line: string) returns (stop: bool, out: seq<Msg>)
      requires Valid() && StepDefined(State(), env, line)
      modifies Repr
      ensures Valid() && fresh(Repr - old(Repr))
      ensures State() == LineStep(old(State()), env, line).session
      ensures stop == LineStep(old(State()), env, line).stop && out == LineStep(old(State()), env, line).out
    {
      var parsed := ParseLine(line);
      if parsed.None? {
        rc := EXIT_FAILURE;
        return false, [MissingClosingQuote];
      }
      var argv := parsed.value;
      if |argv| == 0 {
        return false, [];
      }
      TokenizeWellFormed(line);
      var code;
      code, out := RunCommand(env, argv);
      if code == RC_EXIT_REQUEST {
        return true, out;
      }
      rc := code;
      AddHistory(line);
      stop := false;
    }

    /** batch_main's loop over the lines of a script: turns until `exit`
        or the last line; the result is the status then. */
    method RunScript(env: Env, lines: seq<string>) returns (status: int)
      requires Valid() && ScriptDefined(State(), env, lines)
      modifies Repr
      ensures Valid() && fresh(Repr - old(Repr))
      ensures status == Script(old(State()), env, lines)
    {
      var i := 0;
      while i < |lines|
        invariant 0 <= i <= |lines|
        invariant Valid() && fresh(Repr - old(Repr))
        invariant ScriptDefined(State(), env, lines[i..])
        invariant Script(old(State()), env, lines) == Script(State(), env, lines[i..])
      {
        assert lines[i..][0] == lines[i] && lines[i..][1..] == lines[i + 1..];
        var stop, _ := HandleLine(env, lines[i]);
        if stop {
          return rc;
        }
        i := i + 1;
      }
      return rc;
    }
  }
}
