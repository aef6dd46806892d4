/**
 * The seven builtins as decisions over the session: each takes the whole
 * argument vector (argv[0] is the builtin's name) and gives its status
 * code, the session afterwards and what it prints. The parent shell keeps
 * the new session; a pipeline child keeps only the code.
 */
module Builtins {
  import opened Types
  import opened Tokenizer
  import opened Commands

  /** builtin_exit: only a bare `exit` asks the shell to stop. */
  function Exit(s: Session, argv: seq<string>): (o: Outcome)
    ensures o.session == s
    ensures o.code == RC_EXIT_REQUEST <==> |argv| == 1
    ensures o.code != RC_EXIT_REQUEST ==> o.code == EXIT_FAILURE && o.out == [InvalidExitUse]
  {
    if |argv| != 1 then Outcome(EXIT_FAILURE, s, [InvalidExitUse])
    else Outcome(RC_EXIT_REQUEST, s, [])
  }

  /** builtin_path: `path` prints PATH, `path DIRS` replaces it. */
  function Path(s: Session, argv: seq<string>): (o: Outcome)
    ensures o.session == s.(path := o.session.path)
    ensures o.code == EXIT_SUCCESS <==> 1 <= |argv| <= 2
    ensures o.code != EXIT_SUCCESS ==> o.code == EXIT_FAILURE && o.session == s
    ensures |argv| == 1 ==> o.session == s && o.out == [PathValue(s.path)]
    ensures |argv| == 2 ==> o.session.path == argv[1]
  {
    if |argv| == 1 then Outcome(EXIT_SUCCESS, s, [PathValue(s.path)])
    else if |argv| == 2 then Outcome(EXIT_SUCCESS, s.(path := argv[1]), [])
    else Outcome(EXIT_FAILURE, s, [InvalidPathUse])
  }

  /** builtin_cd: `cd` goes to HOME, `cd DIR` to DIR; the operating system
      decides whether the change succeeds and what the new directory is. */
  function Cd(s: Session, env: Env, argv: seq<string>): (o: Outcome)
    ensures o.session == s.(cwd := o.session.cwd)
    ensures o.code == EXIT_SUCCESS || o.code == EXIT_FAILURE
    ensures o.code == EXIT_FAILURE ==> o.session == s
    ensures |argv| == 2 ==> (o.code == EXIT_SUCCESS <==> env.chdir(s.cwd, argv[1]).Some?)
    ensures |argv| == 2 && o.code == EXIT_SUCCESS ==> env.chdir(s.cwd, argv[1]) == Some(o.session.cwd)
    ensures |argv| <= 1 && o.code == EXIT_SUCCESS ==>
              env.home.Some? && env.chdir(s.cwd, env.home.value) == Some(o.session.cwd)
    ensures |argv| > 2 ==> o.code == EXIT_FAILURE
  {
    if |argv| > 2 then Outcome(EXIT_FAILURE, s, [InvalidCdUse])
    else if |argv| <= 1 && env.home.None? then Outcome(EXIT_FAILURE, s, [CdNoHome])
    else
      var target := if |argv| <= 1 then env.home.value else argv[1];
      match env.chdir(s.cwd, target)
      case None => Outcome(EXIT_FAILURE, s, [CdFailed(target)])
      case Some(dir) => Outcome(EXIT_SUCCESS, s.(cwd := dir), [])
  }

  /** builtin_which: an alias, then a builtin, then a name given as a path,
      then the PATH search, in that order of priority. */
  function Which(s: Session, env: Env, argv: seq<string>): (o: Outcome)
    ensures o.session == s && o.out != []
    ensures o.code == EXIT_SUCCESS || o.code == EXIT_FAILURE
    ensures o.code == EXIT_SUCCESS <==>
              |argv| == 2 &&
              (argv[1] in s.aliases || IsBuiltinName(argv[1]) ||
               (IsAbsOrRel(argv[1]) && env.executable(argv[1])) ||
               (!IsAbsOrRel(argv[1]) && SearchPath(s.path, argv[1], env.executable).Found?))
  {
    if |argv| != 2 then Outcome(EXIT_FAILURE, s, [InvalidWhichUse])
    else
      var name := argv[1];
      if name in s.aliases then Outcome(EXIT_SUCCESS, s, [WhichAlias(name, s.aliases[name])])
      else if IsBuiltinName(name) then Outcome(EXIT_SUCCESS, s, [WhichBuiltin(name)])
      else if IsAbsOrRel(name) then
        if env.executable(name) then Outcome(EXIT_SUCCESS, s, [WhichExternal(name, name)])
        else Outcome(EXIT_FAILURE, s, [WhichNotFound(name)])
      else match SearchPath(s.path, name, env.executable)
        case NoSearchPath => Outcome(EXIT_FAILURE, s, [EmptyPath, WhichNotFound(name)])
        case NotFound => Outcome(EXIT_FAILURE, s, [WhichNotFound(name)])
        case Found(full) => Outcome(EXIT_SUCCESS, s, [WhichExternal(name, full)])
  }

  // ---------------------------------------------------------------------
  // The index argument of `history k`, read with strtol(…, 10)

  const LONG_MAX: int := 0x7FFF_FFFF_FFFF_FFFF
  const LONG_MIN: int := -0x8000_0000_0000_0000

  /** isspace in the C locale. */
  predicate IsSpace(c: char)
  {
    c == ' ' || c == '\t' || c == '\n' || c == '\U{000B}' || c == '\U{000C}' || c == '\r'
  }

  predicate IsDigit(c: char)
  {
    '0' <= c <= '9'
  }

  function SpaceRun(s: string, i: nat): (r: nat)
    requires i <= |s|
    ensures i <= r <= |s|
    ensures forall j :: i <= j < r ==> IsSpace(s[j])
    ensures r < |s| ==> !IsSpace(s[r])
    decreases |s| - i
  {
    if i == |s| || !IsSpace(s[i]) then i else SpaceRun(s, i + 1)
  }

  function DigitRun(s: string, i: nat): (r: nat)
    requires i <= |s|
    ensures i <= r <= |s|
    ensures forall j :: i <= j < r ==> IsDigit(s[j])
    ensures r < |s| ==> !IsDigit(s[r])
    decreases |s| - i
  {
    if i == |s| || !IsDigit(s[i]) then i else DigitRun(s, i + 1)
  }

  /** The number a string of decimal digits denotes. */
  function DigitsValue(d: string): (v: nat)
    requires forall j :: 0 <= j < |d| ==> IsDigit(d[j])
    ensures v < Pow10(|d|)
  {
    if d == [] then 0
    else
      assert IsDigit(d[|d| - 1]);
      DigitsValue(d[..|d| - 1]) * 10 + (d[|d| - 1] as int - '0' as int)
  }

  /** Ten to the power n: one more than the largest n-digit number. */
  function Pow10(n: nat): (p: nat)
    ensures p >= 1
  {
    if n == 0 then 1 else 10 * Pow10(n - 1)
  }

  /** The value strtol reports, saturated to the range of `long`. */
  function Saturate(v: int): (r: int)
    ensures LONG_MIN <= r <= LONG_MAX
    ensures LONG_MIN <= v <= LONG_MAX ==> r == v
    ensures v > LONG_MAX ==> r == LONG_MAX
    ensures v < LONG_MIN ==> r == LONG_MIN
  {
    if v > LONG_MAX then LONG_MAX else if v < LONG_MIN then LONG_MIN else v
  }

  /** What strtol yields: the value and the position where the end pointer
      stops (0 when no digits were read). */
  datatype Converted = Converted(value: int, end: nat)

  function StrToL(s: string): (c: Converted)
    ensures LONG_MIN <= c.value <= LONG_MAX && c.end <= |s|
    ensures c.end == 0 ==> c.value == 0
    ensures c.end > 0 ==> IsDigit(s[c.end - 1]) && (c.end == |s| || !IsDigit(s[c.end]))
  {
    var i := SpaceRun(s, 0);
    var j := if i < |s| && (s[i] == '+' || s[i] == '-') then i + 1 else i;
    var e := DigitRun(s, j);
    if e == j then Converted(0, 0)
    else
      var v: int := DigitsValue(s[j..e]);
      Converted(Saturate(if j > i && s[i] == '-' then -v else v), e)
  }

  /** The index `history` accepts: a non-empty argument strtol reads to its
      end, with a value of at least 1. */
  function HistoryIndex(arg: string): (k: Option<int>)
    ensures k.Some? ==> arg != "" && 1 <= k.value <= LONG_MAX && IsDigit(arg[|arg| - 1])
  {
    var c := StrToL(arg);
    if arg == "" || c.end != |arg| || c.value < 1 then None else Some(c.value)
  }

  /** builtin_history: every entry, or entry k counted from 1. */
  function History(s: Session, argv: seq<string>): (o: Outcome)
    ensures o.session == s
    ensures o.code == EXIT_SUCCESS || o.code == EXIT_FAILURE
    ensures |argv| == 1 ==>
              o.code == EXIT_SUCCESS && |o.out| == |s.history| &&
              forall i :: 0 <= i < |s.history| ==> o.out[i] == HistoryLine(s.history[i])
    ensures |argv| == 2 && o.code == EXIT_SUCCESS ==>
              HistoryIndex(argv[1]).Some? && HistoryIndex(argv[1]).value <= |s.history| &&
              o.out == [HistoryLine(s.history[HistoryIndex(argv[1]).value - 1])]
    ensures |argv| != 1 && |argv| != 2 ==> o.code == EXIT_FAILURE
  {
    if |argv| == 1 then
      Outcome(EXIT_SUCCESS, s, seq(|s.history|, i requires 0 <= i < |s.history| => HistoryLine(s.history[i])))
    else if |argv| == 2 then
      match HistoryIndex(argv[1])
      case None => Outcome(EXIT_FAILURE, s, [HistoryInvalidArg])
      case Some(k) =>
        if |s.history| < k then Outcome(EXIT_FAILURE, s, [HistoryInvalidArg])
        else Outcome(EXIT_SUCCESS, s, [HistoryLine(s.history[k - 1])])
    else Outcome(EXIT_FAILURE, s, [InvalidHistoryUse])
  }

  /** builtin_alias: `alias` lists the table; `alias NAME =` and
      `alias NAME = VALUE` define a non-empty name; anything else, such as
      a value of several words, is a usage error. */
  function Alias(s: Session, argv: seq<string>): (o: Outcome)
    ensures o.session == s.(aliases := o.session.aliases)
    ensures o.code == EXIT_SUCCESS <==> |argv| == 1 || ((|argv| == 3 || |argv| == 4) && argv[2] == "=" && argv[1] != "")
    ensures o.code != EXIT_SUCCESS ==> o.code == EXIT_FAILURE && o.session == s && o.out == [InvalidAliasUse]
    ensures |argv| > 1 && o.code == EXIT_SUCCESS ==>
              argv[1] in o.session.aliases && o.session.aliases[argv[1]] == (if |argv| == 3 then "" else argv[3])
    ensures forall n :: n in o.session.aliases && (|argv| < 2 || n != argv[1]) ==> n in s.aliases && o.session.aliases[n] == s.aliases[n]
    ensures forall n :: n in s.aliases ==> n in o.session.aliases
  {
    if |argv| == 1 then Outcome(EXIT_SUCCESS, s, [AliasTable])
    else if |argv| != 3 && |argv| != 4 then Outcome(EXIT_FAILURE, s, [InvalidAliasUse])
    else if argv[2] != "=" then Outcome(EXIT_FAILURE, s, [InvalidAliasUse])
    else if argv[1] == "" then Outcome(EXIT_FAILURE, s, [InvalidAliasUse])
    else
      var value := if |argv| == 3 then "" else argv[3];
      Outcome(EXIT_SUCCESS, s.(aliases := s.aliases[argv[1] := value]), [])
  }

  /** builtin_unalias: removes one non-empty name; an absent name is fine. */
  function Unalias(s: Session, argv: seq<string>): (o: Outcome)
    ensures o.session == s.(aliases := o.session.aliases)
    ensures o.code == EXIT_SUCCESS <==> |argv| == 2 && argv[1] != ""
    ensures o.code != EXIT_SUCCESS ==> o.code == EXIT_FAILURE && o.session == s
    ensures o.code == EXIT_SUCCESS ==> argv[1] !in o.session.aliases
    ensures forall n :: n in s.aliases && (|argv| < 2 || n != argv[1]) ==> n in o.session.aliases && o.session.aliases[n] == s.aliases[n]
    ensures forall n :: n in o.session.aliases ==> n in s.aliases
  {
    if |argv| != 2 || argv[1] == "" then Outcome(EXIT_FAILURE, s, [InvalidUnaliasUse])
    else Outcome(EXIT_SUCCESS, s.(aliases := s.aliases - {argv[1]}), [])
  }

  /** The dispatch on the builtin's name shared by run_command and the
      pipeline children. */
  function Dispatch(s: Session, env: Env, argv: seq<string>): (o: Outcome)
    requires argv != [] && IsBuiltinName(argv[0])
    ensures o.code in {EXIT_SUCCESS, EXIT_FAILURE, RC_EXIT_REQUEST}
    ensures o.session.rc == s.rc && o.session.history == s.history
    ensures argv[0] != "alias" && argv[0] != "unalias" ==> o.session.aliases == s.aliases
    ensures argv[0] != "path" ==> o.session.path == s.path
    ensures argv[0] != "cd" ==> o.session.cwd == s.cwd
  {
    match argv[0]
    case "exit" => Exit(s, argv)
    case "path" => Path(s, argv)
    case "cd" => Cd(s, env, argv)
    case "which" => Which(s, env, argv)
    case "history" => History(s, argv)
    case "alias" => Alias(s, argv)
    case _ => Unalias(s, argv)
  }

  // ---------------------------------------------------------------------
  // Properties

  /** Only a bare `exit` asks to stop; every other builtin call ends with
      success or failure. Builtins never touch the status or the history. */
  lemma DispatchCodes(s: Session, env: Env, argv: seq<string>)
    requires argv != [] && IsBuiltinName(argv[0])
    ensures Dispatch(s, env, argv).code == RC_EXIT_REQUEST <==> argv == ["exit"]
    ensures Dispatch(s, env, argv).code in {EXIT_SUCCESS, EXIT_FAILURE, RC_EXIT_REQUEST}
    ensures Dispatch(s, env, argv).session.rc == s.rc
    ensures Dispatch(s, env, argv).session.history == s.history
  {
    if argv == ["exit"] {
      assert Dispatch(s, env, argv) == Exit(s, argv);
    }
  }

  /** A builtin leaves the session alone whenever it fails. */
  lemma FailureKeepsSession(s: Session, env: Env, argv: seq<string>)
    requires argv != [] && IsBuiltinName(argv[0])
    requires Dispatch(s, env, argv).code != EXIT_SUCCESS
    ensures Dispatch(s, env, argv).session == s
  {
  }

  /** An alias defined with `alias NAME = VALUE` is what `which NAME` then
      reports, before any builtin or program of that name. */
  lemma AliasThenWhich(s: Session, env: Env, name: string, value: string)
    requires name != ""
    ensures var o := Alias(s, ["alias", name, "=", value]);
            o.code == EXIT_SUCCESS &&
            Which(o.session, env, ["which", name]) == Outcome(EXIT_SUCCESS, o.session, [WhichAlias(name, value)])
  {
  }

  /** `alias NAME =` defines NAME as the empty value. */
  lemma AliasWithoutValue(s: Session, name: string)
    requires name != ""
    ensures Alias(s, ["alias", name, "="]).session.aliases == s.aliases[name := ""]
  {
  }

  /** A value of several words is rejected and nothing is defined. */
  lemma AliasRejectsSeveralWords(s: Session, name: string, ws: seq<string>)
    requires |ws| >= 2
    ensures Alias(s, ["alias", name, "="] + ws) == Outcome(EXIT_FAILURE, s, [InvalidAliasUse])
  {
    assert |["alias", name, "="] + ws| == 3 + |ws|;
  }

  /** Unaliasing a name just defined gives back the table as it was. */
  lemma AliasThenUnalias(s: Session, name: string, value: string)
    requires name != "" && name !in s.aliases
    ensures var o := Alias(s, ["alias", name, "=", value]);
            Unalias(o.session, ["unalias", name]) == Outcome(EXIT_SUCCESS, s, [])
  {
    var o := Alias(s, ["alias", name, "=", value]);
    assert o.session.aliases - {name} == s.aliases;
  }

  /** After `unalias NAME`, `which NAME` no longer reports an alias; an
      absent name is removed without complaint. */
  lemma UnaliasThenWhich(s: Session, env: Env, name: string)
    requires name != ""
    ensures var o := Unalias(s, ["unalias", name]);
            o.code == EXIT_SUCCESS &&
            (name !in s.aliases ==> o.session == s) &&
            forall v :: WhichAlias(name, v) !in Which(o.session, env, ["which", name]).out
  {
    var o := Unalias(s, ["unalias", name]);
    if name !in s.aliases {
      assert s.aliases - {name} == s.aliases;
    }
  }

  /** `which` puts a builtin name before the PATH search. */
  lemma WhichBuiltinFirst(s: Session, env: Env, name: string)
    requires IsBuiltinName(name) && name !in s.aliases
    ensures Which(s, env, ["which", name]) == Outcome(EXIT_SUCCESS, s, [WhichBuiltin(name)])
  {
  }

  /** `which` with an empty PATH reports the empty PATH and fails for any
      name that is neither an alias, nor a builtin, nor a path. */
  lemma WhichEmptyPath(s: Session, env: Env, name: string)
    requires s.path == "" && name !in s.aliases && !IsBuiltinName(name) && !IsAbsOrRel(name)
    ensures Which(s, env, ["which", name]) == Outcome(EXIT_FAILURE, s, [EmptyPath, WhichNotFound(name)])
  {
  }

  /** `path DIRS` followed by `path` prints DIRS. */
  lemma PathThenPrint(s: Session, dirs: string)
    ensures var o := Path(s, ["path", dirs]);
            o.code == EXIT_SUCCESS && Path(o.session, ["path"]).out == [PathValue(dirs)]
  {
  }

  /** `cd` with no argument goes to HOME and fails without one. */
  lemma CdHome(s: Session, env: Env)
    ensures env.home.None? ==> Cd(s, env, ["cd"]) == Outcome(EXIT_FAILURE, s, [CdNoHome])
    ensures env.home.Some? && env.chdir(s.cwd, env.home.value).Some? ==>
              Cd(s, env, ["cd"]) == Outcome(EXIT_SUCCESS, s.(cwd := env.chdir(s.cwd, env.home.value).value), [])
  {
  }

  // ---------------------------------------------------------------------
  // Reading back a history index

  /** The decimal numeral of `k`, as `history` is meant to be given it. */
  function Decimal(k: nat): (r: string)
    ensures r != [] && forall j :: 0 <= j < |r| ==> IsDigit(r[j])
  {
    var d := [('0' as int + k % 10) as char];
    if k < 10 then d else Decimal(k / 10) + d
  }

  lemma {:induction false} DecimalValue(k: nat)
    ensures DigitsValue(Decimal(k)) == k
  {
    if k >= 10 {
      DecimalValue(k / 10);
      var r := Decimal(k);
      assert r[..|r| - 1] == Decimal(k / 10);
    }
  }

  /** strtol reads back a numeral to its end. */
  lemma StrToLDecimal(k: nat)
    requires k <= LONG_MAX
    ensures StrToL(Decimal(k)) == Converted(k, |Decimal(k)|)
  {
    var r := Decimal(k);
    assert !IsSpace(r[0]) && r[0] != '+' && r[0] != '-';
    assert SpaceRun(r, 0) == 0;
    assert DigitRun(r, 0) == |r| by {
      DigitRunAll(r, 0);
    }
    assert r[0..|r|] == r;
    DecimalValue(k);
  }

  lemma {:induction false} DigitRunAll(s: string, i: nat)
    requires i <= |s|
    requires forall j :: i <= j < |s| ==> IsDigit(s[j])
    ensures DigitRun(s, i) == |s|
    decreases |s| - i
  {
    if i < |s| {
      DigitRunAll(s, i + 1);
    }
  }

  /** `history k` prints entry k (counting from 1) for every k up to the
      number of entries. */
  lemma HistoryRecall(s: Session, k: nat)
    requires 1 <= k <= |s.history| && k <= LONG_MAX
    ensures History(s, ["history", Decimal(k)]) == Outcome(EXIT_SUCCESS, s, [HistoryLine(s.history[k - 1])])
  {
    StrToLDecimal(k);
  }

  /** Past the last entry, `history k` fails and prints only the error. */
  lemma HistoryPastEnd(s: Session, k: nat)
    requires |s.history| < k <= LONG_MAX
    ensures History(s, ["history", Decimal(k)]) == Outcome(EXIT_FAILURE, s, [HistoryInvalidArg])
  {
    StrToLDecimal(k);
  }

  /** A minus sign before the digits never gives a positive value. */
  lemma StrToLMinus(s: string)
    ensures var i := SpaceRun(s, 0); i < |s| && s[i] == '-' ==> StrToL(s).value <= 0
  {
    var i := SpaceRun(s, 0);
    if i < |s| && s[i] == '-' {
      var e := DigitRun(s, i + 1);
      if e != i + 1 {
        var v: int := DigitsValue(s[i + 1..e]);
        assert StrToL(s).value == Saturate(-v);
      }
    }
  }

  /** What an accepted index argument looks like: blanks, an optional plus
      sign, then digits up to the end, whose value is the index (saturated
      at the largest `long`). A minus sign, a trailing non-digit or an
      argument without digits is refused. */
  lemma HistoryIndexShape(arg: string)
    requires HistoryIndex(arg).Some?
    ensures exists p :: 0 <= p < |arg| &&
              (forall j :: 0 <= j < p ==> IsSpace(arg[j]) || (j == p - 1 && arg[j] == '+')) &&
              (forall j :: p <= j < |arg| ==> IsDigit(arg[j])) &&
              HistoryIndex(arg).value == Saturate(DigitsValue(arg[p..]))
  {
    var i := SpaceRun(arg, 0);
    var j := if i < |arg| && (arg[i] == '+' || arg[i] == '-') then i + 1 else i;
    var e := DigitRun(arg, j);
    var c := StrToL(arg);
    assert arg != "" && c.end == |arg|;
    assert e != j;
    assert e == |arg|;
    SliceToEnd(arg, j, e);
    StrToLMinus(arg);
    assert c.value == Saturate(DigitsValue(arg[j..])) by {
      assert j > i ==> arg[i] == '+';
    }
  }

  lemma SliceToEnd(s: string, j: nat, e: nat)
    requires j <= e == |s|
    ensures s[j..e] == s[j..]
  {
  }

  lemma HistoryIndexExamples()
    ensures HistoryIndex("") == None
    ensures HistoryIndex("0") == None
    ensures HistoryIndex("-1") == None
    ensures HistoryIndex("2x") == None
    ensures HistoryIndex("+2") == Some(2)
    ensures HistoryIndex(" 2") == Some(2)
  {
    assert DigitRun("0", 0) == 1;
    assert "0"[0..1] == "0";
    assert DigitRun("-1", 1) == 2;
    assert "-1"[1..2] == "1";
    assert DigitRun("2x", 0) == 1;
    assert DigitRun("+2", 1) == 2;
    assert "+2"[1..2] == "2";
    assert SpaceRun(" 2", 0) == 1;
    assert DigitRun(" 2", 1) == 2;
    assert " 2"[1..2] == "2";
  }

  // ---------------------------------------------------------------------
  // Alias values stay well-formed tokens

  predicate AliasesWellFormed(aliases: map<string, string>)
  {
    forall v :: v in aliases.Values ==> WellFormedToken(v)
  }

  /** A builtin given well-formed tokens stores only well-formed alias
      values, so later expansions never meet an unclosed quote. */
  lemma DispatchKeepsAliasesWellFormed(s: Session, env: Env, argv: seq<string>)
    requires argv != [] && IsBuiltinName(argv[0])
    requires AliasesWellFormed(s.aliases)
    requires forall i :: 0 <= i < |argv| ==> WellFormedToken(argv[i])
    ensures AliasesWellFormed(Dispatch(s, env, argv).session.aliases)
  {
    var o := Dispatch(s, env, argv);
    if argv[0] == "alias" && o.code == EXIT_SUCCESS && |argv| > 1 {
      var value := if |argv| == 3 then "" else argv[3];
      assert o.session.aliases == s.aliases[argv[1] := value];
      forall v | v in o.session.aliases.Values ensures WellFormedToken(v) {
        var n :| n in o.session.aliases && o.session.aliases[n] == v;
        if n != argv[1] {
          assert s.aliases[n] in s.aliases.Values;
        }
      }
    } else if argv[0] == "unalias" && o.code == EXIT_SUCCESS {
      forall v | v in o.session.aliases.Values ensures WellFormedToken(v) {
        var n :| n in o.session.aliases && o.session.aliases[n] == v;
        assert s.aliases[n] in s.aliases.Values;
      }
    }
  }
}
