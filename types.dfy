/**
 * Values shared by the whole shell model: the option type, the status
 * constants of the interpreter, the messages it prints (as tags), the
 * outside world it consults, and the session state it carries from one
 * input line to the next.
 */
module Types {

  datatype Option<+T> = None | Some(value: T)

  /** The process-wide status values (EXIT_SUCCESS, EXIT_FAILURE and the
      internal request to leave the read loop). */
  const EXIT_SUCCESS: int := 0
  const EXIT_FAILURE: int := 1
  const RC_EXIT_REQUEST: int := 2

  /** Size of every argument vector, from the shell's header; the header is
      not part of this model and the value 128 is assumed. */
  const MAX_ARGS: nat := 128

  /** Most stages a pipeline may have (the arrays of run_pipeline). */
  const MAX_STAGES: nat := 128

  /** What the shell prints, one tag per message of its header. */
  datatype Msg =
    | MissingClosingQuote
    | EmptyPath
    | CmdNotFound(name: string)
    | EmptyPipeSegment
    | InvalidExitUse
    | InvalidPathUse
    | PathValue(path: string)
    | InvalidCdUse
    | CdNoHome
    | CdFailed(target: string)
    | InvalidWhichUse
    | WhichAlias(name: string, value: string)
    | WhichBuiltin(name: string)
    | WhichExternal(name: string, location: string)
    | WhichNotFound(name: string)
    | HistoryLine(line: string)
    | HistoryInvalidArg
    | InvalidHistoryUse
    | AliasTable
    | InvalidAliasUse
    | InvalidUnaliasUse

  /** What waitpid reports for a child: a normal exit with its code, death
      by a signal, or a failure of waitpid itself. */
  datatype WaitResult = Exited(code: int) | Signaled | WaitError

  /** The parts of the operating system the shell consults but does not own:
      access(X_OK), chdir (from a working directory to a target, giving the
      new working directory or failing), the HOME variable, and what an
      external program reports when run with a path and an argument list. */
  datatype Env = Env(
    executable: string -> bool,
    chdir: (string, string) -> Option<string>,
    home: Option<string>,
    run: (string, seq<string>) -> WaitResult)

  /** The shell's global state: the last status, the alias table, the
      history log (oldest first), the PATH variable and the working
      directory. */
  datatype Session = Session(
    rc: int,
    aliases: map<string, string>,
    history: seq<string>,
    path: string,
    cwd: string)

  /** What running one command does: its status code, the session afterwards
      and the messages printed by the shell itself. */
  datatype Outcome = Outcome(code: int, session: Session, out: seq<Msg>)

  function Take<T>(s: seq<T>, n: nat): (r: seq<T>)
    ensures |r| == if |s| <= n then |s| else n
    ensures r == s[..|r|]
  {
    if |s| <= n then s else s[..n]
  }

  /** `s` ends with `b`, which starts at offset `d` of `s`. */
  predicate EndsWith<T(==)>(s: seq<T>, d: nat, b: seq<T>)
  {
    |s| == d + |b| && forall j :: 0 <= j < |b| ==> s[d + j] == b[j]
  }

  lemma EndsWithAppend<T>(a: seq<T>, b: seq<T>)
    ensures EndsWith(a + b, |a|, b)
  {
  }

  lemma SliceAt<T>(s: seq<T>, d: nat, b: seq<T>, i: nat, j: nat)
    requires EndsWith(s, d, b) && i <= j <= |b|
    ensures s[d + i..d + j] == b[i..j]
  {
    forall k | 0 <= k < j - i
      ensures s[d + i..d + j][k] == b[i..j][k]
    {
      assert s[d + (i + k)] == b[i + k];
    }
  }
}
