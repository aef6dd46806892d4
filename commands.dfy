/**
 * How the shell classifies and resolves a command name: the builtin names,
 * names given as a path, the search along PATH (find_in_path), and the
 * replacement of a leading alias (maybe_expand_leading_alias).
 */
module Commands {
  import opened Types
  import opened Tokenizer

  // ---------------------------------------------------------------------
  // Classification

  const BUILTINS: set<string> := {"exit", "path", "cd", "which", "history", "alias", "unalias"}

  /** is_builtin_name */
  predicate IsBuiltinName(name: string)
    ensures IsBuiltinName(name) ==> name != "" && name != "|" && name[0] != '/' && name[0] != '.'
  {
    name in BUILTINS
  }

  /** is_abs_or_rel: a name starting with '/' or '.' is used as a path as is. */
  predicate IsAbsOrRel(s: string)
    ensures IsAbsOrRel(s) ==> s !in BUILTINS && s != "|"
  {
    s != [] && (s[0] == '/' || s[0] == '.')
  }

  // ---------------------------------------------------------------------
  // PATH components (strtok_r on ':')

  /** The non-empty ':'-separated components of `path` from position `i`. */
  function ComponentsFrom(path: string, i: nat): (r: seq<string>)
    requires i <= |path|
    ensures |r| <= |path| - i
    decreases |path| - i
  {
    var k := FindFrom(path, i, ':');
    var rest := if k == |path| then [] else ComponentsFrom(path, k + 1);
    if k == i then rest else [path[i..k]] + rest
  }

  /** Every component is a non-empty directory name without ':'. */
  lemma {:induction false} ComponentsNonEmpty(path: string, i: nat)
    requires i <= |path|
    ensures forall c :: c in ComponentsFrom(path, i) ==> c != "" && ':' !in c
    decreases |path| - i
  {
    var k := FindFrom(path, i, ':');
    if k < |path| {
      ComponentsNonEmpty(path, k + 1);
    }
    if k > i {
      FindFromSkips(path, i, ':');
      assert ':' !in path[i..k];
    }
  }

  function Components(path: string): seq<string>
  {
    ComponentsFrom(path, 0)
  }

  /** Directories written out with ':' between them. */
  function JoinColon(ds: seq<string>): string
  {
    if ds == [] then ""
    else if |ds| == 1 then ds[0]
    else ds[0] + ":" + JoinColon(ds[1..])
  }

  /** The non-empty entries of `ds`, in order. */
  function NonEmpty(ds: seq<string>): seq<string>
  {
    if ds == [] then [] else (if ds[0] == "" then [] else [ds[0]]) + NonEmpty(ds[1..])
  }

  /** The components from a position depend only on the text from there on. */
  lemma ComponentsFromShift(a: string, b: string, i: nat)
    requires i <= |b|
    ensures ComponentsFrom(a + b, |a| + i) == ComponentsFrom(b, i)
  {
    EndsWithAppend(a, b);
    ComponentsFromAt(a + b, |a|, b, i);
  }

  /** The components of `s` from `d + i` are those of `b` from `i`. */
  predicate ComponentsAgree(s: string, d: nat, b: string, i: nat)
    requires |s| == d + |b| && i <= |b|
  {
    ComponentsFrom(s, d + i) == ComponentsFrom(b, i)
  }

  lemma {:induction false} ComponentsFromAt(s: string, d: nat, b: string, i: nat)
    requires EndsWith(s, d, b) && i <= |b|
    ensures ComponentsAgree(s, d, b, i)
    decreases |b| - i
  {
    var k := FindFrom(b, i, ':');
    if k < |b| {
      ComponentsFromAt(s, d, b, k + 1);
    }
    ComponentsStepAt(s, d, b, i, k);
  }

  lemma ComponentsStepAt(s: string, d: nat, b: string, i: nat, k: nat)
    requires EndsWith(s, d, b) && i <= |b| && k == FindFrom(b, i, ':')
    requires k < |b| ==> ComponentsAgree(s, d, b, k + 1)
    ensures ComponentsAgree(s, d, b, i)
  {
    var j, m := d + i, d + k;
    FindFromAt(s, d, b, i, ':');
    assert FindFrom(s, j, ':') == m;
    SliceAt(s, d, b, i, k);
    assert s[j..m] == b[i..k];
    if k < |b| {
      assert m + 1 == d + (k + 1);
      assert ComponentsFrom(s, m + 1) == ComponentsFrom(b, k + 1);
    }
    ComponentsAt(s, j, m, b, i, k);
  }

  /** One component of `b` from `i`, read at `j` of a text `s` with the same remainder. */
  lemma ComponentsAt(s: string, j: nat, m: nat, b: string, i: nat, k: nat)
    requires j <= |s| && i <= |b| && |s| - j == |b| - i
    requires m == FindFrom(s, j, ':') && k == FindFrom(b, i, ':')
    requires s[j..m] == b[i..k]
    requires k < |b| ==> ComponentsFrom(s, m + 1) == ComponentsFrom(b, k + 1)
    ensures ComponentsFrom(s, j) == ComponentsFrom(b, i)
  {
    calc {
      ComponentsFrom(s, j);
      == { ComponentsFromStep(s, j, m); }
      ComponentsHead(s, j, m) + ComponentsTail(s, m);
      == { HeadsAgree(s, j, m, b, i, k); TailsAgree(s, m, b, k); }
      ComponentsHead(b, i, k) + ComponentsTail(b, k);
      == { ComponentsFromStep(b, i, k); }
      ComponentsFrom(b, i);
    }
  }

  lemma HeadsAgree(s: string, j: nat, m: nat, b: string, i: nat, k: nat)
    requires j <= m <= |s| && i <= k <= |b| && s[j..m] == b[i..k]
    ensures ComponentsHead(s, j, m) == ComponentsHead(b, i, k)
  {
  }

  lemma TailsAgree(s: string, m: nat, b: string, k: nat)
    requires m <= |s| && k <= |b| && |s| - m == |b| - k
    requires k < |b| ==> ComponentsFrom(s, m + 1) == ComponentsFrom(b, k + 1)
    ensures ComponentsTail(s, m) == ComponentsTail(b, k)
  {
  }

  /** One step of the component walk, with `k` the next ':' (or the end). */
  lemma ComponentsFromStep(path: string, i: nat, k: nat)
    requires i <= |path| && k == FindFrom(path, i, ':')
    ensures ComponentsFrom(path, i) == ComponentsHead(path, i, k) + ComponentsTail(path, k)
  {
  }

  function ComponentsHead(path: string, i: nat, k: nat): seq<string>
    requires i <= k <= |path|
  {
    if k == i then [] else [path[i..k]]
  }

  function ComponentsTail(path: string, k: nat): seq<string>
    requires k <= |path|
  {
    if k == |path| then [] else ComponentsFrom(path, k + 1)
  }

  lemma ComponentsLast(d: string)
    requires ':' !in d
    ensures Components(d) == if d == "" then [] else [d]
  {
    assert FindFrom(d, 0, ':') == |d|;
    assert d[0..|d|] == d;
  }

  lemma ComponentsCons(d: string, x: string)
    requires ':' !in d
    ensures Components(d + ":" + x) == (if d == "" then [] else [d]) + Components(x)
  {
    var s := d + ":" + x;
    assert forall j :: 0 <= j < |d| ==> s[j] == d[j];
    assert s[|d|] == ':';
    FindFromIs(s, 0, |d|, ':');
    assert s[0..|d|] == d;
    assert s == (d + ":") + x;
    ComponentsFromShift(d + ":", x, 0);
  }

  /** strtok_r drops empty components: PATH written from directories that
      hold no ':' is searched through exactly its non-empty directories, so
      leading, trailing and doubled ':' are ignored. */
  lemma {:induction false} ComponentsOfJoin(ds: seq<string>)
    requires forall i :: 0 <= i < |ds| ==> ':' !in ds[i]
    ensures Components(JoinColon(ds)) == NonEmpty(ds)
  {
    if ds == [] {
      ComponentsLast("");
    } else if |ds| == 1 {
      ComponentsLast(ds[0]);
      assert NonEmpty(ds[1..]) == [];
    } else {
      ComponentsCons(ds[0], JoinColon(ds[1..]));
      ComponentsOfJoin(ds[1..]);
    }
  }

  lemma ExampleComponents()
    ensures Components("::/bin::/usr/bin:") == ["/bin", "/usr/bin"]
  {
    var ds := ["", "", "/bin", "", "/usr/bin", ""];
    ExampleJoin(ds);
    ComponentsOfJoin(ds);
    assert NonEmpty(ds[4..]) == ["/usr/bin"];
    assert NonEmpty(ds[2..]) == ["/bin", "/usr/bin"];
  }

  lemma ExampleJoin(ds: seq<string>)
    requires ds == ["", "", "/bin", "", "/usr/bin", ""]
    ensures JoinColon(ds) == "::/bin::/usr/bin:"
  {
    assert JoinColon(ds[5..]) == "";
    assert JoinColon(ds[4..]) == "/usr/bin:";
    assert JoinColon(ds[3..]) == ":/usr/bin:";
    assert JoinColon(ds[2..]) == "/bin::/usr/bin:";
    assert JoinColon(ds[1..]) == ":/bin::/usr/bin:";
  }

  // ---------------------------------------------------------------------
  // Searching PATH

  /** The first `dir/cmd` that is executable, trying the directories in
      order. */
  function FirstExecutable(dirs: seq<string>, cmd: string, executable: string -> bool): (r: Option<string>)
    ensures r.Some? ==> executable(r.value)
  {
    if dirs == [] then None
    else if executable(dirs[0] + "/" + cmd) then Some(dirs[0] + "/" + cmd)
    else FirstExecutable(dirs[1..], cmd, executable)
  }

  /** The search misses exactly when no directory gives an executable, and
      a hit is the first directory that does. */
  lemma {:induction false} FirstExecutableMeaning(dirs: seq<string>, cmd: string, executable: string -> bool)
    ensures FirstExecutable(dirs, cmd, executable).None? <==>
              forall i :: 0 <= i < |dirs| ==> !executable(dirs[i] + "/" + cmd)
    ensures FirstExecutable(dirs, cmd, executable).Some? ==>
              exists i :: 0 <= i < |dirs| && FirstExecutable(dirs, cmd, executable).value == dirs[i] + "/" + cmd &&
                executable(dirs[i] + "/" + cmd) &&
                forall j :: 0 <= j < i ==> !executable(dirs[j] + "/" + cmd)
  {
    if dirs != [] && !executable(dirs[0] + "/" + cmd) {
      var tail := dirs[1..];
      FirstExecutableMeaning(tail, cmd, executable);
      assert forall i :: 1 <= i < |dirs| ==> dirs[i] == tail[i - 1];
      var r := FirstExecutable(tail, cmd, executable);
      if r.Some? {
        var i :| 0 <= i < |tail| && r.value == tail[i] + "/" + cmd && executable(tail[i] + "/" + cmd) &&
                 forall j :: 0 <= j < i ==> !executable(tail[j] + "/" + cmd);
        assert forall j :: 0 <= j < i + 1 ==> !executable(dirs[j] + "/" + cmd) by {
          forall j | 0 <= j < i + 1 ensures !executable(dirs[j] + "/" + cmd) {
            if j > 0 {
              assert dirs[j] == tail[j - 1];
            }
          }
        }
        assert dirs[i + 1] == tail[i];
      }
    }
  }

  /** What find_in_path (with its caller's check of PATH) yields: a full
      path, nothing found, or an empty PATH. */
  datatype Lookup = Found(full: string) | NotFound | NoSearchPath

  function SearchPath(path: string, cmd: string, executable: string -> bool): (r: Lookup)
    ensures r.NoSearchPath? <==> path == ""
    ensures r.Found? ==> executable(r.full)
  {
    if path == "" then NoSearchPath
    else match FirstExecutable(Components(path), cmd, executable)
      case Some(full) => Found(full)
      case None => NotFound
  }

  /** The search finds `dir/cmd` exactly when `dir` is a non-empty
      component of PATH, `dir/cmd` is executable, and no earlier component
      gives an executable; an empty PATH is told apart from a miss. */
  lemma SearchPathMeaning(path: string, cmd: string, executable: string -> bool)
    ensures SearchPath(path, cmd, executable).NoSearchPath? <==> path == ""
    ensures SearchPath(path, cmd, executable).NotFound? <==>
              path != "" && forall d :: d in Components(path) ==> !executable(d + "/" + cmd)
    ensures SearchPath(path, cmd, executable).Found? ==>
              var ds := Components(path);
              exists i :: 0 <= i < |ds| && SearchPath(path, cmd, executable).full == ds[i] + "/" + cmd &&
                executable(ds[i] + "/" + cmd) && ds[i] != "" &&
                forall j :: 0 <= j < i ==> !executable(ds[j] + "/" + cmd)
  {
    var ds := Components(path);
    var r := FirstExecutable(ds, cmd, executable);
    FirstExecutableMeaning(ds, cmd, executable);
    ComponentsNonEmpty(path, 0);
    assert (forall d :: d in ds ==> !executable(d + "/" + cmd)) <==>
           (forall i :: 0 <= i < |ds| ==> !executable(ds[i] + "/" + cmd));
    if path != "" && r.Some? {
      var i :| 0 <= i < |ds| && r.value == ds[i] + "/" + cmd && executable(r.value) &&
               forall j :: 0 <= j < i ==> !executable(ds[j] + "/" + cmd);
      assert ds[i] in ds;
    }
  }

  lemma FirstExecutableCons(d: string, ds: seq<string>, cmd: string, executable: string -> bool)
    ensures FirstExecutable([d] + ds, cmd, executable) ==
              if executable(d + "/" + cmd) then Some(d + "/" + cmd) else FirstExecutable(ds, cmd, executable)
  {
    assert ([d] + ds)[1..] == ds;
  }

  /** The strtok_r loop of find_in_path: each non-empty component is tried
      in turn and the first executable `dir/cmd` is returned. */
  method FindInPath(path: string, cmd: string, executable: string -> bool) returns (r: Lookup)
    ensures r == SearchPath(path, cmd, executable)
  {
    if path == "" {
      return NoSearchPath;
    }
    var i := 0;
    while i < |path|
      invariant i <= |path|
      invariant FirstExecutable(Components(path), cmd, executable) ==
                FirstExecutable(ComponentsFrom(path, i), cmd, executable)
      decreases |path| - i
    {
      var k := FindFrom(path, i, ':');
      if k > i {
        var full := path[i..k] + "/" + cmd;
        if executable(full) {
          SearchHit(path, i, k, cmd, executable);
          return Found(full);
        }
      }
      var next := if k == |path| then |path| else k + 1;
      SearchMiss(path, i, k, next, cmd, executable);
      i := next;
    }
    return NotFound;
  }

  /** The component at `i` holds the program: the search stops there. */
  lemma SearchHit(path: string, i: nat, k: nat, cmd: string, executable: string -> bool)
    requires i < k <= |path| && k == FindFrom(path, i, ':') && executable(path[i..k] + "/" + cmd)
    ensures FirstExecutable(ComponentsFrom(path, i), cmd, executable) == Some(path[i..k] + "/" + cmd)
  {
    var rest := ComponentsTail(path, k);
    ComponentsFromStep(path, i, k);
    FirstExecutableCons(path[i..k], rest, cmd, executable);
  }

  /** The component at `i` is empty or lacks the program: the search goes on
      from the next component. */
  lemma SearchMiss(path: string, i: nat, k: nat, next: nat, cmd: string, executable: string -> bool)
    requires i < |path| && k == FindFrom(path, i, ':')
    requires next == if k == |path| then |path| else k + 1
    requires k > i ==> !executable(path[i..k] + "/" + cmd)
    ensures next <= |path|
    ensures FirstExecutable(ComponentsFrom(path, i), cmd, executable) ==
            FirstExecutable(ComponentsFrom(path, next), cmd, executable)
  {
    var head, rest := ComponentsHead(path, i, k), ComponentsTail(path, k);
    calc {
      FirstExecutable(ComponentsFrom(path, i), cmd, executable);
      == { ComponentsFromStep(path, i, k); }
      FirstExecutable(head + rest, cmd, executable);
      == { if k > i { FirstExecutableCons(path[i..k], rest, cmd, executable); } else { assert head + rest == rest; } }
      FirstExecutable(rest, cmd, executable);
      == { TailIsNext(path, k, next); }
      FirstExecutable(ComponentsFrom(path, next), cmd, executable);
    }
  }

  lemma TailIsNext(path: string, k: nat, next: nat)
    requires k <= |path| && next == if k == |path| then |path| else k + 1
    ensures ComponentsTail(path, k) == ComponentsFrom(path, next)
  {
  }

  lemma ExampleOnlyColons(cmd: string, executable: string -> bool)
    ensures SearchPath("::", cmd, executable) == NotFound
  {
    ComponentsOfJoin(["", "", ""]);
    assert JoinColon(["", "", ""]) == "::";
  }

  // ---------------------------------------------------------------------
  // Leading-alias expansion

  /** The tokens of an alias value; a value that does not tokenize gives
      none (the shell warns and goes on with the rest of the line). */
  function AliasTokens(value: string): (ts: seq<string>)
    ensures Tokenize(value).Some? ==> ts == Tokenize(value).value
    ensures Tokenize(value).None? ==> ts == []
    ensures |ts| <= |value| + 1
  {
    match Tokenize(value)
    case Some(ts) => ts
    case None => []
  }

  /** The command line after replacing a leading alias by the tokens of its
      value, cut to the MAX_ARGS - 1 entries of the argument vector; nothing
      when the first word is not an alias. */
  function Expansion(aliases: map<string, string>, argv: seq<string>): (r: Option<seq<string>>)
    ensures r.Some? <==> argv != [] && argv[0] in aliases
    ensures r.Some? ==> |r.value| < MAX_ARGS
    ensures r.Some? ==> var all := AliasTokens(aliases[argv[0]]) + argv[1..];
                        |r.value| == (if |all| < MAX_ARGS then |all| else MAX_ARGS - 1) &&
                        r.value == all[..|r.value|]
  {
    if argv == [] || argv[0] !in aliases then None
    else Some(Take(AliasTokens(aliases[argv[0]]) + argv[1..], MAX_ARGS - 1))
  }

  /** The command line actually run: the expansion when there is one. */
  function Expanded(aliases: map<string, string>, argv: seq<string>): (e: seq<string>)
    ensures argv == [] || argv[0] !in aliases ==> e == argv
    ensures argv != [] && argv[0] in aliases ==>
              var all := AliasTokens(aliases[argv[0]]) + argv[1..];
              |e| < MAX_ARGS && |e| <= |all| && e == all[..|e|]
  {
    match Expansion(aliases, argv)
    case Some(e) => e
    case None => argv
  }

  /** The value's tokens fit the temporary argument vector of the expansion
      (the source does not check this bound). */
  predicate ExpansionFits(aliases: map<string, string>, argv: seq<string>)
  {
    argv != [] && argv[0] in aliases ==> FitsArgv(aliases[argv[0]])
  }

  /** maybe_expand_leading_alias: the value is tokenized, then its tokens
      and the remaining words are copied while the vector has room. */
  method ExpandLeadingAlias(aliases: map<string, string>, argv: seq<string>) returns (r: Option<seq<string>>)
    requires ExpansionFits(aliases, argv)
    ensures r == Expansion(aliases, argv)
  {
    if |argv| == 0 || argv[0] !in aliases {
      return None;
    }
    var parsed := ParseLine(aliases[argv[0]]);
    var tmp: seq<string> := if parsed.Some? then parsed.value else [];
    assert tmp == AliasTokens(aliases[argv[0]]);
    var out := AppendWhileRoom([], tmp, 0);
    assert [] + tmp[0..] == tmp;
    out := AppendWhileRoom(out, argv, 1);
    TakeTwice(tmp, argv[1..], MAX_ARGS - 1);
    return Some(out);
  }

  /** The copy loops of maybe_expand_leading_alias: the words of `src` from
      `from` on are appended while the vector has room for them and for its
      terminating NULL. */
  method AppendWhileRoom(out: seq<string>, src: seq<string>, from: nat) returns (r: seq<string>)
    requires from <= |src| && |out| <= MAX_ARGS - 1
    ensures r == Take(out + src[from..], MAX_ARGS - 1)
  {
    r := out;
    var i := from;
    while i < |src| && |r| < MAX_ARGS - 1
      invariant from <= i <= |src| && |r| <= MAX_ARGS - 1
      invariant r == out + src[from..i]
    {
      r := r + [src[i]];
      i := i + 1;
    }
    assert out + src[from..] == r + src[i..];
  }

  /** Cutting twice to the same length is cutting once. */
  lemma TakeTwice(x: seq<string>, y: seq<string>, n: nat)
    ensures Take(Take(x, n) + y, n) == Take(x + y, n)
  {
    if |x| > n {
      assert (x[..n] + y)[..n] == x[..n];
      assert (x + y)[..n] == x[..n];
    }
  }

  /** Expansion is single-level: what other names are aliases for plays no
      part, so the first token of the value is never looked up again. */
  lemma ExpansionSingleLevel(aliases: map<string, string>, argv: seq<string>, name: string, value: string)
    requires argv != [] && name != argv[0]
    ensures Expansion(aliases[name := value], argv) == Expansion(aliases, argv)
  {
  }

  /** An alias whose value is empty just drops the first word. */
  lemma EmptyAliasDropsHead(aliases: map<string, string>, argv: seq<string>)
    requires argv != [] && argv[0] in aliases && aliases[argv[0]] == ""
    requires |argv| <= MAX_ARGS
    ensures Expansion(aliases, argv) == Some(argv[1..])
  {
    BlankLineHasNoTokens("");
    assert [] + argv[1..] == argv[1..];
  }

  /** When every word and every alias value is a well-formed token, so is
      every word after expansion. */
  lemma ExpansionWellFormed(aliases: map<string, string>, argv: seq<string>)
    requires forall v :: v in aliases.Values ==> WellFormedToken(v)
    requires forall i :: 0 <= i < |argv| ==> WellFormedToken(argv[i])
    ensures forall i :: 0 <= i < |Expanded(aliases, argv)| ==> WellFormedToken(Expanded(aliases, argv)[i])
  {
    if argv != [] && argv[0] in aliases {
      var v := aliases[argv[0]];
      assert v in aliases.Values;
      WellFormedRetokenizes(v);
      TokenizeWellFormed(v);
      var all := AliasTokens(v) + argv[1..];
      assert forall i :: 0 <= i < |all| ==> WellFormedToken(all[i]) by {
        forall i | 0 <= i < |all| ensures WellFormedToken(all[i]) {
          if i < |AliasTokens(v)| {
            assert all[i] in AliasTokens(v);
          } else {
            assert all[i] == argv[i - |AliasTokens(v)| + 1];
          }
        }
      }
    }
  }

  /** A well-formed alias value never makes the expansion warn about a
      missing quote. */
  lemma AliasValueTokenizes(aliases: map<string, string>, name: string)
    requires name in aliases && WellFormedToken(aliases[name])
    ensures Tokenize(aliases[name]).Some?
  {
    WellFormedRetokenizes(aliases[name]);
  }
}
