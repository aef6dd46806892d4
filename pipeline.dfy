/**
 * run_pipeline: the words of a line are split at "|" words; every segment
 * is checked left to right (empty, alias-expanded, resolved) before any
 * pipe is made or any child started; stage i then reads pipe i-1 and writes
 * pipe i; and only the last stage's wait status decides the result.
 */
module Pipelines {
  import opened Types
  import opened Tokenizer
  import opened Commands
  import opened Builtins

  // ---------------------------------------------------------------------
  // Segments

  /** The first position at or after `i` holding a "|" word, or |argv|. */
  function BarFrom(argv: seq<string>, i: nat): (r: nat)
    requires i <= |argv|
    ensures i <= r <= |argv|
    ensures r < |argv| ==> argv[r] == "|"
    ensures forall j :: i <= j < r ==> argv[j] != "|"
    decreases |argv| - i
  {
    if i == |argv| || argv[i] == "|" then i else BarFrom(argv, i + 1)
  }

  /** The segments of argv[start..], split at "|" words. */
  function SegmentsFrom(argv: seq<string>, start: nat): (r: seq<seq<string>>)
    requires start <= |argv|
    ensures |r| >= 1
    decreases |argv| - start
  {
    var k := BarFrom(argv, start);
    if k == |argv| then [argv[start..]] else [argv[start..k]] + SegmentsFrom(argv, k + 1)
  }

  /** The segments run_pipeline cuts the words into at each bar word. */
  function Segments(argv: seq<string>): (segs: seq<seq<string>>)
    ensures |segs| >= 1
  {
    SegmentsFrom(argv, 0)
  }

  /** Segments written back with a "|" word between each two. */
  function JoinBars(segs: seq<seq<string>>): seq<string>
    requires |segs| >= 1
  {
    if |segs| == 1 then segs[0] else segs[0] + ["|"] + JoinBars(segs[1..])
  }

  predicate BarFree(seg: seq<string>)
  {
    forall j :: 0 <= j < |seg| ==> seg[j] != "|"
  }

  /** No segment holds a "|" word, and putting the bars back gives the
      words of the line. */
  lemma {:induction false} SegmentsJoin(argv: seq<string>, start: nat)
    requires start <= |argv|
    ensures forall i :: 0 <= i < |SegmentsFrom(argv, start)| ==> BarFree(SegmentsFrom(argv, start)[i])
    ensures JoinBars(SegmentsFrom(argv, start)) == argv[start..]
    decreases |argv| - start
  {
    var k := BarFrom(argv, start);
    if k < |argv| {
      SegmentsJoin(argv, k + 1);
      var rest := SegmentsFrom(argv, k + 1);
      var segs := SegmentsFrom(argv, start);
      assert segs == [argv[start..k]] + rest;
      assert segs[1..] == rest;
      assert argv[start..] == argv[start..k] + ["|"] + argv[k + 1..];
      forall i | 0 <= i < |segs| ensures BarFree(segs[i]) {
        if i > 0 {
          assert segs[i] == rest[i - 1];
        }
      }
    }
  }

  /** The segments from a position depend only on the words from there on. */
  lemma SegmentsFromShift(a: seq<string>, b: seq<string>, start: nat)
    requires start <= |b|
    ensures SegmentsFrom(a + b, |a| + start) == SegmentsFrom(b, start)
  {
    EndsWithAppend(a, b);
    SegmentsFromAt(a + b, |a|, b, start);
  }

  /** Splitting `s` from `d + start` gives what splitting `b` from `start` gives. */
  predicate SegmentsAgree(s: seq<string>, d: nat, b: seq<string>, start: nat)
    requires |s| == d + |b| && start <= |b|
  {
    SegmentsFrom(s, d + start) == SegmentsFrom(b, start)
  }

  lemma {:induction false} SegmentsFromAt(s: seq<string>, d: nat, b: seq<string>, start: nat)
    requires EndsWith(s, d, b) && start <= |b|
    ensures SegmentsAgree(s, d, b, start)
    decreases |b| - start
  {
    var k := BarFrom(b, start);
    if k < |b| {
      SegmentsFromAt(s, d, b, k + 1);
    }
    SegmentsStepAt(s, d, b, start, k);
  }

  lemma SegmentsStepAt(s: seq<string>, d: nat, b: seq<string>, start: nat, k: nat)
    requires EndsWith(s, d, b) && start <= |b| && k == BarFrom(b, start)
    requires k < |b| ==> SegmentsAgree(s, d, b, k + 1)
    ensures SegmentsAgree(s, d, b, start)
  {
    BarFromAt(s, d, b, start);
    SliceAt(s, d, b, start, k);
    if k == |b| {
      assert s[d + start..] == s[d + start..d + k];
      assert b[start..] == b[start..k];
    }
  }

  lemma {:induction false} BarFromAt(s: seq<string>, d: nat, b: seq<string>, i: nat)
    requires EndsWith(s, d, b) && i <= |b|
    ensures BarFrom(s, d + i) == d + BarFrom(b, i)
    decreases |b| - i
  {
    if i < |b| {
      assert s[d + i] == b[i];
      if b[i] != "|" {
        BarFromAt(s, d, b, i + 1);
      }
    }
  }

  /** Splitting bar-free segments joined with bars gives them back. */
  lemma {:induction false} SegmentsOfJoin(segs: seq<seq<string>>)
    requires |segs| >= 1
    requires forall i :: 0 <= i < |segs| ==> BarFree(segs[i])
    ensures Segments(JoinBars(segs)) == segs
  {
    if |segs| == 1 {
      var s0 := segs[0];
      BarFromIs(s0, 0, |s0|);
      assert s0[0..] == s0;
    } else {
      SegmentsOfJoin(segs[1..]);
      SegmentsOfJoinStep(segs);
    }
  }

  lemma SegmentsOfJoinStep(segs: seq<seq<string>>)
    requires |segs| >= 2 && BarFree(segs[0])
    requires Segments(JoinBars(segs[1..])) == segs[1..]
    ensures Segments(JoinBars(segs)) == segs
  {
    var s0, rest := segs[0], JoinBars(segs[1..]);
    var w := s0 + ["|"];
    var line := w + rest;
    var n := |s0|;
    calc {
      Segments(JoinBars(segs));
      == { assert JoinBars(segs) == line; }
      SegmentsFrom(line, 0);
      == { assert forall j :: 0 <= j < n ==> line[j] == s0[j];
           assert line[n] == "|";
           BarFromIs(line, 0, n);
           SegmentsHead(line, n); }
      [line[0..n]] + SegmentsFrom(line, n + 1);
      == { assert line[0..n] == s0; SegmentsAfter(w, rest); }
      [s0] + segs[1..];
      == { assert segs == [s0] + segs[1..]; }
      segs;
    }
  }

  /** What follows a prefix ending in "|" is split on its own. */
  lemma SegmentsAfter(w: seq<string>, rest: seq<string>)
    ensures SegmentsFrom(w + rest, |w|) == SegmentsFrom(rest, 0)
  {
    SegmentsFromShift(w, rest, 0);
  }

  /** Splitting a line whose first "|" is at `k`. */
  lemma SegmentsHead(argv: seq<string>, k: nat)
    requires k < |argv| && k == BarFrom(argv, 0)
    ensures SegmentsFrom(argv, 0) == [argv[0..k]] + SegmentsFrom(argv, k + 1)
  {
  }

  lemma {:induction false} BarFromIs(s: seq<string>, i: nat, k: nat)
    requires i <= k <= |s|
    requires k < |s| ==> s[k] == "|"
    requires forall j :: i <= j < k ==> s[j] != "|"
    ensures BarFrom(s, i) == k
    decreases k - i
  {
    if i < k {
      BarFromIs(s, i + 1, k);
    }
  }

  predicate HasEmptySegment(segs: seq<seq<string>>)
  {
    exists i :: 0 <= i < |segs| && segs[i] == []
  }

  /** The words from `start` are empty, start or end with "|", or hold two
      "|" words in a row. */
  predicate BarsMisplaced(argv: seq<string>, start: nat)
    requires start <= |argv|
  {
    start == |argv| || argv[start] == "|" || argv[|argv| - 1] == "|" ||
    exists j :: start <= j < |argv| - 1 && argv[j] == "|" && argv[j + 1] == "|"
  }

  /** There is an empty segment exactly when the words are empty, start or
      end with "|", or hold two "|" words in a row. */
  lemma {:induction false} EmptySegmentIff(argv: seq<string>, start: nat)
    requires start <= |argv|
    ensures HasEmptySegment(SegmentsFrom(argv, start)) <==> BarsMisplaced(argv, start)
    decreases |argv| - start
  {
    var k := BarFrom(argv, start);
    if k == |argv| {
      EmptyLastSegment(argv, start);
    } else {
      EmptySegmentIff(argv, k + 1);
      SegmentsFromStep(argv, start, k);
      HasEmptyCons(argv[start..k], SegmentsFrom(argv, k + 1));
      BarsMisplacedStep(argv, start, k);
    }
  }

  lemma EmptyLastSegment(argv: seq<string>, start: nat)
    requires start <= |argv| && BarFrom(argv, start) == |argv|
    ensures HasEmptySegment(SegmentsFrom(argv, start)) <==> BarsMisplaced(argv, start)
  {
    var segs := SegmentsFrom(argv, start);
    assert segs == [argv[start..]];
    if start == |argv| {
      assert segs[0] == [];
    } else {
      assert segs[0] != [] by { assert segs[0][0] == argv[start]; }
      assert !HasEmptySegment(segs);
      assert argv[start] != "|" && argv[|argv| - 1] != "|";
      assert !exists j :: start <= j < |argv| - 1 && argv[j] == "|" && argv[j + 1] == "|";
    }
  }

  lemma HasEmptyCons(seg: seq<string>, rest: seq<seq<string>>)
    ensures HasEmptySegment([seg] + rest) <==> seg == [] || HasEmptySegment(rest)
  {
    var segs := [seg] + rest;
    if HasEmptySegment(segs) && seg != [] {
      var i :| 0 <= i < |segs| && segs[i] == [];
      assert rest[i - 1] == [];
    }
    if HasEmptySegment(rest) {
      var i :| 0 <= i < |rest| && rest[i] == [];
      assert segs[i + 1] == [];
    }
    if seg == [] {
      assert segs[0] == [];
    }
  }

  /** The first "|" from `start` is at `k`: the words from `start` are
      misplaced exactly when they start with it or the words after it are. */
  lemma BarsMisplacedStep(argv: seq<string>, start: nat, k: nat)
    requires start <= |argv| && k == BarFrom(argv, start) && k < |argv|
    ensures (argv[start..k] == []) == (argv[start] == "|")
    ensures BarsMisplaced(argv, start) <==> argv[start] == "|" || BarsMisplaced(argv, k + 1)
  {
    if BarsMisplaced(argv, k + 1) {
      MisplacedAfterBar(argv, start, k);
    }
    if BarsMisplaced(argv, start) && argv[start] != "|" {
      MisplacedBeyondBar(argv, start, k);
    }
  }

  lemma MisplacedAfterBar(argv: seq<string>, start: nat, k: nat)
    requires start <= k < |argv| && argv[k] == "|" && BarsMisplaced(argv, k + 1)
    ensures BarsMisplaced(argv, start)
  {
    if k + 1 == |argv| {
      assert argv[|argv| - 1] == "|";
    } else if argv[k + 1] == "|" {
      assert start <= k < |argv| - 1 && argv[k] == "|" && argv[k + 1] == "|";
    } else if argv[|argv| - 1] != "|" {
      var j :| k + 1 <= j < |argv| - 1 && argv[j] == "|" && argv[j + 1] == "|";
      assert start <= j;
    }
  }

  lemma MisplacedBeyondBar(argv: seq<string>, start: nat, k: nat)
    requires start <= |argv| && k == BarFrom(argv, start) && k < |argv|
    requires BarsMisplaced(argv, start) && argv[start] != "|"
    ensures BarsMisplaced(argv, k + 1)
  {
    if argv[|argv| - 1] != "|" {
      var j :| start <= j < |argv| - 1 && argv[j] == "|" && argv[j + 1] == "|";
      assert k <= j;
      if j == k {
        assert argv[k + 1] == "|";
      } else {
        assert k + 1 <= j;
      }
    }
  }

  // ---------------------------------------------------------------------
  // Checking the segments

  /** A stage ready to run: its words after alias expansion, and where PATH
      search found the program (none for builtins and for names given as a
      path, which are run as they are). */
  datatype Stage = Stage(argv: seq<string>, exec: Option<string>)

  datatype StagePlan = Ready(stage: Stage) | Refused(out: seq<Msg>)

  /** The words a segment runs: copied (at most MAX_ARGS - 1 of them), then
      alias-expanded. */
  function StageWords(s: Session, seg: seq<string>): (w: seq<string>)
    ensures |w| < MAX_ARGS
  {
    Expanded(s.aliases, Take(seg, MAX_ARGS - 1))
  }

  /** A segment that does not start with an alias runs as copied: its first
      MAX_ARGS - 1 words, which is all of it when it is shorter. */
  lemma StageWordsUnaliased(s: Session, seg: seq<string>)
    requires seg == [] || seg[0] !in s.aliases
    ensures StageWords(s, seg) == Take(seg, MAX_ARGS - 1)
    ensures |seg| < MAX_ARGS ==> StageWords(s, seg) == seg
  {
  }

  /** What the source leaves undefined for one segment: an alias value with
      too many tokens, or an alias expanding to nothing while PATH is set,
      which makes the shell search PATH for a missing name. */
  predicate StageDefined(s: Session, seg: seq<string>)
  {
    seg == [] ||
    (ExpansionFits(s.aliases, Take(seg, MAX_ARGS - 1)) &&
     (StageWords(s, seg) == [] ==> s.path == ""))
  }

  /** One segment checked: empty, then a builtin, then a path that must be
      executable, then the PATH search. */
  function PlanStage(s: Session, env: Env, seg: seq<string>): (sp: StagePlan)
    requires StageDefined(s, seg)
    ensures sp.Refused? ==> |sp.out| == 1
    ensures sp.Ready? ==> seg != [] && sp.stage.argv == StageWords(s, seg) && sp.stage.argv != []
    ensures sp.Ready? && sp.stage.exec.Some? ==> env.executable(sp.stage.exec.value)
    ensures sp.Ready? && sp.stage.exec.None? ==>
              IsBuiltinName(sp.stage.argv[0]) || (IsAbsOrRel(sp.stage.argv[0]) && env.executable(sp.stage.argv[0]))
  {
    if seg == [] then Refused([EmptyPipeSegment])
    else
      var use := StageWords(s, seg);
      if use == [] then Refused([EmptyPath])
      else if IsBuiltinName(use[0]) then Ready(Stage(use, None))
      else if IsAbsOrRel(use[0]) then
        if env.executable(use[0]) then Ready(Stage(use, None)) else Refused([CmdNotFound(use[0])])
      else match SearchPath(s.path, use[0], env.executable)
        case NoSearchPath => Refused([EmptyPath])
        case NotFound => Refused([CmdNotFound(use[0])])
        case Found(full) => Ready(Stage(use, Some(full)))
  }

  datatype Plan = Planned(stages: seq<Stage>) | Rejected(out: seq<Msg>)

  /** The segments the source reaches are defined, and at most MAX_STAGES of
      them are stored. */
  predicate PlanDefined(s: Session, env: Env, segs: seq<seq<string>>, room: nat)
  {
    segs == [] ||
    (room > 0 && StageDefined(s, segs[0]) &&
     (PlanStage(s, env, segs[0]).Ready? ==> PlanDefined(s, env, segs[1..], room - 1)))
  }

  /** The segments checked left to right; the first refusal stops it. */
  function PlanStages(s: Session, env: Env, segs: seq<seq<string>>, room: nat): (p: Plan)
    requires PlanDefined(s, env, segs, room)
    ensures p.Planned? ==> |p.stages| == |segs|
  {
    if segs == [] then Planned([])
    else match PlanStage(s, env, segs[0])
      case Refused(out) => Rejected(out)
      case Ready(st) =>
        match PlanStages(s, env, segs[1..], room - 1)
        case Rejected(out) => Rejected(out)
        case Planned(sts) => Planned([st] + sts)
  }

  /** The plan is rejected exactly when some segment is refused, and then
      with the messages of the first refused segment; otherwise stage i is
      segment i made ready. */
  lemma {:induction false} PlanFirstRefusal(s: Session, env: Env, segs: seq<seq<string>>, room: nat)
    requires PlanDefined(s, env, segs, room)
    ensures PlanStages(s, env, segs, room).Rejected? <==>
              exists i :: 0 <= i < |segs| && FirstRefusal(s, env, segs, room, i)
    ensures forall i :: 0 <= i < |segs| && FirstRefusal(s, env, segs, room, i) ==>
              PlanStages(s, env, segs, room).out == PlanStage(s, env, segs[i]).out
    ensures PlanStages(s, env, segs, room).Planned? ==>
              forall i :: 0 <= i < |segs| ==> (ReadyAt(s, env, segs, room, i) &&
                PlanStages(s, env, segs, room).stages[i] == PlanStage(s, env, segs[i]).stage)
  {
    if segs != [] {
      if PlanStage(s, env, segs[0]).Ready? {
        var tail := segs[1..];
        PlanFirstRefusal(s, env, tail, room - 1);
        ShiftPastReady(s, env, segs, room);
        assert !FirstRefusal(s, env, segs, room, 0);
        if PlanStages(s, env, segs, room).Rejected? {
          var i :| 0 <= i < |tail| && FirstRefusal(s, env, tail, room - 1, i);
          assert FirstRefusal(s, env, segs, room, i + 1);
        }
        forall i | 0 <= i < |segs| && FirstRefusal(s, env, segs, room, i)
          ensures PlanStages(s, env, segs, room).out == PlanStage(s, env, segs[i]).out
        {
          assert FirstRefusal(s, env, tail, room - 1, i - 1);
        }
      } else {
        assert FirstRefusal(s, env, segs, room, 0);
        forall i | 0 < i < |segs| ensures !FirstRefusal(s, env, segs, room, i) {
          assert !ReadyAt(s, env, segs, room, 0);
        }
      }
    }
  }

  /** With the first segment ready, segment i of the whole list is ready or
      first refused exactly when segment i - 1 of the rest is. */
  lemma ShiftPastReady(s: Session, env: Env, segs: seq<seq<string>>, room: nat)
    requires segs != [] && room > 0 && ReadyAt(s, env, segs, room, 0)
    ensures forall i :: 1 <= i < |segs| ==>
              (FirstRefusal(s, env, segs, room, i) <==> FirstRefusal(s, env, segs[1..], room - 1, i - 1)) &&
              (ReadyAt(s, env, segs, room, i) <==> ReadyAt(s, env, segs[1..], room - 1, i - 1))
  {
    var tail, room' := segs[1..], room - 1;
    forall i | 1 <= i < |segs|
      ensures FirstRefusal(s, env, segs, room, i) <==> FirstRefusal(s, env, tail, room', i - 1)
      ensures ReadyAt(s, env, segs, room, i) <==> ReadyAt(s, env, tail, room', i - 1)
    {
      assert segs[i] == tail[i - 1];
      if FirstRefusal(s, env, segs, room, i) {
        forall j | 0 <= j < i - 1 ensures ReadyAt(s, env, tail, room', j) {
          assert ReadyAt(s, env, segs, room, j + 1);
          assert segs[j + 1] == tail[j];
        }
      }
      if FirstRefusal(s, env, tail, room', i - 1) {
        forall j | 0 <= j < i ensures ReadyAt(s, env, segs, room, j) {
          if j > 0 {
            assert ReadyAt(s, env, tail, room', j - 1);
            assert segs[j] == tail[j - 1];
          }
        }
      }
    }
  }

  /** Segment i is reached, defined and ready. */
  predicate ReadyAt(s: Session, env: Env, segs: seq<seq<string>>, room: nat, i: nat)
  {
    i < |segs| && i < room && StageDefined(s, segs[i]) && PlanStage(s, env, segs[i]).Ready?
  }

  /** Segment i is the first refused one: every earlier one is ready. */
  predicate FirstRefusal(s: Session, env: Env, segs: seq<seq<string>>, room: nat, i: nat)
  {
    i < |segs| && i < room && StageDefined(s, segs[i]) && PlanStage(s, env, segs[i]).Refused? &&
    forall j :: 0 <= j < i ==> ReadyAt(s, env, segs, room, j)
  }

  // ---------------------------------------------------------------------
  // Wiring and status

  /** Where a stage's standard input comes from and its output goes: a pipe
      index, or None for the shell's own descriptor. */
  datatype Wire = Wire(input: Option<nat>, output: Option<nat>)

  /** Stage i of n reads pipe i - 1, except the first, which reads the
      shell's input; it writes pipe i, except the last, which writes the
      shell's output. */
  function WireOf(i: nat, n: nat): (w: Wire)
    ensures w.input == None <==> i == 0
    ensures w.output == None <==> i + 1 >= n
    ensures w.input.Some? ==> w.input.value + 1 == i
    ensures w.output.Some? ==> w.output.value == i
  {
    Wire(if i > 0 then Some(i - 1) else None, if i + 1 < n then Some(i) else None)
  }

  /** The descriptors of every stage of an n-stage pipeline. */
  function Wiring(n: nat): (ws: seq<Wire>)
    ensures |ws| == n
    ensures forall i :: 0 <= i < n ==> ws[i] == WireOf(i, n)
  {
    seq(n, i requires 0 <= i => WireOf(i, n))
  }

  /** With n stages and n - 1 pipes, pipe k is written by stage k alone and
      read by stage k + 1 alone; the first stage reads and the last stage
      writes the shell's own descriptors. */
  lemma WiringConnects(n: nat)
    requires n >= 1
    ensures Wiring(n)[0].input == None && Wiring(n)[n - 1].output == None
    ensures forall k, i :: 0 <= k < n - 1 && 0 <= i < n ==>
              (Wiring(n)[i].output == Some(k) <==> i == k) &&
              (Wiring(n)[i].input == Some(k) <==> i == k + 1)
    ensures forall i :: 0 <= i < n ==>
              (Wiring(n)[i].input.Some? ==> Wiring(n)[i].input.value < n - 1) &&
              (Wiring(n)[i].output.Some? ==> Wiring(n)[i].output.value < n - 1)
  {
  }

  /** What a stage's child reports to waitpid: a builtin exits 0 on success
      and 1 otherwise; a program runs at its resolved location, or at its
      own name when it was given as a path. */
  function ChildStatus(s: Session, env: Env, st: Stage): (w: WaitResult)
    ensures st.argv != [] && IsBuiltinName(st.argv[0]) ==> w == Exited(0) || w == Exited(1)
  {
    if st.argv != [] && IsBuiltinName(st.argv[0]) then
      Exited(if Dispatch(s, env, st.argv).code == EXIT_SUCCESS then 0 else 1)
    else
      env.run(if st.exec.Some? then st.exec.value else (if st.argv == [] then "" else st.argv[0]), st.argv)
  }

  /** The status rule of the pipeline: the last stage's status, starting from
      a zero status that a failed waitpid leaves in place. */
  function PipelineStatus(w: WaitResult): (code: int)
    ensures code == EXIT_SUCCESS <==> w == Exited(0) || w == WaitError
    ensures code == EXIT_SUCCESS || code == EXIT_FAILURE
  {
    match w
    case Exited(c) => if c == 0 then EXIT_SUCCESS else EXIT_FAILURE
    case Signaled => EXIT_FAILURE
    case WaitError => EXIT_SUCCESS
  }

  datatype PipelineOutcome = PipelineOutcome(code: int, out: seq<Msg>, wiring: seq<Wire>)

  predicate PipelineDefined(s: Session, env: Env, argv: seq<string>)
  {
    PlanDefined(s, env, Segments(argv), MAX_STAGES)
  }

  /** The whole pipeline: rejected before any pipe or child when a segment is
      refused; otherwise wired stage to stage, with the last stage's status
      as the result. */
  function Pipeline(s: Session, env: Env, argv: seq<string>): (r: PipelineOutcome)
    requires PipelineDefined(s, env, argv)
    ensures r.code == EXIT_SUCCESS || r.code == EXIT_FAILURE
    ensures r.out != [] ==> r.code == EXIT_FAILURE && r.wiring == []
  {
    match PlanStages(s, env, Segments(argv), MAX_STAGES)
    case Rejected(out) => PipelineOutcome(EXIT_FAILURE, out, [])
    case Planned(sts) =>
      var n := |sts|;
      PipelineOutcome(PipelineStatus(ChildStatus(s, env, sts[n - 1])), [], Wiring(n))
  }

  /** Only the last stage counts: the result is success exactly when the
      last stage exited with 0 (or could not be waited for), and a pipeline
      never asks the shell to stop, whatever `exit` it holds. */
  lemma PipelineResult(s: Session, env: Env, argv: seq<string>)
    requires PipelineDefined(s, env, argv)
    ensures Pipeline(s, env, argv).code == EXIT_SUCCESS || Pipeline(s, env, argv).code == EXIT_FAILURE
    ensures Pipeline(s, env, argv).code != RC_EXIT_REQUEST
    ensures PlanStages(s, env, Segments(argv), MAX_STAGES).Planned? ==>
              var sts := PlanStages(s, env, Segments(argv), MAX_STAGES).stages;
              |sts| == |Segments(argv)| &&
              (Pipeline(s, env, argv).code == EXIT_SUCCESS <==>
                ChildStatus(s, env, sts[|sts| - 1]) in {Exited(0), WaitError})
  {
  }

  /** An `exit` stage ends its child with status 1: as the last stage it
      makes the pipeline fail. */
  lemma ExitAsLastStage(s: Session, env: Env, argv: seq<string>)
    requires PipelineDefined(s, env, argv)
    requires PlanStages(s, env, Segments(argv), MAX_STAGES).Planned?
    requires var sts := PlanStages(s, env, Segments(argv), MAX_STAGES).stages;
             sts[|sts| - 1].argv == ["exit"]
    ensures Pipeline(s, env, argv).code == EXIT_FAILURE
  {
    var sts := PlanStages(s, env, Segments(argv), MAX_STAGES).stages;
    assert Dispatch(s, env, ["exit"]) == Exit(s, ["exit"]);
  }

  /** A line with an empty segment (leading, trailing or doubled "|") is
      rejected with the message of the first refused segment, before any
      pipe is made; when that is the empty one, the message is the empty
      segment's. */
  lemma EmptySegmentRejects(s: Session, env: Env, argv: seq<string>, i: nat)
    requires PipelineDefined(s, env, argv)
    requires i < |Segments(argv)| && Segments(argv)[i] == []
    requires forall j :: 0 <= j < i ==> ReadyAt(s, env, Segments(argv), MAX_STAGES, j)
    requires i < MAX_STAGES
    ensures Pipeline(s, env, argv) == PipelineOutcome(EXIT_FAILURE, [EmptyPipeSegment], [])
  {
    var segs := Segments(argv);
    assert FirstRefusal(s, env, segs, MAX_STAGES, i);
    PlanFirstRefusal(s, env, segs, MAX_STAGES);
  }

  lemma LeadingBarRejects(s: Session, env: Env, rest: seq<string>)
    ensures PipelineDefined(s, env, ["|"] + rest)
    ensures Pipeline(s, env, ["|"] + rest) == PipelineOutcome(EXIT_FAILURE, [EmptyPipeSegment], [])
  {
    var argv := ["|"] + rest;
    assert BarFrom(argv, 0) == 0;
    assert Segments(argv)[0] == [];
  }

  // ---------------------------------------------------------------------
  // The loops of run_pipeline

  /** One segment as run_pipeline checks it. */
  method ResolveStage(s: Session, env: Env, seg: seq<string>) returns (p: StagePlan)
    requires StageDefined(s, seg)
    ensures p == PlanStage(s, env, seg)
  {
    if |seg| == 0 {
      return Refused([EmptyPipeSegment]);
    }
    var copy := Take(seg, MAX_ARGS - 1);
    var expanded := ExpandLeadingAlias(s.aliases, copy);
    var use := if expanded.Some? then expanded.value else copy;
    if |use| == 0 {
      return Refused([EmptyPath]);
    }
    if IsBuiltinName(use[0]) {
      return Ready(Stage(use, None));
    }
    if IsAbsOrRel(use[0]) {
      if !env.executable(use[0]) {
        return Refused([CmdNotFound(use[0])]);
      }
      return Ready(Stage(use, None));
    }
    var found := FindInPath(s.path, use[0], env.executable);
    match found {
      case NoSearchPath => return Refused([EmptyPath]);
      case NotFound => return Refused([CmdNotFound(use[0])]);
      case Found(full) => return Ready(Stage(use, Some(full)));
    }
  }

  /** A planned pipeline is its first segment made ready, then the plan of
      the rest. */
  lemma PlanStagesCons(s: Session, env: Env, segs: seq<seq<string>>, room: nat)
    requires segs != [] && PlanDefined(s, env, segs, room) && PlanStages(s, env, segs, room).Planned?
    ensures room > 0 && StageDefined(s, segs[0]) && PlanStage(s, env, segs[0]).Ready?
    ensures PlanDefined(s, env, segs[1..], room - 1) && PlanStages(s, env, segs[1..], room - 1).Planned?
    ensures PlanStages(s, env, segs, room).stages ==
              [PlanStage(s, env, segs[0]).stage] + PlanStages(s, env, segs[1..], room - 1).stages
  {
  }

  /** Past a ready first segment, the plan is the plan of the rest with that
      stage in front. */
  lemma PlanStagesStep(s: Session, env: Env, segs: seq<seq<string>>, room: nat)
    requires segs != [] && PlanDefined(s, env, segs, room) && PlanStage(s, env, segs[0]).Ready?
    ensures PlanStages(s, env, segs, room) ==
              match PlanStages(s, env, segs[1..], room - 1)
              case Rejected(out) => Rejected(out)
              case Planned(sts) => Planned([PlanStage(s, env, segs[0]).stage] + sts)
  {
  }

  lemma PlanDefinedAppend(s: Session, env: Env, done: seq<seq<string>>, seg: seq<string>, room: nat)
    requires PlanDefined(s, env, done, room) && PlanStages(s, env, done, room).Planned?
    requires |done| < room && StageDefined(s, seg)
    ensures PlanDefined(s, env, done + [seg], room)
    decreases |done|
  {
    if done == [] {
      assert [] + [seg] == [seg];
    } else {
      var whole := done + [seg];
      assert whole[0] == done[0] && whole[1..] == done[1..] + [seg];
      PlanDefinedAppend(s, env, done[1..], seg, room - 1);
    }
  }

  lemma PlanStagesAppend(s: Session, env: Env, done: seq<seq<string>>, seg: seq<string>, room: nat, sts: seq<Stage>)
    requires PlanDefined(s, env, done, room) && PlanStages(s, env, done, room) == Planned(sts)
    requires |done| < room && StageDefined(s, seg)
    ensures PlanDefined(s, env, done + [seg], room)
    ensures PlanStages(s, env, done + [seg], room) ==
              match PlanStage(s, env, seg)
              case Refused(out) => Rejected(out)
              case Ready(st) => Planned(sts + [st])
  {
    PlanDefinedAppend(s, env, done, seg, room);
    if PlanStage(s, env, seg).Ready? {
      PlanStagesAppendReady(s, env, done, seg, room, sts);
    } else {
      PlanStagesAppendRefused(s, env, done, seg, room);
    }
  }

  lemma PlanStagesAppendReady(s: Session, env: Env, done: seq<seq<string>>, seg: seq<string>, room: nat, sts: seq<Stage>)
    requires PlanDefined(s, env, done, room) && PlanStages(s, env, done, room) == Planned(sts)
    requires |done| < room && StageDefined(s, seg) && PlanStage(s, env, seg).Ready?
    requires PlanDefined(s, env, done + [seg], room)
    ensures PlanStages(s, env, done + [seg], room) == Planned(sts + [PlanStage(s, env, seg).stage])
    decreases |done|
  {
    var whole := done + [seg];
    if done == [] {
      assert whole == [seg] && whole[1..] == [];
    } else {
      assert whole[0] == done[0] && whole[1..] == done[1..] + [seg];
      PlanStagesCons(s, env, done, room);
      var rest := PlanStages(s, env, done[1..], room - 1).stages;
      PlanDefinedAppend(s, env, done[1..], seg, room - 1);
      PlanStagesAppendReady(s, env, done[1..], seg, room - 1, rest);
      PlanStagesStep(s, env, whole, room);
      assert [sts[0]] + (rest + [PlanStage(s, env, seg).stage]) == sts + [PlanStage(s, env, seg).stage];
    }
  }

  lemma PlanStagesAppendRefused(s: Session, env: Env, done: seq<seq<string>>, seg: seq<string>, room: nat)
    requires PlanDefined(s, env, done, room) && PlanStages(s, env, done, room).Planned?
    requires |done| < room && StageDefined(s, seg) && PlanStage(s, env, seg).Refused?
    requires PlanDefined(s, env, done + [seg], room)
    ensures PlanStages(s, env, done + [seg], room) == Rejected(PlanStage(s, env, seg).out)
    decreases |done|
  {
    var whole := done + [seg];
    if done == [] {
      assert whole == [seg];
    } else {
      assert whole[0] == done[0] && whole[1..] == done[1..] + [seg];
      PlanStagesCons(s, env, done, room);
      PlanDefinedAppend(s, env, done[1..], seg, room - 1);
      PlanStagesAppendRefused(s, env, done[1..], seg, room - 1);
      PlanStagesStep(s, env, whole, room);
    }
  }

  lemma PlanStagesRejectedAppend(s: Session, env: Env, done: seq<seq<string>>, rest: seq<seq<string>>, room: nat)
    requires PlanDefined(s, env, done, room) && PlanStages(s, env, done, room).Rejected?
    ensures PlanDefined(s, env, done + rest, room)
    ensures PlanStages(s, env, done + rest, room) == PlanStages(s, env, done, room)
    decreases |done|
  {
    assert done != [];
    assert (done + rest)[0] == done[0];
    assert (done + rest)[1..] == done[1..] + rest;
    if PlanStage(s, env, done[0]).Ready? {
      PlanStagesRejectedAppend(s, env, done[1..], rest, room - 1);
    }
  }

  lemma SegmentsFromStep(argv: seq<string>, start: nat, k: nat)
    requires start <= |argv| && k == BarFrom(argv, start)
    ensures SegmentsFrom(argv, start) ==
              [argv[start..k]] + (if k == |argv| then [] else SegmentsFrom(argv, k + 1))
  {
    if k == |argv| {
      calc {
        SegmentsFrom(argv, start);
        [argv[start..]];
        { assert argv[start..k] == argv[start..]; }
        [argv[start..k]];
        [argv[start..k]] + [];
      }
    } else {
      assert SegmentsFrom(argv, start) == [argv[start..k]] + SegmentsFrom(argv, k + 1);
    }
  }

  /** Closing the segment argv[start..i] at a "|" or at the end: it is
      defined, and checking it either rejects the whole line or extends the
      stages planned so far. */
  lemma CloseSegment(s: Session, env: Env, argv: seq<string>, done: seq<seq<string>>, stages: seq<Stage>,
                     start: nat, i: nat) returns (rest: seq<seq<string>>)
    requires start <= |argv| && i == BarFrom(argv, start)
    requires PipelineDefined(s, env, argv) && Segments(argv) == done + SegmentsFrom(argv, start)
    requires PlanDefined(s, env, done, MAX_STAGES) && PlanStages(s, env, done, MAX_STAGES) == Planned(stages)
    ensures rest == if i == |argv| then [] else SegmentsFrom(argv, i + 1)
    ensures Segments(argv) == (done + [argv[start..i]]) + rest
    ensures StageDefined(s, argv[start..i]) && PlanDefined(s, env, done + [argv[start..i]], MAX_STAGES)
    ensures PlanStage(s, env, argv[start..i]).Refused? ==>
              PlanStages(s, env, Segments(argv), MAX_STAGES) == Rejected(PlanStage(s, env, argv[start..i]).out)
    ensures PlanStage(s, env, argv[start..i]).Ready? ==>
              PlanStages(s, env, done + [argv[start..i]], MAX_STAGES) == Planned(stages + [PlanStage(s, env, argv[start..i]).stage])
  {
    var seg := argv[start..i];
    SegmentsFromStep(argv, start, i);
    rest := if i == |argv| then [] else SegmentsFrom(argv, i + 1);
    assert done + SegmentsFrom(argv, start) == (done + [seg]) + rest;
    assert done + SegmentsFrom(argv, start) == done + ([seg] + rest);
    PlanDefinedPrefix(s, env, done, [seg] + rest, MAX_STAGES);
    PlanStagesAppend(s, env, done, seg, MAX_STAGES, stages);
    if PlanStage(s, env, seg).Refused? {
      PlanStagesRejectedAppend(s, env, done + [seg], rest, MAX_STAGES);
    }
  }

  /** One segment closed at a "|" or at the end, copied, expanded and
      resolved; a refusal rejects the whole line, a ready stage extends the
      stages planned so far. */
  method CheckSegment(s: Session, env: Env, argv: seq<string>, ghost done: seq<seq<string>>, ghost stages: seq<Stage>,
                      start: nat, i: nat) returns (sp: StagePlan)
    requires start <= |argv| && i == BarFrom(argv, start)
    requires PipelineDefined(s, env, argv) && Segments(argv) == done + SegmentsFrom(argv, start)
    requires PlanDefined(s, env, done, MAX_STAGES) && PlanStages(s, env, done, MAX_STAGES) == Planned(stages)
    ensures StageDefined(s, argv[start..i]) && sp == PlanStage(s, env, argv[start..i])
    ensures sp.Refused? ==> PlanStages(s, env, Segments(argv), MAX_STAGES) == Rejected(sp.out)
    ensures sp.Ready? ==> PlanDefined(s, env, done + [argv[start..i]], MAX_STAGES) &&
                          PlanStages(s, env, done + [argv[start..i]], MAX_STAGES) == Planned(stages + [sp.stage])
    ensures i < |argv| ==> Segments(argv) == (done + [argv[start..i]]) + SegmentsFrom(argv, i + 1)
    ensures i == |argv| ==> Segments(argv) == done + [argv[start..i]]
  {
    ghost var rest := CloseSegment(s, env, argv, done, stages, start, i);
    sp := ResolveStage(s, env, argv[start..i]);
  }

  /** A word other than "|" before the next bar is not the bar. */
  lemma BarFromPast(argv: seq<string>, start: nat, i: nat)
    requires i < |argv| && argv[i] != "|" && start <= i <= BarFrom(argv, start)
    ensures i + 1 <= BarFrom(argv, start)
  {
  }

  /** The segment loop of run_pipeline: walks the words, and at every "|"
      and at the end checks the segment just closed, stopping at the first
      refusal. */
  method CheckSegments(s: Session, env: Env, argv: seq<string>) returns (p: Plan)
    requires PipelineDefined(s, env, argv)
    ensures p == PlanStages(s, env, Segments(argv), MAX_STAGES)
  {
    ghost var done: seq<seq<string>> := [];
    var stages: seq<Stage> := [];
    var start := 0;
    var i := 0;
    while i <= |argv|
      invariant start <= |argv| + 1 && i <= |argv| + 1
      invariant i <= |argv| ==> start <= i <= BarFrom(argv, start)
      invariant i <= |argv| ==> Segments(argv) == done + SegmentsFrom(argv, start)
      invariant i == |argv| + 1 ==> Segments(argv) == done
      invariant PlanDefined(s, env, done, MAX_STAGES) && PlanStages(s, env, done, MAX_STAGES) == Planned(stages)
      decreases |argv| + 1 - i
    {
      if i == |argv| || argv[i] == "|" {
        assert i == BarFrom(argv, start);
        var seg := argv[start..i];
        var sp := CheckSegment(s, env, argv, done, stages, start, i);
        if sp.Refused? {
          return Rejected(sp.out);
        }
        stages := stages + [sp.stage];
        done := done + [seg];
        start := i + 1;
      } else {
        BarFromPast(argv, start, i);
      }
      i := i + 1;
    }
    return Planned(stages);
  }

  /** run_pipeline: the segments checked, then the pipe loop (wiring) and
      the wait loop (last status). */
  method RunPipeline(s: Session, env: Env, argv: seq<string>) returns (r: PipelineOutcome)
    requires PipelineDefined(s, env, argv)
    ensures r == Pipeline(s, env, argv)
  {
    var plan := CheckSegments(s, env, argv);
    if plan.Rejected? {
      return PipelineOutcome(EXIT_FAILURE, plan.out, []);
    }
    var stages := plan.stages;
    var n := |stages|;
    assert n == |Segments(argv)| && n >= 1;

    var wiring: seq<Wire> := [];
    var k := 0;
    while k < n
      invariant 0 <= k <= n && |wiring| == k
      invariant forall j :: 0 <= j < k ==> wiring[j] == WireOf(j, n)
    {
      wiring := wiring + [Wire(if k > 0 then Some(k - 1) else None, if k < n - 1 then Some(k) else None)];
      k := k + 1;
    }
    assert wiring == Wiring(n);

    var lastStatus: WaitResult := Exited(0);
    k := 0;
    while k < n
      invariant 0 <= k <= n
      invariant k < n ==> lastStatus == Exited(0)
      invariant k == n ==> PipelineStatus(lastStatus) == PipelineStatus(ChildStatus(s, env, stages[n - 1]))
    {
      var st := ChildStatus(s, env, stages[k]);
      if st != WaitError && k == n - 1 {
        lastStatus := st;
      }
      k := k + 1;
    }
    return PipelineOutcome(PipelineStatus(lastStatus), [], wiring);
  }

  lemma {:induction false} PlanDefinedPrefix(s: Session, env: Env, a: seq<seq<string>>, b: seq<seq<string>>, room: nat)
    requires PlanDefined(s, env, a + b, room)
    requires PlanDefined(s, env, a, room) && PlanStages(s, env, a, room).Planned?
    requires b != []
    ensures |a| < room && StageDefined(s, b[0])
    decreases |a|
  {
    if a != [] {
      assert (a + b)[0] == a[0];
      assert (a + b)[1..] == a[1..] + b;
      PlanDefinedPrefix(s, env, a[1..], b, room - 1);
    } else {
      assert a + b == b;
    }
  }
}
