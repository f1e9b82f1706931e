/**
 * What the judge promises about a run, proved about the specification
 * functions of module Checker (and so, through `Judge`'s postcondition,
 * about the method).
 */
module CheckerProperties {
  import opened Wrappers
  import opened PyLib
  import opened Testcases
  import opened Checker

  /** Number of records with verdict ACCEPTED. */
  function CountAccepted(pack: seq<Testcase>): nat
  {
    if pack == [] then 0
    else CountAccepted(pack[..|pack| - 1]) + (if pack[|pack| - 1].status == Accepted then 1 else 0)
  }

  /** No more points than records. */
  lemma {:induction false} CountAcceptedBound(pack: seq<Testcase>)
    ensures CountAccepted(pack) <= |pack|
  {
    if pack != [] {
      CountAcceptedBound(pack[..|pack| - 1]);
    }
  }

  /** Appending a record adds one point exactly when it is accepted. */
  lemma CountAcceptedAppend(pack: seq<Testcase>, t: Testcase)
    ensures CountAccepted(pack + [t]) == CountAccepted(pack) + (if t.status == Accepted then 1 else 0)
  {
    assert (pack + [t])[..|pack + [t]| - 1] == pack;
  }

  /** Both fixture files exist for testcases 1..k. */
  predicate FixturesPresent(fx: Fixtures, k: nat)
  {
    forall n :: 1 <= n <= k ==> n in fx.inputs && n in fx.outputs
  }

  /**
   * Record `j` of `pack` is what testcase `j + 1` should have produced: its
   * number, trimmed fixtures, formatted runtime and timestamp, and the
   * verdict and output that its run calls for. A runtime error is never the
   * first record and repeats the output of the record before it.
   */
  predicate RecordAgrees(fx: Fixtures, runs: seq<Execution>, pack: seq<Testcase>, j: nat)
    requires j < |pack| && j < |runs|
  {
    var t := pack[j];
    var n := j + 1;
    && t.idx == n
    && n in fx.inputs && n in fx.outputs
    && t.input == Strip(fx.inputs[n])
    && t.answer == Strip(fx.outputs[n])
    && t.runtime == FormatRuntime(runs[j].elapsed)
    && t.judgedAt == runs[j].judgedAt
    && t.remark == Remark(t.status)
    && match runs[j].outcome
       case TimedOut => t.status == TimeLimitExceeded && t.output == NoOutput
       case Exited(code, stdout) =>
         if code == 0 then
           t.output == Strip(stdout) && t.status == (if Strip(stdout) == t.answer then Accepted else WrongAnswer)
         else
           t.status == RuntimeError && j > 0 && t.output == pack[j - 1].output
  }

  /** The loop invariant of `_judge` after `k` iterations. */
  predicate Consistent(fx: Fixtures, runs: seq<Execution>, k: nat, s: LoopState)
    requires k <= |runs|
  {
    && |s.pack| == k
    && (forall j :: 0 <= j < k ==> RecordAgrees(fx, runs, s.pack, j))
    && s.score == CountAccepted(s.pack)
    && s.output == (if k == 0 then None else Some(s.pack[k - 1].output))
  }

  /** Appending a record keeps the earlier records' agreement. */
  lemma AgreesAfterAppend(fx: Fixtures, runs: seq<Execution>, pack: seq<Testcase>, t: Testcase, j: nat)
    requires j < |pack| && j < |runs| && RecordAgrees(fx, runs, pack, j)
    ensures RecordAgrees(fx, runs, pack + [t], j)
  {
    assert (pack + [t])[j] == pack[j];
    if j > 0 {
      assert (pack + [t])[j - 1] == pack[j - 1];
    }
  }

  /** How one iteration can fail: a missing fixture, or an unbound `output`. */
  lemma StepFails(fx: Fixtures, runs: seq<Execution>, i: nat, s: LoopState)
    requires i < |runs|
    ensures var n := i + 1;
      var r := Step(fx, runs, i, s);
      && (r == Err(MissingFixture(n)) <==> !(n in fx.inputs && n in fx.outputs))
      && (r == Err(UnboundOutput(n)) <==>
            n in fx.inputs && n in fx.outputs && s.output.None? && IsRuntimeError(runs[i].outcome))
      && (r.Err? ==> r == Err(MissingFixture(n)) || r == Err(UnboundOutput(n)))
  {
    var n := i + 1;
    if n in fx.inputs && n in fx.outputs {
      ClassifyVerdict(runs[i].outcome, Strip(fx.outputs[n]), s.output);
    }
  }

  /** What one successful iteration appends, and the score and output after it. */
  lemma StepRecord(fx: Fixtures, runs: seq<Execution>, i: nat, s: LoopState)
    requires i < |runs| && Step(fx, runs, i, s).Ok?
    ensures var s' := Step(fx, runs, i, s).value;
      var n := i + 1;
      && |s'.pack| == |s.pack| + 1
      && var t := s'.pack[|s.pack|];
      && s'.pack == s.pack + [t]
      && s'.score == s.score + (if t.status == Accepted then 1 else 0)
      && s'.output == Some(t.output)
      && t.idx == n
      && n in fx.inputs && n in fx.outputs
      && t.input == Strip(fx.inputs[n])
      && t.answer == Strip(fx.outputs[n])
      && t.runtime == FormatRuntime(runs[i].elapsed)
      && t.judgedAt == runs[i].judgedAt
      && t.remark == Remark(t.status)
      && match runs[i].outcome
         case TimedOut => t.status == TimeLimitExceeded && t.output == NoOutput
         case Exited(code, stdout) =>
           if code == 0 then
             t.output == Strip(stdout) && t.status == (if Strip(stdout) == t.answer then Accepted else WrongAnswer)
           else
             t.status == RuntimeError && s.output == Some(t.output)
  {
    var n := i + 1;
    ClassifyVerdict(runs[i].outcome, Strip(fx.outputs[n]), s.output);
  }

  /** Every completed iteration keeps the invariant. */
  lemma {:induction false} LoopConsistent(fx: Fixtures, runs: seq<Execution>, k: nat)
    requires k <= |runs|
    ensures Loop(fx, runs, k).Ok? ==> Consistent(fx, runs, k, Loop(fx, runs, k).value)
  {
    if k > 0 && Loop(fx, runs, k).Ok? {
      LoopConsistent(fx, runs, k - 1);
      LoopOkBefore(fx, runs, k);
      var s := Loop(fx, runs, k - 1).value;
      StepRecord(fx, runs, k - 1, s);
      var s' := Loop(fx, runs, k).value;
      var t := s'.pack[k - 1];
      CountAcceptedAppend(s.pack, t);
      forall j | 0 <= j < k
        ensures RecordAgrees(fx, runs, s'.pack, j)
      {
        if j < k - 1 {
          AgreesAfterAppend(fx, runs, s.pack, t, j);
        } else if IsRuntimeError(runs[j].outcome) {
          assert s'.pack[j - 1] == s.pack[j - 1];
        }
      }
    }
  }

  /** The loop still holds no output exactly while no testcase has run. */
  lemma {:induction false} LoopOutput(fx: Fixtures, runs: seq<Execution>, k: nat)
    requires k <= |runs| && Loop(fx, runs, k).Ok?
    ensures Loop(fx, runs, k).value.output.None? <==> k == 0
  {
    if k > 0 {
      LoopOkBefore(fx, runs, k);
      StepRecord(fx, runs, k - 1, Loop(fx, runs, k - 1).value);
    }
  }

  /** The loop succeeds for `k` testcases exactly when their fixtures all
      exist and the first run (if any) does not end in a runtime error. */
  lemma {:induction false} LoopSucceeds(fx: Fixtures, runs: seq<Execution>, k: nat)
    requires k <= |runs|
    ensures Loop(fx, runs, k).Ok? <==> FixturesPresent(fx, k) && (k == 0 || !IsRuntimeError(runs[0].outcome))
  {
    if k > 0 {
      LoopSucceeds(fx, runs, k - 1);
      if Loop(fx, runs, k - 1).Ok? {
        var s := Loop(fx, runs, k - 1).value;
        LoopOutput(fx, runs, k - 1);
        LoopNext(fx, runs, k - 1, s);
        StepFails(fx, runs, k - 1, s);
      } else {
        LoopFailed(fx, runs, k - 1, Loop(fx, runs, k - 1).error);
        if FixturesPresent(fx, k) {
          assert FixturesPresent(fx, k - 1);
        }
      }
    }
  }

  /** A loop that stopped on a missing fixture stopped at the first one missing. */
  lemma {:induction false} LoopMissing(fx: Fixtures, runs: seq<Execution>, k: nat, n: nat)
    requires k <= |runs| && Loop(fx, runs, k) == Err(MissingFixture(n))
    ensures 1 <= n <= k && !(n in fx.inputs && n in fx.outputs) && FixturesPresent(fx, n - 1)
  {
    if k > 0 {
      if Loop(fx, runs, k - 1).Ok? {
        var s := Loop(fx, runs, k - 1).value;
        LoopSucceeds(fx, runs, k - 1);
        LoopNext(fx, runs, k - 1, s);
        StepFails(fx, runs, k - 1, s);
      } else {
        LoopMissing(fx, runs, k - 1, n);
      }
    }
  }

  /** A loop that stopped on an unbound `output` stopped at testcase 1, which was a runtime error. */
  lemma {:induction false} LoopUnbound(fx: Fixtures, runs: seq<Execution>, k: nat, n: nat)
    requires k <= |runs| && Loop(fx, runs, k) == Err(UnboundOutput(n))
    ensures n == 1 && 1 in fx.inputs && 1 in fx.outputs && IsRuntimeError(runs[0].outcome)
  {
    if k > 0 {
      if Loop(fx, runs, k - 1).Ok? {
        var s := Loop(fx, runs, k - 1).value;
        LoopOutput(fx, runs, k - 1);
        LoopNext(fx, runs, k - 1, s);
        StepFails(fx, runs, k - 1, s);
      } else {
        LoopUnbound(fx, runs, k - 1, n);
      }
    }
  }

  // ---------------------------------------------------------------------------
  // Whole runs
  // ---------------------------------------------------------------------------

  /** A successful run is the dispatched command and the loop's final state. */
  lemma JudgeSpecOk(fname: string, fx: Fixtures, compileCode: int, runs: seq<Execution>)
    requires |runs| == fx.listed && JudgeSpec(fname, fx, compileCode, runs).Ok?
    ensures CompileCommand(fname).Ok? && compileCode == 0 && Loop(fx, runs, fx.listed).Ok?
    ensures var s := Loop(fx, runs, fx.listed).value;
      JudgeSpec(fname, fx, compileCode, runs).value == Report(CompileCommand(fname).value, s.pack, s.score, fx.listed)
  {
  }

  /** After a successful build, the run is whatever the loop comes to. */
  lemma JudgeSpecLoop(fname: string, fx: Fixtures, compileCode: int, runs: seq<Execution>)
    requires |runs| == fx.listed && CompileCommand(fname).Ok? && compileCode == 0
    ensures var l := Loop(fx, runs, fx.listed);
      && (l.Err? ==> JudgeSpec(fname, fx, compileCode, runs) == Err(l.error))
      && (l.Ok? ==> JudgeSpec(fname, fx, compileCode, runs) ==
                    Ok(Report(CompileCommand(fname).value, l.value.pack, l.value.score, fx.listed)))
  {
  }

  /**
   * A completed run has one record per testcase, numbered 1, 2, ... in
   * order, each agreeing with its fixtures and its run; the score is the
   * number of ACCEPTED records and lies between 0 and the maximum score,
   * which is the number of testcases; the command is the dispatched one.
   */
  lemma JudgeReport(fname: string, fx: Fixtures, compileCode: int, runs: seq<Execution>)
    requires |runs| == fx.listed && JudgeSpec(fname, fx, compileCode, runs).Ok?
    ensures var rep := JudgeSpec(fname, fx, compileCode, runs).value;
      && CompileCommand(fname) == Ok(rep.command)
      && |rep.pack| == rep.maxScore == fx.listed
      && (forall j :: 0 <= j < |rep.pack| ==> rep.pack[j].idx == j + 1)
      && (forall j :: 0 <= j < |rep.pack| ==> RecordAgrees(fx, runs, rep.pack, j))
      && rep.score == CountAccepted(rep.pack) <= rep.maxScore
  {
    JudgeSpecOk(fname, fx, compileCode, runs);
    LoopConsistent(fx, runs, fx.listed);
    var pack := Loop(fx, runs, fx.listed).value.pack;
    CountAcceptedBound(pack);
    forall j | 0 <= j < |pack|
      ensures pack[j].idx == j + 1
    {
      assert RecordAgrees(fx, runs, pack, j);
    }
  }

  /** What an agreeing record says about its verdict and output. */
  lemma RecordVerdict(fx: Fixtures, runs: seq<Execution>, pack: seq<Testcase>, j: nat)
    requires j < |pack| && j < |runs| && RecordAgrees(fx, runs, pack, j)
    ensures var t := pack[j];
      var o := runs[j].outcome;
      var expected := Strip(fx.outputs[j + 1]);
      && (t.status == Accepted <==> o.Exited? && o.code == 0 && Strip(o.stdout) == expected)
      && (t.status == WrongAnswer <==> o.Exited? && o.code == 0 && Strip(o.stdout) != expected)
      && (t.status == TimeLimitExceeded <==> o.TimedOut?)
      && (t.status == RuntimeError <==> IsRuntimeError(o))
      && (o.TimedOut? ==> t.output == NoOutput)
      && (o.Exited? && o.code == 0 ==> t.output == Strip(o.stdout))
      && (IsRuntimeError(o) ==> j > 0 && t.output == pack[j - 1].output)
  {
  }

  /**
   * Verdict classification, record by record: a zero exit is ACCEPTED
   * precisely when the trimmed stdout equals the trimmed expected output and
   * WRONG_ANSWER otherwise; a timeout is TIME_LIMIT_EXCEEDED with the
   * `<no output>` sentinel; a non-zero exit is RUNTIME_ERROR and carries the
   * previous record's output.
   */
  lemma VerdictOfRecord(fname: string, fx: Fixtures, compileCode: int, runs: seq<Execution>, j: nat)
    requires |runs| == fx.listed && JudgeSpec(fname, fx, compileCode, runs).Ok? && j < fx.listed
    ensures var pack := JudgeSpec(fname, fx, compileCode, runs).value.pack;
      && |pack| == fx.listed
      && j + 1 in fx.outputs
      && var t := pack[j];
      && var o := runs[j].outcome;
      && t.answer == Strip(fx.outputs[j + 1])
      && (t.status == Accepted <==> o.Exited? && o.code == 0 && Strip(o.stdout) == t.answer)
      && (t.status == WrongAnswer <==> o.Exited? && o.code == 0 && Strip(o.stdout) != t.answer)
      && (t.status == TimeLimitExceeded <==> o.TimedOut?)
      && (t.status == RuntimeError <==> IsRuntimeError(o))
      && (o.TimedOut? ==> t.output == NoOutput)
      && (o.Exited? && o.code == 0 ==> t.output == Strip(o.stdout))
      && (IsRuntimeError(o) ==> j > 0 && t.output == pack[j - 1].output)
      && t.remark == Remark(t.status)
  {
    JudgeReport(fname, fx, compileCode, runs);
    var pack := JudgeSpec(fname, fx, compileCode, runs).value.pack;
    assert RecordAgrees(fx, runs, pack, j);
    RecordVerdict(fx, runs, pack, j);
  }

  /** Results are written exactly when the extension is known, the compiler
      succeeded, every fixture exists and the first run is not a runtime error. */
  lemma JudgeSucceeds(fname: string, fx: Fixtures, compileCode: int, runs: seq<Execution>)
    requires |runs| == fx.listed
    ensures JudgeSpec(fname, fx, compileCode, runs).Ok? <==>
      && CompileCommand(fname).Ok?
      && compileCode == 0
      && FixturesPresent(fx, fx.listed)
      && (fx.listed == 0 || !IsRuntimeError(runs[0].outcome))
  {
    LoopSucceeds(fx, runs, fx.listed);
  }

  /** An unknown extension stops the run at the lookup, whatever the compiler,
      the fixtures and the runs would have done. */
  lemma UnsupportedStopsFirst(fname: string, fx: Fixtures, compileCode: int, runs: seq<Execution>)
    requires |runs| == fx.listed && SplitExt(fname).1 !in CompileCmds
    ensures JudgeSpec(fname, fx, compileCode, runs) == Err(UnsupportedLanguage(SplitExt(fname).1))
  {
  }

  /** A failing compiler stops the run before any testcase, whatever the
      fixtures and the runs. */
  lemma CompileFailureStops(fname: string, fx: Fixtures, compileCode: int, runs: seq<Execution>)
    requires |runs| == fx.listed && CompileCommand(fname).Ok? && compileCode != 0
    ensures JudgeSpec(fname, fx, compileCode, runs) == Err(CompilationError(CompileCommand(fname).value))
  {
  }

  /** A run aborted for a missing fixture names the first testcase whose input
      or expected output is missing; everything before it existed. */
  lemma MissingFixtureIsFirst(fname: string, fx: Fixtures, compileCode: int, runs: seq<Execution>, n: nat)
    requires |runs| == fx.listed && JudgeSpec(fname, fx, compileCode, runs) == Err(MissingFixture(n))
    ensures 1 <= n <= fx.listed
    ensures !(n in fx.inputs && n in fx.outputs)
    ensures FixturesPresent(fx, n - 1)
  {
    LoopMissing(fx, runs, fx.listed, n);
  }

  /** If testcase `n` is the first with a missing fixture, and the run gets
      that far, the run aborts there and writes nothing. */
  lemma MissingFixtureAborts(fname: string, fx: Fixtures, compileCode: int, runs: seq<Execution>, n: nat)
    requires |runs| == fx.listed && CompileCommand(fname).Ok? && compileCode == 0
    requires 1 <= n <= fx.listed && !(n in fx.inputs && n in fx.outputs) && FixturesPresent(fx, n - 1)
    requires n == 1 || !IsRuntimeError(runs[0].outcome)
    ensures JudgeSpec(fname, fx, compileCode, runs) == Err(MissingFixture(n))
  {
    LoopStopsAtMissing(fx, runs, n);
    JudgeSpecLoop(fname, fx, compileCode, runs);
  }

  /** The loop part of MissingFixtureAborts. */
  lemma LoopStopsAtMissing(fx: Fixtures, runs: seq<Execution>, n: nat)
    requires |runs| == fx.listed
    requires 1 <= n <= fx.listed && !(n in fx.inputs && n in fx.outputs) && FixturesPresent(fx, n - 1)
    requires n == 1 || !IsRuntimeError(runs[0].outcome)
    ensures Loop(fx, runs, fx.listed) == Err(MissingFixture(n))
  {
    LoopSucceeds(fx, runs, n - 1);
    var s := Loop(fx, runs, n - 1).value;
    LoopNext(fx, runs, n - 1, s);
    StepFails(fx, runs, n - 1, s);
    LoopStopped(fx, runs, n, fx.listed, MissingFixture(n));
  }

  /** `output` is unbound exactly when testcase 1 exists and its run is a
      runtime error: building its record fails and nothing is written. */
  lemma UnboundOutputExactly(fname: string, fx: Fixtures, compileCode: int, runs: seq<Execution>, n: nat)
    requires |runs| == fx.listed && CompileCommand(fname).Ok? && compileCode == 0
    ensures JudgeSpec(fname, fx, compileCode, runs) == Err(UnboundOutput(n)) <==>
      n == 1 <= fx.listed && 1 in fx.inputs && 1 in fx.outputs && IsRuntimeError(runs[0].outcome)
  {
    if JudgeSpec(fname, fx, compileCode, runs) == Err(UnboundOutput(n)) {
      LoopUnbound(fx, runs, fx.listed, n);
    }
    if n == 1 <= fx.listed && 1 in fx.inputs && 1 in fx.outputs && IsRuntimeError(runs[0].outcome) {
      var s := Loop(fx, runs, 0).value;
      LoopNext(fx, runs, 0, s);
      StepFails(fx, runs, 0, s);
      LoopStopped(fx, runs, 1, fx.listed, UnboundOutput(1));
      JudgeSpecLoop(fname, fx, compileCode, runs);
    }
  }

  // ---------------------------------------------------------------------------
  // Reveal
  // ---------------------------------------------------------------------------

  /**
   * On a stored pack, `reveal k` for 1 <= k <= len(pack) shows the record
   * numbered k; `reveal 0` shows the last record; and exactly the arguments
   * outside 1 - len(pack) .. len(pack) are an IndexError.
   */
  lemma RevealJudged(fname: string, fx: Fixtures, compileCode: int, runs: seq<Execution>, arg: int)
    requires |runs| == fx.listed && JudgeSpec(fname, fx, compileCode, runs).Ok?
    ensures var pack := JudgeSpec(fname, fx, compileCode, runs).value.pack;
      && (1 <= arg <= fx.listed ==> Reveal(pack, arg).Some? && Reveal(pack, arg).value.idx == arg)
      && (arg == 0 && fx.listed > 0 ==> Reveal(pack, arg).Some? && Reveal(pack, arg).value.idx == fx.listed)
      && (Reveal(pack, arg).None? <==> arg > fx.listed || arg < 1 - fx.listed)
  {
    JudgeReport(fname, fx, compileCode, runs);
  }

  // ---------------------------------------------------------------------------
  // Concrete runs
  // ---------------------------------------------------------------------------

  /** A bare file name with at least one non-dot character and no slash is its own stem. */
  lemma PlainStem(stem: string)
    requires forall k :: 0 <= k < |stem| ==> stem[k] != '/'
    requires |stem| > 0 && stem[0] != '.'
    ensures HasNonDot(stem, LastIndex(stem, '/') + 1, |stem|)
  {
    assert LastIndex(stem, '/') == -1;
  }

  /** `<stem>.c` is built with gcc into the binary `<stem>`. */
  lemma DispatchC(stem: string)
    requires forall k :: 0 <= k < |stem| ==> stem[k] != '/'
    requires |stem| > 0 && stem[0] != '.'
    ensures CompileCommand(stem + ".c") == Ok("gcc " + (stem + ".c") + " -o " + stem + " --std=c99 -lm")
  {
    PlainStem(stem);
    SplitExtOf(stem, ".c");
    CompileDispatch(stem + ".c");
  }

  /** `<stem>.py` has no compile command: the run stops at the lookup. */
  lemma DispatchPython(stem: string, fx: Fixtures, compileCode: int, runs: seq<Execution>)
    requires forall k :: 0 <= k < |stem| ==> stem[k] != '/'
    requires |stem| > 0 && stem[0] != '.'
    requires |runs| == fx.listed
    ensures JudgeSpec(stem + ".py", fx, compileCode, runs) == Err(UnsupportedLanguage(".py"))
  {
    PlainStem(stem);
    SplitExtOf(stem, ".py");
    CompileDispatch(stem + ".py");
  }

  /** A file such as `.c` or `dir/..c` has no extension for `splitext`, so
      it is rejected as an unsupported language before any compilation. */
  lemma LeadingDotsUnsupported(dir: string, dots: string, ext: string,
                               fx: Fixtures, compileCode: int, runs: seq<Execution>)
    requires dir == [] || dir[|dir| - 1] == '/'
    requires forall k :: 0 <= k < |dots| ==> dots[k] == '.'
    requires |ext| >= 1 && ext[0] == '.'
    requires forall k :: 1 <= k < |ext| ==> ext[k] != '.' && ext[k] != '/'
    requires |runs| == fx.listed
    ensures JudgeSpec(dir + dots + ext, fx, compileCode, runs) == Err(UnsupportedLanguage(""))
  {
    LeadingDotsNoExt(dir, dots, ext);
    assert "" !in CompileCmds;
    UnsupportedStopsFirst(dir + dots + ext, fx, compileCode, runs);
  }

  /** An echoing submission on one fixture `5\n` / `5\n` scores 1 out of 1. */
  lemma EchoAccepted(fname: string, elapsed: string, at: string)
    requires CompileCommand(fname).Ok?
    ensures var fx := Fixtures(1, map[1 := "5\n"], map[1 := "5\n"]);
      var runs := [Execution(Exited(0, "5\n"), elapsed, at)];
      var r := JudgeSpec(fname, fx, 0, runs);
      r.Ok? && r.value.score == 1 && r.value.maxScore == 1 && r.value.pack[0].status == Accepted
  {
    var fx := Fixtures(1, map[1 := "5\n"], map[1 := "5\n"]);
    var runs := [Execution(Exited(0, "5\n"), elapsed, at)];
    JudgeSucceeds(fname, fx, 0, runs);
    VerdictOfRecord(fname, fx, 0, runs, 0);
    JudgeReport(fname, fx, 0, runs);
    var pack := JudgeSpec(fname, fx, 0, runs).value.pack;
    assert pack == pack[..0] + [pack[0]];
    assert pack[..0] == [];
  }

  /** A first testcase that exits non-zero leaves `output` unbound: the run
      fails instead of recording RUNTIME_ERROR. */
  lemma FirstRuntimeErrorFails(fname: string, elapsed: string, at: string)
    requires CompileCommand(fname).Ok?
    ensures var fx := Fixtures(1, map[1 := "1"], map[1 := "1"]);
      JudgeSpec(fname, fx, 0, [Execution(Exited(1, ""), elapsed, at)]) == Err(UnboundOutput(1))
  {
    UnboundOutputExactly(fname, Fixtures(1, map[1 := "1"], map[1 := "1"]), 0, [Execution(Exited(1, ""), elapsed, at)], 1);
  }

  /** A runtime error right after a timeout records the timeout's
      `<no output>` sentinel as its output. */
  lemma RuntimeErrorAfterTimeout(fname: string, fx: Fixtures, compileCode: int, runs: seq<Execution>, j: nat)
    requires |runs| == fx.listed && JudgeSpec(fname, fx, compileCode, runs).Ok?
    requires 0 < j < fx.listed && runs[j - 1].outcome.TimedOut? && IsRuntimeError(runs[j].outcome)
    ensures var pack := JudgeSpec(fname, fx, compileCode, runs).value.pack;
      && |pack| == fx.listed
      && pack[j - 1].status == TimeLimitExceeded
      && pack[j].status == RuntimeError
      && pack[j].output == NoOutput
  {
    JudgeReport(fname, fx, compileCode, runs);
    var pack := JudgeSpec(fname, fx, compileCode, runs).value.pack;
    assert RecordAgrees(fx, runs, pack, j - 1);
    assert RecordAgrees(fx, runs, pack, j);
  }
}
