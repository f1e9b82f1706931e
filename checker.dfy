/**
 * The judging engine (`Checker._judge` in RCS.py) and the reveal lookup.
 *
 * The world outside the judge is an input: the fixture directories, the
 * compiler's return code, and for each testcase what running the submission
 * came to, how long it took (as the text `str()` would give) and the
 * timestamp taken in the `finally` block.
 */
module Checker {
  import opened Wrappers
  import opened PyLib
  import opened Testcases

  /** `COMPILE_CMDS`: the two recognised source extensions and their command templates. */
  const CompileCmds: map<string, string> := map[
    ".c" := "gcc {} -o {} --std=c99 -lm",
    ".cpp" := "g++ {} -o {} --std=c++17"
  ]

  /** What the judge stores as output on a timeout. */
  const NoOutput: string := "<no output>"

  /** How a judging run can stop without writing `results.pkl`. */
  datatype JudgeError =
    | UnsupportedLanguage(ext: string)   // KeyError on the `COMPILE_CMDS` lookup
    | CompilationError(command: string)  // the compiler returned non-zero
    | MissingFixture(number: nat)        // an `inp{n}.txt` or `out{n}.txt` could not be read
    | UnboundOutput(number: nat)         // `output` read before any branch assigned it

  /** How one run of the submission ended. */
  datatype Outcome = TimedOut | Exited(code: int, stdout: string)

  /** One run: its outcome, the elapsed time as text and the judged-at timestamp. */
  datatype Execution = Execution(outcome: Outcome, elapsed: string, judgedAt: string)

  /**
   * The fixture directories: `listed` is the number of entries in `inputs/`,
   * and the maps hold the contents of `inputs/inp{n}.txt` and
   * `outputs/out{n}.txt` for each 1-based `n` that exists.
   */
  datatype Fixtures = Fixtures(listed: nat, inputs: map<nat, string>, outputs: map<nat, string>)

  /** A completed run: the compile command issued, the pack dumped to `results.pkl`, the score. */
  datatype Report = Report(command: string, pack: seq<Testcase>, score: nat, maxScore: nat)

  /** The loop's variables after some iterations: `score`, `output` (None while unbound) and `pack`. */
  datatype LoopState = LoopState(score: nat, output: Option<string>, pack: seq<Testcase>)

  // ---------------------------------------------------------------------------
  // Build step
  // ---------------------------------------------------------------------------

  /** The C template, filled in: `fname` goes to the first field, `stem` to the second. */
  lemma CCommand(fname: string, stem: string)
    ensures Format(CompileCmds[".c"], [fname, stem]) == Some("gcc " + fname + " -o " + stem + " --std=c99 -lm")
  {
    assert CompileCmds[".c"] == "gcc " + "{}" + " -o " + "{}" + " --std=c99 -lm";
    FormatTwoFields("gcc ", " -o ", " --std=c99 -lm", fname, stem);
  }

  /** The C++ template, filled in the same way. */
  lemma CppCommand(fname: string, stem: string)
    ensures Format(CompileCmds[".cpp"], [fname, stem]) == Some("g++ " + fname + " -o " + stem + " --std=c++17")
  {
    var t := "g++ " + "{}" + " -o " + "{}" + " --std=c++17";
    assert CompileCmds[".cpp"] == t;
    assert BraceFree("g++ ");
    assert BraceFree(" -o ");
    assert BraceFree(" --std=c++17");
    FormatTwoFields("g++ ", " -o ", " --std=c++17", fname, stem);
  }

  /**
   * `COMPILE_CMDS[ext].format(fname, stem)` with `stem, ext = splitext(fname)`
   * (CompileDispatch).
   */
  function CompileCommand(fname: string): Result<string, JudgeError>
  {
    var (stem, ext) := SplitExt(fname);
    if ext !in CompileCmds then Err(UnsupportedLanguage(ext))
    else
      CCommand(fname, stem);
      CppCommand(fname, stem);
      Ok(Format(CompileCmds[ext], [fname, stem]).value)
  }

  /**
   * A `.c` file is built with gcc and a `.cpp` file with g++, the file name
   * filling the first field of the template and its stem the second; any
   * other extension fails at the lookup.
   */
  lemma CompileDispatch(fname: string)
    ensures var (stem, ext) := SplitExt(fname);
      && (CompileCommand(fname).Err? <==> ext !in CompileCmds)
      && (CompileCommand(fname).Err? ==> CompileCommand(fname).error == UnsupportedLanguage(ext))
      && (ext == ".c" ==> CompileCommand(fname) == Ok("gcc " + fname + " -o " + stem + " --std=c99 -lm"))
      && (ext == ".cpp" ==> CompileCommand(fname) == Ok("g++ " + fname + " -o " + stem + " --std=c++17"))
  {
    var (stem, ext) := SplitExt(fname);
    CCommand(fname, stem);
    CppCommand(fname, stem);
  }

  // ---------------------------------------------------------------------------
  // One testcase
  // ---------------------------------------------------------------------------

  /** A non-zero exit that is not a timeout. */
  predicate IsRuntimeError(o: Outcome)
  {
    o.Exited? && o.code != 0
  }

  /**
   * The verdict of one run against the trimmed expected output `ans`, and the
   * value of `output` afterwards given its value `prev` before (None while
   * unbound). ClassifyVerdict states what it decides.
   */
  function Classify(o: Outcome, ans: string, prev: Option<string>): (Verdict, Option<string>)
  {
    match o
    case TimedOut => (TimeLimitExceeded, Some(NoOutput))
    case Exited(code, stdout) =>
      if code == 0 then
        var out := Strip(stdout);
        (if ans == out then Accepted else WrongAnswer, Some(out))
      else (RuntimeError, prev)
  }

  /**
   * A zero exit is accepted exactly when its trimmed stdout equals the trimmed
   * expected output and is a wrong answer otherwise, keeping the trimmed
   * stdout as `output`; a timeout stores the sentinel; a non-zero exit is a
   * runtime error and leaves `output` as it was.
   */
  lemma ClassifyVerdict(o: Outcome, ans: string, prev: Option<string>)
    ensures var (v, out) := Classify(o, ans, prev);
      && (v == Accepted <==> o.Exited? && o.code == 0 && Strip(o.stdout) == ans)
      && (v == WrongAnswer <==> o.Exited? && o.code == 0 && Strip(o.stdout) != ans)
      && (v == TimeLimitExceeded <==> o.TimedOut?)
      && (v == RuntimeError <==> IsRuntimeError(o))
      && (o.TimedOut? ==> out == Some(NoOutput))
      && (o.Exited? && o.code == 0 ==> out == Some(Strip(o.stdout)))
      && (IsRuntimeError(o) ==> out == prev)
  {
  }

  /** Iteration `i` of the loop (testcase number `i + 1`) run from state `s`. */
  function Step(fx: Fixtures, runs: seq<Execution>, i: nat, s: LoopState): Result<LoopState, JudgeError>
    requires i < |runs|
  {
    var n := i + 1;
    if n !in fx.inputs || n !in fx.outputs then Err(MissingFixture(n))
    else
      var inp := Strip(fx.inputs[n]);
      var ans := Strip(fx.outputs[n]);
      var (v, out) := Classify(runs[i].outcome, ans, s.output);
      if out.None? then Err(UnboundOutput(n))
      else
        var t := Testcase(n, v, Remark(v), runs[i].judgedAt, inp, out.value, ans, FormatRuntime(runs[i].elapsed));
        Ok(LoopState(s.score + (if v == Accepted then 1 else 0), out, s.pack + [t]))
  }

  /** The state after the first `k` iterations, or the error that stopped them. */
  function Loop(fx: Fixtures, runs: seq<Execution>, k: nat): Result<LoopState, JudgeError>
    requires k <= |runs|
  {
    if k == 0 then Ok(LoopState(0, None, []))
    else
      match Loop(fx, runs, k - 1)
      case Err(e) => Err(e)
      case Ok(s) => Step(fx, runs, k - 1, s)
  }

  /** What `_judge(fname)` comes to: the build step, then every testcase. */
  function JudgeSpec(fname: string, fx: Fixtures, compileCode: int, runs: seq<Execution>): Result<Report, JudgeError>
    requires |runs| == fx.listed
  {
    match CompileCommand(fname)
    case Err(e) => Err(e)
    case Ok(command) =>
      if compileCode != 0 then Err(CompilationError(command))
      else
        match Loop(fx, runs, fx.listed)
        case Err(e) => Err(e)
        case Ok(s) => Ok(Report(command, s.pack, s.score, fx.listed))
  }

  /**
   * `Checker._judge`: builds the submission and, if the compiler succeeded,
   * judges every testcase (JudgeAll). `runs[i]` stands for executing the
   * binary on testcase `i + 1`. An `Ok` result is what is dumped to
   * `results.pkl`; an `Err` result writes nothing.
   */
  method Judge(fname: string, fx: Fixtures, compileCode: int, runs: seq<Execution>)
      returns (r: Result<Report, JudgeError>)
    requires |runs| == fx.listed
    ensures r == JudgeSpec(fname, fx, compileCode, runs)
  {
    var testcases := fx.listed;
    var lookup := CompileCommand(fname);
    if lookup.Err? {
      return Err(lookup.error);
    }
    var command := lookup.value;
    if compileCode != 0 {
      return Err(CompilationError(command));
    }
    var loop := JudgeAll(fx, runs);
    if loop.Err? {
      return Err(loop.error);
    }
    r := Ok(Report(command, loop.value.pack, loop.value.score, testcases));
  }

  /**
   * The `for` loop of `_judge`: for each testcase in order, one iteration
   * updates `score` and `output` and appends one record to `pack`; the first
   * failing iteration aborts the whole loop.
   */
  method JudgeAll(fx: Fixtures, runs: seq<Execution>) returns (r: Result<LoopState, JudgeError>)
    requires |runs| == fx.listed
    ensures r == Loop(fx, runs, fx.listed)
  {
    var pack: seq<Testcase> := [];
    var score: nat := 0;
    var output: Option<string> := None;
    var testcases := fx.listed;
    var i := 0;
    while i < testcases
      invariant 0 <= i <= testcases
      invariant Loop(fx, runs, i) == Ok(LoopState(score, output, pack))
    {
      var judged := JudgeTestcase(fx, runs, i, score, output, pack);
      if judged.Err? {
        LoopStopped(fx, runs, i + 1, testcases, judged.error);
        return Err(judged.error);
      }
      score, output := judged.value.score, Some(judged.value.output);
      pack := pack + [judged.value.test];
      i := i + 1;
    }
    r := Ok(LoopState(score, output, pack));
  }

  /** What one iteration hands back to the loop: the new score and output, and the record. */
  datatype Judged = Judged(score: nat, output: string, test: Testcase)

  /**
   * The body of the `for` loop in `_judge` for testcase number `i + 1`, up to
   * the append: read both fixtures (a missing one aborts the run), classify
   * the run into `verdict` and `remark`, bump `score` on an accepted verdict,
   * look the status up in `VERDICT_MAP` and build the record. An RTE leaves
   * `output` as the previous testcase set it; if none did, building the
   * record fails.
   */
  method JudgeTestcase(fx: Fixtures, runs: seq<Execution>, i: nat, prevScore: nat, prevOutput: Option<string>,
                       ghost pack: seq<Testcase>) returns (r: Result<Judged, JudgeError>)
    requires i < |runs| && Loop(fx, runs, i) == Ok(LoopState(prevScore, prevOutput, pack))
    ensures r.Err? ==> Loop(fx, runs, i + 1) == Err(r.error)
    ensures r.Ok? ==> Loop(fx, runs, i + 1) == Ok(LoopState(r.value.score, Some(r.value.output), pack + [r.value.test]))
  {
    LoopNext(fx, runs, i, LoopState(prevScore, prevOutput, pack));
    var verdict := 0;
    var remark := "";
    var score, output := prevScore, prevOutput;
    if i + 1 !in fx.inputs || i + 1 !in fx.outputs {
      return Err(MissingFixture(i + 1));
    }
    var reqInput := Strip(fx.inputs[i + 1]);
    var reqOutput := Strip(fx.outputs[i + 1]);
    var run := runs[i];
    match run.outcome {
      case TimedOut =>
        output := Some(NoOutput);
        verdict := 3;
        remark := "TLE";
        VerdictMapInverts(TimeLimitExceeded, verdict);
      case Exited(code, stdout) =>
        if code == 0 {
          var out := Strip(stdout);
          output := Some(out);
          var diff := reqOutput == out;
          if diff {
            verdict, remark := 1, "OK";
            score := score + 1;
            VerdictMapInverts(Accepted, verdict);
          } else {
            verdict, remark := 2, "WA";
            VerdictMapInverts(WrongAnswer, verdict);
          }
        } else {
          remark := "RTE";
          verdict := 4;
          VerdictMapInverts(RuntimeError, verdict);
        }
    }
    var status := VerdictMap[verdict];
    if output.None? {
      return Err(UnboundOutput(i + 1));
    }
    var test := NewTestcase(i + 1, reqInput, output.value, reqOutput, run.judgedAt, run.elapsed, status, remark);
    StepAppends(fx, runs, i, LoopState(prevScore, prevOutput, pack), status, output.value);
    r := Ok(Judged(score, output.value, test));
  }

  /** An iteration whose fixtures exist and whose classification leaves `output`
      bound appends one record and adds one point for an accepted verdict. */
  lemma StepAppends(fx: Fixtures, runs: seq<Execution>, i: nat, s: LoopState, v: Verdict, out: string)
    requires i < |runs| && i + 1 in fx.inputs && i + 1 in fx.outputs
    requires Classify(runs[i].outcome, Strip(fx.outputs[i + 1]), s.output) == (v, Some(out))
    ensures Step(fx, runs, i, s) == Ok(LoopState(
      s.score + (if v == Accepted then 1 else 0),
      Some(out),
      s.pack + [Testcase(i + 1, v, Remark(v), runs[i].judgedAt, Strip(fx.inputs[i + 1]), out,
                         Strip(fx.outputs[i + 1]), FormatRuntime(runs[i].elapsed))]))
  {
  }

  /** One more iteration is one more `Step`. */
  lemma LoopNext(fx: Fixtures, runs: seq<Execution>, k: nat, s: LoopState)
    requires k < |runs| && Loop(fx, runs, k) == Ok(s)
    ensures Loop(fx, runs, k + 1) == Step(fx, runs, k, s)
  {
  }

  /** A failed prefix of the loop makes the next prefix fail the same way. */
  lemma LoopFailed(fx: Fixtures, runs: seq<Execution>, k: nat, e: JudgeError)
    requires k < |runs| && Loop(fx, runs, k) == Err(e)
    ensures Loop(fx, runs, k + 1) == Err(e)
  {
  }

  /** A loop that got through k iterations got through the first k - 1. */
  lemma LoopOkBefore(fx: Fixtures, runs: seq<Execution>, k: nat)
    requires 0 < k <= |runs| && Loop(fx, runs, k).Ok?
    ensures Loop(fx, runs, k - 1).Ok?
    ensures Loop(fx, runs, k) == Step(fx, runs, k - 1, Loop(fx, runs, k - 1).value)
  {
  }

  /** Once an iteration has failed, the run stays failed with the same error. */
  lemma {:induction false} LoopStopped(fx: Fixtures, runs: seq<Execution>, k: nat, m: nat, e: JudgeError)
    requires k <= m <= |runs| && Loop(fx, runs, k) == Err(e)
    ensures Loop(fx, runs, m) == Err(e)
  {
    if m > k {
      LoopStopped(fx, runs, k, m - 1, e);
      LoopFailed(fx, runs, m - 1, e);
    }
  }

  // ---------------------------------------------------------------------------
  // Reveal
  // ---------------------------------------------------------------------------

  /**
   * `pack[int(argv[2]) - 1].reveal()`: the argument is taken as 1-based, and
   * Python's negative indexing applies to what falls below 1; None is the
   * IndexError.
   */
  function Reveal(pack: seq<Testcase>, arg: int): (r: Option<Detail>)
    ensures r.Some? <==> 1 - |pack| <= arg <= |pack|
    ensures 1 <= arg <= |pack| ==> r == Some(RevealDetail(pack[arg - 1]))
    ensures 1 - |pack| <= arg <= 0 ==> r == Some(RevealDetail(pack[|pack| + arg - 1]))
  {
    match PyIndex(|pack|, arg - 1)
    case None => None
    case Some(j) => Some(RevealDetail(pack[j]))
  }
}
