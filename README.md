# RCS offline judge — a Dafny model

RCS is a single-file offline judge (`RCS.py`). `judge <file>` compiles a C or
C++ submission, runs it against the numbered fixtures `inputs/inp<k>.txt` and
`outputs/out<k>.txt`, classifies each run as ACCEPTED, WRONG_ANSWER,
TIME_LIMIT_EXCEEDED or RUNTIME_ERROR, and pickles the list of records ("the
pack") to `results.pkl`. `reveal <k>` loads that pack and shows record `k`
(Python negative indexing for k ≤ 0, so `reveal 0` shows the last record),
with each of its text blobs cut to 255 characters.

This project models the judging core and proves what it promises:

- `wrappers.dfy`: `Option` and `Result`.
- `pylib.dfy` (module `PyLib`): the Python library behaviour the judge relies
  on, written out. That is `bytes.strip()` over ASCII whitespace, POSIX
  `os.path.splitext` (only `/` separates components), `str.format` with automatically numbered `{}` fields,
  and list indexing with negative indices.
- `testcase.dfy` (module `Testcases`): the verdict table, the `Testcase`
  record, and the constructor's runtime formatting as an imperative method.
  It also has the `compress` helper and the view that `reveal` prints.
- `checker.dfy` (module `Checker`): the compile-command table and extension
  dispatch, and per-run classification. `_judge` is specified as a function
  (`JudgeSpec`, built from `Step` and `Loop`). Its imperative form is the
  method `Judge`, with `JudgeAll` for the `for` loop and `JudgeTestcase` for
  one iteration; each is proved equal to the specification. The module also
  has the `reveal` lookup.
- `checker_properties.dfy` (module `CheckerProperties`): lemmas about the
  specification. They cover the loop invariant, the score bound, pack
  ordering, classification record by record, which inputs succeed, and each
  way a run can abort. A few concrete runs are included.

The environment is passed in as inputs:

- `Fixtures` holds the fixture count (`len(listdir("inputs"))`) and the
  contents of the input and output files that exist, keyed by testcase
  number.
- The compiler's return code is an `int`.
- Each testcase's run is an `Execution`: its `Outcome` (timed out, or exited
  with a code and stdout), the string the runtime rendered to, and the
  timestamp string.

A run ends in one of two ways. It yields a `Report`: the compile command, the
pack, the score and the maximum score. Or it yields a `JudgeError`: the
C/C++-only `KeyError` (`UnsupportedLanguage`), a failed compile
(`CompilationError`), a missing fixture (`MissingFixture`), or the unbound
`output` variable (`UnboundOutput`). Only a `Report` corresponds to a
`results.pkl` being written.

Two behaviours of the code are modelled as written:

- **A runtime error reuses the previous output.** The non-zero-exit branch
  (`RCS.py:144-146`) does not assign `output`, so the record keeps the output
  of the testcase before it. That can be the `<no output>` of a preceding
  timeout (`CheckerProperties.RuntimeErrorAfterTimeout`).
- **A runtime error on testcase 1 aborts the run.** There `output` is still
  unbound, building the record raises, and nothing is dumped
  (`CheckerProperties.UnboundOutputExactly`,
  `CheckerProperties.FirstRuntimeErrorFails`).

Two details of the code are easy to miss:

- The detail view printed by `reveal` has no remark line
  (`RCS.py:41-47`), so `Testcases.Detail` has no remark field.
- The runtime is padded with a single `'0'`, so a runtime string shorter
  than four characters stays shorter than five
  (`Testcases.FormatRuntimeWidth`).

## Model

| member | source | states |
|---|---|---|
| PyLib.TrimLeftSpec | RCS.py:133-134 | the left trim of `bytes.strip()` removes only whitespace, keeps a suffix of the input, and leaves it starting with a non-space |
| PyLib.TrimRightSpec | RCS.py:133-134 | the right trim removes only trailing whitespace, keeps a prefix, and leaves it ending with a non-space |
| PyLib.StripSpec | RCS.py:133-134 | `strip()` yields a contiguous slice of the input that starts and ends with a non-space; everything removed before and after it is whitespace |
| PyLib.StripEmpty | RCS.py:139 | the strip is empty exactly when the whole string is whitespace |
| PyLib.StripIdempotent | RCS.py:139-140 | stripping an already stripped output changes nothing (a corollary of StripSpec; no other member relies on it) |
| PyLib.LastIndex | RCS.py:125 | the rfind used by `splitext`: -1 or an index holding the character, with none of it after |
| PyLib.SplitExt | RCS.py:125 | `splitext` splits the name into stem + extension that concatenate back to it; the extension is empty or a dot followed by no dot or slash; a non-empty extension leaves a root whose last component has a non-dot character (leading dots stay in the root) |
| PyLib.SplitExtOf | RCS.py:125 | a stem with a non-dot character after its last slash, plus a dotted suffix with no further dot or slash, splits back into exactly that stem and suffix |
| PyLib.SplitExtTakesExt | RCS.py:125 | whenever the name can be cut at a dot into such a root and suffix, `splitext` cuts it there: a non-empty extension is taken whenever one exists |
| PyLib.LeadingDotsNoExt | RCS.py:125 | a last component made only of dots before its final `.suffix` (`.c`, `dir/..c`) has an empty extension |
| PyLib.TrimLeft | RCS.py:133-134 | the leading half of `bytes.strip()`; see TrimLeftSpec |
| PyLib.TrimRight | RCS.py:133-134 | the trailing half of `bytes.strip()`; see TrimRightSpec |
| PyLib.Strip | RCS.py:133-134 | `bytes.strip()` as applied to both fixtures and to stdout (line 139); see StripSpec, StripEmpty, StripIdempotent |
| PyLib.Format | RCS.py:127 | `str.format` with `{}` fields and `{{`/`}}` escapes; see FormatLiteral, FormatTwoFields |
| PyLib.FormatLiteral | RCS.py:127 | `str.format` copies a brace-free prefix of the template unchanged |
| PyLib.FormatTwoFields | RCS.py:127 | a template with two `{}` fields formatted with two arguments substitutes them in order |
| PyLib.PyIndex | RCS.py:82 | Python list indexing: defined exactly for -n ≤ j < n, j itself for j ≥ 0, n + j for negative j |
| Testcases.Code | RCS.py:59-64 | the verdict codes lie in 1..4 |
| Testcases.Remark | RCS.py:142-152 | the remark stored for each verdict (`OK`, `WA`, `TLE`, `RTE`); see VerdictTagsDistinct, StepRecord |
| Testcases.VerdictMap | RCS.py:59-64 | `VERDICT_MAP` from codes 1..4 to verdicts; see VerdictMapInverts |
| Testcases.Label | RCS.py:60-63 | the verdict names of `VERDICT_MAP` without their ANSI colour codes; see VerdictTagsDistinct |
| Testcases.VerdictMapInverts | RCS.py:59-64 | `VERDICT_MAP` is defined exactly on 1..4 and is the inverse of the code of each verdict |
| Testcases.VerdictTagsDistinct | RCS.py:59-64 | distinct verdicts have distinct codes, labels and remarks |
| Testcases.FormatRuntime | RCS.py:21-23 | the runtime string is cut to its first 5 characters if it has at least 5, else padded with one `'0'`; never longer than 5 |
| Testcases.FormatRuntimeWidth | RCS.py:21-23 | the stored runtime has exactly 5 characters iff the rendered one has at least 4; otherwise it has one more than the original |
| Testcases.FormatRuntimePrefix | RCS.py:21-23 | the stored runtime starts with the rendered runtime's first at most 5 characters (a one-step corollary of FormatRuntime's ensures) |
| Testcases.NewTestcase | RCS.py:12-23 | the constructor stores every argument unchanged except the runtime, which it formats as `FormatRuntime` says |
| Testcases.Compress | RCS.py:40 | `compress` leaves strings of at most 255 characters unchanged and otherwise yields the first 255 followed by `...` (258 characters) |
| Testcases.CompressIdempotent | RCS.py:40 | `compress` yields at most 258 characters, and compressing a second time changes nothing (corollaries of Compress's ensures; the source never compresses twice) |
| Testcases.RevealDetail | RCS.py:38-47 | the detail view shows number, verdict, runtime and timestamp unchanged and each of input, output and expected output compressed |
| Checker.CompileCmds | RCS.py:54-57 | the `COMPILE_CMDS` table of the `.c` and `.cpp` templates; see CompileDispatch |
| Checker.NoOutput | RCS.py:150 | the `<no output>` sentinel stored on a timeout; see ClassifyVerdict |
| Checker.CompileCommand | RCS.py:125-127 | the `splitext` and `COMPILE_CMDS[ext].format(fname, stem)` lookup; see CompileDispatch |
| Checker.Classify | RCS.py:136-152 | the verdict of one run and the value of `output` after it; see ClassifyVerdict |
| Checker.Step | RCS.py:131-172 | one loop iteration on the specification side; see StepFails, StepRecord, JudgeTestcase |
| Checker.Loop | RCS.py:122-172 | the state after the first k iterations, or the error that stopped them; see LoopConsistent, LoopSucceeds, LoopStopped, JudgeAll |
| Checker.JudgeSpec | RCS.py:120-178 | `_judge` as a function of its inputs; see Judge, JudgeReport, JudgeSucceeds |
| Checker.CompileDispatch | RCS.py:54-57 | the lookup fails exactly when the extension is neither `.c` nor `.cpp`, reporting that extension; `.c` gives `gcc <file> -o <stem> --std=c99 -lm` and `.cpp` gives `g++ <file> -o <stem> --std=c++17` |
| Checker.ClassifyVerdict | RCS.py:136-152 | zero exit: ACCEPTED iff the trimmed stdout equals the trimmed expected output, else WRONG_ANSWER, output = trimmed stdout; timeout: TIME_LIMIT_EXCEEDED with `<no output>`; non-zero exit: RUNTIME_ERROR with `output` unchanged |
| Checker.JudgeTestcase | RCS.py:131-172 | one iteration: reads both fixtures (missing → abort), classifies the run through `VERDICT_MAP`, builds the record and appends it; its result is the specification's next loop state or error |
| Checker.JudgeAll | RCS.py:122-172 | the testcase loop from an empty pack, score 0 and unbound output equals the specification's state after all testcases, or the error that stopped it |
| Checker.Judge | RCS.py:120-178 | `_judge` as a whole equals `JudgeSpec`: dispatch, then the compile check, then the loop; the report carries the command, the pack, the score and the maximum score |
| Checker.LoopStopped | RCS.py:153-154 | once an iteration raises, the remaining testcases do not change the outcome |
| Checker.Reveal | RCS.py:82 | `reveal k` is defined exactly for 1 - len ≤ k ≤ len; for k ≥ 1 it shows record k - 1 and for k ≤ 0 record len + k - 1 (so 0 shows the last) |
| CheckerProperties.CountAcceptedBound | RCS.py:143 | the number of accepted records never exceeds the number of records |
| CheckerProperties.StepFails | RCS.py:133-166 | an iteration fails with a missing fixture exactly when one of its two files is absent, and with an unbound output exactly when both exist, nothing was output before, and the run is a runtime error |
| CheckerProperties.StepRecord | RCS.py:131-172 | a successful iteration appends one record numbered i + 1 with the trimmed fixtures, formatted runtime, timestamp and the remark of its verdict, and adds a point exactly for ACCEPTED |
| CheckerProperties.LoopConsistent | RCS.py:122-172 | after k iterations the pack has k records, record j is testcase j + 1 and agrees with its fixtures and run, the score counts the ACCEPTED records, and `output` is the last record's output |
| CheckerProperties.LoopSucceeds | RCS.py:131-166 | the loop over k testcases succeeds exactly when all of their fixtures exist and the first run is not a runtime error |
| CheckerProperties.JudgeReport | RCS.py:123-172 | a completed run has one record per testcase, numbered 1, 2, … in order, each agreeing with its fixtures and run; 0 ≤ score = number of ACCEPTED records ≤ max score = number of testcases |
| CheckerProperties.VerdictOfRecord | RCS.py:136-166 | classification of each stored record, with both directions of each verdict's condition and the output it stores; a runtime error is never record 1 and repeats the previous record's output |
| CheckerProperties.JudgeSucceeds | RCS.py:125-176 | results are written exactly when the extension is known, the compiler returns 0, every fixture exists and the first run is not a runtime error |
| CheckerProperties.UnsupportedStopsFirst | RCS.py:127 | an extension other than `.c`/`.cpp` stops the run before compiling, whatever the compiler or fixtures |
| CheckerProperties.CompileFailureStops | RCS.py:128-178 | a non-zero compiler return code stops the run without running any testcase or writing results, whatever the fixtures and runs |
| CheckerProperties.MissingFixtureIsFirst | RCS.py:133-154 | a run aborted for a missing fixture names the first testcase with a missing file; every earlier one had both |
| CheckerProperties.MissingFixtureAborts | RCS.py:133-176 | if testcase n is the first with a missing file and the run reaches it, the run aborts there and writes nothing |
| CheckerProperties.UnboundOutputExactly | RCS.py:144-166 | `output` is unbound exactly when testcase 1 exists and its run is a runtime error |
| CheckerProperties.RevealJudged | RCS.py:82 | on a stored pack, `reveal k` shows the record numbered k for 1 ≤ k ≤ len, `reveal 0` shows the last record, and exactly k > len or k < 1 - len is an index error |
| CheckerProperties.DispatchC | RCS.py:125-127 | a plain `<stem>.c` compiles with gcc into `<stem>` |
| CheckerProperties.LeadingDotsUnsupported | RCS.py:125-127 | a submission named like `.c` or `dir/..c` has no extension and is rejected as an unsupported language, whatever the compiler, fixtures and runs |
| CheckerProperties.DispatchPython | RCS.py:125-127 | a plain `<stem>.py` stops the run with the unknown extension `.py` |
| CheckerProperties.EchoAccepted | RCS.py:138-143 | a submission echoing its single input `5\n`, with expected output `5\n`, scores 1 out of 1 with ACCEPTED |
| CheckerProperties.FirstRuntimeErrorFails | RCS.py:144-166 | a single testcase whose run exits with code 1 makes the run fail instead of recording RUNTIME_ERROR |
| CheckerProperties.RuntimeErrorAfterTimeout | RCS.py:144-152 | a runtime error right after a timeout is stored with the timeout's `<no output>` as its output |

## Left out

- Command-line dispatch and password handling (`RCS.py:66-77, 87-102`) are
  not modelled. They are I/O around the core: `Judge` is what `judge <file>`
  reaches after the password check, and `Reveal` plays the part of
  `reveal <k>`.
- The `int(argv[2])` parse in `reveal` is left out: `Reveal` takes the
  already parsed integer.
- `_clean` (`RCS.py:113-117`) only runs shell commands and is not modelled.
- Compilation and testcase execution by `subprocess.run`, including the
  2-second timeout, are inputs: a compiler return code and one `Outcome` per
  testcase.
- `run(command)` at `RCS.py:128` passes one string with no `shell=True`. On
  POSIX that string is taken as the name of a program, so line 128 raises
  `FileNotFoundError` outside the `try`: no testcase runs and nothing is
  dumped. The model instead takes the compiler's return code as an input
  and returns the command string, which is what the call achieves on
  Windows.
- PyLib.SplitExt: models POSIX `splitext`, where only `/` separates path
  components. On Windows, where line 128 does start the compiler,
  `os.path` is `ntpath`, which also splits at `\`. For `sub\.c` the
  source's `splitext` yields `("sub\.c", "")`, so line 127 raises
  `KeyError('')`. The model yields `("sub\", ".c")` and a gcc command.
  Likewise `v1.2\main` has extension `''` in the source and `.2\main` in
  the model.
- Wall-clock time, `strftime` and `str(float)` enter as opaque strings
  (`Execution.elapsed`, `Execution.judgedAt`).
- Pickling and unpickling `results.pkl` are not modelled. Writing the file
  corresponds to a `Report`; `reveal` takes the pack directly.
- `_read` and `listdir` are not modelled. The fixture count and the fixture
  contents are the `Fixtures` input, and a missing key stands for a
  `FileNotFoundError`.
- A file in `inputs/` whose name does not follow `inp<k>.txt` counts towards
  the total but is never read. Only the total is modelled.
- Printing is not modelled: the table rows, separators, colours and the
  `COMPILATION_ERROR` banner. Verdicts are an enumeration, and
  `Testcases.Label` gives their names without ANSI escape codes.
- `.decode()` on the stored blobs is not modelled: text is modelled as a
  `string` throughout, so a decoding failure is not represented.
- `str.format` is modelled only for what the judge uses: automatically
  numbered `{}` fields and the `{{`/`}}` escapes. Numbered, named or
  formatted fields make `PyLib.Format` return `None`; Python would
  interpret them.
- Exceptions are not distinguished beyond `JudgeError`. An `OSError` from a
  missing binary is not modelled, and neither is the replacement of
  `FileNotFoundError` by a generic `Exception`.
- That `_judge` always gives the same result for the same inputs follows
  from `JudgeSpec` being a function; no separate lemma states it.
