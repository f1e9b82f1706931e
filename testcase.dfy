/**
 * The record of one judged testcase (class `Testcase` in RCS.py): its fields,
 * the fixed-width runtime string built when it is constructed, and the
 * truncated detail view printed by `reveal`.
 */
module Testcases {

  /** The four per-testcase verdicts, with the codes 1..4 the judge uses for them. */
  datatype Verdict = Accepted | WrongAnswer | TimeLimitExceeded | RuntimeError

  /** The verdict code `_judge` assigns to the local `verdict`. */
  function Code(v: Verdict): (c: int)
    ensures 1 <= c <= 4
  {
    match v
    case Accepted => 1
    case WrongAnswer => 2
    case TimeLimitExceeded => 3
    case RuntimeError => 4
  }

  /** `VERDICT_MAP`: code to verdict (the colour codes of its labels are presentation). */
  const VerdictMap: map<int, Verdict> :=
    map[1 := Accepted, 2 := WrongAnswer, 3 := TimeLimitExceeded, 4 := RuntimeError]

  /** The label `VERDICT_MAP` shows for a verdict, without its terminal colours. */
  function Label(v: Verdict): string
  {
    match v
    case Accepted => "ACCEPTED"
    case WrongAnswer => "WRONG_ANSWER"
    case TimeLimitExceeded => "TIME_LIMIT_EXCEEDED"
    case RuntimeError => "RUNTIME_ERROR"
  }

  /** The short remark the judge stores beside each verdict. */
  function Remark(v: Verdict): string
  {
    match v
    case Accepted => "OK"
    case WrongAnswer => "WA"
    case TimeLimitExceeded => "TLE"
    case RuntimeError => "RTE"
  }

  /** Looking a verdict's code up in `VERDICT_MAP` gives the verdict back, and
      the map's keys are exactly the four codes. */
  lemma VerdictMapInverts(v: Verdict, c: int)
    ensures Code(v) in VerdictMap && VerdictMap[Code(v)] == v
    ensures c in VerdictMap <==> 1 <= c <= 4
    ensures c in VerdictMap ==> Code(VerdictMap[c]) == c
  {
  }

  /** Verdicts, codes, labels and remarks are in one-to-one correspondence. */
  lemma VerdictTagsDistinct(v: Verdict, w: Verdict)
    ensures Code(v) == Code(w) <==> v == w
    ensures Remark(v) == Remark(w) <==> v == w
    ensures Label(v) == Label(w) <==> v == w
  {
  }

  /**
   * One record. `input`, `output` and `answer` are the decoded blobs;
   * `runtime` is already the formatted runtime string.
   */
  datatype Testcase = Testcase(
    idx: nat,
    status: Verdict,
    remark: string,
    judgedAt: string,
    input: string,
    output: string,
    answer: string,
    runtime: string)

  /** Width of the runtime column. */
  const RuntimeWidth: nat := 5

  /**
   * `str(runtime)[:5]`, then one `'0'` appended if that is shorter than 5:
   * at least five characters give their first five, fewer gain exactly one
   * trailing zero, and the result never exceeds five characters.
   */
  function FormatRuntime(s: string): (r: string)
    ensures |s| >= RuntimeWidth ==> r == s[..RuntimeWidth]
    ensures |s| < RuntimeWidth ==> r == s + "0"
    ensures |r| <= RuntimeWidth
  {
    var cut := if |s| < RuntimeWidth then s else s[..RuntimeWidth];
    if |cut| < RuntimeWidth then cut + "0" else cut
  }

  /** The zero is appended once only: the column is exactly five wide precisely
      when the raw string had at least four characters. */
  lemma FormatRuntimeWidth(s: string)
    ensures |FormatRuntime(s)| == RuntimeWidth <==> |s| >= RuntimeWidth - 1
    ensures |FormatRuntime(s)| == if |s| < RuntimeWidth then |s| + 1 else RuntimeWidth
  {
  }

  /** The formatted runtime begins with the raw string (cut to five characters). */
  lemma FormatRuntimePrefix(s: string)
    ensures var n := if |s| < RuntimeWidth then |s| else RuntimeWidth;
      FormatRuntime(s)[..n] == s[..n]
  {
  }

  /**
   * `Testcase.__init__`: assigns the fields, cuts the runtime string to five
   * characters and then pads it once with a zero.
   */
  method NewTestcase(idx: nat, inp: string, out: string, ans: string, judgedAt: string,
                     runtime: string, status: Verdict, remark: string) returns (t: Testcase)
    ensures t == Testcase(idx, status, remark, judgedAt, inp, out, ans, FormatRuntime(runtime))
  {
    var rt := runtime[..if |runtime| < RuntimeWidth then |runtime| else RuntimeWidth];
    if |rt| < RuntimeWidth {
      rt := rt + "0";
    }
    t := Testcase(idx, status, remark, judgedAt, inp, out, ans, rt);
  }

  /** How many characters of each blob the detail view shows. */
  const CompressLimit: nat := 255

  /**
   * The `compress` helper of `reveal`: text of at most 255 characters is shown
   * unchanged; longer text is cut to its first 255 characters and "..."
   * appended, 258 characters in all.
   */
  function Compress(x: string): (r: string)
    ensures |x| <= CompressLimit ==> r == x
    ensures |x| > CompressLimit ==> r == x[..CompressLimit] + "..." && |r| == CompressLimit + 3
  {
    var head := if |x| <= CompressLimit then x else x[..CompressLimit];
    head + (if |x| > CompressLimit then "..." else "")
  }

  /** Compressing what was already compressed changes nothing more, and the
      result is never longer than 258 characters. */
  lemma CompressIdempotent(x: string)
    ensures Compress(Compress(x)) == Compress(x)
    ensures |Compress(x)| <= CompressLimit + 3
  {
    if |x| > CompressLimit {
      var c := Compress(x);
      assert c[..CompressLimit] == x[..CompressLimit];
    }
  }

  /** What `reveal` prints of a record. The remark is not part of it. */
  datatype Detail = Detail(
    idx: nat,
    status: Verdict,
    runtime: string,
    judgedAt: string,
    input: string,
    output: string,
    answer: string)

  /**
   * `Testcase.reveal`: the identity fields as stored and each of the three
   * blobs through `compress`. The record itself is a value and stays as it was.
   */
  function RevealDetail(t: Testcase): (d: Detail)
    ensures d.idx == t.idx && d.status == t.status && d.runtime == t.runtime && d.judgedAt == t.judgedAt
    ensures |t.input| <= CompressLimit ==> d.input == t.input
    ensures |t.output| <= CompressLimit ==> d.output == t.output
    ensures |t.answer| <= CompressLimit ==> d.answer == t.answer
    ensures |t.input| > CompressLimit ==> d.input == t.input[..CompressLimit] + "..."
    ensures |t.output| > CompressLimit ==> d.output == t.output[..CompressLimit] + "..."
    ensures |t.answer| > CompressLimit ==> d.answer == t.answer[..CompressLimit] + "..."
  {
    Detail(t.idx, t.status, t.runtime, t.judgedAt, Compress(t.input), Compress(t.output), Compress(t.answer))
  }
}
