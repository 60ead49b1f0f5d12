/** The verdict rules of the judge: the verdict of one test case, the running
    summary of a whole test set, and the encoding of a test's lines into the
    text a program reads and out of the text it writes. */
module Judge {
  import opened Text
  import opened Optional

  /** The five verdicts; `VerdictText` gives the text the judge shows. */
  datatype Verdict = AnswerCorrect | RuntimeError | TimeLimitExceeded | MemLimitExceeded | WrongAnswer

  function VerdictText(v: Verdict): string {
    match v
    case AnswerCorrect => "Answer Correct"
    case RuntimeError => "Runtime Error"
    case TimeLimitExceeded => "Time Limit Exceeded"
    case MemLimitExceeded => "Memory Limit Exceeded"
    case WrongAnswer => "Wrong Answer"
  }

  /** The verdicts are told apart by their texts, so comparing texts (as the
      judge does) is comparing verdicts. */
  lemma VerdictTextInjective(v: Verdict, w: Verdict)
    requires VerdictText(v) == VerdictText(w)
    ensures v == w
  {
    match v
    case AnswerCorrect => assert VerdictText(w)[0] == 'A';
    case RuntimeError => assert VerdictText(w)[0] == 'R';
    case TimeLimitExceeded => assert VerdictText(w)[0] == 'T';
    case MemLimitExceeded => assert VerdictText(w)[0] == 'M';
    case WrongAnswer => assert VerdictText(w)[0] == 'W';
  }

  /** A judge compares a program's output lines with the reference lines. */
  type JudgeFunction = (seq<string>, seq<string>) -> bool

  /** `_get_verdict`: a time-limit breach wins over a memory breach, which
      wins over a non-zero exit code; only a clean run is shown to the judge. */
  function GetVerdict(tle: bool, mle: bool, exitcode: int, judge: JudgeFunction,
                      stdout: seq<string>, expected: seq<string>): (v: Verdict)
    ensures v == TimeLimitExceeded <==> tle
    ensures v == MemLimitExceeded <==> !tle && mle
    ensures v == RuntimeError <==> !tle && !mle && exitcode != 0
    ensures v == AnswerCorrect <==> !tle && !mle && exitcode == 0 && judge(stdout, expected)
    ensures v == WrongAnswer <==> !tle && !mle && exitcode == 0 && !judge(stdout, expected)
  {
    if tle then TimeLimitExceeded
    else if mle then MemLimitExceeded
    else if exitcode != 0 then RuntimeError
    else if judge(stdout, expected) then AnswerCorrect
    else WrongAnswer
  }

  /** The record of one test case, with its verdict and whether it passed. */
  datatype TestcaseResult = TestcaseResult(
    exerciseInput: seq<string>, exerciseOutput: seq<string>,
    programStdout: seq<string>, programStderr: seq<string>,
    programExitcode: int, programTime: real, programTle: bool,
    programMemory: int, programMle: bool,
    verdict: Verdict, passed: bool)
  {
    /** As built by the constructor: passed exactly on "Answer Correct". */
    predicate WellFormed() {
      passed == (verdict == AnswerCorrect)
    }
  }

  /** `TestcaseResult.__init__`: keeps the run's data and fixes the verdict. */
  function NewTestcaseResult(exerciseInput: seq<string>, exerciseOutput: seq<string>,
                             programStdout: seq<string>, programStderr: seq<string>,
                             programExitcode: int, programTime: real, programTle: bool,
                             programMemory: int, programMle: bool,
                             judge: JudgeFunction): (tc: TestcaseResult)
    ensures tc.WellFormed()
    ensures tc.verdict == GetVerdict(programTle, programMle, programExitcode, judge, programStdout, exerciseOutput)
    ensures tc.passed <==> !programTle && !programMle && programExitcode == 0 && judge(programStdout, exerciseOutput)
    ensures tc.programTime == programTime && tc.programMemory == programMemory
  {
    var verdict := GetVerdict(programTle, programMle, programExitcode, judge, programStdout, exerciseOutput);
    TestcaseResult(exerciseInput, exerciseOutput, programStdout, programStderr,
                   programExitcode, programTime, programTle, programMemory, programMle,
                   verdict, verdict == AnswerCorrect)
  }

  function MaxReal(a: real, b: real): real { if a >= b then a else b }
  function MaxInt(a: int, b: int): int { if a >= b then a else b }

  /** The number of passed cases among `tcs`. */
  function CountPassed(tcs: seq<TestcaseResult>): nat {
    if tcs == [] then 0
    else CountPassed(tcs[..|tcs| - 1]) + (if tcs[|tcs| - 1].passed then 1 else 0)
  }

  /** The largest time among `tcs`, and 0 for none. */
  function MaxTime(tcs: seq<TestcaseResult>): real {
    if tcs == [] then 0.0 else MaxReal(MaxTime(tcs[..|tcs| - 1]), tcs[|tcs| - 1].programTime)
  }

  /** The largest memory among `tcs`, and 0 for none. */
  function MaxMemory(tcs: seq<TestcaseResult>): int {
    if tcs == [] then 0 else MaxInt(MaxMemory(tcs[..|tcs| - 1]), tcs[|tcs| - 1].programMemory)
  }

  /** The summary verdict of `tcs` added in order: "Answer Correct" until a
      case has another verdict, which then stays. */
  function FirstFailure(tcs: seq<TestcaseResult>): Verdict {
    if tcs == [] then AnswerCorrect
    else
      var before := FirstFailure(tcs[..|tcs| - 1]);
      if before == AnswerCorrect && tcs[|tcs| - 1].verdict != AnswerCorrect then tcs[|tcs| - 1].verdict
      else before
  }

  /** The summary of a test set, updated in place as cases are added. */
  class JudgeResult {
    var testcases: seq<TestcaseResult>
    var passed: int
    var total: int
    var maximumTime: real
    var maximumMemory: int
    var verdict: Verdict

    /** The counters, maxima and verdict summarise exactly the cases added. */
    ghost predicate Valid()
      reads this
    {
      passed == CountPassed(testcases) && total == |testcases| &&
      maximumTime == MaxTime(testcases) && maximumMemory == MaxMemory(testcases) &&
      verdict == FirstFailure(testcases)
    }

    /** `JudgeResult()`: no cases, nothing passed, "Answer Correct". */
    constructor ()
      ensures Valid()
      ensures testcases == [] && passed == 0 && total == 0
      ensures maximumTime == 0.0 && maximumMemory == 0 && verdict == AnswerCorrect
    {
      testcases := [];
      passed := 0;
      total := 0;
      maximumTime := 0.0;
      maximumMemory := 0;
      verdict := AnswerCorrect;
    }

    /** `JudgeResult(test_results)` as evidently intended: start from the
        empty summary and add the given cases in order. */
    constructor FromResults(testResults: seq<TestcaseResult>)
      ensures Valid() && testcases == testResults
    {
      testcases := [];
      passed := 0;
      total := 0;
      maximumTime := 0.0;
      maximumMemory := 0;
      verdict := AnswerCorrect;
      new;
      for i := 0 to |testResults|
        invariant Valid() && testcases == testResults[..i]
      {
        assert testResults[..i + 1] == testResults[..i] + [testResults[i]];
        AddResult(testResults[i]);
      }
    }

    /** `add_result`: append the case and update every summary field. */
    method AddResult(tc: TestcaseResult)
      requires Valid()
      modifies this
      ensures Valid()
      ensures testcases == old(testcases) + [tc]
      ensures passed == old(passed) + (if tc.passed then 1 else 0)
      ensures total == old(total) + 1
      ensures maximumTime == MaxReal(old(maximumTime), tc.programTime)
      ensures maximumMemory == MaxInt(old(maximumMemory), tc.programMemory)
      ensures verdict == (if old(verdict) == AnswerCorrect && tc.verdict != AnswerCorrect then tc.verdict else old(verdict))
    {
      testcases := testcases + [tc];
      passed := passed + (if tc.passed then 1 else 0);
      total := total + 1;
      maximumTime := MaxReal(maximumTime, tc.programTime);
      maximumMemory := MaxInt(maximumMemory, tc.programMemory);
      if verdict == AnswerCorrect && tc.verdict != AnswerCorrect {
        verdict := tc.verdict;
      }
      assert testcases[..|testcases| - 1] == old(testcases);
    }

    /** `__add__`: the same update, returning this very object. */
    method Plus(other: TestcaseResult) returns (r: JudgeResult)
      requires Valid()
      modifies this
      ensures r == this && Valid()
      ensures testcases == old(testcases) + [other]
      ensures passed == old(passed) + (if other.passed then 1 else 0)
      ensures total == old(total) + 1
      ensures maximumTime == MaxReal(old(maximumTime), other.programTime)
      ensures maximumMemory == MaxInt(old(maximumMemory), other.programMemory)
      ensures verdict == (if old(verdict) == AnswerCorrect && other.verdict != AnswerCorrect then other.verdict else old(verdict))
    {
      AddResult(other);
      r := this;
    }
  }

  /** The constructor with cases as written: it adds each case before the
      counters exist, so the first `add_result` fails reading `passed`
      (`None` here); with no cases it yields the empty summary. */
  method JudgeResultAsWritten(testResults: seq<TestcaseResult>) returns (r: Option<JudgeResult>)
    ensures r.None? <==> testResults != []
    ensures r.Some? ==> fresh(r.value) && r.value.Valid() && r.value.testcases == []
  {
    if testResults != [] {
      return None;
    }
    var empty := new JudgeResult();
    r := Some(empty);
  }

  /** Never more passed cases than cases. */
  lemma {:induction false} CountPassedAtMostTotal(tcs: seq<TestcaseResult>)
    ensures CountPassed(tcs) <= |tcs|
  {
    if tcs != [] {
      CountPassedAtMostTotal(tcs[..|tcs| - 1]);
    }
  }

  /** The maxima bound every case's time and memory and are never negative. */
  lemma {:induction false} MaximaBoundEveryCase(tcs: seq<TestcaseResult>)
    ensures MaxTime(tcs) >= 0.0 && MaxMemory(tcs) >= 0
    ensures forall i :: 0 <= i < |tcs| ==> tcs[i].programTime <= MaxTime(tcs) && tcs[i].programMemory <= MaxMemory(tcs)
  {
    if tcs != [] {
      var init := tcs[..|tcs| - 1];
      MaximaBoundEveryCase(init);
      assert forall i :: 0 <= i < |init| ==> tcs[i] == init[i];
    }
  }

  /** The maxima are attained: each is 0 or the value of some case. */
  lemma {:induction false} MaximaAttained(tcs: seq<TestcaseResult>)
    ensures MaxTime(tcs) == 0.0 || exists i :: 0 <= i < |tcs| && tcs[i].programTime == MaxTime(tcs)
    ensures MaxMemory(tcs) == 0 || exists i :: 0 <= i < |tcs| && tcs[i].programMemory == MaxMemory(tcs)
  {
    if tcs != [] {
      var init := tcs[..|tcs| - 1];
      MaximaAttained(init);
      assert forall i :: 0 <= i < |init| ==> tcs[i] == init[i];
    }
  }

  /** The summary verdict is "Answer Correct" exactly when every case added
      had that verdict. */
  lemma {:induction false} AllCorrectIffSummaryCorrect(tcs: seq<TestcaseResult>)
    ensures FirstFailure(tcs) == AnswerCorrect <==> forall i :: 0 <= i < |tcs| ==> tcs[i].verdict == AnswerCorrect
  {
    if tcs != [] {
      var init := tcs[..|tcs| - 1];
      AllCorrectIffSummaryCorrect(init);
      assert forall i :: 0 <= i < |init| ==> tcs[i] == init[i];
    }
  }

  /** Otherwise it is the verdict of the first case that was not correct. */
  lemma {:induction false} SummaryIsFirstFailure(tcs: seq<TestcaseResult>) returns (k: nat)
    requires FirstFailure(tcs) != AnswerCorrect
    ensures k < |tcs| && tcs[k].verdict == FirstFailure(tcs)
    ensures forall i :: 0 <= i < k ==> tcs[i].verdict == AnswerCorrect
  {
    var init := tcs[..|tcs| - 1];
    assert forall i :: 0 <= i < |init| ==> tcs[i] == init[i];
    if FirstFailure(init) == AnswerCorrect {
      AllCorrectIffSummaryCorrect(init);
      k := |tcs| - 1;
    } else {
      k := SummaryIsFirstFailure(init);
    }
  }

  /** Once the summary is a failure, adding more cases never changes it. */
  lemma {:induction false} FailureIsSticky(tcs: seq<TestcaseResult>, more: seq<TestcaseResult>)
    requires FirstFailure(tcs) != AnswerCorrect
    ensures FirstFailure(tcs + more) == FirstFailure(tcs)
    decreases |more|
  {
    if more == [] {
      assert tcs + more == tcs;
    } else {
      var init := more[..|more| - 1];
      FailureIsSticky(tcs, init);
      assert (tcs + more)[..|tcs + more| - 1] == tcs + init;
    }
  }

  /** For cases built by the constructor, all passed exactly when the summary
      verdict is "Answer Correct". */
  lemma {:induction false} AllPassedIffSummaryCorrect(tcs: seq<TestcaseResult>)
    requires forall i :: 0 <= i < |tcs| ==> tcs[i].WellFormed()
    ensures CountPassed(tcs) == |tcs| <==> FirstFailure(tcs) == AnswerCorrect
  {
    if tcs != [] {
      var init := tcs[..|tcs| - 1];
      assert forall i :: 0 <= i < |init| ==> tcs[i] == init[i];
      AllPassedIffSummaryCorrect(init);
      CountPassedAtMostTotal(init);
    }
  }

  /** `_encode_io`: every line followed by a newline, all concatenated.  The
      text is empty exactly for no lines, and otherwise ends with a newline;
      it has at least one character per line. */
  function EncodeIo(lines: seq<string>): (s: string)
    ensures s == [] <==> lines == []
    ensures lines != [] ==> s[|s| - 1] == '\n'
    ensures |s| >= |lines|
  {
    if lines == [] then [] else lines[0] + "\n" + EncodeIo(lines[1..])
  }

  /** The characters stripped from both ends of every decoded line. */
  const LINE_END: set<char> := {'\r', '\n'}

  /** `_decode_io`: strip surrounding whitespace from the whole text, split it
      at the newlines, and strip carriage returns and newlines from the ends of
      every piece.  There is always at least one line, and no line starts or
      ends with a carriage return or a newline. */
  function DecodeIo(text: string): (lines: seq<string>)
    ensures |lines| >= 1
    ensures forall i :: 0 <= i < |lines| ==>
              lines[i] == [] || (lines[i][0] !in LINE_END && lines[i][|lines[i]| - 1] !in LINE_END)
  {
    var pieces := Split(Strip(text, PY_WHITESPACE), '\n');
    seq(|pieces|, i requires 0 <= i < |pieces| => Strip(pieces[i], LINE_END))
  }

  /** The encoding is the lines joined by newlines, with one more newline. */
  lemma {:induction false} EncodeIoIsJoin(lines: seq<string>)
    requires lines != []
    ensures EncodeIo(lines) == Join(lines, "\n") + "\n"
  {
    if |lines| > 1 {
      EncodeIoIsJoin(lines[1..]);
    }
  }

  /** The joined text starts with the first line's first character ... */
  lemma JoinFirst(parts: seq<string>, sep: string)
    requires parts != [] && parts[0] != []
    ensures |Join(parts, sep)| > 0 && Join(parts, sep)[0] == parts[0][0]
  {
  }

  /** ... and ends with the last line's last character. */
  lemma {:induction false} JoinLast(parts: seq<string>, sep: string)
    requires parts != [] && parts[|parts| - 1] != []
    ensures var j, last := Join(parts, sep), parts[|parts| - 1];
      |j| > 0 && j[|j| - 1] == last[|last| - 1]
  {
    if |parts| > 1 {
      JoinLast(parts[1..], sep);
    }
  }

  /** Decoding undoes encoding for the lines a program can hand back intact:
      at least one line, no newline inside a line, no carriage return at a
      line's ends, and no whitespace at the very start or the very end (which
      the whole-text strip would remove). */
  lemma DecodeEncode(lines: seq<string>)
    requires lines != []
    requires forall i :: 0 <= i < |lines| ==> '\n' !in lines[i]
    requires forall i :: 0 <= i < |lines| ==> lines[i] == [] || (lines[i][0] != '\r' && lines[i][|lines[i]| - 1] != '\r')
    requires lines[0] != [] && lines[0][0] !in PY_WHITESPACE
    requires var last := lines[|lines| - 1]; last != [] && last[|last| - 1] !in PY_WHITESPACE
    ensures DecodeIo(EncodeIo(lines)) == lines
  {
    var joined := Join(lines, "\n");
    var text := EncodeIo(lines);
    EncodeIoIsJoin(lines);
    JoinFirst(lines, "\n");
    JoinLast(lines, "\n");
    assert text[|joined|] == '\n';
    StripAt(text, PY_WHITESPACE, 0, |joined|);
    assert text[0..|joined|] == joined;
    SplitJoin(lines, '\n');
    forall i | 0 <= i < |lines|
      ensures Strip(lines[i], LINE_END) == lines[i]
    {
      StripIntactLine(lines[i]);
    }
  }

  /** A line without newlines and without carriage returns at its ends
      survives the per-line strip. */
  lemma StripIntactLine(line: string)
    requires '\n' !in line
    requires line == [] || (line[0] != '\r' && line[|line| - 1] != '\r')
    ensures Strip(line, LINE_END) == line
  {
    if line != [] {
      assert line[0] in line && line[|line| - 1] in line;
    }
    StripAt(line, LINE_END, 0, |line|);
  }

  /** Decoding examples: an empty output and a lone newline are one empty
      line, and an encoded single line comes back. */
  lemma DecodeExamples()
    ensures DecodeIo("") == [""]
    ensures DecodeIo(EncodeIo([""])) == [""]
    ensures DecodeIo(EncodeIo(["5"])) == ["5"]
  {
    StripAt("", PY_WHITESPACE, 0, 0);
    StripAt("", LINE_END, 0, 0);
    assert EncodeIo([""]) == "\n";
    StripAt("\n", PY_WHITESPACE, 0, 0);
    DecodeEncode(["5"]);
  }
}
