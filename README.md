# sjudge core, modelled in Dafny

sjudge is a small judge for programming exercises. It runs a submitted program
on an exercise's test cases and compares each output with the reference output
through a judge function. It summarises the cases into a verdict and shortens
long outputs for display. The repository also ships reference programs for its
exercises. This project models the following parts of it and proves what they
promise:

- **The Cramer's-rule determinant engine** of the linear-equation program
  (`src/exercises/linear_algebra.cc`):
  - `Matrix` holds the two matrix transforms. Each is written as the loop the
    source runs and specified by a pure function.
  - `Determinant` holds the mathematical determinant `Det`, the three closed
    forms and the memoising evaluator, a class whose `map` field is the memo
    table.
  - `Cramer` holds the solver loop.
  - `Sums`, `PairExpansion` and `DeterminantRows` prove the row properties of
    the determinant that the first-row expansion relies on: scaling a row,
    exchanging two rows, and two equal rows.
- **Truncation** (`src/truncate.py`, module `Truncate`): the loop with its two
  budgets, proved equal to a recursive specification `TruncFrom`, and lemmas
  about that specification.
- **The judging rules** (`src/judge.py`, module `Judge`):
  - the verdict priority;
  - the test-case record;
  - the `JudgeResult` summary, a class updated in place by `AddResult`;
  - the encoding and decoding of a test's lines.
- **The two exact judges** (`src/judges/default_judge.py`,
  `src/judges/identical_judge.py`, module `Judges`). They rest on a model of
  Python's `str.strip`, `str.split`, `str.join` and `str(int)` in module `Text`.
- **The run command** (`src/command.py`, module `Command`).
- **The divisor-counting exercise and its reference solution**
  (`src/exercises/num_factors.py`, `src/solutions/num_factors.py`, module
  `NumFactors`).
- **The binary-to-decimal reference solution** (`src/solutions/dec2bin.cc`,
  module `Dec2Bin`).
- `Optional` holds the `Option` type shared by the modules above.

Modelling choices:

- Entries of matrices are exact `real`s.
- Python strings are `seq<char>`.
- C++ `unsigned long long` arithmetic is written out as arithmetic modulo
  2^64.
- The platform test of `get_command` and the judge used by a test case are
  parameters.

## Model

| member | source | states |
|---|---|---|
| Matrix.Minor | src/exercises/linear_algebra.cc:126-150 | the minor is (n-1)x(n-1), and entry (r,c) comes from row r + (r >= row) and column c + (c >= col) of the input |
| Matrix.ShrinkMatrix | src/exercises/linear_algebra.cc:132-147 | the nested loops with their row and column markers build exactly the minor |
| Matrix.ReplacedColumn | src/exercises/linear_algebra.cc:112-123 | column `col` holds the given values row by row and every other entry is unchanged |
| Matrix.ReplaceColumn | src/exercises/linear_algebra.cc:118-122 | the loop over the copied matrix yields exactly the replaced-column matrix |
| Matrix.ReplacedColumnIdempotent | src/exercises/linear_algebra.cc:118-120 | replacing the same column with the same values twice equals replacing it once |
| Determinant.DetOfSize1 | src/exercises/linear_algebra.cc:95-97 | the first-row expansion of a 1x1 matrix is its entry |
| Determinant.DetOfSize2 | src/exercises/linear_algebra.cc:100-102 | the first-row expansion of a 2x2 matrix is ad - bc |
| Determinant.DetOfSize3 | src/exercises/linear_algebra.cc:105-109 | the first-row expansion of a 3x3 matrix is the source's closed form |
| Determinant.Determinant1 | src/exercises/linear_algebra.cc:95-97 | `get_determinant1` equals the determinant |
| Determinant.Determinant2 | src/exercises/linear_algebra.cc:100-102 | `get_determinant2` equals the determinant |
| Determinant.Determinant3 | src/exercises/linear_algebra.cc:105-109 | `get_determinant3` equals the determinant |
| Determinant.DetScaleRow | src/exercises/linear_algebra.cc:80-88 | the expansion the engine computes is linear in each row: scaling one row by k scales the determinant by k |
| Determinant.CofactorSumScaleRow | src/exercises/linear_algebra.cc:83-88 | every partial sum of the expansion loop scales with the row |
| Determinant.CofactorTermScaleRow | src/exercises/linear_algebra.cc:84-86 | one term sign * a[0][i] * det(minor) scales with the row |
| Determinant.MinorOfScaledFirstRow | src/exercises/linear_algebra.cc:84-85 | removing row 0 removes the scaling of row 0 |
| Determinant.MinorOfScaledRow | src/exercises/linear_algebra.cc:84-85 | removing row 0 commutes with scaling a later row |
| Determinant.EngineValue | src/exercises/linear_algebra.cc:69-75 | the value `get_determinant` stands for: 0 on the empty matrix, and `get_determinant1`, `2` or `3` on sizes 1, 2 and 3 |
| DeterminantRows.CofactorSumIsSum | src/exercises/linear_algebra.cc:80-88 | after k rounds the expansion loop's result is the sum of its first k terms `sign * a[0][i] * det(minor)` |
| DeterminantRows.DetIsTermSum | src/exercises/linear_algebra.cc:80-88 | the determinant of a non-empty matrix is the sum of all terms of its first-row expansion |
| PairExpansion.SwapRows | src/exercises/linear_algebra.cc:80-88 | proof support for DetSwapRows, not code of the source: the row exchange in which the alternation of the expansion at these lines is stated; each of the two rows moves to the other's place and every other row stays |
| DeterminantRows.PairRowSum | src/exercises/linear_algebra.cc:84-86 | expanding a term's minor along its own first row (row 1 of the matrix) gives back the term |
| DeterminantRows.DetIsPairTotal | src/exercises/linear_algebra.cc:80-88 | the determinant is the total of the terms of the expansion along rows 0 and 1 together |
| DeterminantRows.PairTermSwapped | src/exercises/linear_algebra.cc:84-86 | exchanging rows 0 and 1 maps the two-row term of columns (i, j) to minus the term of (j, i) |
| Sums.SumExchange | src/exercises/linear_algebra.cc:80-88 | proof support for DetSwapRows, not code of the source: a double sum may be taken row by row or column by column |
| Sums.NegatedTransposeTotals | src/exercises/linear_algebra.cc:80-88 | proof support for DetSwapRows, not code of the source: a grid that is the negated transpose of another has the negated total |
| DeterminantRows.DetSwapFirstRows | src/exercises/linear_algebra.cc:80-88 | exchanging rows 0 and 1 negates the determinant |
| DeterminantRows.MinorOfSwappedRows | src/exercises/linear_algebra.cc:84-85 | deleting row 0 commutes with exchanging two later rows, which move up by one |
| DeterminantRows.DetSwapAdjacent | src/exercises/linear_algebra.cc:80-88 | exchanging two neighbouring rows negates the determinant: directly for rows 0 and 1, and through every minor otherwise |
| DeterminantRows.DetSwapRows | src/exercises/linear_algebra.cc:80-88 | exchanging any two distinct rows negates the determinant |
| DeterminantRows.DetEqualRows | src/exercises/linear_algebra.cc:80-88 | a matrix with two equal rows has determinant 0 |
| Determinant.DeterminantEngine.constructor | src/exercises/linear_algebra.cc:13 | the memo table starts empty and valid |
| Determinant.DeterminantEngine.GetDeterminant | src/exercises/linear_algebra.cc:69-92 | returns the determinant for every size from 1 on (0 for the empty matrix); keeps the invariant that every stored matrix maps to exactly its value; stores only matrices of size 0 or at least 4; never drops or changes an entry |
| Cramer.CramerValue | src/exercises/linear_algebra.cc:60 | the quotient the loop computes for unknown i; what it means for every size is stated by the three lemmas below |
| Cramer.CramerValueSwapEquations | src/exercises/linear_algebra.cc:57-60 | exchanging two equations of the system (two rows of A with the two entries of y) leaves every value unchanged |
| Cramer.CramerValueScaleEquation | src/exercises/linear_algebra.cc:57-60 | multiplying one equation (a row of A with its entry of y) by a non-zero factor leaves every value unchanged |
| Cramer.CramerValueOwnColumn | src/exercises/linear_algebra.cc:57-60 | a right-hand side equal to column i of A gives the value 1 for unknown i |
| Cramer.Solve | src/exercises/linear_algebra.cc:57-60 | for det(A) != 0, value i is det(A with column i := y) / det(A), and the shared memo table stays valid and only grows |
| Cramer.CramerValues2x2 | src/exercises/linear_algebra.cc:57-60 | on a 2x2 system the two values are the textbook closed forms |
| Cramer.ReplacedDet2x2 | src/exercises/linear_algebra.cc:112-123 | the two 2x2 Cramer determinants in closed form |
| Cramer.ClosedFormSolves2x2 | src/exercises/linear_algebra.cc:57-60 | those closed forms satisfy both equations of the system |
| Cramer.OneByOneExample | src/exercises/linear_algebra.cc:57-60 | 5x = 10 gives 2 |
| Cramer.TwoByTwoExample | src/exercises/linear_algebra.cc:57-60 | x + 2y = 5, 3x + 4y = 6 gives determinant -2 and values -4 and 4.5 |
| Truncate.PyPrefix | src/truncate.py:47 | Python's `line[:k]`, including a negative `k`: a prefix of the line of the length Python gives |
| Truncate.TruncFrom | src/truncate.py:45-60 | the loop's output has at most one line more than its input and is empty exactly when the input is |
| Truncate.TruncFromKeepsOrMarks | src/truncate.py:45-62 | the loop either returns every line unchanged or ends its output with the marker |
| Truncate.Truncated | src/truncate.py:38-62 | no limits return the list as it is; otherwise the list comes back unchanged or ends with the marker, with at most one line more |
| Truncate.Truncate | src/truncate.py:38-62 | the loop with its two budgets, the early exits and the marker returns exactly `Truncated`; with both limits absent it returns the input |
| Truncate.TruncFromAt | src/truncate.py:45-60 | one iteration of the loop: the character test before the line test, and the marker after a line that uses up the budget exactly, unless it was the last line |
| Truncate.WholeLines | src/truncate.py:54-56 | the number of lines copied whole is at most the number of lines |
| Truncate.TruncShape | src/truncate.py:45-62 | the output is all of `s`; or its first k lines and one final marker; or those, then line k cut to the remaining budget, then the marker |
| Truncate.ShapeCons | src/truncate.py:54-56 | copying one whole line and then a shape of the rest gives a shape of the whole |
| Truncate.TruncCharBudget | src/truncate.py:46-48 | with a non-negative limit the lines copied whole fit in it, and a cut line fills it exactly |
| Truncate.TruncLineBudget | src/truncate.py:50-56 | at most `nl_limit` lines are copied whole, and none when it is not positive |
| Truncate.TruncWithinLimits | src/truncate.py:45-62 | fewer characters than the limit and no more lines than the line limit leave `s` unchanged |
| Truncate.TruncateExamples | tests/truncate_test.py:6-20 | the test suite's eight cases on `["abc", "def"]` |
| Judge.VerdictTextInjective | src/judge.py:21-25 | the five verdict texts are pairwise different |
| Judge.GetVerdict | src/judge.py:80-88 | time limit before memory limit before exit code before the judge, with each of the five verdicts as an if-and-only-if |
| Judge.NewTestcaseResult | src/judge.py:57-72 | the record keeps its run data, its verdict is `_get_verdict`'s, and it passed exactly on a clean run the judge accepts |
| Judge.JudgeResult.constructor | src/judge.py:102-108 | no cases, nothing passed, maxima 0, verdict "Answer Correct" |
| Judge.JudgeResult.AddResult | src/judge.py:127-136 | appends the case, adds 1 to total and 1 to passed exactly when the case passed, raises the maxima and keeps the first failing verdict; the summary stays valid |
| Judge.JudgeResult.Plus | src/judge.py:110-112 | the same update, returning the same object |
| Judge.JudgeResult.FromResults | src/judge.py:92-108 | the corrected constructor with cases: the summary of exactly the given cases |
| Judge.JudgeResultAsWritten | src/judge.py:98-103 | the constructor as written fails on every non-empty list and yields the empty summary otherwise |
| Judge.CountPassedAtMostTotal | src/judge.py:129-130 | 0 <= passed <= total |
| Judge.MaximaBoundEveryCase | src/judge.py:132-133 | the maxima are non-negative and at least every case's time and memory |
| Judge.MaximaAttained | src/judge.py:132-133 | each maximum is 0 or the value of some case |
| Judge.AllCorrectIffSummaryCorrect | src/judge.py:135-136 | the summary verdict is "Answer Correct" exactly when every case's verdict is |
| Judge.SummaryIsFirstFailure | src/judge.py:135-136 | otherwise it is the verdict of the first case that was not correct |
| Judge.FailureIsSticky | src/judge.py:135-136 | once the summary is a failure, later cases never change it |
| Judge.AllPassedIffSummaryCorrect | src/judge.py:129-136 | for records built by the constructor, passed == total exactly when the summary is "Answer Correct" |
| Judge.EncodeIo | src/judge.py:222-223 | the encoding is empty exactly for no lines, otherwise ends with a newline, and has at least one character per line |
| Judge.EncodeIoIsJoin | src/judge.py:222-223 | the encoding is the lines joined by newlines, plus a final newline |
| Judge.DecodeIo | src/judge.py:226-227 | at least one line, and no line starts or ends with a carriage return or a newline |
| Judge.StripIntactLine | src/judge.py:227 | a line with no newline and no carriage return at its ends survives the per-line strip |
| Judge.DecodeEncode | src/judge.py:222-227 | decoding undoes encoding for non-empty line lists with no newline in a line, no carriage return at a line's ends, and no whitespace at the text's two ends |
| Judge.DecodeExamples | src/judge.py:226-227 | empty output decodes to one empty line, and a single encoded line comes back |
| Text.Strip | src/judges/default_judge.py:24-25 | `str.strip`: the result neither starts nor ends with a stripped character |
| Text.StripAt | src/judges/default_judge.py:24-25 | the strip is the unique middle piece with only stripped characters around it and none at its ends |
| Text.StripSurrounded | src/judges/default_judge.py:24-25 | stripped characters around a piece do not change its strip |
| Text.StripAppended | src/judges/default_judge.py:24 | a character outside the stripped set, appended to a string, ends its strip, and the strip grows |
| Text.Split | src/judge.py:227 | `str.split` on one character: at least one piece, no piece holds the separator, and joining the pieces gives the string back |
| Text.SplitJoin | src/judge.py:227 | splitting undoes joining when no piece holds the separator |
| Text.DecimalRoundTrip | src/exercises/num_factors.py:53 | reading `str(n)` back gives n |
| Text.DecimalInjective | src/exercises/num_factors.py:53 | different numbers print differently |
| Judges.DefaultJudge | src/judges/default_judge.py:12-25 | `default_judge` accepts exactly when both outputs, with spaces and tabs stripped from both ends of every line, are the same list of lines |
| Judges.StripPadded | src/judges/default_judge.py:9 | padding a line with spaces and tabs on either side does not change its strip |
| Judges.PaddedOutputAccepted | src/judges/default_judge.py:21-25 | the reference with any space and tab padding on every line is accepted |
| Judges.DefaultJudgeSymmetric | src/judges/default_judge.py:21-25 | the default judge is symmetric in its arguments |
| Judges.DefaultJudgeReflexive | tests/judges_test.py:6-10 | every output passes against itself, the empty one included |
| Judges.SignificantCharacterRejected | src/judges/default_judge.py:9-25 | appending any character other than a space or a tab to any line of the reference makes the output rejected |
| Judges.CarriageReturnIsSignificant | src/judges/default_judge.py:9 | for instance, `abc` followed by a carriage return does not pass against `abc` |
| Judges.DefaultJudgeAcceptsExamples | tests/judges_test.py:6-14 | the accepting cases of the test suite, with unpadded reference lines |
| Judges.DefaultJudgeAcceptsPaddedReference | tests/judges_test.py:15-16 | the accepting cases of the test suite, with padded reference lines |
| Judges.DefaultJudgeRejectsExamples | tests/judges_test.py:19-29 | the rejecting cases of the test suite: a missing or extra line, or different content |
| Judges.IdenticalJudge | src/judges/identical_judge.py:9-21 | `identical_judge` accepts exactly equal outputs: the same number of lines, each the same |
| Judges.IdenticalImpliesDefault | src/judges/identical_judge.py:18-21 | whatever the identical judge accepts, the default judge accepts |
| Judges.IdenticalJudgeStricter | tests/judges_test.py:83-85 | padded lines are accepted by the default judge and rejected by the identical one |
| Judges.IdenticalJudgeExamples | tests/judges_test.py:77-94 | all fourteen asserts of the suite's identical-judge test: four accepted pairs and ten rejected ones |
| Command.Extension | src/command.py:34 | the extension has no dot, is a suffix of the name, and is either the whole name or follows a dot |
| Command.ExtensionUnique | src/command.py:34 | it is the only such suffix: the text after the last dot, or the whole name |
| Command.GetCommand | src/command.py:25-38 | the command for a file always ends with the file's name |
| Command.CommandFrom | src/command.py:35-38 | the command always ends with the file name |
| Command.LanguagesDisjoint | src/command.py:15-19 | no extension belongs to two languages |
| Command.CommandFromFinds | src/command.py:35-37 | in a table with no shared extension, the language holding the extension gives the prefix, whatever the order |
| Command.CommandFromDefault | src/command.py:38 | an extension of no language gives `./` + name |
| Command.GetCommandCases | src/command.py:15-38 | jar and js map to the same command on both platforms, py and pyc map to `python3` off Windows and `python` on it, anything else maps to `./` |
| Command.GetCommandNoExtension | tests/command_test.py:10-11 | `main` runs as `./main` |
| Command.GetCommandUnknownExtension | tests/command_test.py:12 | `main.exe` runs as `./main.exe` |
| Command.GetCommandPython | tests/command_test.py:16-18 | `main.py` runs with the platform's Python |
| Command.GetCommandCompiledPython | tests/command_test.py:20-21 | `main.pyc` runs with the platform's Python |
| NumFactors.ISqrt | src/exercises/num_factors.py:49 | `floor(sqrt(x))`: r*r <= x < (r+1)*(r+1) |
| NumFactors.NumFactors | src/exercises/num_factors.py:44-53 | `inf` for 0; otherwise the decimal text of the number of divisors |
| NumFactors.SolutionNumFactors | src/solutions/num_factors.py:5-13 | the solution prints the same text the exercise expects, for every x |
| NumFactors.FactorTally | src/exercises/num_factors.py:49-52 | after k candidates the counter is at most 2k |
| NumFactors.TallyMonotone | src/exercises/num_factors.py:50-52 | the counter never decreases |
| NumFactors.ReachedStepSet | src/exercises/num_factors.py:50-52 | a candidate up to the root adds to the divisors reached exactly itself and its partner when it divides x, and nothing otherwise; neither was reached before |
| NumFactors.ReachedStep | src/exercises/num_factors.py:50-52 | so the number reached grows by the candidate's contribution: 2, or 1 for the root of a square, or 0 |
| NumFactors.ReachedAll | src/exercises/num_factors.py:49 | at the root every divisor has been reached |
| NumFactors.TallyCountsDivisors | src/exercises/num_factors.py:49-52 | the loop counts every divisor exactly once |
| NumFactors.DivisorCountBound | src/solutions/num_factors.py:8-12 | the count is at most 2 * floor(sqrt(x)) |
| NumFactors.ContributionBelowRoot | src/exercises/num_factors.py:52 | below the root a divisor is never its own partner |
| NumFactors.ContributionAtRoot | src/exercises/num_factors.py:52 | the root adds exactly 1 when x is its square |
| NumFactors.OddIffSquare | src/exercises/num_factors.py:52 | the count is odd exactly when x is a perfect square |
| Dec2Bin.BinValue | src/solutions/dec2bin.cc:17 | the binary value of a string of n characters is below 2^n |
| Dec2Bin.CStr | src/solutions/dec2bin.cc:10-13 | the buffer's C string: the characters before the first terminator |
| Dec2Bin.DecodeToken | src/solutions/dec2bin.cc:15-17 | the loop yields the binary value of the string ('1' is 1, anything else 0), below 2^64, without a shift ever losing a bit |
| Dec2Bin.DecodeAll | src/solutions/dec2bin.cc:12-19 | one line per string, in order, each the decimal value of its own string only |
| Dec2Bin.LeadingZeros | src/solutions/dec2bin.cc:17 | leading zeros do not change the value |
| Dec2Bin.Bin | src/exercises/dec2bin.py:41-43 | `bin(X)[2:]`: binary digits with no leading zero |
| Dec2Bin.BinRoundTrip | src/exercises/dec2bin.py:41-43 | reading `bin(X)[2:]` back gives X |
| Dec2Bin.BinLength | src/solutions/dec2bin.cc:10 | `bin(X)[2:]` for X below 2^64 fits the 64-character buffer |
| Dec2Bin.DecodeTestValue | src/solutions/dec2bin.cc:15-17 | every test case of the exercise, X in [1, 2^64), decodes to X |

## Left out

- Floating point in the linear-equation program: `long double` rounding, `std::round` and the `(short)` cast of the printed values. Entries are exact reals.
- Cramer.Solve: requires det(A) != 0. A zero determinant is a division by zero in the source and has no meaning there.
- Cramer.Solve: correctness, meaning the values satisfy the system, is proved only for 2x2 systems (CramerValues2x2 with ClosedFormSolves2x2), not for every size.
- Cramer.CramerValue: that the values solve A·x = y is proved only for 2x2 systems. For every size only the invariance under exchanging or scaling equations, and the value on a column of A, are proved; the general statement needs expansion along a column, which is not part of this model.
- The determinant program's input parsing and output printing.
- Determinant.DeterminantEngine: the memo table is the state of one object rather than a process-wide global.
- Determinant.DeterminantEngine.GetDeterminant: requires `|m| == size`. The source never calls it otherwise.
- Determinant.Det: the empty matrix has determinant 1, the mathematical convention. The engine's own value on it, 0, is `EngineValue`.
- Determinant.Det: invariance under transposition, det(A^T) = det(A), is not proved. It needs the expansion along a column, which the engine never performs; the row properties (scaling, exchange, equal rows) are proved instead.
- Determinant.Det, Determinant.CofactorSum: their contracts are stated as lemmas (DetIsTermSum, CofactorSumIsSum and the size, scaling and exchange lemmas), not as `ensures` on the functions, because every proof that unfolds the expansion would then carry them.
- The floating-point judge and the lookup of a judge by its name. A test case receives its judge as a function.
- Judge.NewTestcaseResult: the judge function is not stored in the record.
- Judge.NewTestcaseResult: the default argument values of `TestcaseResult.__init__` (exit code `False`, time and memory 0, no limit exceeded, the `default` judge) are not modelled; every argument is given explicitly.
- Running programs, measuring time and memory, `judge_file` and `judge_one`. These are processes, clocks and printing.
- Indexing and iteration of a `JudgeResult`. They expose `testcases`, which is a field here.
- The platform test of `get_command` is a boolean parameter, because `platform.system()` is a foreign call.
- The test that adds a language to `LANGUAGES` and expects an `AssertionError`. The code never raises one.
- Command: the command templates are modelled as prefixes of the file name, since each has one `{}` at its end.
- NumFactors.ISqrt: an integer square root stands in for `floor(math.sqrt(x))`. Input is a natural number; a negative one makes `math.sqrt` raise.
- Reading the number from standard input and printing the result.
- Dec2Bin.DecodeToken: requires at most 64 characters. A longer string overflows the 65-byte buffer in the source, and that behaviour is undefined.
- Reading `T` and the strings from standard input.
- The random test generators, except `bin(X)[2:]`, which is modelled as `Dec2Bin.Bin`.
- Text: `str.strip` and `str.split` are modelled on the characters used here. There is no Unicode normalisation.
- The tests for the verdict module and the display module target functions the source does not define, so they are not modelled.

## Findings

| source | as written | input that shows it | evidently intended | confidence | as-written member | corrected member |
|---|---|---|---|---|---|---|
| src/judge.py:98-103 | the constructor calls `add_result` for each given case before `passed`, `total`, the maxima and `verdict` are assigned, so the first call fails reading `self.passed` | `JudgeResult([tc])` for any test case `tc` | set up the empty summary first, then add the cases in order | not executed | Judge.JudgeResultAsWritten | Judge.JudgeResult.FromResults |
