/** The two exact-comparison judges.  The `default` judge accepts the
    program's output when it has as many lines as the reference and every pair
    of lines agrees once spaces and tabs are stripped from both ends; the
    `identical` judge demands the very same lines. */
module Judges {
  import opened Text

  /** Only these two characters are stripped; every other one, `'\r'`
      included, is significant. */
  const STRIP_VALUES: set<char> := {' ', '\t'}

  /** Every line with spaces and tabs stripped from both ends. */
  function StrippedLines(lines: seq<string>): (r: seq<string>)
    ensures |r| == |lines|
    ensures forall i :: 0 <= i < |lines| ==> r[i] == Strip(lines[i], STRIP_VALUES)
  {
    seq(|lines|, i requires 0 <= i < |lines| => Strip(lines[i], STRIP_VALUES))
  }

  /** `default_judge`: a length check, then a line-by-line comparison of the
      stripped lines.  It accepts exactly when both outputs strip to the same
      list of lines. */
  predicate DefaultJudge(programOutput: seq<string>, expectedOutput: seq<string>): (ok: bool)
    ensures ok <==> StrippedLines(programOutput) == StrippedLines(expectedOutput)
  {
    |programOutput| == |expectedOutput| &&
    forall i :: 0 <= i < |programOutput| ==>
      Strip(programOutput[i], STRIP_VALUES) == Strip(expectedOutput[i], STRIP_VALUES)
  }

  /** Padding a line with spaces and tabs on either side does not change its
      strip: the judge compares lines exactly up to such padding. */
  lemma StripPadded(before: string, line: string, after: string)
    requires forall k :: 0 <= k < |before| ==> before[k] in STRIP_VALUES
    requires forall k :: 0 <= k < |after| ==> after[k] in STRIP_VALUES
    ensures Strip(before + line + after, STRIP_VALUES) == Strip(line, STRIP_VALUES)
  {
    var x := before + line + after;
    var b, e := |before|, |before| + |line|;
    forall m | 0 <= m < b ensures x[m] in STRIP_VALUES {
      assert x[m] == before[m];
    }
    forall m | e <= m < |x| ensures x[m] in STRIP_VALUES {
      assert x[m] == after[m - e];
    }
    assert x[b..e] == line;
    StripSurrounded(x, STRIP_VALUES, b, e);
  }

  /** Padding every reference line with spaces and tabs, on either side and
      by any amount, still passes. */
  lemma PaddedOutputAccepted(expected: seq<string>, before: seq<string>, after: seq<string>)
    requires |before| == |expected| && |after| == |expected|
    requires forall i :: 0 <= i < |expected| ==>
               (forall k :: 0 <= k < |before[i]| ==> before[i][k] in STRIP_VALUES) &&
               (forall k :: 0 <= k < |after[i]| ==> after[i][k] in STRIP_VALUES)
    ensures DefaultJudge(seq(|expected|, i requires 0 <= i < |expected| => before[i] + expected[i] + after[i]), expected)
  {
    var padded := seq(|expected|, i requires 0 <= i < |expected| => before[i] + expected[i] + after[i]);
    forall i | 0 <= i < |expected|
      ensures Strip(padded[i], STRIP_VALUES) == Strip(expected[i], STRIP_VALUES)
    {
      StripPadded(before[i], expected[i], after[i]);
    }
  }

  /** The judge does not care which side is the program's. */
  lemma DefaultJudgeSymmetric(a: seq<string>, b: seq<string>)
    ensures DefaultJudge(a, b) == DefaultJudge(b, a)
  {
  }

  /** Every output passes against itself; in particular two empty outputs agree. */
  lemma DefaultJudgeReflexive(a: seq<string>)
    ensures DefaultJudge(a, a)
  {
  }

  /** Only spaces and tabs are stripped: a line that gains any other
      character at its end, a carriage return included, no longer matches
      its reference, so the output is rejected. */
  lemma SignificantCharacterRejected(expected: seq<string>, i: nat, c: char)
    requires i < |expected| && c !in STRIP_VALUES
    ensures !DefaultJudge(expected[i := expected[i] + [c]], expected)
  {
    var output := expected[i := expected[i] + [c]];
    StripAppended(expected[i], STRIP_VALUES, c);
    assert Strip(output[i], STRIP_VALUES) != Strip(expected[i], STRIP_VALUES);
  }

  /** For instance, a trailing carriage return is not whitespace to this
      judge. */
  lemma CarriageReturnIsSignificant()
    ensures !DefaultJudge(["abc\r"], ["abc"])
  {
    assert "abc" + ['\r'] == "abc\r";
    assert ["abc"][0 := "abc\r"] == ["abc\r"];
    SignificantCharacterRejected(["abc"], 0, '\r');
  }

  // The strips of the lines in the test suite, unpadded, padded by one space
  // and padded widely; the literals are evaluated a few at a time, the widely
  // padded ones each on its own.
  lemma StripPlainLines()
    ensures Strip("abc", STRIP_VALUES) == "abc" && Strip("def", STRIP_VALUES) == "def"
  {
    StripAt("abc", STRIP_VALUES, 0, 3);
    StripAt("def", STRIP_VALUES, 0, 3);
  }

  lemma StripSpacedLines()
    ensures Strip(" abc ", STRIP_VALUES) == "abc" && Strip(" def ", STRIP_VALUES) == "def"
  {
    assert Strip(" abc ", STRIP_VALUES) == "abc" by {
      StripAt(" abc ", STRIP_VALUES, 1, 4);
      assert " abc "[1..4] == "abc";
    }
    assert Strip(" def ", STRIP_VALUES) == "def" by {
      StripAt(" def ", STRIP_VALUES, 1, 4);
      assert " def "[1..4] == "def";
    }
  }

  lemma StripWideAbc() ensures Strip("   abc  ", STRIP_VALUES) == "abc" {
    StripAt("   abc  ", STRIP_VALUES, 3, 6);
    assert "   abc  "[3..6] == "abc";
  }

  lemma StripWideDef() ensures Strip("  def   ", STRIP_VALUES) == "def" {
    StripAt("  def   ", STRIP_VALUES, 2, 5);
    assert "  def   "[2..5] == "def";
  }

  /** The accepting cases the test suite fixes. */
  lemma DefaultJudgeAcceptsExamples()
    ensures DefaultJudge([], [])
    ensures DefaultJudge(["abc", "def"], ["abc", "def"])
    ensures DefaultJudge([" abc ", "  def   "], ["abc", "def"])
  {
    StripPlainLines();
    StripSpacedLines();
    StripWideAbc();
    StripWideDef();
  }

  /** The accepting cases the test suite fixes where the reference is padded. */
  lemma DefaultJudgeAcceptsPaddedReference()
    ensures DefaultJudge(["abc", "def"], ["   abc  ", " def "])
    ensures DefaultJudge([" abc ", "  def   "], ["   abc  ", " def "])
  {
    StripPlainLines();
    StripSpacedLines();
    StripWideAbc();
    StripWideDef();
  }

  /** The rejecting cases the test suite fixes: a missing or extra line, or
      one line with different content. */
  lemma DefaultJudgeRejectsExamples()
    ensures !DefaultJudge([], ["abc"])
    ensures !DefaultJudge(["abc"], [])
    ensures !DefaultJudge(["a", "b", "c"], ["a", "b"])
    ensures !DefaultJudge(["a", "b"], ["a", "b", "c"])
    ensures !DefaultJudge(["abc"], ["def"])
    ensures !DefaultJudge(["a", "b", "c"], ["a", "b", "d"])
    ensures !DefaultJudge(["a", "b", "cd"], ["a", "b", "c"])
  {
    StripPlainLines();
    StripAt("c", STRIP_VALUES, 0, 1);
    StripAt("d", STRIP_VALUES, 0, 1);
    StripAt("cd", STRIP_VALUES, 0, 2);
    assert "c"[0..1] == "c" && "d"[0..1] == "d" && "cd"[0..2] == "cd";
    assert Strip("c", STRIP_VALUES) == "c" && Strip("d", STRIP_VALUES) == "d";
    var c, d, cd := ["a", "b", "c"], ["a", "b", "d"], ["a", "b", "cd"];
    assert ["abc"][0] == "abc" && ["def"][0] == "def";
    assert c[2] == "c" && d[2] == "d" && cd[2] == "cd";
    assert Strip(c[2], STRIP_VALUES) != Strip(d[2], STRIP_VALUES);
    assert Strip(cd[2], STRIP_VALUES) != Strip(c[2], STRIP_VALUES);
  }

  /** `identical_judge`: a length check, then a line-by-line comparison with
      no stripping at all.  It accepts exactly equal outputs. */
  predicate IdenticalJudge(programOutput: seq<string>, expectedOutput: seq<string>): (ok: bool)
    ensures ok <==> programOutput == expectedOutput
  {
    |programOutput| == |expectedOutput| &&
    forall i :: 0 <= i < |programOutput| ==> programOutput[i] == expectedOutput[i]
  }

  /** Whatever the identical judge accepts, the default judge accepts too ... */
  lemma IdenticalImpliesDefault(programOutput: seq<string>, expectedOutput: seq<string>)
    requires IdenticalJudge(programOutput, expectedOutput)
    ensures DefaultJudge(programOutput, expectedOutput)
  {
  }

  /** ... but not the other way round: padding is rejected by the identical
      judge and accepted by the default one. */
  lemma IdenticalJudgeStricter()
    ensures DefaultJudge([" abc ", "  def   "], ["abc", "def"])
    ensures !IdenticalJudge([" abc ", "  def   "], ["abc", "def"])
  {
    DefaultJudgeAcceptsExamples();
    assert [" abc ", "  def   "][0] != ["abc", "def"][0];
  }

  /** The cases the test suite fixes. */
  lemma IdenticalJudgeExamples()
    ensures IdenticalJudge([], [])
    ensures IdenticalJudge(["abc"], ["abc"])
    ensures IdenticalJudge(["a", "b", "c"], ["a", "b", "c"])
    ensures IdenticalJudge(["abc", "def"], ["abc", "def"])
    ensures !IdenticalJudge([" abc ", "  def   "], ["abc", "def"])
    ensures !IdenticalJudge(["abc", "def"], ["   abc  ", " def "])
    ensures !IdenticalJudge([" abc ", "  def   "], ["   abc  ", " def "])
    ensures !IdenticalJudge([], ["abc"])
    ensures !IdenticalJudge(["abc"], [])
    ensures !IdenticalJudge(["abc"], ["def"])
    ensures !IdenticalJudge(["a", "b", "c"], ["a", "b"])
    ensures !IdenticalJudge(["a", "b"], ["a", "b", "c"])
    ensures !IdenticalJudge(["a", "b", "c"], ["a", "b", "d"])
    ensures !IdenticalJudge(["a", "b", "cd"], ["a", "b", "c"])
  {
  }
}
