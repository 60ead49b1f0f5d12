/** Shortening a program's output (a list of lines) for display, under a
    character budget and a line budget, with a marker where text was cut. */
module Truncate {
  import opened Optional

  /** The stand-in for an absent limit: 2^64 - 1. */
  const INFINITY: int := 0x1_0000_0000_0000_0000 - 1

  /** The marker appended after the last kept line when something was cut. */
  const TRUNCATED: string := "\U{2BC7}truncated\U{2BC8}"

  /** Python's `line[:k]`: the first `k` characters for `k >= 0`, and for a
      negative `k` everything but the last `-k` characters. */
  function PyPrefix(line: string, k: int): (p: string)
    ensures p <= line
    ensures k >= 0 ==> |p| == (if k <= |line| then k else |line|)
    ensures k < 0 ==> |p| == (if -k <= |line| then |line| + k else 0)
  {
    if k >= 0 then (if k <= |line| then line[..k] else line)
    else if -k <= |line| then line[..|line| + k]
    else []
  }

  /** The number of characters in `lines`. */
  function TotalLength(lines: seq<string>): nat {
    if lines == [] then 0 else |lines[0]| + TotalLength(lines[1..])
  }

  /** What the truncation loop produces from the lines `rest` that are still
      to be visited, with `c` characters and `n` lines of budget left.  The
      character test comes first, then the line test; a line that uses up the
      character budget exactly is kept, and the marker follows it only when
      another line would come. */
  function TruncFrom(rest: seq<string>, c: int, n: int): (r: seq<string>)
    ensures |r| <= |rest| + 1
    ensures r == [] <==> rest == []
    decreases |rest|
  {
    if rest == [] then []
    else if |rest[0]| > c then [PyPrefix(rest[0], c), TRUNCATED]
    else if n <= 0 then [TRUNCATED]
    else if c - |rest[0]| == 0 && |rest| > 1 then [rest[0], TRUNCATED]
    else [rest[0]] + TruncFrom(rest[1..], c - |rest[0]|, n - 1)
  }

  /** The number of lines the loop copies whole. */
  function WholeLines(rest: seq<string>, c: int, n: int): (k: nat)
    ensures k <= |rest|
    decreases |rest|
  {
    if rest == [] then 0
    else if |rest[0]| > c || n <= 0 then 0
    else if c - |rest[0]| == 0 && |rest| > 1 then 1
    else 1 + WholeLines(rest[1..], c - |rest[0]|, n - 1)
  }

  /** An absent limit reads as INFINITY. */
  function LimitOf(limit: Option<int>): int {
    if limit.None? then INFINITY else limit.value
  }

  /** The whole of `truncate`: no limits leave the list as it is; otherwise
      the list comes back unchanged or ends with the marker, with at most one
      line more than it had. */
  function Truncated(s: seq<string>, charLimit: Option<int>, nlLimit: Option<int>): (r: seq<string>)
    ensures charLimit.None? && nlLimit.None? ==> r == s
    ensures |r| <= |s| + 1
    ensures r == s || (r != [] && r[|r| - 1] == TRUNCATED)
  {
    if charLimit.None? && nlLimit.None? then s
    else
      TruncFromKeepsOrMarks(s, LimitOf(charLimit), LimitOf(nlLimit));
      TruncFrom(s, LimitOf(charLimit), LimitOf(nlLimit))
  }

  /** The loop either copies every line or ends its output with the marker. */
  lemma {:induction false} TruncFromKeepsOrMarks(rest: seq<string>, c: int, n: int)
    ensures TruncFrom(rest, c, n) == rest ||
            (TruncFrom(rest, c, n) != [] && TruncFrom(rest, c, n)[|TruncFrom(rest, c, n)| - 1] == TRUNCATED)
    decreases |rest|
  {
    if rest != [] && |rest[0]| <= c && n > 0 && !(c - |rest[0]| == 0 && |rest| > 1) {
      var tail := TruncFrom(rest[1..], c - |rest[0]|, n - 1);
      TruncFromKeepsOrMarks(rest[1..], c - |rest[0]|, n - 1);
      if tail == rest[1..] {
        assert [rest[0]] + rest[1..] == rest;
      } else {
        assert ([rest[0]] + tail)[|tail|] == tail[|tail| - 1];
      }
    }
  }

  /** `truncate`: one pass over the lines with the two budgets counting down,
      leaving the loop right after the marker is appended. */
  method Truncate(s: seq<string>, charLimit: Option<int>, nlLimit: Option<int>) returns (r: seq<string>)
    ensures r == Truncated(s, charLimit, nlLimit)
    ensures charLimit.None? && nlLimit.None? ==> r == s
  {
    if charLimit.None? && nlLimit.None? {
      return s;
    }
    var c := if charLimit.None? then INFINITY else charLimit.value;
    var n := if nlLimit.None? then INFINITY else nlLimit.value;
    ghost var whole := TruncFrom(s, c, n);
    r := [];
    for i := 0 to |s|
      invariant r + TruncFrom(s[i..], c, n) == whole
    {
      var line := s[i];
      TruncFromAt(s, i, c, n);
      ghost var r0, c0, n0 := r, c, n;
      if |line| > c {
        r := r + [PyPrefix(line, c), TRUNCATED];
        break;
      } else if n <= 0 {
        r := r + [TRUNCATED];
        break;
      }
      r := r + [line];
      c := c - |line|;
      n := n - 1;
      if c == 0 && i + 1 < |s| {
        r := r + [TRUNCATED];
        assert r == r0 + [line, TRUNCATED];
        break;
      }
      assert r + TruncFrom(s[i + 1..], c, n) == r0 + ([line] + TruncFrom(s[i + 1..], c, n));
    }
  }

  /** One step of `TruncFrom` on the lines from `i` on. */
  lemma TruncFromAt(s: seq<string>, i: nat, c: int, n: int)
    requires i < |s|
    ensures TruncFrom(s[i..], c, n) ==
      if |s[i]| > c then [PyPrefix(s[i], c), TRUNCATED]
      else if n <= 0 then [TRUNCATED]
      else if c - |s[i]| == 0 && i + 1 < |s| then [s[i], TRUNCATED]
      else [s[i]] + TruncFrom(s[i + 1..], c - |s[i]|, n - 1)
  {
    assert s[i..][0] == s[i] && s[i..][1..] == s[i + 1..];
  }

  lemma TotalLengthCons(s: seq<string>, k: nat)
    requires 0 < |s| && k < |s|
    ensures TotalLength(s[..k + 1]) == |s[0]| + TotalLength(s[1..][..k])
  {
    assert s[..k + 1][0] == s[0] && s[..k + 1][1..] == s[1..][..k];
  }

  /** The shapes a truncation can take, with `k` lines kept whole: all of
      `s`; or its first `k` lines and the marker; or those, a proper prefix
      of line `k` cut to the remaining character budget `c - TotalLength(s[..k])`,
      and the marker. */
  predicate Shape(s: seq<string>, c: int, k: nat, r: seq<string>) {
    (k == |s| && r == s) ||
    (k < |s| && r == s[..k] + [TRUNCATED]) ||
    (k < |s| && |s[k]| > c - TotalLength(s[..k]) &&
     r == s[..k] + [PyPrefix(s[k], c - TotalLength(s[..k])), TRUNCATED])
  }

  /** Keeping the first line whole, then a shape of the rest, is a shape of `s`. */
  lemma ShapeCons(s: seq<string>, c: int, k: nat, r: seq<string>)
    requires s != [] && Shape(s[1..], c - |s[0]|, k, r)
    ensures Shape(s, c, k + 1, [s[0]] + r)
  {
    var rest := s[1..];
    assert [s[0]] + rest[..k] == s[..k + 1];
    if k == |rest| && r == rest {
      assert [s[0]] + rest == s;
    } else {
      TotalLengthCons(s, k);
      assert s[k + 1] == rest[k];
      if r == rest[..k] + [TRUNCATED] {
        assert [s[0]] + r == s[..k + 1] + [TRUNCATED];
      } else {
        assert c - TotalLength(s[..k + 1]) == c - |s[0]| - TotalLength(rest[..k]);
      }
    }
  }

  /** The result of the loop has one of the three shapes.  The marker is
      therefore appended at most once and always last, and it is appended
      only when something of `s` was dropped. */
  lemma {:induction false} TruncShape(s: seq<string>, c: int, n: int)
    ensures Shape(s, c, WholeLines(s, c, n), TruncFrom(s, c, n))
    decreases |s|
  {
    if s == [] {
    } else if |s[0]| > c || n <= 0 {
      assert s[..0] == [] && TotalLength(s[..0]) == 0;
    } else if c - |s[0]| == 0 && |s| > 1 {
      assert s[..1] == [s[0]];
    } else {
      TruncShape(s[1..], c - |s[0]|, n - 1);
      ShapeCons(s, c, WholeLines(s[1..], c - |s[0]|, n - 1), TruncFrom(s[1..], c - |s[0]|, n - 1));
    }
  }

  /** With a non-negative character limit the whole lines kept fit in it, and
      a cut line takes exactly what is left, so the content before the marker
      never exceeds `c` characters. */
  lemma {:induction false} TruncCharBudget(s: seq<string>, c: int, n: int)
    requires c >= 0
    ensures var k := WholeLines(s, c, n);
      TotalLength(s[..k]) <= c &&
      (k < |s| && |s[k]| > c - TotalLength(s[..k]) ==>
         TotalLength(s[..k]) + |PyPrefix(s[k], c - TotalLength(s[..k]))| == c)
    decreases |s|
  {
    if s == [] || |s[0]| > c || n <= 0 {
      assert s[..0] == [];
    } else if c - |s[0]| == 0 && |s| > 1 {
      assert s[..1] == [s[0]];
    } else {
      var rest, c', n' := s[1..], c - |s[0]|, n - 1;
      TruncCharBudget(rest, c', n');
      TotalLengthCons(s, WholeLines(rest, c', n'));
    }
  }

  /** Every whole line copied spends one unit of the line budget, so at most
      `n` lines are copied whole (none when `n` is not positive). */
  lemma {:induction false} TruncLineBudget(s: seq<string>, c: int, n: int)
    ensures WholeLines(s, c, n) <= (if n < 0 then 0 else n)
    decreases |s|
  {
    if s != [] && |s[0]| <= c && n > 0 && !(c - |s[0]| == 0 && |s| > 1) {
      TruncLineBudget(s[1..], c - |s[0]|, n - 1);
    }
  }

  /** Fewer characters than the limit and no more lines than the line limit:
      nothing is cut. */
  lemma {:induction false} TruncWithinLimits(s: seq<string>, c: int, n: int)
    requires TotalLength(s) < c && |s| <= n
    ensures TruncFrom(s, c, n) == s
    decreases |s|
  {
    if s != [] {
      TruncWithinLimits(s[1..], c - |s[0]|, n - 1);
      assert [s[0]] + s[1..] == s;
    }
  }

  /** The cases the test suite fixes, on `["abc", "def"]`. */
  lemma TruncateExamples()
    ensures Truncated(["abc", "def"], None, None) == ["abc", "def"]
    ensures Truncated(["abc", "def"], Some(72), None) == ["abc", "def"]
    ensures Truncated(["abc", "def"], None, Some(3)) == ["abc", "def"]
    ensures Truncated(["abc", "def"], Some(6), Some(2)) == ["abc", "def"]
    ensures Truncated(["abc", "def"], Some(4), None) == ["abc", "d", TRUNCATED]
    ensures Truncated(["abc", "def"], None, Some(1)) == ["abc", TRUNCATED]
    ensures Truncated(["abc", "def"], Some(6), Some(1)) == ["abc", TRUNCATED]
    ensures Truncated(["abc", "def"], Some(3), Some(2)) == ["abc", TRUNCATED]
  {
    var s: seq<string> := ["abc", "def"];
    assert s[1..] == ["def"] && s[1..][1..] == [];
    assert PyPrefix("def", 1) == "d";
  }
}
