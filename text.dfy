/** The string operations of the Python standard library that the judge
    relies on: `str.strip` over a set of characters, `str.split` on one
    separator character, `str.join`, and `str` of a natural number. */
module Text {

  /** The characters for which Python's `str.isspace` holds; `str.strip()`
      with no argument removes exactly these. */
  const PY_WHITESPACE: set<char> :=
    {'\t', '\n', '\U{b}', '\U{c}', '\r', '\U{1c}', '\U{1d}', '\U{1e}', '\U{1f}', ' ',
     '\U{85}', '\U{a0}', '\U{1680}', '\U{2000}', '\U{2001}', '\U{2002}', '\U{2003}',
     '\U{2004}', '\U{2005}', '\U{2006}', '\U{2007}', '\U{2008}', '\U{2009}', '\U{200a}',
     '\U{2028}', '\U{2029}', '\U{202f}', '\U{205f}', '\U{3000}'}

  /** The first index from `i` on that does not hold a character of `cs`
      (or `|s|`): the scan `lstrip` makes. */
  function LeadEnd(s: string, cs: set<char>, i: nat): (k: nat)
    requires i <= |s|
    ensures i <= k <= |s|
    ensures forall m :: i <= m < k ==> s[m] in cs
    ensures k == |s| || s[k] !in cs
    decreases |s| - i
  {
    if i < |s| && s[i] in cs then LeadEnd(s, cs, i + 1) else i
  }

  /** Scanning back from `j`, not below `lo`: the index after which every
      character up to `j` is in `cs`: the scan `rstrip` makes. */
  function TrailStart(s: string, cs: set<char>, lo: nat, j: nat): (k: nat)
    requires lo <= j <= |s|
    ensures lo <= k <= j
    ensures forall m :: k <= m < j ==> s[m] in cs
    ensures k == lo || s[k - 1] !in cs
    decreases j
  {
    if j > lo && s[j - 1] in cs then TrailStart(s, cs, lo, j - 1) else j
  }

  /** Where `s.strip(cs)` starts: every character before it is in `cs`, and
      the one at it (if any) is not. */
  function StripStart(s: string, cs: set<char>): (lo: nat)
    ensures lo <= |s|
    ensures forall m :: 0 <= m < lo ==> s[m] in cs
    ensures lo == |s| || s[lo] !in cs
  {
    LeadEnd(s, cs, 0)
  }

  /** Where `s.strip(cs)` ends: every character from it on is in `cs`, and
      the one before it (if after the start) is not. */
  function StripEnd(s: string, cs: set<char>): (hi: nat)
    ensures StripStart(s, cs) <= hi <= |s|
    ensures forall m :: hi <= m < |s| ==> s[m] in cs
    ensures hi == StripStart(s, cs) || s[hi - 1] !in cs
  {
    TrailStart(s, cs, StripStart(s, cs), |s|)
  }

  /** `s.strip(cs)`: what is left once every leading and trailing character
      of `cs` is removed; it neither starts nor ends with one. */
  function Strip(s: string, cs: set<char>): (r: string)
    ensures r == [] || (r[0] !in cs && r[|r| - 1] !in cs)
  {
    s[StripStart(s, cs)..StripEnd(s, cs)]
  }

  /** The strip is the only piece with those properties: if everything before
      `lo` and from `hi` on is in `cs` and the piece between does not start or
      end with a character of `cs`, then that piece is the strip. */
  lemma StripAt(s: string, cs: set<char>, lo: nat, hi: nat)
    requires lo <= hi <= |s|
    requires forall m :: 0 <= m < lo ==> s[m] in cs
    requires forall m :: hi <= m < |s| ==> s[m] in cs
    requires lo < hi ==> s[lo] !in cs && s[hi - 1] !in cs
    ensures Strip(s, cs) == s[lo..hi]
  {
    var l := StripStart(s, cs);
    if lo < hi {
      if l < lo {} else if l > lo {}
    }
    var h := StripEnd(s, cs);
  }

  /** The piece `x[b..e]`, with only characters of `cs` around it in `x`,
      has the same strip as `x`. */
  lemma StripSurrounded(x: string, cs: set<char>, b: nat, e: nat)
    requires b <= e <= |x|
    requires forall m :: 0 <= m < b ==> x[m] in cs
    requires forall m :: e <= m < |x| ==> x[m] in cs
    ensures Strip(x, cs) == Strip(x[b..e], cs)
  {
    var lo, hi := StripStart(x[b..e], cs), StripEnd(x[b..e], cs);
    StripInside(x, cs, b, e, lo, hi);
    SliceOfSlice(x, b, e, lo, hi);
  }

  /** The strip of `x` found from bounds `lo`, `hi` that hold for the piece `x[b..e]`. */
  lemma StripInside(x: string, cs: set<char>, b: nat, e: nat, lo: nat, hi: nat)
    requires b <= e <= |x| && lo <= hi <= e - b
    requires forall m :: 0 <= m < b ==> x[m] in cs
    requires forall m :: e <= m < |x| ==> x[m] in cs
    requires forall m :: 0 <= m < lo ==> x[b..e][m] in cs
    requires forall m :: hi <= m < e - b ==> x[b..e][m] in cs
    requires lo < hi ==> x[b..e][lo] !in cs && x[b..e][hi - 1] !in cs
    ensures Strip(x, cs) == x[b + lo..b + hi]
  {
    LeadingInside(x, cs, b, e, lo);
    TrailingInside(x, cs, b, e, hi);
    if lo < hi {
      assert x[b + lo] == x[b..e][lo] && x[b + hi - 1] == x[b..e][hi - 1];
    }
    StripAt(x, cs, b + lo, b + hi);
  }

  lemma SliceOfSlice(x: string, b: nat, e: nat, lo: nat, hi: nat)
    requires b <= e <= |x| && lo <= hi <= e - b
    ensures x[b..e][lo..hi] == x[b + lo..b + hi]
  {
    forall k | 0 <= k < hi - lo ensures x[b..e][lo..hi][k] == x[b + lo..b + hi][k] {
      assert x[b..e][lo..hi][k] == x[b..e][lo + k] == x[b + lo + k];
    }
  }

  lemma LeadingInside(x: string, cs: set<char>, b: nat, e: nat, lo: nat)
    requires b + lo <= e <= |x|
    requires forall m :: 0 <= m < b ==> x[m] in cs
    requires forall m :: 0 <= m < lo ==> x[b..e][m] in cs
    ensures forall m :: 0 <= m < b + lo ==> x[m] in cs
  {
    forall m | b <= m < b + lo ensures x[m] in cs {
      assert x[m] == x[b..e][m - b];
    }
  }

  lemma TrailingInside(x: string, cs: set<char>, b: nat, e: nat, hi: nat)
    requires b <= e <= |x| && hi <= e - b
    requires forall m :: e <= m < |x| ==> x[m] in cs
    requires forall m :: hi <= m < e - b ==> x[b..e][m] in cs
    ensures forall m :: b + hi <= m < |x| ==> x[m] in cs
  {
    forall m | b + hi <= m < e ensures x[m] in cs {
      assert x[m] == x[b..e][m - b];
    }
  }

  /** A character outside `cs` appended to a string survives the strip: the
      strip then runs from the old start to the end, so it grows. */
  lemma StripAppended(s: string, cs: set<char>, c: char)
    requires c !in cs
    ensures Strip(s + [c], cs) == s[StripStart(s, cs)..] + [c]
    ensures |Strip(s, cs)| < |Strip(s + [c], cs)|
  {
    var x, lo := s + [c], StripStart(s, cs);
    forall m | 0 <= m < lo ensures x[m] in cs {
      assert x[m] == s[m];
    }
    assert x[lo] !in cs by {
      if lo < |s| {
        assert x[lo] == s[lo];
      }
    }
    StripAt(x, cs, lo, |x|);
    assert x[lo..|x|] == s[lo..] + [c];
  }

  /** `sep.join(parts)`. */
  function Join(parts: seq<string>, sep: string): string {
    if parts == [] then []
    else if |parts| == 1 then parts[0]
    else parts[0] + sep + Join(parts[1..], sep)
  }

  /** `s.split(sep)` for one separator character: the pieces between the
      separators, in order, so there is always one more piece than there are
      separators, and joining them back gives `s`. */
  function Split(s: string, sep: char): (parts: seq<string>)
    ensures |parts| >= 1
    ensures forall i :: 0 <= i < |parts| ==> sep !in parts[i]
    ensures Join(parts, [sep]) == s
  {
    if s == [] then [[]]
    else
      var rest := Split(s[1..], sep);
      if s[0] == sep then
        assert [sep] + Join(rest, [sep]) == s;
        [[]] + rest
      else
        var parts := [[s[0]] + rest[0]] + rest[1..];
        assert parts[1..] == rest[1..];
        parts
  }

  /** Splitting undoes joining when no piece holds the separator. */
  lemma {:induction false} SplitJoin(parts: seq<string>, sep: char)
    requires |parts| >= 1
    requires forall i :: 0 <= i < |parts| ==> sep !in parts[i]
    ensures Split(Join(parts, [sep]), sep) == parts
    decreases |parts|, |parts[0]|
  {
    var s := Join(parts, [sep]);
    if parts[0] == [] {
      if |parts| > 1 {
        assert s == [sep] + Join(parts[1..], [sep]);
        assert s[1..] == Join(parts[1..], [sep]);
        SplitJoin(parts[1..], sep);
        assert [[]] + parts[1..] == parts;
      }
    } else {
      var c := parts[0][0];
      var shorter := [parts[0][1..]] + parts[1..];
      assert shorter[1..] == parts[1..];
      assert forall i :: 0 <= i < |shorter| ==> sep !in shorter[i] by {
        forall i | 0 <= i < |shorter| ensures sep !in shorter[i] {
          if i == 0 {
            assert forall k :: 0 <= k < |parts[0][1..]| ==> parts[0][1..][k] == parts[0][k + 1];
          }
        }
      }
      assert s == [c] + Join(shorter, [sep]) by {
        if |parts| == 1 {
        } else {
          assert parts[0] == [c] + parts[0][1..];
        }
      }
      assert s[1..] == Join(shorter, [sep]);
      SplitJoin(shorter, sep);
      assert c != sep && parts[0] == [c] + shorter[0];
      assert [[c] + shorter[0]] + shorter[1..] == parts;
    }
  }

  /** The decimal digit for `d`. */
  function Digit(d: nat): char
    requires d < 10
  {
    ('0' as int + d) as char
  }

  /** `str(n)` for a natural number: decimal digits, most significant first. */
  function NatToDecimal(n: nat): (s: string)
    ensures |s| >= 1
    ensures forall i :: 0 <= i < |s| ==> '0' <= s[i] <= '9'
    ensures |s| > 1 ==> s[0] != '0'
  {
    if n < 10 then [Digit(n)] else NatToDecimal(n / 10) + [Digit(n % 10)]
  }

  /** The number a string of decimal digits denotes. */
  function DecimalValue(s: string): nat
    requires forall i :: 0 <= i < |s| ==> '0' <= s[i] <= '9'
  {
    if s == [] then 0 else 10 * DecimalValue(s[..|s| - 1]) + (s[|s| - 1] as int - '0' as int)
  }

  /** Reading back the decimal text gives the number. */
  lemma {:induction false} DecimalRoundTrip(n: nat)
    ensures DecimalValue(NatToDecimal(n)) == n
  {
    var s := NatToDecimal(n);
    if n >= 10 {
      DecimalRoundTrip(n / 10);
      assert s == NatToDecimal(n / 10) + [Digit(n % 10)];
      assert s[..|s| - 1] == NatToDecimal(n / 10);
      assert s[|s| - 1] as int - '0' as int == n % 10;
    }
  }

  /** Different numbers have different decimal texts. */
  lemma DecimalInjective(m: nat, n: nat)
    requires NatToDecimal(m) == NatToDecimal(n)
    ensures m == n
  {
    DecimalRoundTrip(m);
    DecimalRoundTrip(n);
  }
}
