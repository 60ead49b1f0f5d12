/** The reference solution that reads binary strings and prints their
    values: each string of at most 64 characters is read into a 65-byte
    buffer, and its bits are shifted into a 64-bit unsigned accumulator. */
module Dec2Bin {
  import opened Text

  function Pow2(n: nat): (p: nat)
    ensures p >= 1
  {
    if n == 0 then 1 else 2 * Pow2(n - 1)
  }

  /** 2^64: the modulus of `unsigned long long` arithmetic. */
  const WORD: nat := Pow2(64)

  /** The bit a character stands for: `'1'` is 1 and every other character 0. */
  function Bit(c: char): nat {
    if c == '1' then 1 else 0
  }

  /** The binary value of `s`, most significant character first. */
  function BinValue(s: string): (v: nat)
    ensures v < Pow2(|s|)
  {
    if s == [] then 0 else 2 * BinValue(s[..|s| - 1]) + Bit(s[|s| - 1])
  }

  /** The characters before the first `'\0'`: what the buffer holds as a C string. */
  function CStr(s: string): (t: string)
    ensures t <= s && '\0' !in t
    ensures |t| == |s| || s[|t|] == '\0'
  {
    if s == [] || s[0] == '\0' then [] else [s[0]] + CStr(s[1..])
  }

  /** The decoding loop of one string: at most 64 characters, stopping at
      the terminator; each step shifts the accumulator left (in 64 bits) and
      ORs in the new bit.  The result is the binary value of the string and
      the shift never loses a bit. */
  method DecodeToken(s: string) returns (ans: nat)
    requires |s| <= 64
    ensures ans == BinValue(CStr(s))
    ensures ans < WORD
  {
    ans := 0;
    var i := 0;
    while i < 64 && i < |s| && s[i] != '\0'
      invariant i <= |CStr(s)|
      invariant ans == BinValue(s[..i])
    {
      BinValueSnoc(s, i);
      CStrExtends(s, i);
      PowMonotone(i + 1, 64);
      NoWrap(ans * 2, WORD);
      ans := (ans * 2) % WORD + Bit(s[i]);
      i := i + 1;
    }
    CStrPrefix(s, i);
    PowMonotone(i, 64);
  }

  /** A character that is not the terminator, right after a part of the C
      string, still belongs to it. */
  lemma CStrExtends(s: string, i: nat)
    requires i <= |CStr(s)| && i < |s| && s[i] != '\0'
    ensures i + 1 <= |CStr(s)|
  {
  }

  /** One more character doubles the value and adds its bit. */
  lemma BinValueSnoc(s: string, i: nat)
    requires i < |s|
    ensures BinValue(s[..i + 1]) == 2 * BinValue(s[..i]) + Bit(s[i])
  {
    assert s[..i + 1][..i] == s[..i];
  }

  /** A value below the modulus is its own remainder: the shift loses nothing. */
  lemma NoWrap(a: nat, m: nat)
    requires a < m
    ensures a % m == a
  {
  }

  lemma {:induction false} PowMonotone(m: nat, n: nat)
    requires m <= n
    ensures Pow2(m) <= Pow2(n)
    decreases n
  {
    if m < n {
      PowMonotone(m, n - 1);
    }
  }

  /** The prefix the loop stops at is the C string. */
  lemma CStrPrefix(s: string, i: nat)
    requires i <= |CStr(s)|
    requires i == |s| || s[i] == '\0'
    ensures CStr(s) == s[..i]
  {
  }

  /** The program: `T` strings in, one decimal line per string out, in
      order; the accumulator starts over for every string. */
  method DecodeAll(tokens: seq<string>) returns (lines: seq<string>)
    requires forall k :: 0 <= k < |tokens| ==> |tokens[k]| <= 64
    ensures |lines| == |tokens|
    ensures forall k :: 0 <= k < |tokens| ==> lines[k] == NatToDecimal(BinValue(CStr(tokens[k])))
  {
    lines := [];
    var t := 0;
    while t < |tokens|
      invariant 0 <= t <= |tokens| && |lines| == t
      invariant forall k :: 0 <= k < t ==> lines[k] == NatToDecimal(BinValue(CStr(tokens[k])))
    {
      var ans := DecodeToken(tokens[t]);
      lines := lines + [NatToDecimal(ans)];
      t := t + 1;
    }
  }

  /** Leading zeros do not change the value. */
  lemma {:induction false} LeadingZeros(z: nat, s: string)
    ensures BinValue(seq(z, _ => '0') + s) == BinValue(s)
    decreases |s|
  {
    var zs: string := seq(z, _ => '0');
    if s == [] {
      assert zs + s == zs;
      AllZeros(z);
    } else {
      var init := s[..|s| - 1];
      LeadingZeros(z, init);
      assert (zs + s)[..|zs + s| - 1] == zs + init;
    }
  }

  lemma {:induction false} AllZeros(z: nat)
    ensures BinValue(seq(z, _ => '0')) == 0
  {
    if z > 0 {
      var zs: string := seq(z, _ => '0');
      AllZeros(z - 1);
      assert zs[..z - 1] == seq(z - 1, _ => '0');
    }
  }

  /** Python's `bin(X)[2:]`: the binary digits of `X`, no leading zero. */
  function Bin(x: nat): (s: string)
    ensures |s| >= 1 && (|s| > 1 ==> s[0] == '1')
    ensures forall k :: 0 <= k < |s| ==> s[k] == '0' || s[k] == '1'
  {
    if x < 2 then [if x == 0 then '0' else '1']
    else Bin(x / 2) + [if x % 2 == 0 then '0' else '1']
  }

  /** Reading `bin(X)[2:]` back gives `X`: the test data decodes to its expected output. */
  lemma {:induction false} BinRoundTrip(x: nat)
    ensures BinValue(Bin(x)) == x
  {
    if x >= 2 {
      var s := Bin(x);
      BinRoundTrip(x / 2);
      assert s[..|s| - 1] == Bin(x / 2);
    }
  }

  /** `bin(X)[2:]` has as many characters as `X` has bits, so below 2^64 it
      fits the buffer. */
  lemma {:induction false} BinLength(x: nat, n: nat)
    requires x < Pow2(n)
    ensures |Bin(x)| <= n || (x == 0 && n == 0)
  {
    if x >= 2 {
      BinLength(x / 2, n - 1);
    }
  }

  /** Every test case of the exercise is answered with its expected value:
      `X` in `[1, 2^64)` written by `bin(X)[2:]`, then decoded. */
  method DecodeTestValue(x: nat) returns (ans: nat)
    requires 1 <= x < WORD
    ensures ans == x
  {
    BinLength(x, 64);
    var s := Bin(x);
    ans := DecodeToken(s);
    assert CStr(s) == s;
    BinRoundTrip(x);
  }
}
