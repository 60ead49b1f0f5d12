/** Counting the divisors of a number by trial division up to its square
    root, as the exercise's reference function and its reference solution
    both do: each divisor `f` found below the root stands for itself and for
    its partner `x / f`, which is the same number only for the root of a
    perfect square. */
module NumFactors {
  import opened Text

  /** `floor(sqrt(x))`, on integers. */
  function ISqrt(x: nat): (r: nat)
    ensures r * r <= x < (r + 1) * (r + 1)
  {
    if x == 0 then 0
    else
      var r := ISqrt(x - 1);
      if (r + 1) * (r + 1) <= x then
        assert (r + 2) * (r + 2) == (r + 1) * (r + 1) + 2 * r + 3;
        r + 1
      else r
  }

  /** The positive divisors of `x`. */
  function Divisors(x: nat): set<nat> {
    set d | 1 <= d <= x && x % d == 0
  }

  /** What candidate `f` adds to the count: nothing when it does not divide
      `x`, 1 when it is its own partner, 2 otherwise. */
  function Contribution(x: nat, f: nat): nat
    requires f >= 1
  {
    if x % f != 0 then 0 else if x / f != f then 2 else 1
  }

  /** The count after the candidates `1..k`. */
  function FactorTally(x: nat, k: nat): (t: nat)
    ensures t <= 2 * k
  {
    if k == 0 then 0 else FactorTally(x, k - 1) + Contribution(x, k)
  }

  /** The counter never decreases from one candidate to the next. */
  lemma {:induction false} TallyMonotone(x: nat, j: nat, k: nat)
    requires j <= k
    ensures FactorTally(x, j) <= FactorTally(x, k)
    decreases k
  {
    if j < k {
      TallyMonotone(x, j, k - 1);
    }
  }

  /** What both programs output for `x`: `inf` for 0, otherwise the number
      of divisors in decimal. */
  function FactorCountText(x: nat): string {
    if x == 0 then "inf" else NatToDecimal(|Divisors(x)|)
  }

  /** `num_factors` in the exercise: the counter loop over `1..floor(sqrt(x))`. */
  method NumFactors(x: nat) returns (s: string)
    ensures s == FactorCountText(x)
    ensures x == 0 ==> s == "inf"
    ensures x > 0 ==> DecimalValue(s) == |Divisors(x)|
  {
    if x == 0 {
      return "inf";
    }
    var factors := 0;
    for f := 1 to ISqrt(x) + 1
      invariant factors == FactorTally(x, f - 1)
    {
      var q, r := x / f, x % f;
      if r == 0 {
        factors := factors + 1 + (if q != f then 1 else 0);
      }
    }
    TallyCountsDivisors(x);
    s := NatToDecimal(factors);
    DecimalRoundTrip(factors);
  }

  /** The reference solution: reads `x`, prints `inf` for 0 and otherwise the
      counter from the same loop.  The line it prints is the text the
      exercise expects. */
  method SolutionNumFactors(x: nat) returns (line: string)
    ensures line == FactorCountText(x)
  {
    if x == 0 {
      line := "inf";
    } else {
      var factors := 0;
      for f := 1 to ISqrt(x) + 1
        invariant factors == FactorTally(x, f - 1)
      {
        var q, r := x / f, x % f;
        if r == 0 {
          factors := factors + 1 + (if q != f then 1 else 0);
        }
      }
      TallyCountsDivisors(x);
      line := NatToDecimal(factors);
    }
  }

  lemma SquareMonotone(a: nat, b: nat)
    requires a <= b
    ensures a * a <= b * b
  {
    assert a * a <= a * b;
  }

  lemma MulMonotone(d: nat, a: nat, b: nat)
    requires a <= b
    ensures d * a <= d * b
  {
    assert d * b == d * a + d * (b - a);
  }

  lemma MulStrictMonotone(d: nat, a: nat, b: nat)
    requires a < b
    ensures d * a + d <= d * b
  {
    assert d * b == d * a + d * (b - a);
    MulMonotone(d, 1, b - a);
  }

  lemma ProductQuotient(x: nat, d: nat, q: nat)
    requires d >= 1 && x == d * q
    ensures x % d == 0 && x / d == q
  {
    var p, m := x / d, x % d;
    assert x == d * p + m && 0 <= m < d;
    if p < q {
      MulStrictMonotone(d, p, q);
      assert false;
    } else if p > q {
      MulStrictMonotone(d, q, p);
      assert false;
    }

  }

  /** Two factors at least `c` make a product at least `c * c`. */
  lemma ProductBound(a: nat, b: nat, c: nat)
    requires c <= a && c <= b
    ensures c * c <= a * b
  {
    MulMonotone(c, c, b);
    MulMonotone(b, c, a);
  }

  /** The partner of a divisor at most the root is at least that divisor. */
  lemma PartnerAtLeast(x: nat, k: nat, q: nat)
    requires 1 <= k && k * k <= x && x == k * q
    ensures k <= q
  {
    if q < k {
      assert k * k == k * (k - 1) + k;
      MulMonotone(k, q, k - 1);
    }
  }

  lemma QuotientProduct(x: nat, d: nat)
    requires d >= 1 && x % d == 0
    ensures x == d * (x / d)
  {
  }

  /** The divisors reached once the candidates `1..k` are done: those at most
      `k` and those whose partner is at most `k`. */
  function Reached(x: nat, k: nat): set<nat> {
    set d | 1 <= d <= x && x % d == 0 && (d <= k || x / d <= k)
  }

  lemma ReachedNone(x: nat)
    ensures Reached(x, 0) == {}
  {
    forall d | 1 <= d <= x && x % d == 0 ensures x / d >= 1 {
      QuotientProduct(x, d);
    }
  }

  /** Candidate `k` (at most the root) adds exactly itself and its partner
      when it divides `x`, and nothing otherwise; neither was reached
      before. */
  lemma ReachedStepSet(x: nat, k: nat)
    requires 1 <= k <= ISqrt(x)
    ensures Reached(x, k) == Reached(x, k - 1) + (if x % k == 0 then {k, x / k} else {})
    ensures x % k == 0 ==> k !in Reached(x, k - 1) && x / k !in Reached(x, k - 1)
  {
    var r := ISqrt(x);
    SquareMonotone(k, r);
    MulMonotone(k, 1, k);
    var prev, cur := Reached(x, k - 1), Reached(x, k);
    if x % k != 0 {
      forall d | d in cur ensures d in prev {
        if x / d == k {
          QuotientProduct(x, d);
          ProductQuotient(x, k, d);
        }
      }
      assert cur == prev;
    } else {
      var q := x / k;
      QuotientProduct(x, k);
      PartnerAtLeast(x, k, q);
      ProductQuotient(x, q, k);
      MulMonotone(q, 1, k);
      assert k !in prev && q !in prev;
      assert k in cur && q in cur;
      forall d | d in cur && d !in prev ensures d == k || d == q {
        if x / d == k {
          QuotientProduct(x, d);
          ProductQuotient(x, k, d);
        }
      }
      assert cur == prev + {k, q};
    }
  }

  /** So the number of divisors reached grows by the candidate's
      contribution: 2, or 1 for the root of a square, or 0. */
  lemma ReachedStep(x: nat, k: nat)
    requires 1 <= k <= ISqrt(x)
    ensures |Reached(x, k)| == |Reached(x, k - 1)| + Contribution(x, k)
  {
    ReachedStepSet(x, k);
    if x % k == 0 && x / k == k {
      assert {k, x / k} == {k};
    }
  }

  /** At the root every divisor has been reached: a divisor above the root
      has its partner at or below it. */
  lemma ReachedAll(x: nat)
    requires x >= 1
    ensures Reached(x, ISqrt(x)) == Divisors(x)
  {
    var r := ISqrt(x);
    forall d | d in Divisors(x) ensures d in Reached(x, r) {
      if d > r {
        var q := x / d;
        QuotientProduct(x, d);
        if q > r {
          ProductBound(d, q, r + 1);
        }
      }
    }
  }

  lemma {:induction false} TallyIsReached(x: nat, k: nat)
    requires k <= ISqrt(x)
    ensures FactorTally(x, k) == |Reached(x, k)|
  {
    if k == 0 {
      ReachedNone(x);
    } else {
      TallyIsReached(x, k - 1);
      ReachedStep(x, k);
    }
  }

  /** The loop counts every divisor exactly once. */
  lemma TallyCountsDivisors(x: nat)
    requires x >= 1
    ensures FactorTally(x, ISqrt(x)) == |Divisors(x)|
  {
    TallyIsReached(x, ISqrt(x));
    ReachedAll(x);
  }

  /** Below the root a divisor is never its own partner, so it adds 0 or 2. */
  lemma ContributionBelowRoot(x: nat, k: nat)
    requires 1 <= k < ISqrt(x)
    ensures Contribution(x, k) != 1
  {
    if x % k == 0 && x / k == k {
      QuotientProduct(x, k);
      assert (k + 1) * (k + 1) == k * k + 2 * k + 1;
      SquareMonotone(k + 1, ISqrt(x));
    }
  }

  /** The root adds exactly 1 when `x` is its square. */
  lemma ContributionAtRoot(x: nat)
    requires x >= 1
    ensures Contribution(x, ISqrt(x)) == 1 <==> ISqrt(x) * ISqrt(x) == x
  {
    var r := ISqrt(x);
    if x % r == 0 && x / r == r {
      QuotientProduct(x, r);
    } else if r * r == x {
      ProductQuotient(x, r, r);
    }
  }

  /** Below the root the count is even. */
  lemma {:induction false} TallyEvenBelowRoot(x: nat, k: nat)
    requires k < ISqrt(x)
    ensures FactorTally(x, k) % 2 == 0
  {
    if k > 0 {
      TallyEvenBelowRoot(x, k - 1);
      ContributionBelowRoot(x, k);
      var below, last := FactorTally(x, k - 1), Contribution(x, k);
      assert FactorTally(x, k) == below + last;
      OddSum(below, last);
    }
  }

  /** A number has an odd number of divisors exactly when it is a perfect
      square. */
  lemma OddIffSquare(x: nat)
    requires x >= 1
    ensures |Divisors(x)| % 2 == 1 <==> ISqrt(x) * ISqrt(x) == x
  {
    var r := ISqrt(x);
    TallyCountsDivisors(x);
    TallyEvenBelowRoot(x, r - 1);
    ContributionAtRoot(x);
    var below, last := FactorTally(x, r - 1), Contribution(x, r);
    assert FactorTally(x, r) == below + last;
    OddSum(below, last);
  }

  lemma OddSum(a: nat, c: nat)
    requires a % 2 == 0 && c <= 2
    ensures (a + c) % 2 == 1 <==> c == 1
  {
  }

  /** The divisor count is at most twice the root. */
  lemma DivisorCountBound(x: nat)
    requires x >= 1
    ensures |Divisors(x)| <= 2 * ISqrt(x)
  {
    TallyCountsDivisors(x);
  }
}
