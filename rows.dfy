/** Exchanging two rows negates the first-row expansion, so `Det` is the
    alternating form the engine's Laplace expansion stands for.  The case of
    rows 0 and 1 expands along both rows at once: every pair of distinct
    columns (i, j) contributes one term, and exchanging the two rows maps the
    term of (i, j) to minus the term of (j, i). */
module DeterminantRows {
  import opened Matrix
  import opened Determinant
  import opened Sums
  import opened PairExpansion

  /** The expansion's partial sums are sums of its terms. */
  lemma {:induction false} CofactorSumIsSum(m: Matrix, k: nat)
    requires Square(m) && k <= |m|
    ensures CofactorSum(m, k) == Sum(Terms(m)[..k])
  {
    if k > 0 {
      CofactorSumIsSum(m, k - 1);
      assert Terms(m)[..k][..k - 1] == Terms(m)[..k - 1];
    }
  }

  /** Every pair term of row `i` is the minor's term scaled by term `i`'s
      sign and entry. */
  lemma {:induction false} PairRowEntries(m: Matrix, i: nat)
    requires Square(m) && 2 <= |m| && i < |m|
    ensures ScaledBy(Weight(m, i), MinorRow(m, i), PairRow(m, i))
  {
  }

  /** So is the sum of the pair terms of row `i`. */
  lemma {:induction false} PairRowIsScaled(m: Matrix, i: nat)
    requires Square(m) && 2 <= |m| && i < |m|
    ensures Sum(PairRow(m, i)) == Weight(m, i) * Sum(MinorRow(m, i))
  {
    PairRowEntries(m, i);
    SumScaled(Weight(m, i), MinorRow(m, i), PairRow(m, i));
  }

  /** A non-empty matrix's determinant is the sum of its expansion's terms. */
  lemma {:induction false} DetIsTermSum(m: Matrix)
    requires Square(m) && 1 <= |m|
    ensures Det(m) == Sum(Terms(m))
  {
    CofactorSumIsSum(m, |m|);
    assert Terms(m)[..|m|] == Terms(m);
  }

  /** Before column `i`, row `i`'s minor row holds the minor's terms in
      place. */
  lemma {:induction false} MinorRowBefore(m: Matrix, i: nat)
    requires Square(m) && 2 <= |m| && i < |m|
    ensures forall k :: 0 <= k < i ==> MinorRow(m, i)[k] == Terms(Minor(m, 0, i))[k]
  {
    forall k | 0 <= k < i
      ensures MinorRow(m, i)[k] == Terms(Minor(m, 0, i))[k]
    {
      assert Shift(k, i) == k;
    }
  }

  /** After column `i`, they sit one place to the right. */
  lemma {:induction false} MinorRowAfter(m: Matrix, i: nat)
    requires Square(m) && 2 <= |m| && i < |m|
    ensures forall k :: i <= k < |Terms(Minor(m, 0, i))| ==>
              MinorRow(m, i)[k + 1] == Terms(Minor(m, 0, i))[k]
  {
    forall k | i <= k < |m| - 1
      ensures MinorRow(m, i)[k + 1] == Terms(Minor(m, 0, i))[k]
    {
      assert Shift(k + 1, i) == k;
    }
  }

  /** Apart from the zero, row 1 meets each of the minor's terms once, in
      order. */
  lemma {:induction false} MinorRowSum(m: Matrix, i: nat)
    requires Square(m) && 2 <= |m| && i < |m|
    ensures Sum(MinorRow(m, i)) == Det(Minor(m, 0, i))
  {
    MinorRowBefore(m, i);
    MinorRowAfter(m, i);
    SumWithZero(Terms(Minor(m, 0, i)), MinorRow(m, i), i);
    DetIsTermSum(Minor(m, 0, i));
  }

  /** Scaled by term `i`'s sign and entry, the minor row adds up to term `i`
      of the first-row expansion. */
  lemma {:induction false} ScaledMinorRowSum(m: Matrix, i: nat)
    requires Square(m) && 2 <= |m| && i < |m|
    ensures Weight(m, i) * Sum(MinorRow(m, i)) == CofactorTerm(m, i)
  {
    MinorRowSum(m, i);
    CofactorTermWeighted(m, i);
  }

  /** The pair terms of one column of row 0 add up to that column's term of
      the first-row expansion. */
  lemma {:induction false} PairRowSum(m: Matrix, i: nat)
    requires Square(m) && 2 <= |m| && i < |m|
    ensures Sum(PairRow(m, i)) == CofactorTerm(m, i)
  {
    PairRowIsScaled(m, i);
    ScaledMinorRowSum(m, i);
  }

  /** The pair grid's row totals are the first-row expansion's terms. */
  lemma {:induction false} PairTotalsAreTerms(m: Matrix)
    requires Square(m) && 2 <= |m|
    ensures RowTotals(PairGrid(m)) == Terms(m)
  {
    forall i | 0 <= i < |m|
      ensures RowTotals(PairGrid(m))[i] == Terms(m)[i]
    {
      PairRowSum(m, i);
    }
  }

  /** The determinant is the sum of all pair terms. */
  lemma {:induction false} DetIsPairTotal(m: Matrix)
    requires Square(m) && 2 <= |m|
    ensures Det(m) == Sum(RowTotals(PairGrid(m)))
  {
    PairTotalsAreTerms(m);
    DetIsTermSum(m);
  }

  /** Deleting columns `i` and `j` from rows 2 on, in either order, leaves
      the same entries; only rows 2 on matter. */
  lemma {:induction false} DoubleMinorEntry(m: Matrix, w: Matrix, i: nat, j: nat, r: nat, c: nat)
    requires Square(m) && Square(w) && |w| == |m| && 2 <= |m|
    requires i < |m| && j < |m| && i != j
    requires forall k :: 2 <= k < |m| ==> w[k] == m[k]
    requires r < |m| - 2 && c < |m| - 2
    ensures Minor(Minor(w, 0, i), 0, Shift(j, i))[r][c] == Minor(Minor(m, 0, j), 0, Shift(i, j))[r][c]
  {
    assert w[r + 2] == m[r + 2];
  }

  /** So the two double minors are the same matrix. */
  lemma {:induction false} DoubleMinor(m: Matrix, w: Matrix, i: nat, j: nat)
    requires Square(m) && Square(w) && |w| == |m| && 2 <= |m|
    requires i < |m| && j < |m| && i != j
    requires forall r :: 2 <= r < |m| ==> w[r] == m[r]
    ensures Minor(Minor(w, 0, i), 0, Shift(j, i)) == Minor(Minor(m, 0, j), 0, Shift(i, j))
  {
    var lhs, rhs := Minor(Minor(w, 0, i), 0, Shift(j, i)), Minor(Minor(m, 0, j), 0, Shift(i, j));
    forall r | 0 <= r < |lhs|
      ensures lhs[r] == rhs[r]
    {
      forall c | 0 <= c < |lhs|
        ensures lhs[r][c] == rhs[r][c]
      {
        DoubleMinorEntry(m, w, i, j, r, c);
      }
    }
  }

  /** Opposite products stay opposite under a common factor. */
  lemma OppositeProducts(p: real, q: real, x: real, y: real, d: real)
    requires p * q == -(x * y)
    ensures p * (q * d) == -(x * (y * d))
  {
    assert p * (q * d) == (p * q) * d;
    assert x * (y * d) == (x * y) * d;
  }

  /** An expansion term is its weight times the minor's determinant. */
  lemma {:induction false} CofactorTermWeighted(m: Matrix, i: nat)
    requires Square(m) && i < |m|
    ensures CofactorTerm(m, i) == Weight(m, i) * Det(Minor(m, 0, i))
  {
  }

  /** A pair term, for `j != i`, is a product of two weights and the
      determinant left once rows 0 and 1 and columns `i` and `j` are gone. */
  lemma {:induction false} PairTermExpanded(m: Matrix, i: nat, j: nat)
    requires Square(m) && 2 <= |m| && i < |m| && j < |m| && i != j
    ensures PairTerm(m, i, j) ==
      Weight(m, i) * (Weight(Minor(m, 0, i), Shift(j, i)) * Det(Minor(Minor(m, 0, i), 0, Shift(j, i))))
  {
    CofactorTermWeighted(Minor(m, 0, i), Shift(j, i));
  }

  /** A factor and its negation give opposite products. */
  lemma NegatedFactor(s: real, t: real, a: real)
    requires s == -t
    ensures s * a == -(t * a)
  {
  }

  /** Equal or opposite factors, crosswise, give opposite products. */
  lemma CrossedProducts(p: real, q: real, x: real, y: real)
    requires (p == -y && q == x) || (p == y && q == -x)
    ensures p * q == -(x * y)
  {
  }

  /** Row 1's entry in column `i` weighs on the pair term of (i, j) after
      the exchange as it does on the pair term of (j, i) before it, with the
      sign flipped when `j < i`: column `i` then moves one place left in the
      minor. */
  lemma {:induction false} FirstWeights(m: Matrix, i: nat, j: nat)
    requires Square(m) && 2 <= |m| && i < |m| && j < |m| && i != j
    ensures j < i ==> Weight(SwapRows(m, 0, 1), i) == -Weight(Minor(m, 0, j), Shift(i, j))
    ensures i < j ==> Weight(SwapRows(m, 0, 1), i) == Weight(Minor(m, 0, j), Shift(i, j))
  {
    var ii := Shift(i, j);
    assert Minor(m, 0, j)[0][ii] == m[1][i];
    if j < i {
      assert Sign(i) == -Sign(ii);
      NegatedFactor(Sign(i), Sign(ii), m[1][i]);
    }
  }

  /** Row 0's entry in column `j` likewise, with the sign flipped when
      `i < j`. */
  lemma {:induction false} SecondWeights(m: Matrix, i: nat, j: nat)
    requires Square(m) && 2 <= |m| && i < |m| && j < |m| && i != j
    ensures j < i ==> Weight(Minor(SwapRows(m, 0, 1), 0, i), Shift(j, i)) == Weight(m, j)
    ensures i < j ==> Weight(Minor(SwapRows(m, 0, 1), 0, i), Shift(j, i)) == -Weight(m, j)
  {
    var jj := Shift(j, i);
    assert Minor(SwapRows(m, 0, 1), 0, i)[0][jj] == m[0][j];
    if i < j {
      assert Sign(jj) == -Sign(j);
      NegatedFactor(Sign(jj), Sign(j), m[0][j]);
    }
  }

  /** The weights of the pair term of (i, j) after exchanging rows 0 and 1
      multiply to minus those of the pair term of (j, i) before it. */
  lemma {:induction false} WeightsSwapped(m: Matrix, i: nat, j: nat)
    requires Square(m) && 2 <= |m| && i < |m| && j < |m| && i != j
    ensures Weight(SwapRows(m, 0, 1), i) * Weight(Minor(SwapRows(m, 0, 1), 0, i), Shift(j, i)) ==
            -(Weight(m, j) * Weight(Minor(m, 0, j), Shift(i, j)))
  {
    var w := SwapRows(m, 0, 1);
    FirstWeights(m, i, j);
    SecondWeights(m, i, j);
    CrossedProducts(Weight(w, i), Weight(Minor(w, 0, i), Shift(j, i)), Weight(m, j), Weight(Minor(m, 0, j), Shift(i, j)));
  }

  /** So the determinant left once rows 0 and 1 and columns `i` and `j` are
      gone is the same before and after exchanging rows 0 and 1. */
  lemma {:induction false} DoubleMinorDet(m: Matrix, i: nat, j: nat)
    requires Square(m) && 2 <= |m| && i < |m| && j < |m| && i != j
    ensures Det(Minor(Minor(SwapRows(m, 0, 1), 0, i), 0, Shift(j, i))) == Det(Minor(Minor(m, 0, j), 0, Shift(i, j)))
  {
    DoubleMinor(m, SwapRows(m, 0, 1), i, j);
  }

  /** The expanded pair term of (i, j) after exchanging rows 0 and 1 is
      minus the expanded pair term of (j, i) before it. */
  lemma {:induction false} ExpandedSwapped(m: Matrix, i: nat, j: nat)
    requires Square(m) && 2 <= |m| && i < |m| && j < |m| && i != j
    ensures Weight(SwapRows(m, 0, 1), i) *
              (Weight(Minor(SwapRows(m, 0, 1), 0, i), Shift(j, i)) * Det(Minor(Minor(SwapRows(m, 0, 1), 0, i), 0, Shift(j, i)))) ==
            -(Weight(m, j) * (Weight(Minor(m, 0, j), Shift(i, j)) * Det(Minor(Minor(m, 0, j), 0, Shift(i, j)))))
  {
    var w := SwapRows(m, 0, 1);
    var mw, jj := Minor(w, 0, i), Shift(j, i);
    DoubleMinorDet(m, i, j);
    WeightsSwapped(m, i, j);
    OppositeProducts(Weight(w, i), Weight(mw, jj), Weight(m, j), Weight(Minor(m, 0, j), Shift(i, j)),
                     Det(Minor(mw, 0, jj)));
  }

  /** Exchanging rows 0 and 1 maps the pair term of (i, j) to minus the pair
      term of (j, i). */
  lemma {:induction false} PairTermSwapped(m: Matrix, i: nat, j: nat)
    requires Square(m) && 2 <= |m| && i < |m| && j < |m|
    ensures PairTerm(SwapRows(m, 0, 1), i, j) == -PairTerm(m, j, i)
  {
    if i != j {
      PairTermExpanded(SwapRows(m, 0, 1), i, j);
      PairTermExpanded(m, j, i);
      ExpandedSwapped(m, i, j);
    }
  }

  /** Row `i` of the exchanged matrix's pair grid is the negated column `i`
      of the original's. */
  lemma {:induction false} SwappedPairRow(m: Matrix, i: nat)
    requires Square(m) && 2 <= |m| && i < |m|
    ensures ScaledBy(-1.0, Column(PairGrid(m), i), PairGrid(SwapRows(m, 0, 1))[i])
  {
    forall k | 0 <= k < |m|
      ensures PairGrid(SwapRows(m, 0, 1))[i][k] == -1.0 * Column(PairGrid(m), i)[k]
    {
      PairTermSwapped(m, i, k);
    }
  }

  /** So the exchanged matrix's pair grid is the negated transpose of the
      original's. */
  lemma {:induction false} SwappedGrid(m: Matrix)
    requires Square(m) && 2 <= |m|
    ensures forall i :: 0 <= i < |m| ==>
              ScaledBy(-1.0, Column(PairGrid(m), i), PairGrid(SwapRows(m, 0, 1))[i])
  {
    forall i | 0 <= i < |m|
      ensures ScaledBy(-1.0, Column(PairGrid(m), i), PairGrid(SwapRows(m, 0, 1))[i])
    {
      SwappedPairRow(m, i);
    }
  }

  /** The determinant is the sum of the pair grid's column totals. */
  lemma {:induction false} DetIsColumnTotal(m: Matrix)
    requires Square(m) && 2 <= |m|
    ensures Det(m) == Sum(ColumnTotals(PairGrid(m), |m|))
  {
    DetIsPairTotal(m);
    SumExchange(PairGrid(m), |m|);
  }

  /** The determinant of the exchanged matrix is the negated sum of the
      original pair grid's column totals. */
  lemma {:induction false} SwappedDetIsColumnTotal(m: Matrix)
    requires Square(m) && 2 <= |m|
    ensures Det(SwapRows(m, 0, 1)) == -1.0 * Sum(ColumnTotals(PairGrid(m), |m|))
  {
    SwappedGrid(m);
    NegatedTransposeTotals(PairGrid(m), PairGrid(SwapRows(m, 0, 1)), |m|);
    DetIsPairTotal(SwapRows(m, 0, 1));
  }

  /** Exchanging the first two rows negates the determinant: the pair grid
      of the exchanged matrix is the negated transpose of the original's. */
  lemma {:induction false} DetSwapFirstRows(m: Matrix)
    requires Square(m) && 2 <= |m|
    ensures Det(SwapRows(m, 0, 1)) == -Det(m)
  {
    DetIsColumnTotal(m);
    SwappedDetIsColumnTotal(m);
  }

  /** Deleting row 0 commutes with exchanging two later rows, which move up
      by one. */
  lemma {:induction false} MinorOfSwappedRows(m: Matrix, k: nat, col: nat)
    requires Square(m) && 1 <= k && k + 1 < |m| && col < |m|
    ensures Minor(SwapRows(m, k, k + 1), 0, col) == SwapRows(Minor(m, 0, col), k - 1, k)
  {
    var lhs, rhs := Minor(SwapRows(m, k, k + 1), 0, col), SwapRows(Minor(m, 0, col), k - 1, k);
    forall r | 0 <= r < |lhs|
      ensures lhs[r] == rhs[r]
    {
      forall c | 0 <= c < |lhs|
        ensures lhs[r][c] == rhs[r][c]
      {
      }
    }
  }

  /** Exchanging two neighbouring rows negates the determinant: directly for
      rows 0 and 1, through every minor (by induction) otherwise. */
  lemma {:induction false} DetSwapAdjacent(m: Matrix, k: nat)
    requires Square(m) && k + 1 < |m|
    ensures Det(SwapRows(m, k, k + 1)) == -Det(m)
    decreases |m|, 2
  {
    if k == 0 {
      DetSwapFirstRows(m);
    } else {
      CofactorSumSwap(m, k, |m|);
    }
  }

  lemma {:induction false} CofactorSumSwap(m: Matrix, k: nat, j: nat)
    requires Square(m) && 1 <= k && k + 1 < |m| && j <= |m|
    ensures CofactorSum(SwapRows(m, k, k + 1), j) == -CofactorSum(m, j)
    decreases |m|, 1, j
  {
    if j > 0 {
      CofactorSumSwap(m, k, j - 1);
      CofactorTermSwap(m, k, j - 1);
    }
  }

  lemma {:induction false} CofactorTermSwap(m: Matrix, k: nat, i: nat)
    requires Square(m) && 1 <= k && k + 1 < |m| && i < |m|
    ensures CofactorTerm(SwapRows(m, k, k + 1), i) == -CofactorTerm(m, i)
    decreases |m|, 0
  {
    var w := SwapRows(m, k, k + 1);
    MinorOfSwappedRows(m, k, i);
    DetSwapAdjacent(Minor(m, 0, i), k - 1);
    assert w[0] == m[0];
    var s, a, d := Sign(i), m[0][i], Det(Minor(m, 0, i));
    assert CofactorTerm(w, i) == s * a * -d;
  }

  /** Exchanging rows `i < j` is exchanging `i` with its neighbour, then the
      neighbour with `j`, then `i` with its neighbour again. */
  lemma {:induction false} SwapAsConjugate(m: Matrix, i: nat, j: nat)
    requires Square(m) && i + 1 < j < |m|
    ensures SwapRows(SwapRows(SwapRows(m, i, i + 1), i + 1, j), i, i + 1) == SwapRows(m, i, j)
  {
    var lhs, rhs := SwapRows(SwapRows(SwapRows(m, i, i + 1), i + 1, j), i, i + 1), SwapRows(m, i, j);
    forall r | 0 <= r < |m|
      ensures lhs[r] == rhs[r]
    {
    }
  }

  lemma {:induction false} DetSwapOrdered(m: Matrix, i: nat, j: nat)
    requires Square(m) && i < j < |m|
    ensures Det(SwapRows(m, i, j)) == -Det(m)
    decreases j - i
  {
    if j == i + 1 {
      DetSwapAdjacent(m, i);
    } else {
      var m1 := SwapRows(m, i, i + 1);
      var m2 := SwapRows(m1, i + 1, j);
      DetSwapAdjacent(m, i);
      DetSwapOrdered(m1, i + 1, j);
      DetSwapAdjacent(m2, i);
      SwapAsConjugate(m, i, j);
    }
  }

  /** Exchanging any two distinct rows negates the determinant. */
  lemma {:induction false} DetSwapRows(m: Matrix, i: nat, j: nat)
    requires Square(m) && i < |m| && j < |m| && i != j
    ensures Det(SwapRows(m, i, j)) == -Det(m)
  {
    if i < j {
      DetSwapOrdered(m, i, j);
    } else {
      DetSwapOrdered(m, j, i);
      assert SwapRows(m, i, j) == SwapRows(m, j, i);
    }
  }

  /** A matrix with two equal rows has determinant 0. */
  lemma {:induction false} DetEqualRows(m: Matrix, i: nat, j: nat)
    requires Square(m) && i < |m| && j < |m| && i != j && m[i] == m[j]
    ensures Det(m) == 0.0
  {
    DetSwapRows(m, i, j);
    assert SwapRows(m, i, j) == m;
  }
}
