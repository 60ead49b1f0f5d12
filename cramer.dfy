/** The Cramer's-rule driver of the linear-equation program: one determinant
    for the coefficient matrix, then one per unknown with that unknown's column
    replaced by the right-hand side, each divided by the first. */
module Cramer {
  import opened Matrix
  import opened Determinant
  import opened PairExpansion
  import opened DeterminantRows

  /** The value the solver computes for unknown `i`, before rounding. */
  function CramerValue(a: Matrix, y: seq<real>, i: nat): (r: real)
    requires Square(a) && |y| == |a| && i < |a| && Det(a) != 0.0
    ensures r * Det(a) == Det(ReplacedColumn(a, i, y))
  {
    Det(ReplacedColumn(a, i, y)) / Det(a)
  }

  /** Exchanging two equations of the system, rows `p` and `q` of `a` together
      with entries `p` and `q` of `y`, leaves every value unchanged. */
  lemma {:induction false} CramerValueSwapEquations(a: Matrix, y: seq<real>, i: nat, p: nat, q: nat)
    requires Square(a) && |y| == |a| && i < |a| && Det(a) != 0.0
    requires p < |a| && q < |a| && p != q
    ensures Det(SwapRows(a, p, q)) != 0.0
    ensures CramerValue(SwapRows(a, p, q), y[p := y[q]][q := y[p]], i) == CramerValue(a, y, i)
  {
    var y' := y[p := y[q]][q := y[p]];
    var b := ReplacedColumn(a, i, y);
    var d, db := Det(a), Det(b);
    assert Det(SwapRows(a, p, q)) == -d by { DetSwapRows(a, p, q); }
    assert ReplacedColumn(SwapRows(a, p, q), i, y') == SwapRows(b, p, q) by {
      SwappedReplacedColumn(a, y, i, p, q);
    }
    assert Det(SwapRows(b, p, q)) == -db by { DetSwapRows(b, p, q); }
    QuotientScaled(db, d, -1.0, Det(SwapRows(b, p, q)), Det(SwapRows(a, p, q)));
    assert CramerValue(SwapRows(a, p, q), y', i) == Det(SwapRows(b, p, q)) / Det(SwapRows(a, p, q));
  }

  /** Replacing a column after exchanging two equations is exchanging two rows
      of the replaced matrix. */
  lemma SwappedReplacedColumn(a: Matrix, y: seq<real>, i: nat, p: nat, q: nat)
    requires Square(a) && |y| == |a| && i < |a| && p < |a| && q < |a| && p != q
    ensures ReplacedColumn(SwapRows(a, p, q), i, y[p := y[q]][q := y[p]])
         == SwapRows(ReplacedColumn(a, i, y), p, q)
  {
    var lhs := ReplacedColumn(SwapRows(a, p, q), i, y[p := y[q]][q := y[p]]);
    var rhs := SwapRows(ReplacedColumn(a, i, y), p, q);
    forall r | 0 <= r < |a|
      ensures lhs[r] == rhs[r]
    {
      forall c | 0 <= c < |a|
        ensures lhs[r][c] == rhs[r][c]
      {
      }
    }
  }

  /** Multiplying one equation of the system by a non-zero `k`, row `p` of `a`
      together with entry `p` of `y`, leaves every value unchanged. */
  lemma {:induction false} CramerValueScaleEquation(a: Matrix, y: seq<real>, i: nat, p: nat, k: real)
    requires Square(a) && |y| == |a| && i < |a| && Det(a) != 0.0
    requires p < |a| && k != 0.0
    ensures Det(ScaleRow(a, p, k)) != 0.0
    ensures CramerValue(ScaleRow(a, p, k), y[p := k * y[p]], i) == CramerValue(a, y, i)
  {
    var b := ReplacedColumn(a, i, y);
    DetScaleRow(a, p, k);
    ScaledReplacedColumn(a, y, i, p, k);
    DetScaleRow(b, p, k);
    QuotientScaled(Det(b), Det(a), k, Det(ScaleRow(b, p, k)), Det(ScaleRow(a, p, k)));
    assert CramerValue(ScaleRow(a, p, k), y[p := k * y[p]], i)
        == Det(ScaleRow(b, p, k)) / Det(ScaleRow(a, p, k));
  }

  /** Replacing a column after scaling an equation is scaling a row of the
      replaced matrix. */
  lemma ScaledReplacedColumn(a: Matrix, y: seq<real>, i: nat, p: nat, k: real)
    requires Square(a) && |y| == |a| && i < |a| && p < |a|
    ensures ReplacedColumn(ScaleRow(a, p, k), i, y[p := k * y[p]])
         == ScaleRow(ReplacedColumn(a, i, y), p, k)
  {
    var lhs := ReplacedColumn(ScaleRow(a, p, k), i, y[p := k * y[p]]);
    var rhs := ScaleRow(ReplacedColumn(a, i, y), p, k);
    forall r | 0 <= r < |a|
      ensures lhs[r] == rhs[r]
    {
      forall c | 0 <= c < |a|
        ensures lhs[r][c] == rhs[r][c]
      {
      }
    }
  }

  /** Scaling both sides of a quotient by the same non-zero factor keeps it. */
  lemma QuotientScaled(x: real, d: real, k: real, kx: real, kd: real)
    requires d != 0.0 && k != 0.0 && kx == k * x && kd == k * d
    ensures kd != 0.0 && kx / kd == x / d
  {
    var r := x / d;
    assert r * d == x;
    assert r * kd == kx;
  }

  /** When the right-hand side is column `i` of `a` itself, the solution is the
      unit vector for `i`: its value for unknown `i` is 1. */
  lemma {:induction false} CramerValueOwnColumn(a: Matrix, y: seq<real>, i: nat)
    requires Square(a) && |y| == |a| && i < |a| && Det(a) != 0.0
    requires forall r :: 0 <= r < |a| ==> y[r] == a[r][i]
    ensures CramerValue(a, y, i) == 1.0
  {
    ReplacedOwnColumn(a, y, i);
    QuotientScaled(1.0, 1.0, Det(a), Det(a), Det(a));
    assert CramerValue(a, y, i) == Det(a) / Det(a);
  }

  /** Writing a column's own values back into it changes nothing. */
  lemma ReplacedOwnColumn(a: Matrix, y: seq<real>, i: nat)
    requires Square(a) && |y| == |a| && i < |a|
    requires forall r :: 0 <= r < |a| ==> y[r] == a[r][i]
    ensures ReplacedColumn(a, i, y) == a
  {
    var b := ReplacedColumn(a, i, y);
    forall r | 0 <= r < |a|
      ensures b[r] == a[r]
    {
      assert |b[r]| == |a[r]|;
      forall c | 0 <= c < |a|
        ensures b[r][c] == a[r][c]
      {
      }
    }
  }

  /** The arithmetic part of the program's main loop: every unknown is the
      determinant of the Cramer matrix over the determinant of `a`.  All
      determinants go through one engine, so minors shared between the
      Cramer matrices are computed once. */
  method Solve(engine: DeterminantEngine, a: Matrix, y: seq<real>) returns (x: seq<real>)
    requires engine.Valid() && Square(a) && |y| == |a| && Det(a) != 0.0
    modifies engine
    ensures engine.Valid()
    ensures |x| == |a|
    ensures forall i :: 0 <= i < |a| ==> x[i] == CramerValue(a, y, i)
    ensures forall k :: k in old(engine.cache) ==> k in engine.cache && engine.cache[k] == old(engine.cache)[k]
  {
    var n := |a|;
    var originalDeterminant := engine.GetDeterminant(a, n);
    x := seq(n, _ => 0.0);
    for i := 0 to n
      invariant engine.Valid()
      invariant |x| == n
      invariant forall j :: 0 <= j < i ==> x[j] == CramerValue(a, y, j)
      invariant forall k :: k in old(engine.cache) ==> k in engine.cache && engine.cache[k] == old(engine.cache)[k]
    {
      var replaced := ReplaceColumn(a, n, i, y);
      var replacedDeterminant := engine.GetDeterminant(replaced, n);
      x := x[i := replacedDeterminant / originalDeterminant];
    }
  }

  /** On a 2x2 system both Cramer values have the textbook closed form. */
  lemma CramerValues2x2(a: Matrix, y: seq<real>)
    requires Square(a) && |a| == 2 && |y| == 2 && Det(a) != 0.0
    ensures Det(a) == a[0][0] * a[1][1] - a[0][1] * a[1][0]
    ensures CramerValue(a, y, 0) == (y[0] * a[1][1] - a[0][1] * y[1]) / (a[0][0] * a[1][1] - a[0][1] * a[1][0])
    ensures CramerValue(a, y, 1) == (a[0][0] * y[1] - y[0] * a[1][0]) / (a[0][0] * a[1][1] - a[0][1] * a[1][0])
  {
    DetOfSize2(a);
    ReplacedDet2x2(a, y, 0);
    ReplacedDet2x2(a, y, 1);
  }

  /** The two Cramer determinants of a 2x2 system in closed form. */
  lemma ReplacedDet2x2(a: Matrix, y: seq<real>, col: nat)
    requires Square(a) && |a| == 2 && |y| == 2 && col < 2
    ensures col == 0 ==> Det(ReplacedColumn(a, col, y)) == y[0] * a[1][1] - a[0][1] * y[1]
    ensures col == 1 ==> Det(ReplacedColumn(a, col, y)) == a[0][0] * y[1] - y[0] * a[1][0]
  {
    var b := ReplacedColumn(a, col, y);
    DetOfSize2(b);
    if col == 0 {
      assert b[0][0] == y[0] && b[0][1] == a[0][1] && b[1][0] == y[1] && b[1][1] == a[1][1];
    } else {
      assert b[0][0] == a[0][0] && b[0][1] == y[0] && b[1][0] == a[1][0] && b[1][1] == y[1];
    }
  }

  /** The closed forms of CramerValues2x2 solve the system p x0 + q x1 = u,
      r x0 + s x1 = v whenever its determinant p s - q r is not zero: together
      the two lemmas say that the solver's values satisfy both equations. */
  lemma ClosedFormSolves2x2(p: real, q: real, r: real, s: real, u: real, v: real)
    requires p * s - q * r != 0.0
    ensures p * ((u * s - q * v) / (p * s - q * r)) + q * ((p * v - u * r) / (p * s - q * r)) == u
    ensures r * ((u * s - q * v) / (p * s - q * r)) + s * ((p * v - u * r) / (p * s - q * r)) == v
  {
    var d := p * s - q * r;
    var x0, x1 := (u * s - q * v) / d, (p * v - u * r) / d;
    assert p * (u * s - q * v) + q * (p * v - u * r) == u * d;
    assert r * (u * s - q * v) + s * (p * v - u * r) == v * d;
    assert x0 * d == u * s - q * v && x1 * d == p * v - u * r;
    assert (p * x0 + q * x1) * d == u * d;
    assert (r * x0 + s * x1) * d == v * d;
  }

  /** A 1x1 system: 5 x = 10 gives 2. */
  lemma OneByOneExample()
    ensures CramerValue([[5.0]], [10.0], 0) == 2.0
  {
    DetOfSize1([[5.0]]);
    DetOfSize1(ReplacedColumn([[5.0]], 0, [10.0]));
  }

  /** x + 2y = 5, 3x + 4y = 6: the determinant is -2 and the values are -4 and 4.5. */
  lemma TwoByTwoExample()
    ensures Det([[1.0, 2.0], [3.0, 4.0]]) == -2.0
    ensures CramerValue([[1.0, 2.0], [3.0, 4.0]], [5.0, 6.0], 0) == -4.0
    ensures CramerValue([[1.0, 2.0], [3.0, 4.0]], [5.0, 6.0], 1) == 4.5
  {
    var a, y := [[1.0, 2.0], [3.0, 4.0]], [5.0, 6.0];
    DetOfSize2(a);
    DetOfSize2(ReplacedColumn(a, 0, y));
    DetOfSize2(ReplacedColumn(a, 1, y));
  }
}
