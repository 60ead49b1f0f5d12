/** The determinant engine: closed forms for sizes 1, 2 and 3, first-row
    cofactor (Laplace) expansion for larger matrices, and a memo table keyed
    by the full content of the matrix. */
module Determinant {
  import opened Matrix

  /** The cofactor sign (-1)^i: +1 at column 0, flipping at every column. */
  function Sign(i: nat): real {
    if i == 0 then 1.0 else -Sign(i - 1)
  }

  /** The determinant, by expansion along the first row; the empty matrix has
      determinant 1 (the empty product). */
  function Det(m: Matrix): real
    requires Square(m)
    decreases |m|, 2
  {
    if |m| == 0 then 1.0 else CofactorSum(m, |m|)
  }

  /** The first `k` terms of the first-row expansion. */
  function CofactorSum(m: Matrix, k: nat): real
    requires Square(m) && k <= |m|
    decreases |m|, 1, k
  {
    if k == 0 then 0.0 else CofactorSum(m, k - 1) + CofactorTerm(m, k - 1)
  }

  /** Term `i` of the first-row expansion. */
  function CofactorTerm(m: Matrix, i: nat): real
    requires Square(m) && i < |m|
    decreases |m|, 0
  {
    Sign(i) * m[0][i] * Det(Minor(m, 0, i))
  }

  /** What `get_determinant` returns: the determinant for every size from 1 on.
      On the empty matrix the source falls through to the expansion loop,
      which runs zero times and yields 0. */
  function EngineValue(m: Matrix): (v: real)
    requires Square(m)
    ensures |m| == 0 ==> v == 0.0
    ensures |m| == 1 ==> v == Determinant1(m)
    ensures |m| == 2 ==> v == Determinant2(m)
    ensures |m| == 3 ==> v == Determinant3(m)
  {
    if |m| == 0 then 0.0 else Det(m)
  }

  lemma {:induction false} DetOfSize1(m: Matrix)
    requires Square(m) && |m| == 1
    ensures Det(m) == m[0][0]
  {
    var minor := Minor(m, 0, 0);
    assert |minor| == 0 && Det(minor) == 1.0;
    assert CofactorSum(m, 1) == CofactorTerm(m, 0) == Sign(0) * m[0][0] * Det(minor);
  }

  lemma {:induction false} DetOfSize2(m: Matrix)
    requires Square(m) && |m| == 2
    ensures Det(m) == m[0][0] * m[1][1] - m[0][1] * m[1][0]
  {
    var minor0, minor1 := Minor(m, 0, 0), Minor(m, 0, 1);
    DetOfSize1(minor0);
    DetOfSize1(minor1);
    assert Sign(1) == -1.0;
    assert CofactorTerm(m, 0) == m[0][0] * m[1][1];
    assert CofactorTerm(m, 1) == -m[0][1] * m[1][0];
    assert CofactorSum(m, 1) == CofactorTerm(m, 0);
    assert CofactorSum(m, 2) == CofactorSum(m, 1) + CofactorTerm(m, 1);
  }

  lemma {:induction false} DetOfSize3(m: Matrix)
    requires Square(m) && |m| == 3
    ensures Det(m) ==
              m[0][0] * (m[1][1] * m[2][2] - m[1][2] * m[2][1])
            - m[0][1] * (m[1][0] * m[2][2] - m[1][2] * m[2][0])
            + m[0][2] * (m[1][0] * m[2][1] - m[1][1] * m[2][0])
  {
    var minor0, minor1, minor2 := Minor(m, 0, 0), Minor(m, 0, 1), Minor(m, 0, 2);
    DetOfSize2(minor0);
    DetOfSize2(minor1);
    DetOfSize2(minor2);
    assert Sign(1) == -1.0 && Sign(2) == 1.0;
    assert CofactorTerm(m, 0) == m[0][0] * (m[1][1] * m[2][2] - m[1][2] * m[2][1]);
    assert CofactorTerm(m, 1) == -m[0][1] * (m[1][0] * m[2][2] - m[1][2] * m[2][0]);
    assert CofactorTerm(m, 2) == m[0][2] * (m[1][0] * m[2][1] - m[1][1] * m[2][0]);
    assert CofactorSum(m, 1) == CofactorTerm(m, 0);
    assert CofactorSum(m, 2) == CofactorSum(m, 1) + CofactorTerm(m, 1);
    assert CofactorSum(m, 3) == CofactorSum(m, 2) + CofactorTerm(m, 2);
  }

  /** `get_determinant1`: the single entry, which is the 1x1 expansion. */
  function Determinant1(m: Matrix): (d: real)
    requires Square(m) && |m| == 1
    ensures d == Det(m)
  {
    DetOfSize1(m);
    m[0][0]
  }

  /** `get_determinant2`: the 2x2 closed form, which is the expansion. */
  function Determinant2(m: Matrix): (d: real)
    requires Square(m) && |m| == 2
    ensures d == Det(m)
  {
    DetOfSize2(m);
    m[0][0] * m[1][1] - m[0][1] * m[1][0]
  }

  /** `get_determinant3`: the 3x3 closed form, which is the expansion. */
  function Determinant3(m: Matrix): (d: real)
    requires Square(m) && |m| == 3
    ensures d == Det(m)
  {
    DetOfSize3(m);
    m[0][0] * (m[1][1] * m[2][2] - m[1][2] * m[2][1])
    - m[0][1] * (m[1][0] * m[2][2] - m[1][2] * m[2][0])
    + m[0][2] * (m[1][0] * m[2][1] - m[1][1] * m[2][0])
  }

  /** `m` with row `row` multiplied by `k`. */
  function ScaleRow(m: Matrix, row: nat, k: real): (res: Matrix)
    requires Square(m) && row < |m|
    ensures Square(res) && |res| == |m|
  {
    m[row := seq(|m|, c requires 0 <= c < |m| => k * m[row][c])]
  }

  /** Deleting row 0 undoes scaling row 0. */
  lemma MinorOfScaledFirstRow(m: Matrix, k: real, col: nat)
    requires Square(m) && 0 < |m| && col < |m|
    ensures Minor(ScaleRow(m, 0, k), 0, col) == Minor(m, 0, col)
  {
    var lhs, rhs := Minor(ScaleRow(m, 0, k), 0, col), Minor(m, 0, col);
    forall r | 0 <= r < |lhs|
      ensures lhs[r] == rhs[r]
    {
      forall c | 0 <= c < |lhs|
        ensures lhs[r][c] == rhs[r][c]
      {
      }
    }
  }

  /** Deleting row 0 commutes with scaling a later row (which moves up by one). */
  lemma MinorOfScaledRow(m: Matrix, row: nat, k: real, col: nat)
    requires Square(m) && 0 < row < |m| && col < |m|
    ensures Minor(ScaleRow(m, row, k), 0, col) == ScaleRow(Minor(m, 0, col), row - 1, k)
  {
    var lhs, rhs := Minor(ScaleRow(m, row, k), 0, col), ScaleRow(Minor(m, 0, col), row - 1, k);
    forall r | 0 <= r < |lhs|
      ensures lhs[r] == rhs[r]
    {
      forall c | 0 <= c < |lhs|
        ensures lhs[r][c] == rhs[r][c]
      {
      }
    }
  }

  /** Multiplying one row by `k` multiplies the determinant by `k`. */
  lemma {:induction false} DetScaleRow(m: Matrix, row: nat, k: real)
    requires Square(m) && row < |m|
    ensures Det(ScaleRow(m, row, k)) == k * Det(m)
    decreases |m|, 2
  {
    CofactorSumScaleRow(m, row, k, |m|);
  }

  /** Every partial sum of the expansion scales with the row. */
  lemma {:induction false} CofactorSumScaleRow(m: Matrix, row: nat, k: real, j: nat)
    requires Square(m) && row < |m| && j <= |m|
    ensures CofactorSum(ScaleRow(m, row, k), j) == k * CofactorSum(m, j)
    decreases |m|, 1, j
  {
    if j > 0 {
      CofactorSumScaleRow(m, row, k, j - 1);
      CofactorTermScaleRow(m, row, k, j - 1);
    }
  }

  /** The arithmetic of one expansion term, kept apart from the matrices. */
  lemma ScaledProduct(sign: real, a: real, a': real, d: real, d': real, k: real)
    requires a' * d' == k * (a * d)
    ensures sign * a' * d' == k * (sign * a * d)
  {
    assert sign * a' * d' == sign * (a' * d');
  }

  /** One term of the expansion scales with the row: through the entry when
      row 0 is scaled, through the minor (by induction) otherwise. */
  lemma {:induction false} CofactorTermScaleRow(m: Matrix, row: nat, k: real, i: nat)
    requires Square(m) && row < |m| && i < |m|
    ensures CofactorTerm(ScaleRow(m, row, k), i) == k * CofactorTerm(m, i)
    decreases |m|, 0
  {
    var m' := ScaleRow(m, row, k);
    var a, a', d, d' := m[0][i], m'[0][i], Det(Minor(m, 0, i)), Det(Minor(m', 0, i));
    if row == 0 {
      MinorOfScaledFirstRow(m, k, i);
      assert a' == k * a && d' == d;
    } else {
      MinorOfScaledRow(m, row, k, i);
      DetScaleRow(Minor(m, 0, i), row - 1, k);
      assert a' == a && d' == k * d;
    }
    ScaledProduct(Sign(i), a, a', d, d', k);
  }

  /** The memo table and the evaluator that fills it.  The source keeps the
      table in a process-wide `std::map`; here it is the state of an object. */
  class DeterminantEngine {
    var cache: map<Matrix, real>

    /** Every stored entry is a square matrix of size 0 or at least 4, mapped
        to exactly the value a fresh evaluation returns. */
    ghost predicate Valid()
      reads this
    {
      forall k :: k in cache ==> Square(k) && (|k| == 0 || |k| >= 4) && cache[k] == EngineValue(k)
    }

    constructor ()
      ensures Valid() && cache == map[]
    {
      cache := map[];
    }

    /** `get_determinant`: closed forms below size 4, otherwise the cached value
        if there is one, otherwise the expansion along row 0 with the sign
        starting at +1 and flipping per column, stored before returning. */
    method GetDeterminant(m: Matrix, size: nat) returns (d: real)
      requires Valid() && Square(m) && |m| == size
      modifies this
      decreases size
      ensures Valid()
      ensures d == EngineValue(m)
      ensures size >= 1 ==> d == Det(m)
      ensures forall k :: k in old(cache) ==> k in cache && cache[k] == old(cache)[k]
      ensures size == 0 || size >= 4 ==> m in cache
      ensures 1 <= size <= 3 ==> cache == old(cache)
    {
      if size == 1 {
        return Determinant1(m);
      } else if size == 2 {
        return Determinant2(m);
      } else if size == 3 {
        return Determinant3(m);
      }

      if m in cache {
        return cache[m];
      }

      var result := 0.0;
      var sign := 1.0;
      for i := 0 to size
        invariant Valid()
        invariant result == CofactorSum(m, i)
        invariant sign == Sign(i)
        invariant forall k :: k in old(cache) ==> k in cache && cache[k] == old(cache)[k]
      {
        var minor := ShrinkMatrix(m, size, 0, i);
        var minorDet := GetDeterminant(minor, size - 1);
        result := result + sign * m[0][i] * minorDet;
        sign := sign * -1.0;
      }

      cache := cache[m := result];
      d := result;
    }
  }
}
