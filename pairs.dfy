/** The two-row expansion of the determinant: row exchange, and the terms
    the first-row expansion produces once the minor is expanded along its own
    first row (row 1 of the matrix).  Every pair of distinct columns (i, j)
    contributes one term. */
module PairExpansion {
  import opened Matrix
  import opened Determinant

  /** `m` with rows `i` and `j` exchanged. */
  function SwapRows(m: Matrix, i: nat, j: nat): (res: Matrix)
    requires Square(m) && i < |m| && j < |m|
    ensures Square(res) && |res| == |m|
    ensures res[i] == m[j] && res[j] == m[i]
    ensures forall r :: 0 <= r < |m| && r != i && r != j ==> res[r] == m[r]
  {
    m[i := m[j]][j := m[i]]
  }

  /** The column of the minor that column `j` of `m` becomes once column `i`
      is deleted. */
  function Shift(j: nat, i: nat): nat
    requires j != i
  {
    if j < i then j else j - 1
  }

  /** The factor the first-row expansion gives column `i` of row 0: its sign
      times its entry. */
  function Weight(m: Matrix, i: nat): real
    requires Square(m) && i < |m|
  {
    Sign(i) * m[0][i]
  }

  /** The term of the two-row expansion for column `i` of row 0 and column
      `j` of row 1: term `Shift(j, i)` of the expansion of the minor, scaled
      by term `i`'s sign and entry.  Equal columns contribute nothing. */
  function PairTerm(m: Matrix, i: nat, j: nat): real
    requires Square(m) && 2 <= |m| && i < |m| && j < |m|
  {
    if i == j then 0.0
    else Weight(m, i) * CofactorTerm(Minor(m, 0, i), Shift(j, i))
  }

  /** The first-row expansion's terms, in column order. */
  function Terms(m: Matrix): (t: seq<real>)
    requires Square(m)
    ensures |t| == |m| && forall i :: 0 <= i < |m| ==> t[i] == CofactorTerm(m, i)
  {
    seq(|m|, i requires 0 <= i < |m| => CofactorTerm(m, i))
  }

  /** The pair terms of column `i` of row 0, over the columns of row 1. */
  function PairRow(m: Matrix, i: nat): (row: seq<real>)
    requires Square(m) && 2 <= |m| && i < |m|
    ensures |row| == |m| && forall j :: 0 <= j < |m| ==> row[j] == PairTerm(m, i, j)
  {
    seq(|m|, j requires 0 <= j < |m| => PairTerm(m, i, j))
  }

  /** All pair terms of the two-row expansion. */
  function PairGrid(m: Matrix): (g: seq<seq<real>>)
    requires Square(m) && 2 <= |m|
    ensures |g| == |m| && forall i :: 0 <= i < |m| ==> g[i] == PairRow(m, i)
  {
    seq(|m|, i requires 0 <= i < |m| => PairRow(m, i))
  }

  /** The terms of the minor's expansion met along row 1: term `Shift(j, i)`
      at column `j`, and a zero at the deleted column `i`. */
  function MinorRow(m: Matrix, i: nat): (row: seq<real>)
    requires Square(m) && 2 <= |m| && i < |m|
    ensures |row| == |m| && row[i] == 0.0
    ensures forall j :: 0 <= j < |m| && j != i ==> row[j] == CofactorTerm(Minor(m, 0, i), Shift(j, i))
  {
    seq(|m|, j requires 0 <= j < |m| => if j == i then 0.0 else CofactorTerm(Minor(m, 0, i), Shift(j, i)))
  }
}
