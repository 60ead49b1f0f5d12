/** Square matrices of reals and the two pure transforms the determinant engine
    and the Cramer driver are built from: removing one row and one column
    (`shrink_matrix`) and overwriting one column (`replace_column`). */
module Matrix {

  /** Rows of columns, 0-based; the `long double` entries become exact reals. */
  type Matrix = seq<seq<real>>

  /** Every row is as long as there are rows. */
  predicate Square(m: Matrix) {
    forall r :: 0 <= r < |m| ==> |m[r]| == |m|
  }

  /** The minor of `m`: row `row` and column `col` deleted.  The ensures says
      where each remaining entry came from: the rows and columns after the
      deleted ones shift up (left) by one, so the relative order is kept. */
  function Minor(m: Matrix, row: nat, col: nat): (res: Matrix)
    requires Square(m) && row < |m| && col < |m|
    ensures Square(res) && |res| == |m| - 1
    ensures forall r, c :: 0 <= r < |res| && 0 <= c < |res| ==>
              res[r][c] == m[if r < row then r else r + 1][if c < col then c else c + 1]
  {
    var rows := m[..row] + m[row + 1..];
    seq(|rows|, r requires 0 <= r < |rows| => rows[r][..col] + rows[r][col + 1..])
  }

  /** `m` with column `col` overwritten, row by row, by `values`. */
  function ReplacedColumn(m: Matrix, col: nat, values: seq<real>): (res: Matrix)
    requires Square(m) && col < |m| && |values| >= |m|
    ensures Square(res) && |res| == |m|
    ensures forall r :: 0 <= r < |m| ==> res[r][col] == values[r]
    ensures forall r, c :: 0 <= r < |m| && 0 <= c < |m| && c != col ==> res[r][c] == m[r][c]
  {
    seq(|m|, r requires 0 <= r < |m| => m[r][col := values[r]])
  }

  /** Replacing the same column with the same values twice is the same as once. */
  lemma ReplacedColumnIdempotent(m: Matrix, col: nat, values: seq<real>)
    requires Square(m) && col < |m| && |values| >= |m|
    ensures ReplacedColumn(ReplacedColumn(m, col, values), col, values) == ReplacedColumn(m, col, values)
  {
    var once := ReplacedColumn(m, col, values);
    var twice := ReplacedColumn(once, col, values);
    forall r | 0 <= r < |m|
      ensures twice[r] == once[r]
    {
      assert |twice[r]| == |once[r]| == |m|;
      forall c | 0 <= c < |m|
        ensures twice[r][c] == once[r][c]
      {
      }
    }
  }

  /** The minor built the way the source builds it: a fresh (size-1)x(size-1)
      matrix of zeros filled by two nested loops, with `rowMarker` and
      `columnMarker` counting the rows and columns already written. */
  method ShrinkMatrix(m: Matrix, size: nat, removeRow: nat, removeColumn: nat) returns (res: Matrix)
    requires Square(m) && |m| == size && removeRow < size && removeColumn < size
    ensures res == Minor(m, removeRow, removeColumn)
  {
    res := seq(size - 1, _ => seq(size - 1, _ => 0.0));
    var rowMarker := 0;
    for rowI := 0 to size
      invariant rowMarker == if rowI <= removeRow then rowI else rowI - 1
      invariant |res| == size - 1 && forall r :: 0 <= r < size - 1 ==> |res[r]| == size - 1
      invariant forall r, c :: 0 <= r < rowMarker && 0 <= c < size - 1 ==>
                  res[r][c] == m[if r < removeRow then r else r + 1][if c < removeColumn then c else c + 1]
    {
      if rowI == removeRow {
        continue;
      }
      var columnMarker := 0;
      for colI := 0 to size
        invariant columnMarker == if colI <= removeColumn then colI else colI - 1
        invariant |res| == size - 1 && forall r :: 0 <= r < size - 1 ==> |res[r]| == size - 1
        invariant forall r, c :: 0 <= r < rowMarker && 0 <= c < size - 1 ==>
                    res[r][c] == m[if r < removeRow then r else r + 1][if c < removeColumn then c else c + 1]
        invariant forall c :: 0 <= c < columnMarker ==>
                    res[rowMarker][c] == m[rowI][if c < removeColumn then c else c + 1]
      {
        if colI == removeColumn {
          continue;
        }
        res := res[rowMarker := res[rowMarker][columnMarker := m[rowI][colI]]];
        columnMarker := columnMarker + 1;
      }
      rowMarker := rowMarker + 1;
    }
    var expected := Minor(m, removeRow, removeColumn);
    forall r | 0 <= r < size - 1
      ensures res[r] == expected[r]
    {
      forall c | 0 <= c < size - 1
        ensures res[r][c] == expected[r][c]
      {
      }
    }
  }

  /** The Cramer matrix built the way the source builds it: the argument is a
      copy (passed by value), overwritten in column `column` one row at a time. */
  method ReplaceColumn(m: Matrix, size: nat, column: nat, values: seq<real>) returns (res: Matrix)
    requires Square(m) && |m| == size && column < size && |values| >= size
    ensures res == ReplacedColumn(m, column, values)
  {
    res := m;
    for i := 0 to size
      invariant |res| == size
      invariant forall r :: 0 <= r < size ==> res[r] == if r < i then m[r][column := values[r]] else m[r]
    {
      res := res[i := res[i][column := values[i]]];
    }
  }
}
