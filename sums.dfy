/** Finite sums of reals, and the exchange of a double sum over a grid: the
    bookkeeping behind the two-row expansion of the determinant. */
module Sums {

  /** The sum of a sequence of reals, the last term added last. */
  function Sum(s: seq<real>): real {
    if s == [] then 0.0 else Sum(s[..|s| - 1]) + s[|s| - 1]
  }

  /** A sum of zeros is zero. */
  lemma {:induction false} SumZero(s: seq<real>)
    requires forall k :: 0 <= k < |s| ==> s[k] == 0.0
    ensures Sum(s) == 0.0
  {
    if s != [] {
      SumZero(s[..|s| - 1]);
    }
  }

  /** Sums add termwise. */
  lemma {:induction false} SumAdd(a: seq<real>, b: seq<real>, t: seq<real>)
    requires |a| == |b| == |t|
    requires forall k :: 0 <= k < |t| ==> t[k] == a[k] + b[k]
    ensures Sum(t) == Sum(a) + Sum(b)
  {
    if t != [] {
      var n := |t| - 1;
      SumAdd(a[..n], b[..n], t[..n]);
    }
  }

  /** `t` is `s` scaled termwise by `c`. */
  predicate ScaledBy(c: real, s: seq<real>, t: seq<real>) {
    |t| == |s| && forall k :: 0 <= k < |t| ==> t[k] == c * s[k]
  }

  /** A common factor comes out of a sum. */
  lemma {:induction false} SumScaled(c: real, s: seq<real>, t: seq<real>)
    requires ScaledBy(c, s, t)
    ensures Sum(t) == c * Sum(s)
  {
    if t != [] {
      var n := |t| - 1;
      SumScaled(c, s[..n], t[..n]);
      assert c * Sum(s) == c * Sum(s[..n]) + c * s[n];
    }
  }

  /** Inserting a zero term at position `i` leaves a sum unchanged. */
  lemma {:induction false} SumWithZero(s: seq<real>, t: seq<real>, i: nat)
    requires |t| == |s| + 1 && i <= |s| && t[i] == 0.0
    requires forall k :: 0 <= k < i ==> t[k] == s[k]
    requires forall k :: i <= k < |s| ==> t[k + 1] == s[k]
    ensures Sum(t) == Sum(s)
  {
    var n := |s|;
    if i == n {
      assert t[..n] == s;
    } else {
      SumWithZero(s[..n - 1], t[..n], i);
    }
  }

  /** Column `j` of a grid of reals. */
  function Column(g: seq<seq<real>>, j: nat): (col: seq<real>)
    requires forall r :: 0 <= r < |g| ==> j < |g[r]|
    ensures |col| == |g| && forall r :: 0 <= r < |g| ==> col[r] == g[r][j]
  {
    seq(|g|, r requires 0 <= r < |g| => g[r][j])
  }

  /** The sum of each row of a grid. */
  function RowTotals(g: seq<seq<real>>): (t: seq<real>)
    ensures |t| == |g| && forall r :: 0 <= r < |g| ==> t[r] == Sum(g[r])
  {
    seq(|g|, r requires 0 <= r < |g| => Sum(g[r]))
  }

  /** The sum of each column of a grid whose rows all have `w` entries. */
  function ColumnTotals(g: seq<seq<real>>, w: nat): (t: seq<real>)
    requires forall r :: 0 <= r < |g| ==> |g[r]| == w
    ensures |t| == w && forall j :: 0 <= j < w ==> t[j] == Sum(Column(g, j))
  {
    seq(w, j requires 0 <= j < w => Sum(Column(g, j)))
  }

  /** The row totals of the first `n` rows are the first `n` row totals. */
  lemma RowTotalsPrefix(g: seq<seq<real>>, n: nat)
    requires n <= |g|
    ensures RowTotals(g)[..n] == RowTotals(g[..n])
  {
  }

  /** Each column total is the total over all rows but the last, plus the
      last row's entry. */
  lemma {:induction false} ColumnTotalsLast(g: seq<seq<real>>, w: nat)
    requires g != []
    requires forall r :: 0 <= r < |g| ==> |g[r]| == w
    ensures forall j :: 0 <= j < w ==>
              ColumnTotals(g, w)[j] == ColumnTotals(g[..|g| - 1], w)[j] + g[|g| - 1][j]
  {
    forall j | 0 <= j < w
      ensures ColumnTotals(g, w)[j] == ColumnTotals(g[..|g| - 1], w)[j] + g[|g| - 1][j]
    {
      assert Column(g, j)[..|g| - 1] == Column(g[..|g| - 1], j);
    }
  }

  /** A finite double sum may be taken row by row or column by column. */
  lemma {:induction false} SumExchange(g: seq<seq<real>>, w: nat)
    requires forall r :: 0 <= r < |g| ==> |g[r]| == w
    ensures Sum(RowTotals(g)) == Sum(ColumnTotals(g, w))
  {
    if g == [] {
      SumZero(ColumnTotals(g, w));
    } else {
      var n := |g| - 1;
      SumExchange(g[..n], w);
      RowTotalsPrefix(g, n);
      ColumnTotalsLast(g, w);
      SumAdd(ColumnTotals(g[..n], w), g[n], ColumnTotals(g, w));
    }
  }

  /** A grid whose row `k` is the negated column `k` of `g` has as row
      totals the negated column totals of `g`. */
  lemma {:induction false} NegatedTransposeRows(g: seq<seq<real>>, h: seq<seq<real>>, n: nat)
    requires |g| == n && |h| == n
    requires forall r :: 0 <= r < n ==> |g[r]| == n
    requires forall k :: 0 <= k < n ==> ScaledBy(-1.0, Column(g, k), h[k])
    ensures ScaledBy(-1.0, ColumnTotals(g, n), RowTotals(h))
  {
    forall k | 0 <= k < n
      ensures RowTotals(h)[k] == -1.0 * ColumnTotals(g, n)[k]
    {
      SumScaled(-1.0, Column(g, k), h[k]);
    }
  }

  /** And so its total is the negated total of `g`. */
  lemma {:induction false} NegatedTransposeTotals(g: seq<seq<real>>, h: seq<seq<real>>, n: nat)
    requires |g| == n && |h| == n
    requires forall r :: 0 <= r < n ==> |g[r]| == n
    requires forall k :: 0 <= k < n ==> ScaledBy(-1.0, Column(g, k), h[k])
    ensures Sum(RowTotals(h)) == -1.0 * Sum(ColumnTotals(g, n))
  {
    NegatedTransposeRows(g, h, n);
    SumScaled(-1.0, ColumnTotals(g, n), RowTotals(h));
  }
}
