/** The matrix-multiplication strategy of mmult.hpp: Iterative_Multiplier,
    the triple-loop implementation of the one-method Multiplier interface. */
module Mmult {
  import opened Grid
  import opened DenseSpec
  import opened Fmatrix

  class IterativeMultiplier {

    constructor ()
    {
    }

    /** C = A * B for an n-by-m A and an m-by-p B. Each cell is accumulated
        from zero over the m inner positions and written once, in row-major
        order; A and B are only read. The result is the one
        FMatrix.MultiplyMatrix gives on the same operands. */
    method Apply(a: FMatrix, b: FMatrix) returns (c: FMatrix)
      requires a.Valid() && b.Valid() && a.cols == b.rows
      ensures c.Valid() && c.rows == a.rows && c.cols == b.cols && fresh(c) && fresh(c.fmat)
      ensures c.fmat[..] == Product(a.fmat[..], b.fmat[..], a.rows, a.cols, b.cols)
    {
      var n, m, p := a.rows, a.cols, b.cols;
      ghost var prod := Product(a.fmat[..], b.fmat[..], n, m, p);
      c := new FMatrix(n, p);
      var i := 0;
      while i < n
        invariant 0 <= i <= n
        invariant Index(p, i, 0) <= n * p
        invariant forall x :: 0 <= x < Index(p, i, 0) ==> x < |prod| && c.fmat[x] == prod[x]
      {
        var j := 0;
        while j < p
          invariant 0 <= j <= p
          invariant Index(p, i, j) <= n * p
          invariant forall x :: 0 <= x < Index(p, i, j) ==> x < |prod| && c.fmat[x] == prod[x]
        {
          var sum := 0;
          var k := 0;
          while k < m
            invariant 0 <= k <= m
            invariant sum == DenseDot(a.fmat[..], b.fmat[..], m, p, i, j, k)
            modifies {}
          {
            IndexInGrid(n, m, i, k);
            IndexInGrid(m, p, k, j);
            sum := sum + a.fmat[Index(m, i, k)] * b.fmat[Index(p, k, j)];
            k := k + 1;
          }
          ProductCell(a.fmat[..], b.fmat[..], n, m, p, i, j);
          c.fmat[Index(p, i, j)] := sum;
          j := j + 1;
          IndexInGrid(n, p, i, j);
        }
        IndexInGrid(n, p, i, p);
        i := i + 1;
      }
      assert |prod| == n * p;
      assert c.fmat[..] == prod;
    }
  }
}
