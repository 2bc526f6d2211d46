/** Value-level view of the dense matrix operations of fmatrix.hpp on the
    flat grids of Grid: the index as the source writes it, the element-wise
    sum and scaling, and the product. */
module DenseSpec {
  import opened Grid

  /** The index function as fmatrix.hpp writes it: the row is multiplied by the
      row count n instead of the column count m. */
  function IndexAsWritten(n: nat, i: nat, j: nat): nat
  {
    i * n + j
  }

  /** Entry-wise sum of two grids of the same size. */
  function Sum(a: seq<int>, b: seq<int>): seq<int>
    requires |a| == |b|
  {
    seq(|a|, k requires 0 <= k < |a| => a[k] + b[k])
  }

  /** Every entry of `a` multiplied by the scalar s. */
  function Scaled(a: seq<int>, s: int): seq<int>
  {
    seq(|a|, k requires 0 <= k < |a| => s * a[k])
  }

  /** The first k terms of row i of `a` (m columns) times column j of `b`
      (p columns): the sum of Cell(a, m, i, t) * Cell(b, p, t, j) over t < k. */
  function DenseDot(a: seq<int>, b: seq<int>, m: nat, p: nat, i: nat, j: nat, k: nat): int
    decreases k
  {
    if k == 0 then 0
    else DenseDot(a, b, m, p, i, j, k - 1) + Cell(a, m, i, k - 1) * Cell(b, p, k - 1, j)
  }

  /** The n-by-p product of the n-by-m grid `a` and the m-by-p grid `b`. */
  function Product(a: seq<int>, b: seq<int>, n: nat, m: nat, p: nat): seq<int>
  {
    if p == 0 then []
    else seq(n * p, x requires 0 <= x => DenseDot(a, b, m, p, x / p, x % p, m))
  }

  // ---------------------------------------------------------------------
  // The as-written index, for the square and the non-square case

  /** On a square matrix the as-written index is the row-major index, so the
      source behaves as intended there. */
  lemma IndexAsWrittenSquare(n: nat, i: nat, j: nat)
    ensures IndexAsWritten(n, i, j) == Index(n, i, j)
  {
  }

  /** On an n-by-n matrix the as-written index maps the cells one-to-one onto
      [0, n*n), in row-major order. */
  lemma IndexAsWrittenSquareRowMajor(n: nat, i: nat, j: nat, i2: nat, j2: nat)
    requires i < n && j < n && i2 < n && j2 < n
    ensures IndexAsWritten(n, i, j) < n * n
    ensures IndexAsWritten(n, i, j) < IndexAsWritten(n, i2, j2) <==> i < i2 || (i == i2 && j < j2)
    ensures IndexAsWritten(n, i, j) == IndexAsWritten(n, i2, j2) <==> i == i2 && j == j2
  {
    IndexAsWrittenSquare(n, i, j);
    IndexAsWrittenSquare(n, i2, j2);
    IndexRowMajor(n, n, i, j, i2, j2);
  }

  /** With fewer rows than columns the as-written index sends two different
      valid cells, (0, n) and (1, 0), to the same storage position. */
  lemma IndexAsWrittenCollides(n: nat, m: nat)
    requires 2 <= n < m
    ensures IndexAsWritten(n, 0, n) == IndexAsWritten(n, 1, 0)
    ensures Index(m, 0, n) != Index(m, 1, 0)
  {
  }

  /** With more rows than columns the as-written index of the valid last cell
      (n - 1, m - 1) falls outside the n*m storage positions. */
  lemma IndexAsWrittenOverruns(n: nat, m: nat)
    requires 1 <= m < n
    ensures IndexAsWritten(n, n - 1, m - 1) >= n * m
    ensures Index(m, n - 1, m - 1) < n * m
  {
    // (n - 1) * n >= (m + 1) * (n - 1) == n * m + n - m - 1, and n >= 2
    MulMonotone(m + 1, n, n - 1);
    assert (m + 1) * (n - 1) == m * (n - 1) + (n - 1);
    assert m * (n - 1) == n * m - m;
    assert n * (n - 1) == (n - 1) * n;
    IndexInGrid(n, m, n - 1, m - 1);
  }

  // ---------------------------------------------------------------------
  // Element-wise operations and the product

  lemma SumCommutative(a: seq<int>, b: seq<int>)
    requires |a| == |b|
    ensures Sum(a, b) == Sum(b, a)
  {
  }

  lemma SumAssociative(a: seq<int>, b: seq<int>, c: seq<int>)
    requires |a| == |b| == |c|
    ensures Sum(a, Sum(b, c)) == Sum(Sum(a, b), c)
  {
  }

  /** Cell (i, j) of the product is the dot product of row i of `a` with
      column j of `b` over all m inner positions. */
  lemma ProductCell(a: seq<int>, b: seq<int>, n: nat, m: nat, p: nat, i: nat, j: nat)
    requires i < n && j < p
    ensures |Product(a, b, n, m, p)| == n * p
    ensures Index(p, i, j) < n * p
    ensures Product(a, b, n, m, p)[Index(p, i, j)] == DenseDot(a, b, m, p, i, j, m)
  {
    IndexInGrid(n, p, i, j);
    IndexDivMod(p, i, j);
  }
}
