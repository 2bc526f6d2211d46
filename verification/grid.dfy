/** The flat storage of an n-by-m matrix: one sequence of n*m entries in
    row-major order, cell (i, j) at position i * m + j. fmatrix.hpp itself
    indexes with i * n + j (DenseSpec.IndexAsWritten); the two agree when
    n == m, and the non-square CSR cases need i * m + j. */
module Grid {

  /** Position of cell (i, j) in the flat storage of a grid with m columns. */
  function Index(m: nat, i: nat, j: nat): nat
  {
    i * m + j
  }

  /** Cell (i, j) of the flat grid `a` with m columns; a position at or past the
      end of `a` reads as zero, which is how a short literal list is read. */
  function Cell(a: seq<int>, m: nat, i: nat, j: nat): int
  {
    if Index(m, i, j) < |a| then a[Index(m, i, j)] else 0
  }

  function Zeros(len: nat): seq<int>
  {
    seq(len, _ => 0)
  }

  // ---------------------------------------------------------------------
  // Arithmetic facts about the flat index

  lemma MulMonotone(a: nat, b: nat, m: nat)
    requires a <= b
    ensures a * m <= b * m
  {
  }

  /** A cell of an n-by-m grid lies inside the flat storage, and the cell
      one past the end of row i is the first cell of row i + 1. */
  lemma IndexInGrid(n: nat, m: nat, i: nat, j: nat)
    requires i < n && j <= m
    ensures Index(m, i, j) <= n * m
    ensures j < m ==> Index(m, i, j) < n * m
    ensures Index(m, i, m) == Index(m, i + 1, 0)
  {
    MulMonotone(i + 1, n, m);
  }

  /** Splitting a flat position back into its row and column recovers (i, j). */
  lemma IndexDivMod(m: nat, i: nat, j: nat)
    requires j < m
    ensures Index(m, i, j) / m == i && Index(m, i, j) % m == j
  {
    var x := Index(m, i, j);
    var q, r := x / m, x % m;
    assert x == q * m + r;
    if q < i {
      MulMonotone(q + 1, i, m);
    } else if q > i {
      MulMonotone(i + 1, q, m);
    }
  }

  /** Every position of the flat storage of an n-by-m grid is the index of
      exactly the cell (x / m, x % m). */
  lemma GridPosition(n: nat, m: nat, x: nat)
    requires x < n * m
    ensures m > 0 && x / m < n && x % m < m && Index(m, x / m, x % m) == x
  {
    if x / m >= n {
      MulMonotone(n, x / m, m);
    }
  }

  /** Index maps the cells of an n-by-m grid one-to-one onto [0, n*m) and
      in row-major order: cell (i, j) comes before cell (i2, j2) exactly when
      it lies in an earlier row, or in the same row and an earlier column. */
  lemma IndexRowMajor(n: nat, m: nat, i: nat, j: nat, i2: nat, j2: nat)
    requires i < n && j < m && i2 < n && j2 < m
    ensures Index(m, i, j) < n * m
    ensures Index(m, i, j) < Index(m, i2, j2) <==> i < i2 || (i == i2 && j < j2)
    ensures Index(m, i, j) == Index(m, i2, j2) <==> i == i2 && j == j2
  {
    IndexInGrid(n, m, i, j);
    if i < i2 {
      EarlierRow(m, i, j, i2, j2);
    } else if i2 < i {
      EarlierRow(m, i2, j2, i, j);
    }
  }

  /** Every cell of an earlier row comes before every cell of a later row. */
  lemma EarlierRow(m: nat, i: nat, j: nat, i2: nat, j2: nat)
    requires i < i2 && j < m
    ensures Index(m, i, j) < Index(m, i2, j2)
  {
    MulMonotone(i + 1, i2, m);
    assert (i + 1) * m == i * m + m;
  }

  /** Two grids of the same shape with the same cells are the same grid. */
  lemma SameCellsSameGrid(a: seq<int>, b: seq<int>, n: nat, m: nat)
    requires |a| == n * m && |b| == n * m
    ensures (forall i, j :: 0 <= i < n && 0 <= j < m ==> Cell(a, m, i, j) == Cell(b, m, i, j)) ==> a == b
  {
    if forall i, j :: 0 <= i < n && 0 <= j < m ==> Cell(a, m, i, j) == Cell(b, m, i, j) {
      forall x | 0 <= x < n * m
        ensures a[x] == b[x]
      {
        GridPosition(n, m, x);
        assert Cell(a, m, x / m, x % m) == Cell(b, m, x / m, x % m);
      }
    }
  }

  /** Writing v at the position of cell (i, j) changes that cell and no other. */
  lemma WriteCell(a: seq<int>, n: nat, m: nat, i: nat, j: nat, v: int)
    requires |a| == n * m && i < n && j < m
    ensures Index(m, i, j) < |a|
    ensures forall r, c :: 0 <= r < n && 0 <= c < m ==>
              Cell(a[Index(m, i, j) := v], m, r, c) == if r == i && c == j then v else Cell(a, m, r, c)
  {
    IndexInGrid(n, m, i, j);
    var b := a[Index(m, i, j) := v];
    forall r, c | 0 <= r < n && 0 <= c < m
      ensures Cell(b, m, r, c) == if r == i && c == j then v else Cell(a, m, r, c)
    {
      IndexRowMajor(n, m, i, j, r, c);
      IndexRowMajor(n, m, r, c, r, c);
    }
  }
}
