/** The operations on compressed-sparse-row values: the dense grid a CSR
    stands for, scalar scaling, the product with a dense matrix and the
    transpose, each tied to the corresponding dense operation. */
module CsrSpec {
  import opened Grid
  import opened DenseSpec
  import opened CsrScan

  // ---------------------------------------------------------------------
  // The dense grid a CSR stands for

  /** The n-by-m dense grid of c, row-major. */
  function Expand(c: Csr, n: nat, m: nat): seq<int>
  {
    if m == 0 then [] else seq(n * m, x requires 0 <= x => At(c, x / m, x % m))
  }

  // ---------------------------------------------------------------------
  // The round trip

  lemma ExpandCell(c: Csr, n: nat, m: nat, i: nat, j: nat)
    requires i < n && j < m
    ensures |Expand(c, n, m)| == n * m && Index(m, i, j) < n * m
    ensures Cell(Expand(c, n, m), m, i, j) == At(c, i, j)
  {
    IndexInGrid(n, m, i, j);
    IndexDivMod(m, i, j);
  }

  lemma ExpandLength(c: Csr, n: nat, m: nat)
    ensures |Expand(c, n, m)| == n * m
  {
  }

  /** A grid whose every cell is the corresponding cell of c is the dense form of c. */
  lemma ExpandCells(c: Csr, e: seq<int>, n: nat, m: nat)
    requires |e| == n * m
    requires forall i, j :: 0 <= i < n && 0 <= j < m ==> Cell(e, m, i, j) == At(c, i, j)
    ensures e == Expand(c, n, m)
  {
    forall i, j | 0 <= i < n && 0 <= j < m
      ensures Cell(e, m, i, j) == Cell(Expand(c, n, m), m, i, j)
    {
      ExpandCell(c, n, m, i, j);
    }
    SameCellsSameGrid(e, Expand(c, n, m), n, m);
  }

  /** The round trip: the dense form of the CSR built from a literal of at
      most n*m entries is that literal padded with zeros, so for a full grid
      it is the grid itself and every cell not stored comes back as zero. */
  lemma CompressRoundTrip(a: seq<int>, n: nat, m: nat)
    requires |a| <= n * m
    ensures Expand(Compress(a, n, m), n, m) == a + Zeros(n * m - |a|)
    ensures |a| == n * m ==> Expand(Compress(a, n, m), n, m) == a
  {
    var e, p := Expand(Compress(a, n, m), n, m), a + Zeros(n * m - |a|);
    ExpandLength(Compress(a, n, m), n, m);
    forall i, j | 0 <= i < n && 0 <= j < m
      ensures Cell(e, m, i, j) == Cell(p, m, i, j)
    {
      ExpandCell(Compress(a, n, m), n, m, i, j);
      CompressAt(a, n, m, i, j);
    }
    SameCellsSameGrid(e, p, n, m);
    assert |a| == n * m ==> p == a;
  }

  /** Storage equality of CSRs built from full grids is equality of the grids. */
  lemma CompressInjective(a: seq<int>, b: seq<int>, n: nat, m: nat)
    requires |a| == n * m && |b| == n * m
    ensures Compress(a, n, m) == Compress(b, n, m) <==> a == b
  {
    CompressRoundTrip(a, n, m);
    CompressRoundTrip(b, n, m);
  }

  // ---------------------------------------------------------------------
  // Scalar scaling

  /** Every stored value multiplied by s; _row and _cols untouched. */
  function Scale(c: Csr, s: int): Csr
  {
    c.(vals := Scaled(c.vals, s))
  }

  lemma {:induction false} LookupScale(vals: seq<int>, cols: seq<nat>, lo: nat, hi: nat, j: nat, s: int)
    ensures Lookup(Scaled(vals, s), cols, lo, hi, j)
            == s * Lookup(vals, cols, lo, hi, j)
    decreases hi
  {
    if lo < hi <= |vals| && hi <= |cols| && cols[hi - 1] != j {
      LookupScale(vals, cols, lo, hi - 1, j, s);
    }
  }

  /** Scaling keeps the shape: the same _row and _cols and the same number of
      stored entries, so a well-formed CSR stays well-formed. */
  lemma ScaleWellFormed(c: Csr, n: nat, m: nat, s: int)
    requires WellFormed(c, n, m)
    ensures WellFormed(Scale(c, s), n, m)
    ensures Scale(c, s).row == c.row && Scale(c, s).cols == c.cols && |Scale(c, s).vals| == |c.vals|
  {
  }

  lemma AtScale(c: Csr, s: int, i: nat, j: nat)
    ensures At(Scale(c, s), i, j) == s * At(c, i, j)
  {
    if i + 1 < |c.row| {
      LookupScale(c.vals, c.cols, c.row[i], c.row[i + 1], j, s);
    }
  }

  /** Scaling the CSR and then converting gives the scaled dense grid. */
  lemma ScaleExpand(c: Csr, n: nat, m: nat, s: int)
    ensures Expand(Scale(c, s), n, m) == Scaled(Expand(c, n, m), s)
  {
    var e, f := Expand(Scale(c, s), n, m), Expand(c, n, m);
    if m > 0 {
      assert |e| == |f| == n * m;
      forall x | 0 <= x < n * m
        ensures e[x] == s * f[x]
      {
        AtScale(c, s, x / m, x % m);
        assert e[x] == At(Scale(c, s), x / m, x % m);
        assert f[x] == At(c, x / m, x % m);
      }
    }
  }

  /** Scaling by zero keeps every entry, now as an explicit zero: the dense
      grid is all zero while nnz() does not change, and a CSR that stored
      anything is no longer free of zeros. */
  lemma ScaleByZero(c: Csr, n: nat, m: nat)
    requires WellFormed(c, n, m)
    ensures Expand(Scale(c, 0), n, m) == Zeros(n * m)
    ensures |Scale(c, 0).vals| == |c.vals|
    ensures |c.vals| > 0 ==> !Canonical(Scale(c, 0), n, m)
  {
    ScaleExpand(c, n, m, 0);
    if |c.vals| > 0 {
      assert Scale(c, 0).vals[0] == 0;
    }
  }

  /** Entries with every value multiplied by s, columns kept. */
  function ScaleEntries(es: seq<Entry>, s: int): (r: seq<Entry>)
    ensures |r| == |es|
  {
    seq(|es|, k requires 0 <= k < |es| => Entry(s * es[k].val, es[k].col))
  }

  lemma ScaleEntriesAppend(x: seq<Entry>, y: seq<Entry>, s: int)
    ensures ScaleEntries(x + y, s) == ScaleEntries(x, s) + ScaleEntries(y, s)
  {
  }

  /** Scaling a grid by a non-zero s keeps its zero cells where they are,
      so the scan of a row of the scaled grid finds the same columns with
      the values multiplied by s. */
  lemma {:induction false} RowScanScaled(a: seq<int>, m: nat, i: nat, j: nat, s: int)
    requires s != 0
    ensures RowScan(Scaled(a, s), m, i, j) == ScaleEntries(RowScan(a, m, i, j), s)
  {
    if j > 0 {
      RowScanScaled(a, m, i, j - 1, s);
      assert Cell(Scaled(a, s), m, i, j - 1) == s * Cell(a, m, i, j - 1);
      assert Step(Scaled(a, s), m, i, j - 1) == ScaleEntries(Step(a, m, i, j - 1), s);
      ScaleEntriesAppend(RowScan(a, m, i, j - 1), Step(a, m, i, j - 1), s);
    }
  }

  lemma {:induction false} ScanScaled(a: seq<int>, m: nat, i: nat, s: int)
    requires s != 0
    ensures Scan(Scaled(a, s), m, i) == ScaleEntries(Scan(a, m, i), s)
  {
    if i > 0 {
      ScanScaled(a, m, i - 1, s);
      RowScanScaled(a, m, i - 1, m, s);
      ScaleEntriesAppend(Scan(a, m, i - 1), RowScan(a, m, i - 1, m), s);
    }
  }

  /** mult_into(s) on the CSR built from `a` leaves exactly the stores that
      building from the scaled grid gives, for every s other than zero
      (ScaleByZero shows what zero does instead). */
  lemma ScaleCompress(a: seq<int>, n: nat, m: nat, s: int)
    requires s != 0
    ensures Scale(Compress(a, n, m), s) == Compress(Scaled(a, s), n, m)
  {
    var c, d := Scale(Compress(a, n, m), s), Compress(Scaled(a, s), n, m);
    forall i | 0 <= i <= n
      ensures c.row[i] == d.row[i]
    {
      ScanScaled(a, m, i, s);
    }
    var es := Scan(a, m, n);
    ScanScaled(a, m, n, s);
    assert d.vals == Vals(ScaleEntries(es, s)) == Scaled(Vals(es), s);
    assert d.cols == Cols(ScaleEntries(es, s)) == Cols(es);
  }

  // ---------------------------------------------------------------------
  // Sparse times dense

  /** The sum of vals[k] * B[cols[k]][j] over the entries k in [lo, hi). */
  function RowDot(vals: seq<int>, cols: seq<nat>, lo: nat, hi: nat, b: seq<int>, p: nat, j: nat): int
    decreases hi
  {
    if hi <= lo || hi > |vals| || hi > |cols| then 0
    else RowDot(vals, cols, lo, hi - 1, b, p, j) + vals[hi - 1] * Cell(b, p, cols[hi - 1], j)
  }

  /** The sum over columns t < k of Lookup(.., t) * B[t][j]. */
  ghost function LookupDot(vals: seq<int>, cols: seq<nat>, lo: nat, hi: nat, b: seq<int>, p: nat, j: nat, k: nat): int
  {
    if k == 0 then 0
    else LookupDot(vals, cols, lo, hi, b, p, j, k - 1) + Lookup(vals, cols, lo, hi, k - 1) * Cell(b, p, k - 1, j)
  }

  lemma {:induction false} LookupAbsent(vals: seq<int>, cols: seq<nat>, lo: nat, hi: nat, j: nat)
    requires forall t :: lo <= t < hi && t < |cols| ==> cols[t] != j
    ensures Lookup(vals, cols, lo, hi, j) == 0
    decreases hi
  {
    if lo < hi <= |vals| && hi <= |cols| {
      LookupAbsent(vals, cols, lo, hi - 1, j);
    }
  }

  lemma {:induction false} LookupDotEmpty(vals: seq<int>, cols: seq<nat>, lo: nat, b: seq<int>, p: nat, j: nat, k: nat)
    ensures LookupDot(vals, cols, lo, lo, b, p, j, k) == 0
  {
    if k > 0 {
      LookupDotEmpty(vals, cols, lo, b, p, j, k - 1);
    }
  }

  /** Adding entry h whose column was not yet present adds exactly its own
      product term. */
  lemma {:induction false} LookupDotStep(vals: seq<int>, cols: seq<nat>, lo: nat, h: nat, b: seq<int>, p: nat, j: nat, k: nat)
    requires lo <= h < |vals| && h < |cols|
    requires Lookup(vals, cols, lo, h, cols[h]) == 0
    ensures LookupDot(vals, cols, lo, h + 1, b, p, j, k)
            == LookupDot(vals, cols, lo, h, b, p, j, k) + (if cols[h] < k then vals[h] * Cell(b, p, cols[h], j) else 0)
  {
    if k > 0 {
      LookupDotStep(vals, cols, lo, h, b, p, j, k - 1);
    }
  }

  /** With strictly increasing columns below m, the sparse row sum equals
      the dense dot product of the row's lookups with column j of B. */
  lemma {:induction false} RowDotAsLookupDot(vals: seq<int>, cols: seq<nat>, lo: nat, h: nat, b: seq<int>, p: nat, j: nat, m: nat)
    requires lo <= h <= |vals| && h <= |cols|
    requires SortedIn(cols, lo, h)
    requires forall t :: lo <= t < h ==> cols[t] < m
    ensures RowDot(vals, cols, lo, h, b, p, j) == LookupDot(vals, cols, lo, h, b, p, j, m)
    decreases h
  {
    if h == lo {
      LookupDotEmpty(vals, cols, lo, b, p, j, m);
    } else {
      RowDotAsLookupDot(vals, cols, lo, h - 1, b, p, j, m);
      LookupAbsent(vals, cols, lo, h - 1, cols[h - 1]);
      LookupDotStep(vals, cols, lo, h - 1, b, p, j, m);
    }
  }

  lemma {:induction false} DenseDotOfExpand(c: Csr, n: nat, m: nat, b: seq<int>, p: nat, i: nat, j: nat, k: nat)
    requires WellFormed(c, n, m) && i < n && k <= m
    ensures DenseDot(Expand(c, n, m), b, m, p, i, j, k) == LookupDot(c.vals, c.cols, c.row[i], c.row[i + 1], b, p, j, k)
  {
    if k > 0 {
      DenseDotOfExpand(c, n, m, b, p, i, j, k - 1);
      ExpandCell(c, n, m, i, k - 1);
    }
  }

  /** The sparse-times-dense kernel over row i, the sum of
      _vals[k] * B[_cols[k]][j] for k in [_row[i], _row[i+1]), is cell (i, j)
      of the dense product of the CSR's dense form with B. */
  lemma SparseDotMatchesDense(c: Csr, n: nat, m: nat, b: seq<int>, p: nat, i: nat, j: nat)
    requires WellFormed(c, n, m) && i < n
    ensures RowDot(c.vals, c.cols, c.row[i], c.row[i + 1], b, p, j) == DenseDot(Expand(c, n, m), b, m, p, i, j, m)
  {
    RowDotAsLookupDot(c.vals, c.cols, c.row[i], c.row[i + 1], b, p, j, m);
    DenseDotOfExpand(c, n, m, b, p, i, j, m);
  }

  // ---------------------------------------------------------------------
  // Transpose

  /** The m-by-n transpose of the n-by-m grid `a`. */
  function Transposed(a: seq<int>, n: nat, m: nat): seq<int>
  {
    if n == 0 then [] else seq(m * n, x requires 0 <= x => Cell(a, m, x % n, x / n))
  }

  lemma TransposedCell(a: seq<int>, n: nat, m: nat, i: nat, j: nat)
    requires i < n && j < m
    ensures |Transposed(a, n, m)| == m * n && Index(n, j, i) < m * n
    ensures Cell(Transposed(a, n, m), n, j, i) == Cell(a, m, i, j)
  {
    IndexInGrid(m, n, j, i);
    IndexDivMod(n, j, i);
  }

  /** An m-by-n grid whose cell (j, i) is cell (i, j) of c is the transpose
      of the dense form of c. */
  lemma TransposedCells(c: Csr, t: seq<int>, n: nat, m: nat)
    requires |t| == m * n
    requires forall j, i :: 0 <= j < m && 0 <= i < n ==> Cell(t, n, j, i) == At(c, i, j)
    ensures t == Transposed(Expand(c, n, m), n, m)
  {
    var e := Expand(c, n, m);
    forall j, i | 0 <= j < m && 0 <= i < n
      ensures Cell(t, n, j, i) == Cell(Transposed(e, n, m), n, j, i)
    {
      TransposedCell(e, n, m, i, j);
      ExpandCell(c, n, m, i, j);
    }
    SameCellsSameGrid(t, Transposed(e, n, m), m, n);
  }

  /** What transpose() builds: the dense form is transposed, then compressed. */
  function TransposeValue(c: Csr, n: nat, m: nat): Csr
  {
    Compress(Transposed(Expand(c, n, m), n, m), m, n)
  }

  /** The transpose is a canonical m-by-n CSR whose dense form is the
      transpose of the dense form. */
  lemma TransposeExpand(c: Csr, n: nat, m: nat)
    ensures Canonical(TransposeValue(c, n, m), m, n)
    ensures Expand(TransposeValue(c, n, m), m, n) == Transposed(Expand(c, n, m), n, m)
  {
    var t := Transposed(Expand(c, n, m), n, m);
    assert |t| == m * n;
    CompressWellFormed(t, m, n);
    CompressRoundTrip(t, m, n);
  }

  /** transpose().to_fmatrix()[j][i] == to_fmatrix()[i][j]. */
  lemma TransposeAt(c: Csr, n: nat, m: nat, i: nat, j: nat)
    requires i < n && j < m
    ensures At(TransposeValue(c, n, m), j, i) == At(c, i, j)
  {
    var e := Expand(c, n, m);
    CompressAt(Transposed(e, n, m), m, n, j, i);
    TransposedCell(e, n, m, i, j);
    ExpandCell(c, n, m, i, j);
  }

  /** Transposing twice gives back the same dense grid. */
  lemma TransposeInvolution(c: Csr, n: nat, m: nat)
    ensures Expand(TransposeValue(TransposeValue(c, n, m), m, n), n, m) == Expand(c, n, m)
  {
    var t := TransposeValue(c, n, m);
    var e1, e2 := Expand(TransposeValue(t, m, n), n, m), Expand(c, n, m);
    ExpandLength(TransposeValue(t, m, n), n, m);
    ExpandLength(c, n, m);
    forall i, j | 0 <= i < n && 0 <= j < m
      ensures Cell(e1, m, i, j) == Cell(e2, m, i, j)
    {
      ExpandCell(TransposeValue(t, m, n), n, m, i, j);
      ExpandCell(c, n, m, i, j);
      TransposeAt(t, m, n, j, i);
      TransposeAt(c, n, m, i, j);
    }
    SameCellsSameGrid(e1, e2, n, m);
  }
}
