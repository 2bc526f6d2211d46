/** CSRMatrix<n, m> of csr_matrix.hpp over int entries: the fixed array of
    n + 1 row boundaries and the two growable stores of values and columns,
    the two construction scans, conversion back to a dense FMatrix, transpose,
    scalar scaling, the sparse-times-dense product and equality. Each method
    is specified through the value model of CsrSpec. */
module CsrMatrix {
  import opened Grid
  import opened DenseSpec
  import opened Fmatrix
  import opened CsrScan
  import opened CsrSpec

  class CSRMatrix {
    const n: nat              // rows
    const m: nat              // columns
    const row: array<nat>     // _row, n + 1 row boundaries
    var vals: seq<int>        // _vals
    var cols: seq<nat>        // _cols

    /** The three stores as one value. */
    function Value(): Csr
      reads this, row
    {
      Csr(row[..], vals, cols)
    }

    ghost predicate Valid()
      reads this, row
    {
      row.Length == n + 1 && WellFormed(Value(), n, m)
    }

    /** The bounds the kernels over row i rely on. */
    lemma RowWindow(i: nat)
      requires Valid() && i < n
      ensures row[i] <= row[i + 1] <= |vals| == |cols|
      ensures forall k :: row[i] <= k < row[i + 1] ==> cols[k] < m
    {
      assert Value().row[i] == row[i] && Value().row[i + 1] == row[i + 1] && Value().row[n] == row[n];
    }

    /** Once the row boundaries are the running counts of the scan of `a` and
        the stores are its result, the three stores are Compress(a, n, m),
        which is well-formed. */
    lemma ScanResult(a: seq<int>)
      requires row.Length == n + 1
      requires forall t {:trigger row[t]} :: 0 <= t <= n ==> row[t] == |ScanTo(a, m, t, 0)|
      requires vals == Vals(ScanTo(a, m, n, 0)) && cols == Cols(ScanTo(a, m, n, 0))
      ensures Value() == Compress(a, n, m) && Valid()
    {
      var c := Compress(a, n, m);
      forall t | 0 <= t <= n
        ensures row[..][t] == c.row[t]
      {
        ScanToSplit(a, m, t, 0);
      }
      assert row[..] == c.row;
      ScanToSplit(a, m, n, 0);
      CompressWellFormed(a, n, m);
    }

    /** The default constructor: every boundary zero, nothing stored, so every
        cell of the matrix is zero. */
    constructor (rows: nat, columns: nat)
      ensures n == rows && m == columns && fresh(row) && Valid()
      ensures vals == [] && cols == [] && Expand(Value(), n, m) == Zeros(n * m)
    {
      n, m := rows, columns;
      row := new nat[rows + 1](_ => 0);
      vals, cols := [], [];
      new;
      forall i, j | 0 <= i < n && 0 <= j < m
        ensures Cell(Zeros(n * m), m, i, j) == At(Value(), i, j)
      {
        IndexInGrid(n, m, i, j);
      }
      ExpandCells(Value(), Zeros(n * m), n, m);
    }

    /** Construction from a dense matrix: one row-major scan that appends
        every non-zero cell and its column and records the running count
        after each row. */
    constructor FromDense(A: FMatrix)
      requires A.Valid()
      ensures n == A.rows && m == A.cols && fresh(row) && Valid()
      ensures Value() == Compress(A.fmat[..], n, m)
      ensures vals == NonZeros(A.fmat[..])
    {
      var nr, nc := A.rows, A.cols;
      ghost var a := A.fmat[..];
      var r := new nat[nr + 1](_ => 0);
      var vs: seq<int> := [];
      var cs: seq<nat> := [];
      var rowIndex := 0;
      var i := 0;
      while i < nr
        invariant 0 <= i <= nr
        invariant vs == Vals(ScanTo(a, nc, i, 0)) && cs == Cols(ScanTo(a, nc, i, 0))
        invariant rowIndex == |vs|
        invariant forall t {:trigger r[t]} :: 0 <= t <= i ==> r[t] == |ScanTo(a, nc, t, 0)|
      {
        var j := 0;
        while j < nc
          invariant 0 <= j <= nc
          invariant vs == Vals(ScanTo(a, nc, i, j)) && cs == Cols(ScanTo(a, nc, i, j))
          invariant rowIndex == |vs|
          modifies {}
        {
          IndexInGrid(nr, nc, i, j);
          var x := A.fmat[Index(nc, i, j)];
          ProjectAppend(ScanTo(a, nc, i, j), Step(a, nc, i, j));
          if x != 0 {
            rowIndex := rowIndex + 1;
            vs := vs + [x];
            cs := cs + [j];
          }
          j := j + 1;
        }
        r[i + 1] := rowIndex;
        i := i + 1;
      }
      n, m := nr, nc;
      row, vals, cols := r, vs, cs;
      new;
      ScanResult(a);
      CompressNonZeros(a, n, m);
    }

    /** Construction from a row-major literal list: the same scan, with the
        list position `it` advancing once per cell, so that cell (i, j) reads
        position Index(m, i, j); a position at or past the end of the list
        reads as zero. */
    constructor FromList(rows: nat, columns: nat, il: seq<int>)
      ensures n == rows && m == columns && fresh(row) && Valid()
      ensures Value() == Compress(il, n, m)
    {
      var r := new nat[rows + 1](_ => 0);
      var vs: seq<int> := [];
      var cs: seq<nat> := [];
      var rowIndex := 0;
      var it := 0;
      var i := 0;
      while i < rows
        invariant 0 <= i <= rows
        invariant it == Index(columns, i, 0)
        invariant vs == Vals(ScanTo(il, columns, i, 0)) && cs == Cols(ScanTo(il, columns, i, 0))
        invariant rowIndex == |vs|
        invariant forall t {:trigger r[t]} :: 0 <= t <= i ==> r[t] == |ScanTo(il, columns, t, 0)|
      {
        var j := 0;
        while j < columns
          invariant 0 <= j <= columns
          invariant it == Index(columns, i, j)
          invariant vs == Vals(ScanTo(il, columns, i, j)) && cs == Cols(ScanTo(il, columns, i, j))
          invariant rowIndex == |vs|
          modifies {}
        {
          ProjectAppend(ScanTo(il, columns, i, j), Step(il, columns, i, j));
          if it < |il| && il[it] != 0 {
            rowIndex := rowIndex + 1;
            vs := vs + [il[it]];
            cs := cs + [j];
          }
          it := it + 1;
          j := j + 1;
        }
        IndexInGrid(i + 1, columns, i, columns);
        r[i + 1] := rowIndex;
        i := i + 1;
      }
      n, m := rows, columns;
      row, vals, cols := r, vs, cs;
      new;
      ScanResult(il);
    }

    /** The copy constructor: the same three stores, in a new row array. */
    constructor Copy(other: CSRMatrix)
      requires other.Valid()
      ensures n == other.n && m == other.m && fresh(row) && Valid()
      ensures Value() == other.Value()
    {
      n, m := other.n, other.m;
      row := new nat[other.row.Length](k requires 0 <= k < other.row.Length reads other.row => other.row[k]);
      vals, cols := other.vals, other.cols;
      new;
      assert row[..] == other.row[..];
    }

    /** The dense form: a zero matrix into which each row's entries are
        written at their columns, in storage order. */
    method ToFMatrix() returns (A: FMatrix)
      requires Valid()
      ensures A.Valid() && A.rows == n && A.cols == m && fresh(A) && fresh(A.fmat)
      ensures A.fmat[..] == Expand(Value(), n, m)
    {
      ghost var cv := Value();
      A := new FMatrix(n, m);
      var i := 0;
      while i < n
        invariant 0 <= i <= n
        invariant forall r, c :: 0 <= r < n && 0 <= c < m ==> Cell(A.fmat[..], m, r, c) == Filled(cv, i, cv.row[i], r, c)
      {
        RowWindow(i);
        var k := row[i];
        while k < row[i + 1]
          invariant row[i] <= k <= row[i + 1]
          invariant forall r, c :: 0 <= r < n && 0 <= c < m ==> Cell(A.fmat[..], m, r, c) == Filled(cv, i, k, r, c)
        {
          ScatterStep(cv, n, m, A.fmat[..], i, k + 1);
          A.fmat[Index(m, i, cols[k])] := vals[k];
          k := k + 1;
        }
        i := i + 1;
      }
      ExpandCells(cv, A.fmat[..], n, m);
    }

    /** The number of stored entries, which is the last row boundary. */
    function Nnz(): (k: nat)
      reads this, row
      requires Valid()
      ensures k == row[n] && k == |cols|
    {
      assert Value().row[n] == row[n];
      |vals|
    }

    /** The m-by-n transpose: each entry is scattered to the transposed cell
        of a zero dense matrix, which is then compressed again. */
    method Transpose() returns (t: CSRMatrix)
      requires Valid()
      ensures fresh(t) && fresh(t.row) && t.Valid() && t.n == m && t.m == n
      ensures t.Value() == TransposeValue(Value(), n, m)
    {
      ghost var cv := Value();
      var T := new FMatrix(m, n);
      var i := 0;
      while i < n
        invariant 0 <= i <= n
        invariant forall r, c :: 0 <= r < m && 0 <= c < n ==> Cell(T.fmat[..], n, r, c) == Filled(cv, i, cv.row[i], c, r)
      {
        RowWindow(i);
        var k := row[i];
        while k < row[i + 1]
          invariant row[i] <= k <= row[i + 1]
          invariant forall r, c :: 0 <= r < m && 0 <= c < n ==> Cell(T.fmat[..], n, r, c) == Filled(cv, i, k, c, r)
        {
          ScatterTransposedStep(cv, n, m, T.fmat[..], i, k + 1);
          T.fmat[Index(n, cols[k], i)] := vals[k];
          k := k + 1;
        }
        i := i + 1;
      }
      TransposedCells(Value(), T.fmat[..], n, m);
      t := new CSRMatrix.FromDense(T);
    }

    /** Scales every stored value in place; the row boundaries and columns,
        and so the number of stored entries, do not change. */
    method MultInto(s: int)
      requires Valid()
      modifies this
      ensures Valid() && Value() == Scale(old(Value()), s)
      ensures cols == old(cols) && |vals| == |old(vals)|
    {
      var k := 0;
      while k < |vals|
        invariant 0 <= k <= |vals| == |old(vals)|
        invariant cols == old(cols)
        invariant forall t :: 0 <= t < k ==> vals[t] == s * old(vals)[t]
        invariant forall t :: k <= t < |vals| ==> vals[t] == old(vals)[t]
      {
        vals := vals[k := vals[k] * s];
        k := k + 1;
      }
      ScaleWellFormed(old(Value()), n, m, s);
    }

    /** The scaled matrix, built on a copy; this matrix does not change. */
    method Multiply(s: int) returns (r: CSRMatrix)
      requires Valid()
      ensures fresh(r) && fresh(r.row) && r.Valid() && r.n == n && r.m == m
      ensures r.Value() == Scale(Value(), s)
    {
      r := new CSRMatrix.Copy(this);
      r.MultInto(s);
    }

    /** The inner loop of the product with a dense matrix: the sum of
        _vals[k] * B[_cols[k]][j] over the stored entries k of row i, which is
        the dot product of row i of the dense form with column j of B. */
    method RowTimesColumn(B: FMatrix, i: nat, j: nat) returns (sum: int)
      requires Valid() && B.Valid() && B.rows == m && i < n && j < B.cols
      ensures sum == DenseDot(Expand(Value(), n, m), B.fmat[..], m, B.cols, i, j, m)
    {
      RowWindow(i);
      ghost var b := B.fmat[..];
      sum := 0;
      var k := row[i];
      while k < row[i + 1]
        invariant row[i] <= k <= row[i + 1]
        invariant sum == RowDot(vals, cols, row[i], k, b, B.cols, j)
      {
        IndexInGrid(m, B.cols, cols[k], j);
        sum := sum + vals[k] * B.fmat[Index(B.cols, cols[k], j)];
        k := k + 1;
      }
      SparseDotMatchesDense(Value(), n, m, b, B.cols, i, j);
    }

    /** The n-by-p product with a dense m-by-p matrix B: cell (i, j) sums
        vals[k] * B[cols[k]][j] over the entries of row i. */
    method MultiplyDense(B: FMatrix) returns (C: FMatrix)
      requires Valid() && B.Valid() && B.rows == m
      ensures C.Valid() && C.rows == n && C.cols == B.cols && fresh(C) && fresh(C.fmat)
      ensures C.fmat[..] == Product(Expand(Value(), n, m), B.fmat[..], n, m, B.cols)
    {
      var p := B.cols;
      ghost var e, b := Expand(Value(), n, m), B.fmat[..];
      ghost var prod := Product(e, b, n, m, p);
      C := new FMatrix(n, p);
      var i := 0;
      while i < n
        invariant 0 <= i <= n
        invariant Index(p, i, 0) <= n * p
        invariant forall x :: 0 <= x < Index(p, i, 0) ==> x < |prod| && C.fmat[x] == prod[x]
      {
        var j := 0;
        while j < p
          invariant 0 <= j <= p
          invariant Index(p, i, j) <= n * p
          invariant forall x :: 0 <= x < Index(p, i, j) ==> x < |prod| && C.fmat[x] == prod[x]
        {
          var sum := RowTimesColumn(B, i, j);
          ProductCell(e, b, n, m, p, i, j);
          C.fmat[Index(p, i, j)] := sum;
          j := j + 1;
          IndexInGrid(n, p, i, j);
        }
        IndexInGrid(n, p, i, p);
        i := i + 1;
      }
      assert |prod| == n * p;
      assert C.fmat[..] == prod;
    }

    /** Equality compares the values, the columns and the first n row
        boundaries; on well-formed matrices that is equality of all stores. */
    predicate Equals(rhs: CSRMatrix)
      reads this, row, rhs, rhs.row
      requires Valid() && rhs.Valid() && rhs.n == n && rhs.m == m
      ensures Equals(rhs) <==> Value() == rhs.Value()
    {
      StorageEquality(Value(), rhs.Value(), n, m);
      assert Value().row[..n] == row[..n] && rhs.Value().row[..n] == rhs.row[..n];
      vals == rhs.vals && cols == rhs.cols && row[..n] == rhs.row[..n]
    }

    /** The negation of Equals. */
    predicate NotEquals(rhs: CSRMatrix)
      reads this, row, rhs, rhs.row
      requires Valid() && rhs.Valid() && rhs.n == n && rhs.m == m
      ensures NotEquals(rhs) <==> Value() != rhs.Value()
    {
      !Equals(rhs)
    }
  }
}
