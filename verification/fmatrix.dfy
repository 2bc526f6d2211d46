/** The flat dense matrix FMatrix<T, n, m> of fmatrix.hpp, over int entries:
    a fixed buffer of n*m entries with checked and unchecked access,
    element-wise addition and scalar scaling (pure and in place), the
    triple-loop product and equality. Cell (i, j) lives at Grid.Index. */
module Fmatrix {
  import opened Grid
  import opened DenseSpec

  datatype Error = OutOfRange

  datatype Result<T> = Ok(value: T) | Err(error: Error)

  class FMatrix {
    const rows: nat       // n
    const cols: nat       // m
    const fmat: array<int>

    ghost predicate Valid()
      reads this
    {
      fmat.Length == rows * cols
    }

    /** A default-constructed matrix: every entry is zero. */
    constructor (n: nat, m: nat)
      ensures Valid() && rows == n && cols == m && fresh(fmat)
      ensures fmat[..] == Zeros(n * m)
    {
      rows, cols := n, m;
      fmat := new int[n * m](_ => 0);
    }

    /** Brace initialisation from a row-major list; entries past the end of the
        list are zero. */
    constructor FromList(n: nat, m: nat, il: seq<int>)
      requires |il| <= n * m
      ensures Valid() && rows == n && cols == m && fresh(fmat)
      ensures fmat[..] == il + Zeros(n * m - |il|)
      ensures forall i, j :: 0 <= i < n && 0 <= j < m ==> Cell(fmat[..], m, i, j) == Cell(il, m, i, j)
    {
      rows, cols := n, m;
      fmat := new int[n * m](k requires 0 <= k => if k < |il| then il[k] else 0);
      new;
      assert fmat[..] == il + Zeros(n * m - |il|);
      forall i, j | 0 <= i < n && 0 <= j < m
        ensures Cell(fmat[..], m, i, j) == Cell(il, m, i, j)
      {
        IndexInGrid(n, m, i, j);
      }
    }

    /** Checked access: fails with OutOfRange exactly when i >= n or j >= m,
        and otherwise yields the entry stored at Index(m, i, j). */
    function At(i: nat, j: nat): (r: Result<int>)
      reads this, fmat
      requires Valid()
      ensures r.Err? <==> i >= rows || j >= cols
      ensures r.Err? ==> r.error == OutOfRange
      ensures r.Ok? ==> Index(cols, i, j) < fmat.Length && r.value == fmat[Index(cols, i, j)]
      ensures r.Ok? ==> r.value == Cell(fmat[..], cols, i, j)
    {
      if i >= rows || j >= cols then Err(OutOfRange)
      else
        IndexInGrid(rows, cols, i, j);
        Ok(fmat[Index(cols, i, j)])
    }

    /** Unchecked access: the caller guarantees that (i, j) is a cell; the
        lookup is the one At makes. */
    function AtUnsafe(i: nat, j: nat): (v: int)
      reads this, fmat
      requires Valid() && i < rows && j < cols
      ensures At(i, j) == Ok(v)
    {
      IndexInGrid(rows, cols, i, j);
      fmat[Index(cols, i, j)]
    }

    /** Checked write `at(i, j) = v`: fails with OutOfRange and changes nothing
        when (i, j) is not a cell, otherwise replaces exactly that cell. */
    method Put(i: nat, j: nat, v: int) returns (r: Result<()>)
      requires Valid()
      modifies fmat
      ensures r.Err? <==> i >= rows || j >= cols
      ensures r.Err? ==> r.error == OutOfRange && fmat[..] == old(fmat[..])
      ensures r.Ok? ==> Index(cols, i, j) < fmat.Length && fmat[..] == old(fmat[..])[Index(cols, i, j) := v]
      ensures r.Ok? ==> At(i, j) == Ok(v)
      ensures r.Ok? ==> forall i2, j2 :: 0 <= i2 < rows && 0 <= j2 < cols && (i2 != i || j2 != j) ==>
                          Cell(fmat[..], cols, i2, j2) == Cell(old(fmat[..]), cols, i2, j2)
    {
      if i >= rows || j >= cols {
        return Err(OutOfRange);
      }
      WriteCell(fmat[..], rows, cols, i, j, v);
      fmat[Index(cols, i, j)] := v;
      r := Ok(());
    }

    /** The entry-wise sum, in a new matrix; neither operand changes. */
    method Add(rhs: FMatrix) returns (r: FMatrix)
      requires Valid() && rhs.Valid() && rhs.rows == rows && rhs.cols == cols
      ensures r.Valid() && r.rows == rows && r.cols == cols && fresh(r) && fresh(r.fmat)
      ensures r.fmat[..] == Sum(fmat[..], rhs.fmat[..])
    {
      r := new FMatrix(rows, cols);
      var k := 0;
      while k < fmat.Length
        invariant 0 <= k <= fmat.Length
        invariant forall t :: 0 <= t < k ==> r.fmat[t] == fmat[t] + rhs.fmat[t]
      {
        r.fmat[k] := fmat[k] + rhs.fmat[k];
        k := k + 1;
      }
    }

    /** Adds rhs into this matrix entry by entry; rhs is left as it was unless
        it is this very matrix. */
    method AddInto(rhs: FMatrix)
      requires Valid() && rhs.Valid() && rhs.rows == rows && rhs.cols == cols
      modifies fmat
      ensures fmat[..] == Sum(old(fmat[..]), old(rhs.fmat[..]))
      ensures rhs.fmat != fmat ==> rhs.fmat[..] == old(rhs.fmat[..])
    {
      var k := 0;
      while k < fmat.Length
        invariant 0 <= k <= fmat.Length
        invariant forall t :: 0 <= t < k ==> fmat[t] == old(fmat[t]) + old(rhs.fmat[t])
        invariant forall t :: k <= t < fmat.Length ==> fmat[t] == old(fmat[t]) && rhs.fmat[t] == old(rhs.fmat[t])
      {
        fmat[k] := fmat[k] + rhs.fmat[k];
        k := k + 1;
      }
    }

    /** Scales every entry in place. */
    method MultInto(s: int)
      requires Valid()
      modifies fmat
      ensures fmat[..] == Scaled(old(fmat[..]), s)
    {
      var k := 0;
      while k < fmat.Length
        invariant 0 <= k <= fmat.Length
        invariant forall t :: 0 <= t < k ==> fmat[t] == s * old(fmat[t])
        invariant forall t :: k <= t < fmat.Length ==> fmat[t] == old(fmat[t])
      {
        fmat[k] := fmat[k] * s;
        k := k + 1;
      }
    }

    /** The matrix scaled by s, in a new matrix; this matrix does not change. */
    method Multiply(s: int) returns (r: FMatrix)
      requires Valid()
      ensures r.Valid() && r.rows == rows && r.cols == cols && fresh(r) && fresh(r.fmat)
      ensures r.fmat[..] == Scaled(fmat[..], s)
    {
      r := new FMatrix(rows, cols);
      var k := 0;
      while k < fmat.Length
        invariant 0 <= k <= fmat.Length
        invariant forall t :: 0 <= t < k ==> r.fmat[t] == s * fmat[t]
      {
        r.fmat[k] := s * fmat[k];
        k := k + 1;
      }
    }

    /** The n-by-p product with an m-by-p matrix, computed cell by cell in
        row-major order with an accumulator that starts at zero. */
    method MultiplyMatrix(rhs: FMatrix) returns (c: FMatrix)
      requires Valid() && rhs.Valid() && rhs.rows == cols
      ensures c.Valid() && c.rows == rows && c.cols == rhs.cols && fresh(c) && fresh(c.fmat)
      ensures c.fmat[..] == Product(fmat[..], rhs.fmat[..], rows, cols, rhs.cols)
    {
      var n, m, p := rows, cols, rhs.cols;
      ghost var a, b := fmat[..], rhs.fmat[..];
      ghost var prod := Product(a, b, n, m, p);
      c := new FMatrix(n, p);
      var i := 0;
      while i < n
        invariant 0 <= i <= n
        invariant Index(p, i, 0) <= n * p
        invariant forall x :: 0 <= x < Index(p, i, 0) ==> x < |prod| && c.fmat[x] == prod[x]
      {
        var j := 0;
        while j < p
          invariant 0 <= j <= p
          invariant Index(p, i, j) <= n * p
          invariant forall x :: 0 <= x < Index(p, i, j) ==> x < |prod| && c.fmat[x] == prod[x]
        {
          var sum := 0;
          var k := 0;
          while k < m
            invariant 0 <= k <= m
            invariant sum == DenseDot(a, b, m, p, i, j, k)
            modifies {}
          {
            IndexInGrid(n, m, i, k);
            IndexInGrid(m, p, k, j);
            sum := sum + fmat[Index(m, i, k)] * rhs.fmat[Index(p, k, j)];
            k := k + 1;
          }
          ProductCell(a, b, n, m, p, i, j);
          c.fmat[Index(p, i, j)] := sum;
          j := j + 1;
          IndexInGrid(n, p, i, j);
        }
        IndexInGrid(n, p, i, p);
        i := i + 1;
      }
      assert |prod| == n * p;
      assert c.fmat[..] == prod;
    }

    /** Equality: true exactly when every cell of the two matrices agrees. */
    predicate Equals(rhs: FMatrix)
      reads this, fmat, rhs, rhs.fmat
      requires Valid() && rhs.Valid() && rhs.rows == rows && rhs.cols == cols
      ensures Equals(rhs) <==>
                forall i, j :: 0 <= i < rows && 0 <= j < cols ==> Cell(fmat[..], cols, i, j) == Cell(rhs.fmat[..], cols, i, j)
    {
      SameCellsSameGrid(fmat[..], rhs.fmat[..], rows, cols);
      fmat[..] == rhs.fmat[..]
    }
  }

  /** Equality of matrices is reflexive and symmetric. */
  lemma EqualsReflexiveSymmetric(a: FMatrix, b: FMatrix)
    requires a.Valid() && b.Valid() && a.rows == b.rows && a.cols == b.cols
    ensures a.Equals(a)
    ensures a.Equals(b) ==> b.Equals(a)
  {
  }
}
