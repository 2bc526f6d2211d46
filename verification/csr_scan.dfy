/** The compressed-sparse-row storage of csr_matrix.hpp as one value, the
    scan both constructors run over a row-major grid, and the lookup that
    reads a cell back out of the three stores. */
module CsrScan {
  import opened Grid


  /** The stores `_row` (n + 1 row boundaries), `_vals` and `_cols`. */
  datatype Csr = Csr(row: seq<nat>, vals: seq<int>, cols: seq<nat>)

  /** The columns stored in [lo, hi) are strictly increasing. */
  ghost predicate SortedIn(cols: seq<nat>, lo: nat, hi: nat)
  {
    forall k1, k2 :: lo <= k1 < k2 < hi && k2 < |cols| ==> cols[k1] < cols[k2]
  }

  /** The shape every CSR built by the constructors has, and that scaling keeps. */
  ghost predicate WellFormed(c: Csr, n: nat, m: nat)
  {
    && |c.row| == n + 1
    && c.row[0] == 0
    && (forall i, i2 :: 0 <= i <= i2 <= n ==> c.row[i] <= c.row[i2])
    && c.row[n] == |c.vals| == |c.cols|
    && (forall k :: 0 <= k < |c.cols| ==> c.cols[k] < m)
    && (forall i :: 0 <= i < n ==> SortedIn(c.cols, c.row[i], c.row[i + 1]))
  }

  /** Well-formed, and no stored value is zero. */
  ghost predicate Canonical(c: Csr, n: nat, m: nat)
  {
    WellFormed(c, n, m) && forall k :: 0 <= k < |c.vals| ==> c.vals[k] != 0
  }

  // ---------------------------------------------------------------------
  // Lookup: the cell a CSR stores

  /** The value column j receives from the entries [lo, hi), written in order
      so that a later entry overwrites an earlier one; zero if none has
      column j. */
  function Lookup(vals: seq<int>, cols: seq<nat>, lo: nat, hi: nat, j: nat): int
    decreases hi
  {
    if hi <= lo || hi > |vals| || hi > |cols| then 0
    else if cols[hi - 1] == j then vals[hi - 1]
    else Lookup(vals, cols, lo, hi - 1, j)
  }

  /** Cell (i, j) of the dense grid of c. */
  function At(c: Csr, i: nat, j: nat): int
  {
    if i + 1 < |c.row| then Lookup(c.vals, c.cols, c.row[i], c.row[i + 1], j) else 0
  }

  // ---------------------------------------------------------------------
  // The construction scan

  /** An entry the scan appends: a value and its column. */
  datatype Entry = Entry(val: int, col: nat)

  /** The values of a run of entries, in order: what _vals receives. */
  function Vals(es: seq<Entry>): seq<int>
  {
    seq(|es|, k requires 0 <= k < |es| => es[k].val)
  }

  /** The columns of a run of entries, in order: what _cols receives. */
  function Cols(es: seq<Entry>): seq<nat>
  {
    seq(|es|, k requires 0 <= k < |es| => es[k].col)
  }

  /** What the scan appends at cell (i, j): the cell and its column when the
      cell is non-zero, nothing otherwise. */
  function Step(a: seq<int>, m: nat, i: nat, j: nat): seq<Entry>
  {
    if Cell(a, m, i, j) != 0 then [Entry(Cell(a, m, i, j), j)] else []
  }

  /** The entries of row i of the flat grid `a` (m columns) among its
      columns below j, left to right. */
  function RowScan(a: seq<int>, m: nat, i: nat, j: nat): seq<Entry>
    decreases j
  {
    if j == 0 then [] else RowScan(a, m, i, j - 1) + Step(a, m, i, j - 1)
  }

  /** The entries of the rows above row i. */
  function Scan(a: seq<int>, m: nat, i: nat): seq<Entry>
  {
    if i == 0 then [] else Scan(a, m, i - 1) + RowScan(a, m, i - 1, m)
  }

  /** The entries the scan has appended when it reaches cell (i, j), taking
      one cell at a time in row-major order. */
  function ScanTo(a: seq<int>, m: nat, i: nat, j: nat): seq<Entry>
    decreases i, j
  {
    if j == 0 then (if i == 0 then [] else ScanTo(a, m, i - 1, m))
    else ScanTo(a, m, i, j - 1) + Step(a, m, i, j - 1)
  }

  /** The CSR both constructors build from the row-major grid `a`: row i + 1
      holds the running count of non-zero cells after row i. */
  function Compress(a: seq<int>, n: nat, m: nat): Csr
  {
    Csr(seq(n + 1, i requires 0 <= i => |Scan(a, m, i)|), Vals(Scan(a, m, n)), Cols(Scan(a, m, n)))
  }

  /** The non-zero entries of `a`, in order. */
  function NonZeros(a: seq<int>): seq<int>
  {
    if a == [] then []
    else NonZeros(a[..|a| - 1]) + (if a[|a| - 1] != 0 then [a[|a| - 1]] else [])
  }

  // ---------------------------------------------------------------------
  // Facts about the scan

  /** A slice of a prefix of s is the same slice of s. */
  lemma SliceOfPrefix<T>(p: seq<T>, s: seq<T>, lo: nat, hi: nat)
    requires p <= s && lo <= hi <= |p|
    ensures s[lo..hi] == p[lo..hi]
  {
  }

  /** The part appended after x is recovered by slicing past |x|. */
  lemma SliceOfConcat<T>(x: seq<T>, y: seq<T>)
    ensures (x + y)[|x|..|x| + |y|] == y
  {
  }

  /** Position k of a window holding the projections of es holds entry
      k - lo of es. */
  lemma WindowEntry(vs: seq<int>, cs: seq<nat>, es: seq<Entry>, lo: nat, hi: nat, k: nat)
    requires lo <= k < hi <= |vs| && hi <= |cs|
    requires vs[lo..hi] == Vals(es) && cs[lo..hi] == Cols(es)
    ensures k - lo < |es| && vs[k] == es[k - lo].val && cs[k] == es[k - lo].col
  {
    assert vs[k] == vs[lo..hi][k - lo] && cs[k] == cs[lo..hi][k - lo];
  }

  lemma AppendAssociative<T>(x: seq<T>, y: seq<T>, z: seq<T>)
    ensures x + (y + z) == (x + y) + z
  {
  }

  /** Projecting entries onto values and columns commutes with appending. */
  lemma ProjectAppend(x: seq<Entry>, y: seq<Entry>)
    ensures Vals(x + y) == Vals(x) + Vals(y)
    ensures Cols(x + y) == Cols(x) + Cols(y)
  {
  }

  /** ... and with slicing. */
  lemma ProjectSlice(es: seq<Entry>, lo: nat, hi: nat)
    requires lo <= hi <= |es|
    ensures Vals(es)[lo..hi] == Vals(es[lo..hi])
    ensures Cols(es)[lo..hi] == Cols(es[lo..hi])
  {
  }

  /** The shape of the entries of row i below column j: strictly increasing
      columns below j, each entry holding the non-zero cell at its column. */
  ghost predicate RowEntries(es: seq<Entry>, a: seq<int>, m: nat, i: nat, j: nat)
  {
    && (forall t :: 0 <= t < |es| ==> es[t].col < j && es[t].val != 0 && es[t].val == Cell(a, m, i, es[t].col))
    && (forall t1, t2 :: 0 <= t1 < t2 < |es| ==> es[t1].col < es[t2].col)
  }

  /** The scan of a row has that shape. */
  lemma {:induction false} RowScanFacts(a: seq<int>, m: nat, i: nat, j: nat)
    ensures RowEntries(RowScan(a, m, i, j), a, m, i, j)
  {
    if j > 0 {
      RowScanFacts(a, m, i, j - 1);
      var rs, st := RowScan(a, m, i, j - 1), Step(a, m, i, j - 1);
      var es := RowScan(a, m, i, j);
      assert es == rs + st;
      if st == [] {
        assert es == rs;
      } else {
        assert es == rs + [Entry(Cell(a, m, i, j - 1), j - 1)];
        assert forall t :: 0 <= t < |rs| ==> es[t] == rs[t];
      }
    }
  }

  /** Every entry of the scan is non-zero and has a column below m. */
  lemma {:induction false} ScanFacts(a: seq<int>, m: nat, i: nat)
    ensures forall k :: 0 <= k < |Scan(a, m, i)| ==> Scan(a, m, i)[k].col < m && Scan(a, m, i)[k].val != 0
  {
    if i > 0 {
      ScanFacts(a, m, i - 1);
      RowScanFacts(a, m, i - 1, m);
      assert Scan(a, m, i) == Scan(a, m, i - 1) + RowScan(a, m, i - 1, m);
    }
  }

  /** The scan state at cell (i, j) is the scan of the rows above followed
      by the scan of row i up to column j. */
  lemma {:induction false} ScanToSplit(a: seq<int>, m: nat, i: nat, j: nat)
    requires j <= m
    ensures ScanTo(a, m, i, j) == Scan(a, m, i) + RowScan(a, m, i, j)
    decreases i, j
  {
    if j == 0 {
      if i > 0 {
        ScanToSplit(a, m, i - 1, m);
      }
    } else {
      ScanToSplit(a, m, i, j - 1);
      AppendAssociative(Scan(a, m, i), RowScan(a, m, i, j - 1), Step(a, m, i, j - 1));
    }
  }

  /** The scan only ever appends. */
  lemma {:induction false} ScanPrefix(a: seq<int>, m: nat, i: nat, i2: nat)
    requires i <= i2
    ensures Scan(a, m, i) <= Scan(a, m, i2)
    decreases i2
  {
    if i < i2 {
      ScanPrefix(a, m, i, i2 - 1);
      assert Scan(a, m, i2) == Scan(a, m, i2 - 1) + RowScan(a, m, i2 - 1, m);
    }
  }

  /** The entries between the counts after rows i - 1 and i of the whole
      scan are the row scan of row i. */
  lemma CompressRowEntries(a: seq<int>, n: nat, m: nat, i: nat)
    requires i < n
    ensures |Scan(a, m, i)| <= |Scan(a, m, i + 1)| <= |Scan(a, m, n)|
    ensures Scan(a, m, n)[|Scan(a, m, i)|..|Scan(a, m, i + 1)|] == RowScan(a, m, i, m)
  {
    var pre, cur := Scan(a, m, i), Scan(a, m, i + 1);
    ScanPrefix(a, m, i + 1, n);
    assert cur == pre + RowScan(a, m, i, m);
    SliceOfConcat(pre, RowScan(a, m, i, m));
    SliceOfPrefix(cur, Scan(a, m, n), |pre|, |cur|);
  }

  /** Row i of Compress(a, n, m) holds exactly the row scan of row i of `a`. */
  lemma CompressRow(a: seq<int>, n: nat, m: nat, i: nat)
    requires i < n
    ensures var c := Compress(a, n, m);
      && c.row[i] == |Scan(a, m, i)|
      && c.row[i] <= c.row[i + 1] <= |c.vals| == |c.cols|
      && c.vals[c.row[i]..c.row[i + 1]] == Vals(RowScan(a, m, i, m))
      && c.cols[c.row[i]..c.row[i + 1]] == Cols(RowScan(a, m, i, m))
  {
    var es, c := Scan(a, m, n), Compress(a, n, m);
    assert c.vals == Vals(es) && c.cols == Cols(es);
    CompressRowEntries(a, n, m, i);
    var lo, hi := |Scan(a, m, i)|, |Scan(a, m, i + 1)|;
    assert c.row[i] == lo && c.row[i + 1] == hi;
    ProjectSlice(es, lo, hi);
  }

  /** Entry k of a row window that holds the entries `es`. */
  lemma RowWindowEntry(c: Csr, es: seq<Entry>, i: nat, k: nat)
    requires i + 1 < |c.row| && c.row[i] <= k < c.row[i + 1] <= |c.vals| == |c.cols|
    requires c.vals[c.row[i]..c.row[i + 1]] == Vals(es) && c.cols[c.row[i]..c.row[i + 1]] == Cols(es)
    ensures k - c.row[i] < |es| && c.vals[k] == es[k - c.row[i]].val && c.cols[k] == es[k - c.row[i]].col
  {
    WindowEntry(c.vals, c.cols, es, c.row[i], c.row[i + 1], k);
  }

  /** Entry k of the whole scan, inside row i's window, is entry k - lo of
      row i's own scan, where lo is the count before row i. */
  lemma CompressRowEntry(a: seq<int>, n: nat, m: nat, i: nat, k: nat)
    requires i < n && Compress(a, n, m).row[i] <= k < Compress(a, n, m).row[i + 1]
    ensures Compress(a, n, m).row[i] == |Scan(a, m, i)|
    ensures 0 <= k - |Scan(a, m, i)| < |RowScan(a, m, i, m)|
    ensures k < |Compress(a, n, m).vals| == |Compress(a, n, m).cols|
    ensures Compress(a, n, m).vals[k] == RowScan(a, m, i, m)[k - |Scan(a, m, i)|].val
    ensures Compress(a, n, m).cols[k] == RowScan(a, m, i, m)[k - |Scan(a, m, i)|].col
  {
    CompressRow(a, n, m, i);
    RowWindowEntry(Compress(a, n, m), RowScan(a, m, i, m), i, k);
  }

  lemma CompressRowSorted(a: seq<int>, n: nat, m: nat, i: nat)
    requires i < n
    ensures SortedIn(Compress(a, n, m).cols, Compress(a, n, m).row[i], Compress(a, n, m).row[i + 1])
  {
    var c := Compress(a, n, m);
    RowScanFacts(a, m, i, m);
    forall k1, k2 | c.row[i] <= k1 < k2 < c.row[i + 1] && k2 < |c.cols|
      ensures c.cols[k1] < c.cols[k2]
    {
      CompressRowEntry(a, n, m, i, k1);
      CompressRowEntry(a, n, m, i, k2);
    }
  }

  lemma CompressRowMonotone(a: seq<int>, n: nat, m: nat)
    ensures |Compress(a, n, m).row| == n + 1 && Compress(a, n, m).row[0] == 0
    ensures forall i, i2 :: 0 <= i <= i2 <= n ==> Compress(a, n, m).row[i] <= Compress(a, n, m).row[i2]
  {
    var c := Compress(a, n, m);
    forall i, i2 | 0 <= i <= i2 <= n
      ensures c.row[i] <= c.row[i2]
    {
      ScanPrefix(a, m, i, i2);
      assert c.row[i] == |Scan(a, m, i)|;
      assert c.row[i2] == |Scan(a, m, i2)|;
    }
  }

  /** Building from a grid gives a well-formed CSR with no stored zero:
      _row[0] = 0, _row is non-decreasing, _row[n] = |_vals| = |_cols|,
      every column is below m and the columns of a row strictly increase. */
  lemma CompressWellFormed(a: seq<int>, n: nat, m: nat)
    ensures Canonical(Compress(a, n, m), n, m)
  {
    var c := Compress(a, n, m);
    ScanFacts(a, m, n);
    CompressRowMonotone(a, n, m);
    assert c.row[n] == |c.vals| == |c.cols|;
    forall i | 0 <= i < n
      ensures SortedIn(c.cols, c.row[i], c.row[i + 1])
    {
      CompressRowSorted(a, n, m, i);
    }
  }

  /** Every stored entry of row i is the non-zero cell of `a` in row i at its
      stored column: _vals[k] = A[i][_cols[k]] for k in [_row[i], _row[i+1]). */
  lemma CompressEntries(a: seq<int>, n: nat, m: nat, i: nat, k: nat)
    requires i < n
    requires Compress(a, n, m).row[i] <= k < Compress(a, n, m).row[i + 1]
    ensures k < |Compress(a, n, m).cols| == |Compress(a, n, m).vals|
    ensures Compress(a, n, m).vals[k] != 0
    ensures Compress(a, n, m).vals[k] == Cell(a, m, i, Compress(a, n, m).cols[k])
  {
    CompressRowEntry(a, n, m, i, k);
    RowScanFacts(a, m, i, m);
  }

  /** One more position of the grid adds its entry when it is non-zero. */
  lemma NonZerosSnoc(a: seq<int>, x: nat)
    requires x < |a|
    ensures NonZeros(a[..x + 1]) == NonZeros(a[..x]) + (if a[x] != 0 then [a[x]] else [])
  {
    assert a[..x + 1][..x] == a[..x];
  }

  /** The values the scan has appended on reaching cell (i, j) are the
      non-zero entries of the flat grid before position Index(m, i, j). */
  lemma {:induction false} ScanIsFilter(a: seq<int>, m: nat, i: nat, j: nat)
    requires j <= m && Index(m, i, j) <= |a|
    ensures Vals(ScanTo(a, m, i, j)) == NonZeros(a[..Index(m, i, j)])
    decreases i, j
  {
    if j == 0 {
      if i == 0 {
        assert a[..Index(m, 0, 0)] == [];
      } else {
        IndexInGrid(i, m, i - 1, m);
        ScanIsFilter(a, m, i - 1, m);
      }
    } else {
      ScanIsFilter(a, m, i, j - 1);
      ScanStepVals(a, m, i, j - 1);
      NonZerosSnoc(a, Index(m, i, j - 1));
    }
  }

  /** One step of the scan appends the value of the cell when it is non-zero. */
  lemma ScanStepVals(a: seq<int>, m: nat, i: nat, j: nat)
    requires Index(m, i, j) < |a|
    ensures Index(m, i, j + 1) == Index(m, i, j) + 1
    ensures Vals(ScanTo(a, m, i, j + 1)) == Vals(ScanTo(a, m, i, j)) + (if a[Index(m, i, j)] != 0 then [a[Index(m, i, j)]] else [])
  {
    var x := Index(m, i, j);
    ProjectAppend(ScanTo(a, m, i, j), Step(a, m, i, j));
    assert Vals(Step(a, m, i, j)) == if a[x] != 0 then [a[x]] else [];
  }

  /** _vals lists the non-zero cells of A in row-major order, so
      nnz() = _row[n] is the number of non-zero cells of A. */
  lemma CompressNonZeros(a: seq<int>, n: nat, m: nat)
    requires |a| == n * m
    ensures Compress(a, n, m).vals == NonZeros(a)
    ensures Compress(a, n, m).row[n] == |NonZeros(a)|
  {
    ScanToSplit(a, m, n, 0);
    assert ScanTo(a, m, n, 0) == Scan(a, m, n);
    ScanIsFilter(a, m, n, 0);
    assert a[..Index(m, n, 0)] == a;
  }

  // ---------------------------------------------------------------------
  // Lookup in the scan, and the scatter of to_fmatrix

  /** A lookup only sees the entries of its window. */
  lemma {:induction false} LookupWindow(vals: seq<int>, cols: seq<nat>, lo: nat, hi: nat, j: nat)
    requires lo <= hi <= |vals| && hi <= |cols|
    ensures Lookup(vals, cols, lo, hi, j) == Lookup(vals[lo..hi], cols[lo..hi], 0, hi - lo, j)
    decreases hi
  {
    if lo < hi && cols[hi - 1] != j {
      LookupWindow(vals, cols, lo, hi - 1, j);
      LookupWindow(vals[lo..hi], cols[lo..hi], 0, hi - lo - 1, j);
      assert vals[lo..hi][0..hi - lo - 1] == vals[lo..hi - 1];
      assert cols[lo..hi][0..hi - lo - 1] == cols[lo..hi - 1];
    }
  }

  /** Entries stored after the window do not change a lookup. */
  lemma {:induction false} LookupPrefix(vals: seq<int>, cols: seq<nat>, v2: seq<int>, c2: seq<nat>, lo: nat, hi: nat, j: nat)
    requires vals <= v2 && cols <= c2 && hi <= |vals| && hi <= |cols|
    ensures Lookup(vals, cols, lo, hi, j) == Lookup(v2, c2, lo, hi, j)
    decreases hi
  {
    if lo < hi && cols[hi - 1] != j {
      LookupPrefix(vals, cols, v2, c2, lo, hi - 1, j);
    }
  }

  /** Looking up column j in the scan of row i up to column j2 finds the cell
      (i, j) when j < j2, and zero otherwise. */
  lemma {:induction false} RowLookup(a: seq<int>, m: nat, i: nat, j2: nat, j: nat)
    ensures Lookup(Vals(RowScan(a, m, i, j2)), Cols(RowScan(a, m, i, j2)), 0, |RowScan(a, m, i, j2)|, j)
            == if j < j2 then Cell(a, m, i, j) else 0
  {
    if j2 > 0 {
      RowLookup(a, m, i, j2 - 1, j);
      var rs, st := RowScan(a, m, i, j2 - 1), Step(a, m, i, j2 - 1);
      assert RowScan(a, m, i, j2) == rs + st;
      ProjectAppend(rs, st);
      var x := Cell(a, m, i, j2 - 1);
      if x != 0 {
        assert Vals(st) == [x] && Cols(st) == [j2 - 1];
        RowLookupAppend(Vals(rs), Cols(rs), x, j2 - 1, j);
      } else {
        assert rs + st == rs;
      }
    }
  }

  /** Looking up j after appending the entry (x, col) finds x when col is j,
      and the earlier lookup otherwise. */
  lemma RowLookupAppend(v: seq<int>, cs: seq<nat>, x: int, col: nat, j: nat)
    requires |v| == |cs|
    ensures Lookup(v + [x], cs + [col], 0, |v| + 1, j) == if col == j then x else Lookup(v, cs, 0, |v|, j)
  {
    if col != j {
      LookupPrefix(v, cs, v + [x], cs + [col], 0, |v|, j);
    }
  }

  /** Converting the CSR built from `a` back gives cell (i, j) of `a`. */
  lemma CompressAt(a: seq<int>, n: nat, m: nat, i: nat, j: nat)
    requires i < n && j < m
    ensures At(Compress(a, n, m), i, j) == Cell(a, m, i, j)
  {
    var c := Compress(a, n, m);
    CompressRow(a, n, m, i);
    LookupWindow(c.vals, c.cols, c.row[i], c.row[i + 1], j);
    RowLookup(a, m, i, m, j);
  }

  /** Cell (r, col) of the dense grid that to_fmatrix has built once the rows
      below i and the entries of row i before position k are written. */
  ghost function Filled(c: Csr, i: nat, k: nat, r: nat, col: nat): int
  {
    if r < i then At(c, r, col)
    else if r == i && i + 1 < |c.row| then Lookup(c.vals, c.cols, c.row[i], k, col)
    else 0
  }

  /** Writing entry k - 1 of row i at cell (i, cols[k - 1]) extends the
      filled grid by that entry. */
  lemma ScatterStep(c: Csr, n: nat, m: nat, e: seq<int>, i: nat, k: nat)
    requires |c.row| == n + 1 && i < n && |e| == n * m
    requires c.row[i] < k <= c.row[i + 1] <= |c.vals| == |c.cols| && c.cols[k - 1] < m
    requires forall r, col :: 0 <= r < n && 0 <= col < m ==> Cell(e, m, r, col) == Filled(c, i, k - 1, r, col)
    ensures Index(m, i, c.cols[k - 1]) < |e|
    ensures forall r, col :: 0 <= r < n && 0 <= col < m ==>
              Cell(e[Index(m, i, c.cols[k - 1]) := c.vals[k - 1]], m, r, col) == Filled(c, i, k, r, col)
  {
    var j, v := c.cols[k - 1], c.vals[k - 1];
    WriteCell(e, n, m, i, j, v);
    var e2 := e[Index(m, i, j) := v];
    forall r, col | 0 <= r < n && 0 <= col < m
      ensures Cell(e2, m, r, col) == Filled(c, i, k, r, col)
    {
      assert Cell(e2, m, r, col) == if r == i && col == j then v else Cell(e, m, r, col);
      assert Cell(e, m, r, col) == Filled(c, i, k - 1, r, col);
      if r == i {
        assert Lookup(c.vals, c.cols, c.row[i], k, col) ==
               if j == col then v else Lookup(c.vals, c.cols, c.row[i], k - 1, col);
        assert Filled(c, i, k, r, col) == Lookup(c.vals, c.cols, c.row[i], k, col);
      }
    }
  }

  /** The same step for the transposed scatter of transpose(), which writes
      entry k - 1 of row i at cell (cols[k - 1], i) of an m-by-n grid. */
  lemma ScatterTransposedStep(c: Csr, n: nat, m: nat, t: seq<int>, i: nat, k: nat)
    requires |c.row| == n + 1 && i < n && |t| == m * n
    requires c.row[i] < k <= c.row[i + 1] <= |c.vals| == |c.cols| && c.cols[k - 1] < m
    requires forall r, col :: 0 <= r < m && 0 <= col < n ==> Cell(t, n, r, col) == Filled(c, i, k - 1, col, r)
    ensures Index(n, c.cols[k - 1], i) < |t|
    ensures forall r, col :: 0 <= r < m && 0 <= col < n ==>
              Cell(t[Index(n, c.cols[k - 1], i) := c.vals[k - 1]], n, r, col) == Filled(c, i, k, col, r)
  {
    var j, v := c.cols[k - 1], c.vals[k - 1];
    WriteCell(t, m, n, j, i, v);
    var t2 := t[Index(n, j, i) := v];
    forall r, col | 0 <= r < m && 0 <= col < n
      ensures Cell(t2, n, r, col) == Filled(c, i, k, col, r)
    {
      assert Cell(t2, n, r, col) == if r == j && col == i then v else Cell(t, n, r, col);
      assert Cell(t, n, r, col) == Filled(c, i, k - 1, col, r);
      if col == i {
        assert Lookup(c.vals, c.cols, c.row[i], k, r) ==
               if j == r then v else Lookup(c.vals, c.cols, c.row[i], k - 1, r);
        assert Filled(c, i, k, col, r) == Lookup(c.vals, c.cols, c.row[i], k, r);
      }
    }
  }

  /** The scan reads a grid only through its cells. */
  lemma {:induction false} RowScanCellwise(a: seq<int>, b: seq<int>, m: nat, i: nat, j: nat)
    requires forall j2 :: 0 <= j2 < j ==> Cell(a, m, i, j2) == Cell(b, m, i, j2)
    ensures RowScan(a, m, i, j) == RowScan(b, m, i, j)
  {
    if j > 0 {
      RowScanCellwise(a, b, m, i, j - 1);
      assert Step(a, m, i, j - 1) == Step(b, m, i, j - 1);
    }
  }

  lemma {:induction false} ScanCellwise(a: seq<int>, b: seq<int>, m: nat, i: nat)
    requires forall i2, j :: 0 <= i2 < i && 0 <= j < m ==> Cell(a, m, i2, j) == Cell(b, m, i2, j)
    ensures Scan(a, m, i) == Scan(b, m, i)
  {
    if i > 0 {
      ScanCellwise(a, b, m, i - 1);
      RowScanCellwise(a, b, m, i - 1, m);
    }
  }

  /** Scanning a short literal treats the missing positions as zero: it builds
      the same CSR as scanning the literal padded with zeros to n*m entries. */
  lemma CompressPadded(il: seq<int>, n: nat, m: nat)
    requires |il| <= n * m
    ensures Compress(il, n, m) == Compress(il + Zeros(n * m - |il|), n, m)
  {
    var p := il + Zeros(n * m - |il|);
    forall i, j | 0 <= i < n && 0 <= j < m
      ensures Cell(il, m, i, j) == Cell(p, m, i, j)
    {
      IndexInGrid(n, m, i, j);
    }
    forall i | 0 <= i <= n
      ensures Scan(il, m, i) == Scan(p, m, i)
    {
      ScanCellwise(il, p, m, i);
    }
  }

  // ---------------------------------------------------------------------
  // The literal-list guard as written

  /** What one step of the literal-list scan as written does at list
      position pos: the guard `it != il.end()` only stops the read when the
      iterator is exactly at the end; before the end it reads the entry,
      and past the end it dereferences outside the list. */
  datatype ListRead = NoRead | Read(v: int) | ReadPastEnd

  function ListReadAsWritten(il: seq<int>, pos: nat): ListRead
  {
    if pos == |il| then NoRead
    else if pos < |il| then Read(il[pos])
    else ReadPastEnd
  }

  /** When the literal is at least two entries short of n*m, every scan
      position from |il| + 1 up to n*m - 1 is the position of a cell of the
      grid, and there the scan as written reads past the end of the list,
      while the corrected scan reads that cell as zero. */
  lemma ListGuardAsWrittenOverreads(il: seq<int>, n: nat, m: nat)
    requires |il| + 2 <= n * m
    ensures forall x :: |il| < x < n * m ==>
              && x / m < n && x % m < m && Index(m, x / m, x % m) == x
              && ListReadAsWritten(il, Index(m, x / m, x % m)).ReadPastEnd?
              && Cell(il, m, x / m, x % m) == 0
  {
    forall x | |il| < x < n * m
      ensures x / m < n && x % m < m && Index(m, x / m, x % m) == x
    {
      GridPosition(n, m, x);
    }
  }

  // ---------------------------------------------------------------------
  // Equality

  /** Comparing _vals, _cols and only _row[0..n) decides equality of the
      whole storage of two well-formed CSRs: _row[n] is then |_vals|. */
  lemma StorageEquality(c: Csr, d: Csr, n: nat, m: nat)
    requires WellFormed(c, n, m) && WellFormed(d, n, m)
    ensures (c.vals == d.vals && c.cols == d.cols && c.row[..n] == d.row[..n]) <==> c == d
  {
    if c.vals == d.vals && c.cols == d.cols && c.row[..n] == d.row[..n] {
      assert c.row == c.row[..n] + [c.row[n]];
      assert d.row == d.row[..n] + [d.row[n]];
    }
  }
}
