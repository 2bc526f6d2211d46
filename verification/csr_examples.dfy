/** The sparse 4-by-5 grid of the construction and transpose tests, and the
    three stores its compression fills. The grid and the widths are passed as
    parameters pinned by `requires`, so that the scans unfold one row at a
    time rather than all at once on literal arguments. */
module CsrExamples {
  import opened Grid
  import opened CsrScan

  /** The grid of tests/csr_matrix_tests.cpp:30-33: row 1 is 5, 8, 0, 0, 0,
      row 3 is 0, 0, 2, 0, 6 and rows 0 and 2 are zero. It is written as the
      zero grid with its four non-zero cells set. */
  const A: seq<int> := Zeros(20)[5 := 5][6 := 8][17 := 2][19 := 6]

  /** The twenty cells of the grid, read through `Cell`. */
  lemma ExampleCells(a: seq<int>, m: nat)
    requires a == A && m == 5
    ensures Cell(a, m, 0, 0) == 0 && Cell(a, m, 0, 1) == 0 && Cell(a, m, 0, 2) == 0 && Cell(a, m, 0, 3) == 0 && Cell(a, m, 0, 4) == 0
    ensures Cell(a, m, 1, 0) == 5 && Cell(a, m, 1, 1) == 8 && Cell(a, m, 1, 2) == 0 && Cell(a, m, 1, 3) == 0 && Cell(a, m, 1, 4) == 0
    ensures Cell(a, m, 2, 0) == 0 && Cell(a, m, 2, 1) == 0 && Cell(a, m, 2, 2) == 0 && Cell(a, m, 2, 3) == 0 && Cell(a, m, 2, 4) == 0
    ensures Cell(a, m, 3, 0) == 0 && Cell(a, m, 3, 1) == 0 && Cell(a, m, 3, 2) == 2 && Cell(a, m, 3, 3) == 0 && Cell(a, m, 3, 4) == 6
  {
    assert |a| == 20;
    forall k | 0 <= k < 20 ensures Zeros(20)[k] == 0 { }
  }

  /** A row of five cells scans to the steps of its five cells. */
  lemma RowSteps(a: seq<int>, m: nat, i: nat)
    requires m == 5
    ensures RowScan(a, m, i, m) == Step(a, m, i, 0) + Step(a, m, i, 1) + Step(a, m, i, 2) + Step(a, m, i, 3) + Step(a, m, i, 4)
  {
    assert RowScan(a, m, i, 1) == Step(a, m, i, 0);
    assert RowScan(a, m, i, 2) == RowScan(a, m, i, 1) + Step(a, m, i, 1);
    assert RowScan(a, m, i, 3) == RowScan(a, m, i, 2) + Step(a, m, i, 2);
    assert RowScan(a, m, i, 4) == RowScan(a, m, i, 3) + Step(a, m, i, 3);
    assert RowScan(a, m, i, 5) == RowScan(a, m, i, 4) + Step(a, m, i, 4);
  }

  /** The row scans of any grid with the example's cells. */
  lemma RowsOfCells(a: seq<int>, m: nat)
    requires m == 5
    requires Cell(a, m, 0, 0) == 0 && Cell(a, m, 0, 1) == 0 && Cell(a, m, 0, 2) == 0 && Cell(a, m, 0, 3) == 0 && Cell(a, m, 0, 4) == 0
    requires Cell(a, m, 1, 0) == 5 && Cell(a, m, 1, 1) == 8 && Cell(a, m, 1, 2) == 0 && Cell(a, m, 1, 3) == 0 && Cell(a, m, 1, 4) == 0
    requires Cell(a, m, 2, 0) == 0 && Cell(a, m, 2, 1) == 0 && Cell(a, m, 2, 2) == 0 && Cell(a, m, 2, 3) == 0 && Cell(a, m, 2, 4) == 0
    requires Cell(a, m, 3, 0) == 0 && Cell(a, m, 3, 1) == 0 && Cell(a, m, 3, 2) == 2 && Cell(a, m, 3, 3) == 0 && Cell(a, m, 3, 4) == 6
    ensures RowScan(a, m, 0, m) == [] && RowScan(a, m, 2, m) == []
    ensures RowScan(a, m, 1, m) == [Entry(5, 0), Entry(8, 1)]
    ensures RowScan(a, m, 3, m) == [Entry(2, 2), Entry(6, 4)]
  {
    RowSteps(a, m, 0);
    RowSteps(a, m, 1);
    RowSteps(a, m, 2);
    RowSteps(a, m, 3);
  }

  /** A scan of four rows is the four row scans one after another, and so
      is each of its prefixes. */
  lemma ScanFourRows(a: seq<int>, m: nat)
    ensures Scan(a, m, 0) == []
    ensures Scan(a, m, 1) == RowScan(a, m, 0, m)
    ensures Scan(a, m, 2) == RowScan(a, m, 0, m) + RowScan(a, m, 1, m)
    ensures Scan(a, m, 3) == RowScan(a, m, 0, m) + RowScan(a, m, 1, m) + RowScan(a, m, 2, m)
    ensures Scan(a, m, 4) == RowScan(a, m, 0, m) + RowScan(a, m, 1, m) + RowScan(a, m, 2, m) + RowScan(a, m, 3, m)
  {
    assert Scan(a, m, 1) == RowScan(a, m, 0, m);
    assert Scan(a, m, 2) == Scan(a, m, 1) + RowScan(a, m, 1, m);
    assert Scan(a, m, 3) == Scan(a, m, 2) + RowScan(a, m, 2, m);
    assert Scan(a, m, 4) == Scan(a, m, 3) + RowScan(a, m, 3, m);
  }

  /** The four row scans of the example, joined. */
  lemma ScanFromRows(a: seq<int>, m: nat)
    requires RowScan(a, m, 0, m) == [] && RowScan(a, m, 2, m) == []
    requires RowScan(a, m, 1, m) == [Entry(5, 0), Entry(8, 1)]
    requires RowScan(a, m, 3, m) == [Entry(2, 2), Entry(6, 4)]
    ensures Scan(a, m, 0) == [] && Scan(a, m, 1) == []
    ensures Scan(a, m, 2) == [Entry(5, 0), Entry(8, 1)] && Scan(a, m, 3) == [Entry(5, 0), Entry(8, 1)]
    ensures Scan(a, m, 4) == [Entry(5, 0), Entry(8, 1), Entry(2, 2), Entry(6, 4)]
  {
    ScanFourRows(a, m);
    assert [Entry(5, 0), Entry(8, 1)] + [Entry(2, 2), Entry(6, 4)] == [Entry(5, 0), Entry(8, 1), Entry(2, 2), Entry(6, 4)];
  }

  /** The scan meets the four non-zeros of the grid in row-major order, two in
      row 1 and two in row 3, each with its column. */
  lemma ScanExample(a: seq<int>, m: nat)
    requires a == A && m == 5
    ensures Scan(a, m, 0) == [] && Scan(a, m, 1) == []
    ensures Scan(a, m, 2) == [Entry(5, 0), Entry(8, 1)] && Scan(a, m, 3) == [Entry(5, 0), Entry(8, 1)]
    ensures Scan(a, m, 4) == [Entry(5, 0), Entry(8, 1), Entry(2, 2), Entry(6, 4)]
  {
    ExampleCells(a, m);
    RowsOfCells(a, m);
    ScanFromRows(a, m);
  }

  /** The stores of a four-row compression, read off its scans. */
  lemma CompressFourRows(a: seq<int>, m: nat, es: seq<Entry>)
    requires es == Scan(a, m, 4)
    ensures Compress(a, 4, m) == Csr([|Scan(a, m, 0)|, |Scan(a, m, 1)|, |Scan(a, m, 2)|, |Scan(a, m, 3)|, |es|], Vals(es), Cols(es))
  {
  }

  lemma ProjectExample(es: seq<Entry>)
    requires es == [Entry(5, 0), Entry(8, 1), Entry(2, 2), Entry(6, 4)]
    ensures Vals(es) == [5, 8, 2, 6] && Cols(es) == [0, 1, 2, 4]
  {
  }

  /** Compressing the grid gives the row boundaries 0, 0, 2, 2, 4, the values
      5, 8, 2, 6 and their columns 0, 1, 2, 4. */
  lemma CompressExample(a: seq<int>, n: nat, m: nat)
    requires a == A && n == 4 && m == 5
    ensures Compress(a, n, m) == Csr([0, 0, 2, 2, 4], [5, 8, 2, 6], [0, 1, 2, 4])
  {
    ScanExample(a, m);
    ProjectExample(Scan(a, m, 4));
    CompressFourRows(a, m, Scan(a, m, 4));
  }
}
