/** The serial y = A·x program: x and a row-major A of ones in malloc'd
    buffers, one row dot per row written into y, and the single integer it
    reports. */
module SerialDot {
  import opened DenseAlgebra

  /** The program's rows and columns. */
  const M: nat := 1000
  const N: nat := 1000

  /** Sets every entry of v to 1. */
  method InitVectorOnes(v: array<int>)
    modifies v
    ensures AllEqual(v[..], 1, v.Length)
  {
    for i := 0 to v.Length
      invariant forall k :: 0 <= k < i ==> v[k] == 1
    {
      v[i] := 1;
    }
  }

  /** Sets entry (i, j) of the rows x cols row-major buffer, at i·cols + j, to
      1 for every cell; the cells cover the whole allocation in order. */
  method InitRowMajorOnes(a: array<int>, rows: nat, cols: nat)
    requires a.Length == rows * cols
    modifies a
    ensures AllEqual(a[..], 1, a.Length)
  {
    for i := 0 to rows
      invariant i < rows ==> RowMajorIndex(i, 0, cols) <= a.Length
      invariant forall k :: 0 <= k < a.Length && k < RowMajorIndex(i, 0, cols) ==> a[k] == 1
    {
      for j := 0 to cols
        invariant RowMajorIndex(i, j, cols) <= a.Length
        invariant forall k :: 0 <= k < a.Length && k < RowMajorIndex(i, j, cols) ==> a[k] == 1
      {
        RowMajorIndexInRange(i, j, rows, cols);
        a[RowMajorIndex(i, j, cols)] := 1;
      }
      NextRowStart(i, cols);
    }
    assert RowMajorIndex(rows, 0, cols) == a.Length;
  }

  /** The row after row i starts where row i ends. */
  lemma NextRowStart(i: nat, cols: nat)
    ensures RowMajorIndex(i, cols, cols) == RowMajorIndex(i + 1, 0, cols)
  {
  }

  /** performDotProduct: y[i] becomes the dot of row i of the row-major
      buffer with x, for every i < rows, and nothing else in y changes. The
      returned value is the last row's y[i]·(row dot), the last row's dot
      squared, and 0 when there are no rows. */
  method PerformDotProduct(a: array<int>, x: array<int>, y: array<int>, rows: nat, cols: nat)
    returns (result: int)
    requires rows * cols <= a.Length && cols <= x.Length && rows <= y.Length
    requires y != a && y != x
    modifies y
    ensures forall i :: 0 <= i < rows ==> y[i] == Dot(RowMajor(a[..], rows, cols)[i], x[..], cols)
    ensures forall k :: rows <= k < y.Length ==> y[k] == old(y[k])
    ensures result == if rows == 0 then 0 else y[rows - 1] * y[rows - 1]
  {
    ghost var A := RowMajor(a[..], rows, cols);
    result := 0;
    for i := 0 to rows
      invariant forall r :: 0 <= r < i ==> y[r] == Dot(A[r], x[..], cols)
      invariant forall k :: rows <= k < y.Length ==> y[k] == old(y[k])
      invariant result == if i == 0 then 0 else y[i - 1] * y[i - 1]
    {
      var tempRowDot := 0;
      for j := 0 to cols
        invariant tempRowDot == Dot(A[i], x[..], j)
        invariant forall r :: 0 <= r < i ==> y[r] == Dot(A[r], x[..], cols)
        invariant forall k :: rows <= k < y.Length ==> y[k] == old(y[k])
      {
        RowMajorEntry(a[..], rows, cols, i, j);
        tempRowDot := tempRowDot + a[RowMajorIndex(i, j, cols)] * x[j];
      }
      y[i] := tempRowDot;
      result := y[i] * tempRowDot;
    }
  }

  /** printDotProduct: writes the same y as performDotProduct and prints one
      "row dot" line per row, returned here as the sequence of printed values. */
  method PrintDotProduct(a: array<int>, x: array<int>, y: array<int>, rows: nat, cols: nat)
    returns (printedRowDots: seq<int>)
    requires rows * cols <= a.Length && cols <= x.Length && rows <= y.Length
    requires y != a && y != x
    modifies y
    ensures forall i :: 0 <= i < rows ==> y[i] == Dot(RowMajor(a[..], rows, cols)[i], x[..], cols)
    ensures forall k :: rows <= k < y.Length ==> y[k] == old(y[k])
    ensures printedRowDots == y[..rows]
  {
    ghost var A := RowMajor(a[..], rows, cols);
    printedRowDots := [];
    for i := 0 to rows
      invariant forall r :: 0 <= r < i ==> y[r] == Dot(A[r], x[..], cols)
      invariant forall k :: rows <= k < y.Length ==> y[k] == old(y[k])
      invariant printedRowDots == y[..i]
    {
      var tempRowDot := 0;
      for j := 0 to cols
        invariant tempRowDot == Dot(A[i], x[..], j)
        invariant forall r :: 0 <= r < i ==> y[r] == Dot(A[r], x[..], cols)
        invariant forall k :: rows <= k < y.Length ==> y[k] == old(y[k])
      {
        RowMajorEntry(a[..], rows, cols, i, j);
        tempRowDot := tempRowDot + a[RowMajorIndex(i, j, cols)] * x[j];
      }
      var rowDot := tempRowDot;
      y[i] := tempRowDot;
      printedRowDots := printedRowDots + [rowDot];
    }
  }

  /** Every row of an all-ones row-major matrix dotted with an all-ones x is cols. */
  lemma AllOnesRowDots(a: seq<int>, x: seq<int>, rows: nat, cols: nat)
    requires rows * cols <= |a| && cols <= |x|
    requires AllEqual(a, 1, rows * cols) && AllEqual(x, 1, cols)
    ensures forall i :: 0 <= i < rows ==> Dot(RowMajor(a, rows, cols)[i], x, cols) == cols
  {
    var A := RowMajor(a, rows, cols);
    forall i | 0 <= i < rows
      ensures Dot(A[i], x, cols) == cols
    {
      forall j | 0 <= j < cols
        ensures A[i][j] == 1
      {
        RowMajorIndexInRange(i, j, rows, cols);
      }
      DotOfOnes(A[i], x, cols);
    }
  }

  /** The large-size branch of main: allocate, fill with ones and run
      performDotProduct. Every y entry is the row length and the reported
      integer is cols·cols (0 without rows). */
  method RunSerial(rows: nat, cols: nat) returns (sumDotResult: int, ys: seq<int>)
    ensures |ys| == rows && AllEqual(ys, cols, rows)
    ensures sumDotResult == if rows == 0 then 0 else cols * cols
  {
    var y := new int[rows];
    var x := new int[cols];
    var a := new int[rows * cols];
    InitVectorOnes(x);
    InitRowMajorOnes(a, rows, cols);
    sumDotResult := PerformDotProduct(a, x, y, rows, cols);
    AllOnesRowDots(a[..], x[..], rows, cols);
    ys := y[..];
  }

  /** The program at its own sizes, M = N = 1000: every y entry is N, and the
      reported integer is the printed M·N. */
  method RunProgram() returns (sumDotResult: int, ys: seq<int>)
    ensures |ys| == M && AllEqual(ys, N, M)
    ensures sumDotResult == M * N
  {
    sumDotResult, ys := RunSerial(M, N);
    ReportedProductIsMTimesN(M, N);
  }

  /** The reported cols·cols equals the "M * N" it is printed as exactly when
      the matrix is square (for a non-empty matrix). */
  lemma ReportedProductIsMTimesN(rows: nat, cols: nat)
    requires rows > 0 && cols > 0
    ensures cols * cols == rows * cols <==> rows == cols
  {
    if cols * cols == rows * cols {
      assert (cols - rows) * cols == 0;
    }
  }
}
