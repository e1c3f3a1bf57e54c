/** The Kokkos y = A·x program: the same product over a row-major buffer B
    and a column-major buffer C holding the same all-ones matrix, and the
    value it reports. */
module KokkosMvDot {
  import opened DenseAlgebra
  import opened SerialDot

  /** Sets entry (i, j) of the rows x cols column-major buffer, at
      i + rows·j, to 1 for every cell; the cells cover the whole allocation. */
  method InitColMajorOnes(c: array<int>, rows: nat, cols: nat)
    requires c.Length == rows * cols
    modifies c
    ensures AllEqual(c[..], 1, c.Length)
  {
    for i := 0 to rows
      invariant forall r, q :: 0 <= r < i && 0 <= q < cols ==>
                  0 <= ColMajorIndex(r, q, rows) < c.Length && c[ColMajorIndex(r, q, rows)] == 1
    {
      for j := 0 to cols
        invariant forall r, q :: 0 <= r < i && 0 <= q < cols ==>
                    0 <= ColMajorIndex(r, q, rows) < c.Length && c[ColMajorIndex(r, q, rows)] == 1
        invariant forall q :: 0 <= q < j ==>
                    0 <= ColMajorIndex(i, q, rows) < c.Length && c[ColMajorIndex(i, q, rows)] == 1
      {
        ColMajorIndexInRange(i, j, rows, cols);
        c[ColMajorIndex(i, j, rows)] := 1;
      }
    }
    forall k | 0 <= k < c.Length
      ensures c[k] == 1
    {
      QuotientBelow(k, cols, rows);
      assert ColMajorIndex(k % rows, k / rows, rows) == k;
    }
  }

  /** fill2DMatrix: sets entry (i, j) to 1 for every i < m and j < n of a
      two-dimensional view; the rest of the view is untouched. */
  method Fill2DMatrix(data: array2<int>, m: nat, n: nat)
    requires m <= data.Length0 && n <= data.Length1
    modifies data
    ensures forall i, j :: 0 <= i < m && 0 <= j < n ==> data[i, j] == 1
    ensures forall i, j :: 0 <= i < data.Length0 && 0 <= j < data.Length1 && !(i < m && j < n) ==>
              data[i, j] == old(data[i, j])
  {
    for i := 0 to m
      invariant forall r, q :: 0 <= r < i && 0 <= q < n ==> data[r, q] == 1
      invariant forall r, q :: 0 <= r < data.Length0 && 0 <= q < data.Length1 && !(r < m && q < n) ==>
                  data[r, q] == old(data[r, q])
    {
      for j := 0 to n
        invariant forall r, q :: 0 <= r < i && 0 <= q < n ==> data[r, q] == 1
        invariant forall q :: 0 <= q < j ==> data[i, q] == 1
        invariant forall r, q :: 0 <= r < data.Length0 && 0 <= q < data.Length1 && !(r < m && q < n) ==>
                    data[r, q] == old(data[r, q])
      {
        data[i, j] := 1;
      }
    }
  }

  /** performDotProduct: y(i) becomes the dot of row i of the row-major
      buffer with x, for every i < rows; the reduction result is discarded,
      so y is the only effect. */
  method PerformDotProduct(data: array<int>, x: array<int>, y: array<int>, rows: nat, cols: nat)
    requires rows * cols <= data.Length && cols <= x.Length && rows <= y.Length
    requires y != data && y != x
    modifies y
    ensures y[..rows] == MatVec(RowMajor(data[..], rows, cols), x[..], cols)
    ensures forall k :: rows <= k < y.Length ==> y[k] == old(y[k])
  {
    ghost var A := RowMajor(data[..], rows, cols);
    var result := 0;
    for i := 0 to rows
      invariant forall r :: 0 <= r < i ==> y[r] == Dot(A[r], x[..], cols)
      invariant forall k :: rows <= k < y.Length ==> y[k] == old(y[k])
    {
      var thisRowSum := 0;
      for j := 0 to cols
        invariant thisRowSum == Dot(A[i], x[..], j)
        invariant forall r :: 0 <= r < i ==> y[r] == Dot(A[r], x[..], cols)
        invariant forall k :: rows <= k < y.Length ==> y[k] == old(y[k])
      {
        RowMajorEntry(data[..], rows, cols, i, j);
        thisRowSum := thisRowSum + data[RowMajorIndex(i, j, cols)] * x[j];
      }
      var update := thisRowSum;
      y[i] := update;
    }
  }

  /** performOptimizedKernelDot: the same product reading the column-major
      buffer at j·rows + i. */
  method PerformOptimizedKernelDot(data: array<int>, x: array<int>, y: array<int>, rows: nat, cols: nat)
    requires rows * cols <= data.Length && cols <= x.Length && rows <= y.Length
    requires y != data && y != x
    modifies y
    ensures y[..rows] == MatVec(ColMajor(data[..], rows, cols), x[..], cols)
    ensures forall k :: rows <= k < y.Length ==> y[k] == old(y[k])
  {
    ghost var A := ColMajor(data[..], rows, cols);
    for i := 0 to rows
      invariant forall r :: 0 <= r < i ==> y[r] == Dot(A[r], x[..], cols)
      invariant forall k :: rows <= k < y.Length ==> y[k] == old(y[k])
    {
      var thisRowSum := 0;
      for j := 0 to cols
        invariant thisRowSum == Dot(A[i], x[..], j)
        invariant forall r :: 0 <= r < i ==> y[r] == Dot(A[r], x[..], cols)
        invariant forall k :: rows <= k < y.Length ==> y[k] == old(y[k])
      {
        ColMajorEntry(data[..], rows, cols, i, j);
        thisRowSum := thisRowSum + data[ColMajorIndex(i, j, rows)] * x[j];
      }
      var update := thisRowSum;
      y[i] := update;
    }
  }

  /** Buffers that store the same matrix, one row-major and one column-major,
      give both kernels the same y. */
  lemma LayoutsGiveSameProduct(b: seq<int>, c: seq<int>, x: seq<int>, rows: nat, cols: nat)
    requires rows * cols <= |b| && rows * cols <= |c| && cols <= |x|
    requires forall i, j :: 0 <= i < rows && 0 <= j < cols ==>
               0 <= RowMajorIndex(i, j, cols) < |b| && 0 <= ColMajorIndex(i, j, rows) < |c| &&
               b[RowMajorIndex(i, j, cols)] == c[ColMajorIndex(i, j, rows)]
    ensures RowMajor(b, rows, cols) == ColMajor(c, rows, cols)
    ensures MatVec(RowMajor(b, rows, cols), x, cols) == MatVec(ColMajor(c, rows, cols), x, cols)
  {
    var B := RowMajor(b, rows, cols);
    var C := ColMajor(c, rows, cols);
    forall i | 0 <= i < rows
      ensures B[i] == C[i]
    {
      forall j | 0 <= j < cols
        ensures B[i][j] == C[i][j]
      {
        RowMajorEntry(b, rows, cols, i, j);
        ColMajorEntry(c, rows, cols, i, j);
      }
    }
  }

  /** The all-ones row-major B and the all-ones column-major C of main store
      the same matrix. */
  lemma OnesLayoutsAgree(b: seq<int>, c: seq<int>, rows: nat, cols: nat)
    requires |b| == rows * cols && |c| == rows * cols
    requires AllEqual(b, 1, |b|) && AllEqual(c, 1, |c|)
    ensures RowMajor(b, rows, cols) == ColMajor(c, rows, cols)
  {
    forall i, j | 0 <= i < rows && 0 <= j < cols
      ensures 0 <= RowMajorIndex(i, j, cols) < |b| && 0 <= ColMajorIndex(i, j, rows) < |c|
      ensures b[RowMajorIndex(i, j, cols)] == c[ColMajorIndex(i, j, rows)]
    {
      RowMajorIndexInRange(i, j, rows, cols);
      ColMajorIndexInRange(i, j, rows, cols);
    }
    LayoutsGiveSameProduct(b, c, seq(cols, _ => 0), rows, cols);
  }

  /** The large-size branch of main: fill y, x, B (row-major) and C
      (column-major) with ones, run both kernels and report
      h_y.extent(0)·N after each. Both runs leave N in every entry of y, and
      both reports are M·N, computed from the length of y. */
  method RunBothLayouts(m: nat, n: nat) returns (result: int, result2: int, ys: seq<int>, ys2: seq<int>)
    ensures result == m * n && result2 == m * n
    ensures |ys| == m && AllEqual(ys, n, m)
    ensures |ys2| == m && AllEqual(ys2, n, m)
  {
    var y := new int[m];
    var x := new int[n];
    var b := new int[m * n];
    var c := new int[m * n];
    InitVectorOnes(y);
    InitVectorOnes(x);
    InitRowMajorOnes(b, m, n);
    InitColMajorOnes(c, m, n);
    PerformDotProduct(b, x, y, m, n);
    AllOnesRowDots(b[..], x[..], m, n);
    ys := y[..];
    result := y.Length * n;
    OnesLayoutsAgree(b[..], c[..], m, n);
    PerformOptimizedKernelDot(c, x, y, m, n);
    assert y[..m] == y[..];
    ys2 := y[..];
    result2 := y.Length * n;
  }
}
