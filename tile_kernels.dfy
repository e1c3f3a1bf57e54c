/** The per-rank loops of the distributed y = A·x program, on the rank's own
    buffers: the host fills of A, x and ID_A and the yAx and xIDy kernels. */
module TileKernels {
  import opened DenseAlgebra
  import opened LocalCompute

  /** Host fill of the local tile A: every entry becomes 1. */
  method FillOnes(a: array2<int>)
    modifies a
    ensures MatrixAllEqual(Rows(a), 1, a.Length0, a.Length1)
  {
    for i := 0 to a.Length0
      invariant forall r, c :: 0 <= r < i && 0 <= c < a.Length1 ==> a[r, c] == 1
    {
      for j := 0 to a.Length1
        invariant forall r, c :: 0 <= r < i && 0 <= c < a.Length1 ==> a[r, c] == 1
        invariant forall c :: 0 <= c < j ==> a[i, c] == 1
      {
        a[i, j] := 1;
      }
    }
  }

  /** Host fill of x: only ranks of row band 0 write ones; the others keep
      their buffer until the column broadcast. */
  method FillXOnFirstBand(x: array<int>, localRow: nat)
    modifies x
    ensures localRow == 0 ==> AllEqual(x[..], 1, x.Length)
    ensures localRow != 0 ==> x[..] == old(x[..])
  {
    if localRow == 0 {
      for i := 0 to x.Length
        invariant forall k :: 0 <= k < i ==> x[k] == 1
      {
        x[i] := 1;
      }
    }
  }

  /** Host fill of ID_A by comparing global indices. */
  method FillSelector(id: array2<int>, rowOffset: nat, colOffset: nat)
    modifies id
    ensures Rows(id) == SelectorTile(rowOffset, colOffset, id.Length0, id.Length1)
  {
    for li := 0 to id.Length0
      invariant forall r, c :: 0 <= r < li && 0 <= c < id.Length1 ==>
                  id[r, c] == if rowOffset + r == colOffset + c then 1 else 0
    {
      for lj := 0 to id.Length1
        invariant forall r, c :: 0 <= r < li && 0 <= c < id.Length1 ==>
                    id[r, c] == if rowOffset + r == colOffset + c then 1 else 0
        invariant forall c :: 0 <= c < lj ==> id[li, c] == if rowOffset + li == colOffset + c then 1 else 0
      {
        var globalI := rowOffset + li;
        var globalJ := colOffset + lj;
        if globalI == globalJ {
          id[li, lj] := 1;
        } else {
          id[li, lj] := 0;
        }
      }
    }
    ghost var want := SelectorTile(rowOffset, colOffset, id.Length0, id.Length1);
    assert forall r :: 0 <= r < id.Length0 ==> Rows(id)[r] == want[r];
  }

  /** The yAx kernel: y(i) = Σ_{j<n} A(i, j)·x(j) for every local row i. */
  method RowDot(a: array2<int>, x: array<int>, y: array<int>)
    requires a.Length0 == y.Length && a.Length1 == x.Length && x != y
    modifies y
    ensures y[..] == MatVec(Rows(a), x[..], x.Length)
  {
    for i := 0 to a.Length0
      invariant forall r :: 0 <= r < i ==> y[r] == Dot(Rows(a)[r], x[..], x.Length)
    {
      var temp := 0;
      for j := 0 to a.Length1
        invariant temp == Dot(Rows(a)[i], x[..], j)
      {
        temp := temp + a[i, j] * x[j];
      }
      y[i] := temp;
    }
  }

  /** The xIDy kernel: x(i) = Σ_{j<m} ID_A(i, j)·y(i) for i < n. Every access
      is in bounds only for a square tile (m == n). */
  method SelectorMultiply(id: array2<int>, y: array<int>, x: array<int>)
    requires id.Length0 == y.Length && id.Length1 == x.Length && y.Length == x.Length && x != y
    modifies x
    ensures x[..] == SelectorPass(Rows(id), y[..], x.Length, y.Length)
  {
    for i := 0 to x.Length
      invariant forall r :: 0 <= r < i ==> x[r] == ScaledRowSum(Rows(id)[r], y[r], y.Length)
    {
      var temp := 0;
      for j := 0 to y.Length
        invariant temp == ScaledRowSum(Rows(id)[i], y[i], j)
      {
        temp := temp + id[i, j] * y[i];
      }
      x[i] := temp;
    }
  }
}
