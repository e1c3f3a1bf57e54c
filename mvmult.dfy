/** The Kokkos matrix-vector program with a self-check: y(j)-weighted row
    dots of an N x M matrix summed into one value and compared with N·M. */
module MvMult {
  import opened DenseAlgebra
  import opened SerialDot
  import opened TileKernels

  /** The yAx parallel_reduce over j < N: temp2 = Σ_{i<M} A(j, i)·x(i), and the
      total gains y(j)·temp2. Only A(j, i) with j < N and i < M is read. */
  method YAx(a: array2<int>, x: array<int>, y: array<int>) returns (result: int)
    requires a.Length0 == y.Length && a.Length1 == x.Length
    ensures result == WeightedRowTotal(y[..], Rows(a), x[..], y.Length, x.Length)
  {
    result := 0;
    for j := 0 to a.Length0
      invariant result == WeightedRowTotal(y[..], Rows(a), x[..], j, x.Length)
    {
      var temp2 := 0;
      for i := 0 to a.Length1
        invariant temp2 == Dot(Rows(a)[j], x[..], i)
      {
        temp2 := temp2 + a[j, i] * x[i];
      }
      result := result + y[j] * temp2;
    }
  }

  /** The check after the reduction: an error is reported exactly when the
      result differs from N·M. */
  predicate ReportsError(result: int, n: nat, m: nat)
  {
    result != n * m
  }

  /** main: y (N), x (M) and A (N x M) filled with ones, the reduction run,
      and the check made. The result is N·M and no error is reported. */
  method RunMvMult(n: nat, m: nat) returns (result: int, error: bool)
    ensures result == n * m
    ensures error == ReportsError(result, n, m) && !error
  {
    var y := new int[n];
    var x := new int[m];
    var a := new int[n, m];
    InitVectorOnes(y);
    InitVectorOnes(x);
    FillOnes(a);
    result := YAx(a, x, y);
    WeightedRowTotalOfOnes(y[..], Rows(a), x[..], n, m);
    error := ReportsError(result, n, m);
  }
}
