/** The Kokkos team-policy program: one team per row, a nested reduction
    over the row inside the team, and a y-weighted total over all rows. */
module ThreadTeamDot {
  import opened DenseAlgebra
  import opened SerialDot
  import opened TileKernels

  /** The team-policy parallel_reduce: league rank i reduces row i against x
      over the team's threads, and of the teamSize members of the team only
      team rank 0 adds y(i)·(row sum) to the total. The result is
      Σ_i y(i)·Σ_j A(i, j)·x(j); A, x and y are only read. */
  method TeamReduce(a: array2<int>, x: array<int>, y: array<int>, teamSize: nat) returns (result: int)
    requires a.Length0 == y.Length && a.Length1 == x.Length && teamSize > 0
    ensures result == WeightedRowTotal(y[..], Rows(a), x[..], y.Length, x.Length)
  {
    result := 0;
    for leagueRank := 0 to a.Length0
      invariant result == WeightedRowTotal(y[..], Rows(a), x[..], leagueRank, x.Length)
    {
      var i := leagueRank;
      var thisRowsSum := 0;
      for j := 0 to a.Length1
        invariant thisRowsSum == Dot(Rows(a)[i], x[..], j)
      {
        thisRowsSum := thisRowsSum + a[i, j] * x[j];
      }
      for teamRank := 0 to teamSize
        invariant result == WeightedRowTotal(y[..], Rows(a), x[..], i, x.Length) +
                            (if teamRank > 0 then y[i] * thisRowsSum else 0)
      {
        if teamRank == 0 {
          result := result + y[i] * thisRowsSum;
        }
      }
    }
  }

  /** main: fill y, x and A with ones and run the team reduction; the printed
      result is M·N, the value the output labels "M * N". */
  method RunThreadTeams(m: nat, n: nat, teamSize: nat) returns (result: int)
    requires teamSize > 0
    ensures result == m * n
  {
    var y := new int[m];
    var x := new int[n];
    var a := new int[m, n];
    InitVectorOnes(y);
    InitVectorOnes(x);
    FillOnes(a);
    result := TeamReduce(a, x, y, teamSize);
    WeightedRowTotalOfOnes(y[..], Rows(a), x[..], m, n);
  }
}
