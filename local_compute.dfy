/** The per-rank arithmetic of the distributed y = A·x program, as values:
    the 0/1 selector tile and the xIDy selector pass. */
module LocalCompute {
  import opened DenseAlgebra

  /** The selector tile ID_A of a rank whose tile starts at global row
      rowOffset and global column colOffset: entry (i, j) is 1 when the global
      row rowOffset + i equals the global column colOffset + j, else 0. */
  function SelectorTile(rowOffset: nat, colOffset: nat, m: nat, n: nat): (id: seq<seq<int>>)
    ensures IsMatrix(id, m, n)
  {
    seq(m, i requires 0 <= i < m =>
      seq(n, j requires 0 <= j < n => if rowOffset + i == colOffset + j then 1 else 0))
  }

  /** The xIDy accumulation for one i: Σ_{j<m} row[j]·yi. */
  function ScaledRowSum(row: seq<int>, yi: int, m: nat): int
    requires m <= |row|
  {
    if m == 0 then 0 else ScaledRowSum(row, yi, m - 1) + row[m - 1] * yi
  }

  /** The xIDy pass: for every i < n, x(i) = Σ_{j<m} ID(i, j)·y(i). The row
      index i of the tile is also the index into y, so the tile must be read
      with i < n as a row and j < m as a column. */
  function SelectorPass(id: seq<seq<int>>, y: seq<int>, n: nat, m: nat): (x: seq<int>)
    requires n <= |id| && n <= |y|
    requires forall i :: 0 <= i < n ==> m <= |id[i]|
    ensures |x| == n
  {
    seq(n, i requires 0 <= i < n => ScaledRowSum(id[i], y[i], m))
  }

  /** Every selector entry is 0 or 1, and it is 1 exactly on the global diagonal. */
  lemma SelectorIsZeroOne(rowOffset: nat, colOffset: nat, m: nat, n: nat, i: nat, j: nat)
    requires i < m && j < n
    ensures SelectorTile(rowOffset, colOffset, m, n)[i][j] in {0, 1}
    ensures SelectorTile(rowOffset, colOffset, m, n)[i][j] == 1 <==> rowOffset + i == colOffset + j
  {
  }

  /** The xIDy sum factors: Σ_{j<m} row[j]·yi = yi · Σ_{j<m} row[j]. */
  lemma {:induction false} ScaledRowSumFactors(row: seq<int>, yi: int, m: nat)
    requires m <= |row|
    ensures ScaledRowSum(row, yi, m) == yi * Sum(row, m)
  {
    if m > 0 {
      ScaledRowSumFactors(row, yi, m - 1);
    }
  }

  /** The first k entries of selector row i hold a single 1 when the global
      row rowOffset + i falls among the global columns colOffset .. colOffset + k - 1,
      and none otherwise. */
  lemma {:induction false} SelectorRowHits(rowOffset: nat, colOffset: nat, m: nat, n: nat, i: nat, k: nat)
    requires i < m && k <= n
    ensures Sum(SelectorTile(rowOffset, colOffset, m, n)[i], k) ==
            if colOffset <= rowOffset + i < colOffset + k then 1 else 0
  {
    if k > 0 {
      SelectorRowHits(rowOffset, colOffset, m, n, i, k - 1);
    }
  }

  /** The xIDy pass on a selector tile: x(i) is y(i) when row i of the tile
      meets the global diagonal inside the first m columns, and 0 otherwise. */
  lemma SelectorPassPicksDiagonal(rowOffset: nat, colOffset: nat, m: nat, y: seq<int>, i: nat)
    requires m <= |y| && i < m
    ensures SelectorPass(SelectorTile(rowOffset, colOffset, m, m), y, m, m)[i] ==
            if colOffset <= rowOffset + i < colOffset + m then y[i] else 0
  {
    var id := SelectorTile(rowOffset, colOffset, m, m);
    ScaledRowSumFactors(id[i], y[i], m);
    SelectorRowHits(rowOffset, colOffset, m, m, i, m);
  }
}
