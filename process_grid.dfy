/** Process-grid topology and block partition of the distributed y = A·x
    program: how a world rank becomes (row band, column band) coordinates,
    how big each rank's tile is, and which member of each row or column
    communicator is its rank 0. */
module ProcessGrid {
  import DenseAlgebra

  /** The four positional arguments: global rows M, global columns N, and a
      P x Q grid of processes. */
  datatype Problem = Problem(M: nat, N: nat, P: nat, Q: nat)

  /** The grid is non-empty in both directions (the program divides by P and Q). */
  predicate ValidProblem(pr: Problem)
  {
    pr.P > 0 && pr.Q > 0
  }

  /** Number of cooperating processes: one per grid cell. */
  function WorldSize(pr: Problem): nat
  {
    pr.P * pr.Q
  }

  /** local_row = world_rank / Q. */
  function RowCoord(rank: nat, q: nat): nat
    requires q > 0
  {
    rank / q
  }

  /** local_col = world_rank % Q. */
  function ColCoord(rank: nat, q: nat): nat
    requires q > 0
  {
    rank % q
  }

  /** The rank-to-coordinates map is the row-major numbering of the grid:
      rank = row·Q + col with col < Q and, for ranks of the world, row < P. */
  lemma RankDecomposition(rank: nat, p: nat, q: nat)
    requires p > 0 && q > 0 && rank < p * q
    ensures rank == RowCoord(rank, q) * q + ColCoord(rank, q)
    ensures ColCoord(rank, q) < q && RowCoord(rank, q) < p
  {
    DenseAlgebra.QuotientBelow(rank, p, q);
  }

  /** The world rank at grid coordinates (row, col). */
  function RankAt(row: nat, col: nat, q: nat): nat
  {
    row * q + col
  }

  /** Coordinates and ranks are inverse: RankAt(row, col) has coordinates (row, col). */
  lemma CoordsOfRankAt(row: nat, col: nat, p: nat, q: nat)
    requires row < p && col < q
    ensures RankAt(row, col, q) < p * q
    ensures RowCoord(RankAt(row, col, q), q) == row && ColCoord(RankAt(row, col, q), q) == col
  {
    var r := RankAt(row, col, q);
    DenseAlgebra.RowMajorIndexInRange(row, col, p, q);
    DenseAlgebra.SameQuotient(r / q, r % q, row, col, q);
  }

  /** Size of band `coord` when `total` items are cut into `parts` bands:
      total / parts each, the last band also taking total % parts. */
  function BandSize(total: nat, parts: nat, coord: nat): nat
    requires parts > 0
  {
    if coord < parts - 1 then total / parts else total / parts + total % parts
  }

  /** First global index of band `coord`: the i_increment / j_increment
      stride times the band coordinate. */
  function BandOffset(total: nat, parts: nat, coord: nat): nat
    requires parts > 0
  {
    (total / parts) * coord
  }

  /** Local tile height m of a rank: depends on its row band only. */
  function TileRows(pr: Problem, rank: nat): nat
    requires ValidProblem(pr)
  {
    BandSize(pr.M, pr.P, RowCoord(rank, pr.Q))
  }

  /** Local tile width n of a rank: depends on its column band only. */
  function TileCols(pr: Problem, rank: nat): nat
    requires ValidProblem(pr)
  {
    BandSize(pr.N, pr.Q, ColCoord(rank, pr.Q))
  }

  /** Total size of bands 0 .. k-1. */
  function BandTotal(total: nat, parts: nat, k: nat): nat
    requires parts > 0
  {
    if k == 0 then 0 else BandTotal(total, parts, k - 1) + BandSize(total, parts, k - 1)
  }

  /** The bands before band k end exactly where band k starts. */
  lemma {:induction false} BandsAreContiguous(total: nat, parts: nat, k: nat)
    requires parts > 0 && k < parts
    ensures BandTotal(total, parts, k) == BandOffset(total, parts, k)
  {
    if k > 0 {
      BandsAreContiguous(total, parts, k - 1);
      assert (total / parts) * k == (total / parts) * (k - 1) + total / parts;
    }
  }

  /** The band sizes add up to the whole dimension: Σ_{c<parts} BandSize(c) = total. */
  lemma BandSizesSum(total: nat, parts: nat)
    requires parts > 0
    ensures BandTotal(total, parts, parts) == total
  {
    BandsAreContiguous(total, parts, parts - 1);
    assert (total / parts) * (parts - 1) + (total / parts + total % parts)
        == (total / parts) * parts + total % parts;
  }

  /** Seven rows over three process rows: bands of 2, 2 and 3. */
  lemma SevenRowsOverThreeBands()
    ensures BandSize(7, 3, 0) == 2 && BandSize(7, 3, 1) == 2 && BandSize(7, 3, 2) == 3
    ensures BandTotal(7, 3, 3) == 7
  {
  }

  /** The band that holds global index g: the last band takes everything past
      the regular bands. */
  function BandOf(total: nat, parts: nat, g: nat): (c: nat)
    requires parts > 0
    ensures c < parts
  {
    if total / parts == 0 then parts - 1
    else if g / (total / parts) < parts - 1 then g / (total / parts)
    else parts - 1
  }

  /** The bands partition [0, total): index g < total lies in band c exactly
      when c is BandOf(g). */
  lemma BandsPartition(total: nat, parts: nat, g: nat, c: nat)
    requires parts > 0 && g < total && c < parts
    ensures (BandOffset(total, parts, c) <= g < BandOffset(total, parts, c) + BandSize(total, parts, c))
            <==> c == BandOf(total, parts, g)
  {
    var b := total / parts;
    BandsAreContiguous(total, parts, parts - 1);
    BandSizesSum(total, parts);
    if b > 0 {
      if c < parts - 1 {
        QuotientIs(g, b, c);
        assert BandOffset(total, parts, c) == c * b;
      } else {
        QuotientAtLeast(g, b, parts - 1);
        assert BandOffset(total, parts, c) == (parts - 1) * b;
      }
    }
  }

  /** x / q >= k exactly when k·q <= x. */
  lemma QuotientAtLeast(x: nat, q: nat, k: nat)
    requires q > 0
    ensures x / q >= k <==> k * q <= x
  {
    var d := x / q;
    assert d * q <= x < d * q + q;
    assert d >= k ==> d * q >= k * q;
    assert d < k ==> d * q + q <= k * q by { assert d < k ==> (d + 1) * q <= k * q; }
  }

  /** Number of ranks below n whose color is `c`. */
  function CountColor(color: nat -> nat, c: nat, n: nat): nat
  {
    if n == 0 then 0 else CountColor(color, c, n - 1) + (if color(n - 1) == c then 1 else 0)
  }

  /** The rank a process gets in the communicator MPI_Comm_split builds with
      key = world_rank: the number of processes of the same color with a
      smaller key. */
  function SplitRank(color: nat -> nat, rank: nat): nat
  {
    CountColor(color, color(rank), rank)
  }

  /** The color given to MPI_Comm_split for row_comm: local_row. */
  function RowColor(q: nat): nat -> nat
    requires q > 0
  {
    v => v / q
  }

  /** The color given to MPI_Comm_split for col_comm: local_col. */
  function ColColor(q: nat): nat -> nat
    requires q > 0
  {
    v => v % q
  }

  /** x / q = r exactly when r·q <= x < r·q + q. */
  lemma QuotientIs(x: nat, q: nat, r: nat)
    requires q > 0
    ensures x / q == r <==> r * q <= x < r * q + q
  {
    if r * q <= x < r * q + q {
      DenseAlgebra.SameQuotient(x / q, x % q, r, x - r * q, q);
    }
  }

  /** How the quotient and remainder by q move from n to n + 1. */
  lemma DivModSuccessor(n: nat, q: nat)
    requires q > 0
    ensures n % q < q - 1 ==> (n + 1) / q == n / q && (n + 1) % q == n % q + 1
    ensures n % q == q - 1 ==> (n + 1) / q == n / q + 1 && (n + 1) % q == 0
  {
    if n % q < q - 1 {
      DenseAlgebra.SameQuotient((n + 1) / q, (n + 1) % q, n / q, n % q + 1, q);
    } else {
      DenseAlgebra.SameQuotient((n + 1) / q, (n + 1) % q, n / q + 1, 0, q);
    }
  }

  /** Among the ranks below n, row band r has min(max(n - r·Q, 0), Q) members. */
  lemma {:induction false} CountRowColor(q: nat, r: nat, n: nat)
    requires q > 0
    ensures CountColor(RowColor(q), r, n) ==
            if n <= r * q then 0 else if n <= r * q + q then n - r * q else q
  {
    if n > 0 {
      CountRowColor(q, r, n - 1);
      QuotientIs(n - 1, q, r);
    }
  }

  /** Among the ranks below n, column band c < Q has n / Q members, plus one
      when n % Q > c. */
  lemma {:induction false} CountColColor(q: nat, c: nat, n: nat)
    requires q > 0 && c < q
    ensures CountColor(ColColor(q), c, n) == n / q + (if n % q > c then 1 else 0)
  {
    if n > 0 {
      CountColColor(q, c, n - 1);
      DivModSuccessor(n - 1, q);
    }
  }

  /** A rank's position in row_comm is its column coordinate, so rank 0 of
      row_comm is the local_col == 0 member of the row band. */
  lemma RowCommRankIsColCoord(rank: nat, q: nat)
    requires q > 0
    ensures SplitRank(RowColor(q), rank) == ColCoord(rank, q)
    ensures SplitRank(RowColor(q), rank) == 0 <==> ColCoord(rank, q) == 0
  {
    var r := rank / q;
    assert RowColor(q)(rank) == r;
    CountRowColor(q, r, rank);
    assert rank == r * q + rank % q;
    assert r * q <= rank < r * q + q;
    assert CountColor(RowColor(q), r, rank) == rank - r * q;
  }

  /** A rank's position in col_comm is its row coordinate, so rank 0 of
      col_comm is the local_row == 0 member of the column band. */
  lemma ColCommRankIsRowCoord(rank: nat, q: nat)
    requires q > 0
    ensures SplitRank(ColColor(q), rank) == RowCoord(rank, q)
    ensures SplitRank(ColColor(q), rank) == 0 <==> RowCoord(rank, q) == 0
  {
    CountColColor(q, rank % q, rank);
  }

  /** In a world of P·Q ranks every row communicator has Q members. */
  lemma RowCommunicatorSize(p: nat, q: nat, r: nat)
    requires p > 0 && q > 0 && r < p
    ensures CountColor(RowColor(q), r, p * q) == q
  {
    var n := p * q;
    CountRowColor(q, r, n);
    DenseAlgebra.MulMonotone(r + 1, p, q);
    assert (r + 1) * q == r * q + q;
  }

  /** In a world of P·Q ranks every column communicator has P members. */
  lemma ColCommunicatorSize(p: nat, q: nat, c: nat)
    requires p > 0 && q > 0 && c < q
    ensures CountColor(ColColor(q), c, p * q) == p
  {
    var n := p * q;
    CountColColor(q, c, n);
    var quot, rem := n / q, n % q;
    assert quot * q + rem == p * q + 0;
    DenseAlgebra.SameQuotient(quot, rem, p, 0, q);
    assert CountColor(ColColor(q), c, n) == quot + (if rem > c then 1 else 0);
  }
}
