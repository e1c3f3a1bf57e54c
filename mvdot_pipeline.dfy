/** The whole distributed y = A·x program over the world of P·Q ranks:
    x is filled on row band 0 and broadcast down each column, every rank
    computes its partial y, the partial y's are summed into the row root and
    broadcast back along the row, and the xIDy selector pass followed by the
    column all-reduce redistributes y into the column layout of x.
    The program fills A and x with ones; the model takes any global A and x,
    and the all-ones run is the instance proved at the end. */
module DistributedMvDot {
  import opened DenseAlgebra
  import opened ProcessGrid
  import opened Collectives
  import opened LocalCompute

  /** A band ends inside the dimension it cuts. */
  lemma BandEnd(total: nat, parts: nat, c: nat)
    requires parts > 0 && c < parts
    ensures BandOffset(total, parts, c) + BandSize(total, parts, c) <= total
  {
    var b := total / parts;
    if c < parts - 1 {
      MulMonotone(c + 1, parts, b);
      assert b * c + b == (c + 1) * b;
    } else {
      assert b * (parts - 1) + b == b * parts;
    }
  }

  /** First global row of rank w's tile. */
  function RowOffsetOf(pr: Problem, w: nat): nat
    requires ValidProblem(pr)
  {
    BandOffset(pr.M, pr.P, RowCoord(w, pr.Q))
  }

  /** First global column of rank w's tile. */
  function ColOffsetOf(pr: Problem, w: nat): nat
    requires ValidProblem(pr)
  {
    BandOffset(pr.N, pr.Q, ColCoord(w, pr.Q))
  }

  /** Every rank's tile lies inside the global M x N matrix. */
  lemma TileInside(pr: Problem, w: nat)
    requires ValidProblem(pr) && w < WorldSize(pr)
    ensures RowOffsetOf(pr, w) + TileRows(pr, w) <= pr.M
    ensures ColOffsetOf(pr, w) + TileCols(pr, w) <= pr.N
  {
    CellOfRank(pr, w);
    BandEnd(pr.M, pr.P, RowCoord(w, pr.Q));
    BandEnd(pr.N, pr.Q, ColCoord(w, pr.Q));
  }

  /** The m x n block of `a` whose top-left entry is (ro, co). */
  function Block(a: seq<seq<int>>, ro: nat, co: nat, m: nat, n: nat): (t: seq<seq<int>>)
    requires ro + m <= |a| && forall i :: ro <= i < ro + m ==> co + n <= |a[i]|
    ensures IsMatrix(t, m, n)
  {
    seq(m, i requires 0 <= i < m => a[ro + i][co..co + n])
  }

  /** Rank w's tile of the global matrix. */
  function TileOf(pr: Problem, a: seq<seq<int>>, w: nat): (t: seq<seq<int>>)
    requires ValidProblem(pr) && IsMatrix(a, pr.M, pr.N) && w < WorldSize(pr)
    ensures IsMatrix(t, TileRows(pr, w), TileCols(pr, w))
  {
    TileInside(pr, w);
    Block(a, RowOffsetOf(pr, w), ColOffsetOf(pr, w), TileRows(pr, w), TileCols(pr, w))
  }

  /** Rank w's segment of the global vector x: the entries of its column band. */
  function SegmentOf(pr: Problem, x: seq<int>, w: nat): (s: seq<int>)
    requires ValidProblem(pr) && |x| == pr.N && w < WorldSize(pr)
    ensures |s| == TileCols(pr, w)
  {
    TileInside(pr, w);
    x[ColOffsetOf(pr, w)..ColOffsetOf(pr, w) + TileCols(pr, w)]
  }

  /** n zeros: a freshly allocated Kokkos view. */
  function Zeros(n: nat): (v: seq<int>)
    ensures |v| == n && AllEqual(v, 0, n)
  {
    seq(n, _ => 0)
  }

  /** n ones. */
  function Ones(n: nat): (v: seq<int>)
    ensures |v| == n && AllEqual(v, 1, n)
  {
    seq(n, _ => 1)
  }

  /** The rows x cols matrix of ones. */
  function OnesMatrix(rows: nat, cols: nat): (a: seq<seq<int>>)
    ensures IsMatrix(a, rows, cols) && MatrixAllEqual(a, 1, rows, cols)
  {
    seq(rows, _ => Ones(cols))
  }

  /** Every segment of the all-ones x is all ones. */
  lemma SegmentOfOnes(pr: Problem, w: nat)
    requires ValidProblem(pr) && w < WorldSize(pr)
    ensures SegmentOf(pr, Ones(pr.N), w) == Ones(TileCols(pr, w))
  {
    TileInside(pr, w);
  }

  /** The x buffers before the column broadcast: ranks of row band 0 hold
      their segment of x, every other rank its zero-initialised view. */
  function InitialX(pr: Problem, x: seq<int>): (xs: seq<seq<int>>)
    requires ValidProblem(pr) && |x| == pr.N
    ensures HoldsColBuffers(pr, xs)
    ensures forall w :: 0 <= w < |xs| && RowCoord(w, pr.Q) == 0 ==> xs[w] == SegmentOf(pr, x, w)
    ensures forall w :: 0 <= w < |xs| && RowCoord(w, pr.Q) != 0 ==> xs[w] == Zeros(TileCols(pr, w))
  {
    seq(WorldSize(pr), w requires 0 <= w < WorldSize(pr) =>
      if RowCoord(w, pr.Q) == 0 then SegmentOf(pr, x, w) else Zeros(TileCols(pr, w)))
  }

  /** After the column broadcast every rank holds its own segment of x. */
  lemma BroadcastXIsSegment(pr: Problem, x: seq<int>)
    requires ValidProblem(pr) && |x| == pr.N
    ensures forall w :: 0 <= w < WorldSize(pr) ==>
              ColBroadcast(pr, InitialX(pr, x))[w] == SegmentOf(pr, x, w)
  {
    forall w | 0 <= w < WorldSize(pr)
      ensures ColBroadcast(pr, InitialX(pr, x))[w] == SegmentOf(pr, x, w)
    {
      ColRootIsCommRankZero(pr, w);
    }
  }

  /** The yAx pass on every rank: y = tile · (rank's x buffer). */
  function PartialY(pr: Problem, a: seq<seq<int>>, xs: seq<seq<int>>): (ys: seq<seq<int>>)
    requires IsMatrix(a, pr.M, pr.N) && HoldsColBuffers(pr, xs)
    ensures HoldsRowBuffers(pr, ys)
    ensures forall w :: 0 <= w < |ys| ==> ys[w] == MatVec(TileOf(pr, a, w), xs[w], TileCols(pr, w))
  {
    seq(WorldSize(pr), w requires 0 <= w < WorldSize(pr) =>
      MatVec(TileOf(pr, a, w), xs[w], TileCols(pr, w)))
  }

  /** The y buffers at the end of the yAx phase: broadcast, partial products,
      row reduce, row broadcast. */
  function RowPhase(pr: Problem, a: seq<seq<int>>, x: seq<int>): (ys: seq<seq<int>>)
    requires ValidProblem(pr) && IsMatrix(a, pr.M, pr.N) && |x| == pr.N
    ensures HoldsRowBuffers(pr, ys)
  {
    RowBroadcast(pr, RowReduce(pr, PartialY(pr, a, ColBroadcast(pr, InitialX(pr, x)))))
  }

  /** Summing the partial y's of the first k members of row band r gives the
      global row dot over the columns of the first k column bands. */
  lemma {:induction false} RowSumIsPrefixDot(pr: Problem, a: seq<seq<int>>, x: seq<int>, xs: seq<seq<int>>,
                                             r: nat, k: nat, i: nat)
    requires ValidProblem(pr) && IsMatrix(a, pr.M, pr.N) && |x| == pr.N && HoldsColBuffers(pr, xs)
    requires forall w :: 0 <= w < WorldSize(pr) ==> xs[w] == SegmentOf(pr, x, w)
    requires r < pr.P && k <= pr.Q && i < BandSize(pr.M, pr.P, r)
    ensures BandOffset(pr.M, pr.P, r) + i < pr.M
    ensures BandTotal(pr.N, pr.Q, k) <= pr.N
    ensures RowSumAt(pr, PartialY(pr, a, xs), r, k, i) ==
            Dot(a[BandOffset(pr.M, pr.P, r) + i], x, BandTotal(pr.N, pr.Q, k))
  {
    BandEnd(pr.M, pr.P, r);
    if k > 0 {
      var c := k - 1;
      var w := RankAt(r, c, pr.Q);
      GridCell(pr, r, c);
      RowSumIsPrefixDot(pr, a, x, xs, r, c, i);
      BandsAreContiguous(pr.N, pr.Q, c);
      BandEnd(pr.N, pr.Q, c);
      var g := BandOffset(pr.M, pr.P, r) + i;
      var co := BandOffset(pr.N, pr.Q, c);
      var n := BandSize(pr.N, pr.Q, c);
      assert TileOf(pr, a, w)[i] == a[g][co..co + n];
      assert xs[w] == x[co..co + n];
      DotSplit(a[g], x, co, n);
    } else {
      assert BandTotal(pr.N, pr.Q, 0) == 0;
    }
  }

  /** Correctness of the yAx phase: entry i of every rank's y is the dot of
      global row (row offset + i) with the whole of x, so every member of a
      row band holds that band's segment of A·x. */
  lemma RowPhaseComputesProduct(pr: Problem, a: seq<seq<int>>, x: seq<int>, w: nat, i: nat)
    requires ValidProblem(pr) && IsMatrix(a, pr.M, pr.N) && |x| == pr.N
    requires w < WorldSize(pr) && i < TileRows(pr, w)
    ensures RowOffsetOf(pr, w) + i < pr.M
    ensures RowPhase(pr, a, x)[w][i] == Dot(a[RowOffsetOf(pr, w) + i], x, pr.N)
  {
    var xs := ColBroadcast(pr, InitialX(pr, x));
    BroadcastXIsSegment(pr, x);
    var ys := PartialY(pr, a, xs);
    var red := RowReduce(pr, ys);
    RowRootIsCommRankZero(pr, w);
    CellOfRank(pr, w);
    var root := RowRoot(pr, w);
    GridCell(pr, RowCoord(w, pr.Q), 0);
    assert RowPhase(pr, a, x)[w] == red[root];
    RowSumIsPrefixDot(pr, a, x, xs, RowCoord(w, pr.Q), pr.Q, i);
    BandSizesSum(pr.N, pr.Q);
  }

  /** The program's own run (A and x all ones): after the broadcast every
      rank's partial y is its tile width n at every entry, and after the row
      reduce and broadcast every entry is N. */
  lemma AllOnesRowPhase(pr: Problem, w: nat, i: nat)
    requires ValidProblem(pr) && w < WorldSize(pr) && i < TileRows(pr, w)
    ensures PartialY(pr, OnesMatrix(pr.M, pr.N), ColBroadcast(pr, InitialX(pr, Ones(pr.N))))[w][i]
            == TileCols(pr, w)
    ensures RowPhase(pr, OnesMatrix(pr.M, pr.N), Ones(pr.N))[w][i] == pr.N
  {
    var a := OnesMatrix(pr.M, pr.N);
    BroadcastXIsSegment(pr, Ones(pr.N));
    TileInside(pr, w);
    DotOfOnes(TileOf(pr, a, w)[i], SegmentOf(pr, Ones(pr.N), w), TileCols(pr, w));
    RowPhaseComputesProduct(pr, a, Ones(pr.N), w, i);
    DotOfOnes(a[RowOffsetOf(pr, w) + i], Ones(pr.N), pr.N);
  }

  /** Every tile is square: the only shape for which every access of the
      xIDy pass is in bounds. */
  predicate SquareTiles(pr: Problem)
    requires ValidProblem(pr)
  {
    forall w :: 0 <= w < WorldSize(pr) ==> TileRows(pr, w) == TileCols(pr, w)
  }

  /** All bands have the same size b on both axes. */
  predicate UniformBands(pr: Problem)
    requires ValidProblem(pr)
  {
    pr.M % pr.P == 0 && pr.N % pr.Q == 0 && pr.M / pr.P == pr.N / pr.Q
  }

  /** With uniform bands every band has size M / P. */
  lemma UniformBandSize(pr: Problem, r: nat, c: nat)
    requires ValidProblem(pr) && UniformBands(pr)
    ensures BandSize(pr.M, pr.P, r) == pr.M / pr.P && BandSize(pr.N, pr.Q, c) == pr.M / pr.P
  {
  }

  /** Square tiles on every rank exactly when the bands are uniform. */
  lemma SquareTilesIffUniform(pr: Problem)
    requires ValidProblem(pr)
    ensures SquareTiles(pr) <==> UniformBands(pr)
  {
    if SquareTiles(pr) {
      GridCell(pr, 0, 0);
      GridCell(pr, pr.P - 1, 0);
      GridCell(pr, 0, pr.Q - 1);
      assert TileRows(pr, RankAt(0, 0, pr.Q)) == TileCols(pr, RankAt(0, 0, pr.Q));
      assert TileRows(pr, RankAt(pr.P - 1, 0, pr.Q)) == TileCols(pr, RankAt(pr.P - 1, 0, pr.Q));
      assert TileRows(pr, RankAt(0, pr.Q - 1, pr.Q)) == TileCols(pr, RankAt(0, pr.Q - 1, pr.Q));
    }
    if UniformBands(pr) {
      forall w | 0 <= w < WorldSize(pr)
        ensures TileRows(pr, w) == TileCols(pr, w)
      {
        UniformBandSize(pr, RowCoord(w, pr.Q), ColCoord(w, pr.Q));
      }
    }
  }

  /** The xIDy pass on every rank, with the rank's selector tile. */
  function SelectorX(pr: Problem, ys: seq<seq<int>>): (xs: seq<seq<int>>)
    requires HoldsRowBuffers(pr, ys) && SquareTiles(pr)
    ensures HoldsColBuffers(pr, xs)
    ensures forall w :: 0 <= w < |xs| ==>
              xs[w] == SelectorPass(SelectorTile(RowOffsetOf(pr, w), ColOffsetOf(pr, w), TileRows(pr, w), TileCols(pr, w)),
                                    ys[w], TileCols(pr, w), TileRows(pr, w))
  {
    seq(WorldSize(pr), w requires 0 <= w < WorldSize(pr) =>
      SelectorPass(SelectorTile(RowOffsetOf(pr, w), ColOffsetOf(pr, w), TileRows(pr, w), TileCols(pr, w)),
                   ys[w], TileCols(pr, w), TileRows(pr, w)))
  }

  /** The x buffers at the end of the program: the yAx phase, the xIDy pass
      and the column all-reduce. */
  function FinalX(pr: Problem, a: seq<seq<int>>, x: seq<int>): (xs: seq<seq<int>>)
    requires ValidProblem(pr) && IsMatrix(a, pr.M, pr.N) && |x| == pr.N && SquareTiles(pr)
    ensures HoldsColBuffers(pr, xs)
  {
    ColAllReduce(pr, SelectorX(pr, RowPhase(pr, a, x)))
  }

  /** With uniform bands of size b, row j of tile (r, c) meets the global
      diagonal inside the tile exactly when r == c. */
  lemma UniformDiagonal(b: nat, r: nat, c: nat, j: nat)
    requires j < b
    ensures b * c <= b * r + j < b * c + b <==> r == c
  {
    QuotientIs(b * r + j, b, r);
    QuotientIs(b * r + j, b, c);
    assert r * b == b * r && c * b == b * c;
  }

  /** Summing the selector passes of the first k members of column band c
      picks the y entry of the diagonal tile (c, c), if it is among them. */
  lemma {:induction false} ColSumPicksDiagonal(pr: Problem, ys: seq<seq<int>>, c: nat, k: nat, j: nat)
    requires ValidProblem(pr) && UniformBands(pr) && SquareTiles(pr) && HoldsRowBuffers(pr, ys)
    requires c < pr.Q && k <= pr.P && j < BandSize(pr.N, pr.Q, c)
    ensures c < k ==> RankAt(c, c, pr.Q) < |ys| && j < |ys[RankAt(c, c, pr.Q)]|
    ensures ColSumAt(pr, SelectorX(pr, ys), c, k, j) ==
            if c < k then ys[RankAt(c, c, pr.Q)][j] else 0
  {
    var b := pr.M / pr.P;
    UniformBandSize(pr, 0, c);
    if k > 0 {
      var r := k - 1;
      ColSumPicksDiagonal(pr, ys, c, r, j);
      var w := RankAt(r, c, pr.Q);
      GridCell(pr, r, c);
      UniformBandSize(pr, r, c);
      assert RowOffsetOf(pr, w) == b * r && ColOffsetOf(pr, w) == b * c;
      SelectorPassPicksDiagonal(b * r, b * c, b, ys[w], j);
      UniformDiagonal(b, r, c, j);
    }
  }

  /** Correctness of the redistribution: with uniform bands of size b, entry j
      of the final x on every rank of column band c is entry b·c + j of A·x
      (the matching global diagonal position) when c < P, and 0 for the column
      bands past the last row band. */
  lemma RedistributionPicksDiagonal(pr: Problem, a: seq<seq<int>>, x: seq<int>, w: nat, j: nat)
    requires ValidProblem(pr) && IsMatrix(a, pr.M, pr.N) && |x| == pr.N && UniformBands(pr)
    requires w < WorldSize(pr) && j < TileCols(pr, w)
    ensures SquareTiles(pr)
    ensures ColCoord(w, pr.Q) < pr.P ==> ColOffsetOf(pr, w) + j < pr.M
    ensures FinalX(pr, a, x)[w][j] ==
            if ColCoord(w, pr.Q) < pr.P then Dot(a[ColOffsetOf(pr, w) + j], x, pr.N) else 0
  {
    SquareTilesIffUniform(pr);
    CellOfRank(pr, w);
    var c := ColCoord(w, pr.Q);
    var ys := RowPhase(pr, a, x);
    var fx := FinalX(pr, a, x);
    assert fx[w][j] == ColSumAt(pr, SelectorX(pr, ys), c, pr.P, j);
    ColSumPicksDiagonal(pr, ys, c, pr.P, j);
    if c < pr.P {
      var d := RankAt(c, c, pr.Q);
      var first := ColOffsetOf(pr, w);
      DiagonalRankGeometry(pr, w);
      DiagonalRankHoldsProduct(pr, a, x, d, first, j);
      assert fx[w][j] == Dot(a[first + j], x, pr.N);
    }
  }

  /** With uniform bands, the diagonal rank (c, c) of w's column band c < P
      has w's tile width as its tile height, and its first global row is
      w's first global column. */
  lemma DiagonalRankGeometry(pr: Problem, w: nat)
    requires ValidProblem(pr) && UniformBands(pr)
    requires w < WorldSize(pr) && ColCoord(w, pr.Q) < pr.P
    ensures RankAt(ColCoord(w, pr.Q), ColCoord(w, pr.Q), pr.Q) < WorldSize(pr)
    ensures TileRows(pr, RankAt(ColCoord(w, pr.Q), ColCoord(w, pr.Q), pr.Q)) == TileCols(pr, w)
    ensures RowOffsetOf(pr, RankAt(ColCoord(w, pr.Q), ColCoord(w, pr.Q), pr.Q)) == ColOffsetOf(pr, w)
  {
    CellOfRank(pr, w);
    var c := ColCoord(w, pr.Q);
    UniformBandSize(pr, c, c);
    GridCell(pr, c, c);
  }

  /** The row phase read at a rank d whose first global row is known as
      `first`: entry j of its y is the dot of global row first + j with x. */
  lemma DiagonalRankHoldsProduct(pr: Problem, a: seq<seq<int>>, x: seq<int>, d: nat, first: nat, j: nat)
    requires ValidProblem(pr) && IsMatrix(a, pr.M, pr.N) && |x| == pr.N
    requires d < WorldSize(pr) && j < TileRows(pr, d) && RowOffsetOf(pr, d) == first
    ensures first + j < pr.M
    ensures RowPhase(pr, a, x)[d][j] == Dot(a[first + j], x, pr.N)
  {
    RowPhaseComputesProduct(pr, a, x, d, j);
    var k := first + j;
    assert RowOffsetOf(pr, d) + j == k;
    var row := a[k];
    assert RowPhase(pr, a, x)[d][j] == Dot(row, x, pr.N);
  }

  /** The program's own run on a square problem (M == N, P == Q, P divides M):
      every entry of the final x on every rank is N. */
  lemma AllOnesRedistribution(pr: Problem, w: nat, j: nat)
    requires ValidProblem(pr) && pr.M == pr.N && pr.P == pr.Q && pr.M % pr.P == 0
    requires w < WorldSize(pr) && j < TileCols(pr, w)
    ensures SquareTiles(pr)
    ensures FinalX(pr, OnesMatrix(pr.M, pr.N), Ones(pr.N))[w][j] == pr.N
  {
    CellOfRank(pr, w);
    RedistributionPicksDiagonal(pr, OnesMatrix(pr.M, pr.N), Ones(pr.N), w, j);
    DotOfOnes(OnesMatrix(pr.M, pr.N)[ColOffsetOf(pr, w) + j], Ones(pr.N), pr.N);
  }

  /** Global diagonal index g < min(M, N) lies inside the tile of exactly one
      rank, the one in row band BandOf(M, P, g) and column band
      BandOf(N, Q, g), and that tile's selector holds its 1 there. */
  lemma DiagonalHitExactlyOnce(pr: Problem, g: nat, r: nat, c: nat)
    requires ValidProblem(pr) && g < pr.M && g < pr.N && r < pr.P && c < pr.Q
    ensures (BandOffset(pr.M, pr.P, r) <= g < BandOffset(pr.M, pr.P, r) + BandSize(pr.M, pr.P, r) &&
             BandOffset(pr.N, pr.Q, c) <= g < BandOffset(pr.N, pr.Q, c) + BandSize(pr.N, pr.Q, c))
            <==> (r == BandOf(pr.M, pr.P, g) && c == BandOf(pr.N, pr.Q, g))
    ensures r == BandOf(pr.M, pr.P, g) && c == BandOf(pr.N, pr.Q, g) ==>
              SelectorTile(BandOffset(pr.M, pr.P, r), BandOffset(pr.N, pr.Q, c),
                           BandSize(pr.M, pr.P, r), BandSize(pr.N, pr.Q, c))
                [g - BandOffset(pr.M, pr.P, r)][g - BandOffset(pr.N, pr.Q, c)] == 1
  {
    BandsPartition(pr.M, pr.P, g, r);
    BandsPartition(pr.N, pr.Q, g, c);
  }

  /** Conversely, every 1 of every selector tile sits on a global diagonal
      index g < min(M, N), in the tile that DiagonalHitExactlyOnce assigns to
      g. Together the two lemmas put the 1-entries of all P·Q tiles in
      one-to-one correspondence with the indices g < min(M, N). */
  lemma SelectorOnesAreDiagonal(pr: Problem, w: nat, i: nat, j: nat)
    requires ValidProblem(pr) && w < WorldSize(pr) && i < TileRows(pr, w) && j < TileCols(pr, w)
    requires SelectorTile(RowOffsetOf(pr, w), ColOffsetOf(pr, w), TileRows(pr, w), TileCols(pr, w))[i][j] == 1
    ensures RowOffsetOf(pr, w) + i == ColOffsetOf(pr, w) + j
    ensures RowOffsetOf(pr, w) + i < pr.M && RowOffsetOf(pr, w) + i < pr.N
    ensures RowCoord(w, pr.Q) == BandOf(pr.M, pr.P, RowOffsetOf(pr, w) + i)
    ensures ColCoord(w, pr.Q) == BandOf(pr.N, pr.Q, ColOffsetOf(pr, w) + j)
  {
    TileInside(pr, w);
    CellOfRank(pr, w);
    BandsPartition(pr.M, pr.P, RowOffsetOf(pr, w) + i, RowCoord(w, pr.Q));
    BandsPartition(pr.N, pr.Q, ColOffsetOf(pr, w) + j, ColCoord(w, pr.Q));
  }
}
