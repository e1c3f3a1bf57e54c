/** The three collectives of the distributed y = A·x program, as a sequential
    simulation over the whole world: one buffer per world rank, indexed by the
    rank. Each collective maps the buffers before the call to the buffers after
    it, as MPI defines the call for the communicators MPI_Comm_split builds. */
module Collectives {
  import opened ProcessGrid

  /** Every rank of the world holds one buffer as long as its tile height m
      (the y buffers). */
  predicate HoldsRowBuffers(pr: Problem, bufs: seq<seq<int>>)
  {
    ValidProblem(pr) && |bufs| == WorldSize(pr) &&
    forall w :: 0 <= w < |bufs| ==> |bufs[w]| == TileRows(pr, w)
  }

  /** Every rank of the world holds one buffer as long as its tile width n
      (the x buffers). */
  predicate HoldsColBuffers(pr: Problem, bufs: seq<seq<int>>)
  {
    ValidProblem(pr) && |bufs| == WorldSize(pr) &&
    forall w :: 0 <= w < |bufs| ==> |bufs[w]| == TileCols(pr, w)
  }

  /** The grid cell (r, c) is a rank of the world whose tile is the r-th row
      band by the c-th column band. */
  lemma GridCell(pr: Problem, r: nat, c: nat)
    requires ValidProblem(pr) && r < pr.P && c < pr.Q
    ensures RankAt(r, c, pr.Q) < WorldSize(pr)
    ensures RowCoord(RankAt(r, c, pr.Q), pr.Q) == r && ColCoord(RankAt(r, c, pr.Q), pr.Q) == c
    ensures TileRows(pr, RankAt(r, c, pr.Q)) == BandSize(pr.M, pr.P, r)
    ensures TileCols(pr, RankAt(r, c, pr.Q)) == BandSize(pr.N, pr.Q, c)
  {
    CoordsOfRankAt(r, c, pr.P, pr.Q);
  }

  /** A rank of the world sits in a grid cell. */
  lemma CellOfRank(pr: Problem, w: nat)
    requires ValidProblem(pr) && w < WorldSize(pr)
    ensures RowCoord(w, pr.Q) < pr.P && ColCoord(w, pr.Q) < pr.Q
    ensures w == RankAt(RowCoord(w, pr.Q), ColCoord(w, pr.Q), pr.Q)
  {
    RankDecomposition(w, pr.P, pr.Q);
  }

  /** The root of w's row communicator: the member of its row band in column 0. */
  function RowRoot(pr: Problem, w: nat): nat
    requires ValidProblem(pr)
  {
    RankAt(RowCoord(w, pr.Q), 0, pr.Q)
  }

  /** The root of w's column communicator: the member of its column band in row 0. */
  function ColRoot(pr: Problem, w: nat): nat
    requires ValidProblem(pr)
  {
    RankAt(0, ColCoord(w, pr.Q), pr.Q)
  }

  /** The row root is the member of w's row communicator that MPI_Comm_split
      ranks 0, and it is a rank of the world with w's tile height. */
  lemma RowRootIsCommRankZero(pr: Problem, w: nat)
    requires ValidProblem(pr) && w < WorldSize(pr)
    ensures RowRoot(pr, w) < WorldSize(pr)
    ensures RowColor(pr.Q)(RowRoot(pr, w)) == RowColor(pr.Q)(w)
    ensures SplitRank(RowColor(pr.Q), RowRoot(pr, w)) == 0
    ensures TileRows(pr, RowRoot(pr, w)) == TileRows(pr, w)
  {
    CellOfRank(pr, w);
    GridCell(pr, RowCoord(w, pr.Q), 0);
    RowCommRankIsColCoord(RowRoot(pr, w), pr.Q);
  }

  /** The column root is the member of w's column communicator that
      MPI_Comm_split ranks 0, and it is a rank of the world with w's tile width. */
  lemma ColRootIsCommRankZero(pr: Problem, w: nat)
    requires ValidProblem(pr) && w < WorldSize(pr)
    ensures ColRoot(pr, w) < WorldSize(pr)
    ensures ColColor(pr.Q)(ColRoot(pr, w)) == ColColor(pr.Q)(w)
    ensures SplitRank(ColColor(pr.Q), ColRoot(pr, w)) == 0
    ensures TileCols(pr, ColRoot(pr, w)) == TileCols(pr, w)
    ensures RowCoord(ColRoot(pr, w), pr.Q) == 0
  {
    CellOfRank(pr, w);
    GridCell(pr, 0, ColCoord(w, pr.Q));
    ColCommRankIsRowCoord(ColRoot(pr, w), pr.Q);
  }

  /** Every rank's row root and column root are ranks of the world with the
      same tile height, respectively width, as the rank itself. */
  lemma RootsOfAllRanks(pr: Problem)
    requires ValidProblem(pr)
    ensures forall w :: 0 <= w < WorldSize(pr) ==>
              RowRoot(pr, w) < WorldSize(pr) && TileRows(pr, RowRoot(pr, w)) == TileRows(pr, w)
    ensures forall w :: 0 <= w < WorldSize(pr) ==>
              ColRoot(pr, w) < WorldSize(pr) && TileCols(pr, ColRoot(pr, w)) == TileCols(pr, w)
    ensures forall w :: 0 <= w < WorldSize(pr) ==> RowCoord(w, pr.Q) < pr.P
  {
    forall w | 0 <= w < WorldSize(pr)
      ensures RowRoot(pr, w) < WorldSize(pr) && TileRows(pr, RowRoot(pr, w)) == TileRows(pr, w)
      ensures ColRoot(pr, w) < WorldSize(pr) && TileCols(pr, ColRoot(pr, w)) == TileCols(pr, w)
      ensures RowCoord(w, pr.Q) < pr.P
    {
      RowRootIsCommRankZero(pr, w);
      ColRootIsCommRankZero(pr, w);
      CellOfRank(pr, w);
    }
  }

  /** Entry i summed over the first k members of row band r: Σ_{c<k} bufs[(r, c)][i]. */
  function RowSumAt(pr: Problem, bufs: seq<seq<int>>, r: nat, k: nat, i: nat): int
    requires HoldsRowBuffers(pr, bufs) && r < pr.P && k <= pr.Q && i < BandSize(pr.M, pr.P, r)
  {
    if k == 0 then 0
    else
      GridCell(pr, r, k - 1);
      RowSumAt(pr, bufs, r, k - 1, i) + bufs[RankAt(r, k - 1, pr.Q)][i]
  }

  /** Entry j summed over the first k members of column band c: Σ_{r<k} bufs[(r, c)][j]. */
  function ColSumAt(pr: Problem, bufs: seq<seq<int>>, c: nat, k: nat, j: nat): int
    requires HoldsColBuffers(pr, bufs) && c < pr.Q && k <= pr.P && j < BandSize(pr.N, pr.Q, c)
  {
    if k == 0 then 0
    else
      GridCell(pr, k - 1, c);
      ColSumAt(pr, bufs, c, k - 1, j) + bufs[RankAt(k - 1, c, pr.Q)][j]
  }

  /** MPI_Reduce with MPI_SUM to rank 0 of each row communicator, in place at
      the root: the root's buffer becomes the element-wise sum of the Q
      buffers of its row band; every other buffer is left as it was. */
  function RowReduce(pr: Problem, ys: seq<seq<int>>): (out: seq<seq<int>>)
    requires HoldsRowBuffers(pr, ys)
    ensures HoldsRowBuffers(pr, out)
    ensures forall w :: 0 <= w < |ys| && ColCoord(w, pr.Q) != 0 ==> out[w] == ys[w]
    ensures forall w, i :: 0 <= w < |ys| && ColCoord(w, pr.Q) == 0 && 0 <= i < |out[w]| ==>
              RowCoord(w, pr.Q) < pr.P && out[w][i] == RowSumAt(pr, ys, RowCoord(w, pr.Q), pr.Q, i)
  {
    RootsOfAllRanks(pr);
    seq(|ys|, w requires 0 <= w < |ys| =>
      if ColCoord(w, pr.Q) == 0 then
        seq(TileRows(pr, w), i requires 0 <= i < TileRows(pr, w) =>
          RowSumAt(pr, ys, RowCoord(w, pr.Q), pr.Q, i))
      else ys[w])
  }

  /** MPI_Bcast from rank 0 of each row communicator: every rank receives
      the buffer of its row root. */
  function RowBroadcast(pr: Problem, ys: seq<seq<int>>): (out: seq<seq<int>>)
    requires HoldsRowBuffers(pr, ys)
    ensures HoldsRowBuffers(pr, out)
    ensures forall w :: 0 <= w < |ys| ==> RowRoot(pr, w) < |ys| && out[w] == ys[RowRoot(pr, w)]
  {
    RootsOfAllRanks(pr);
    seq(|ys|, w requires 0 <= w < |ys| => ys[RowRoot(pr, w)])
  }

  /** MPI_Bcast from rank 0 of each column communicator: every rank receives
      the buffer of its column root. */
  function ColBroadcast(pr: Problem, xs: seq<seq<int>>): (out: seq<seq<int>>)
    requires HoldsColBuffers(pr, xs)
    ensures HoldsColBuffers(pr, out)
    ensures forall w :: 0 <= w < |xs| ==> ColRoot(pr, w) < |xs| && out[w] == xs[ColRoot(pr, w)]
  {
    RootsOfAllRanks(pr);
    seq(|xs|, w requires 0 <= w < |xs| => xs[ColRoot(pr, w)])
  }

  /** MPI_Allreduce with MPI_SUM over each column communicator, in place:
      every rank's buffer becomes the element-wise sum of the P buffers of
      its column band. */
  function ColAllReduce(pr: Problem, xs: seq<seq<int>>): (out: seq<seq<int>>)
    requires HoldsColBuffers(pr, xs)
    ensures HoldsColBuffers(pr, out)
    ensures forall w, j :: 0 <= w < |xs| && 0 <= j < |out[w]| ==>
              ColCoord(w, pr.Q) < pr.Q && out[w][j] == ColSumAt(pr, xs, ColCoord(w, pr.Q), pr.P, j)
  {
    seq(|xs|, w requires 0 <= w < |xs| =>
      CellOfRank(pr, w);
      seq(TileCols(pr, w), j requires 0 <= j < TileCols(pr, w) =>
        ColSumAt(pr, xs, ColCoord(w, pr.Q), pr.P, j)))
  }

  /** After the row broadcast every member of a row band holds the same
      buffer, and the root keeps its own. */
  lemma RowBroadcastAgrees(pr: Problem, ys: seq<seq<int>>, w1: nat, w2: nat)
    requires HoldsRowBuffers(pr, ys) && w1 < |ys| && w2 < |ys|
    requires RowCoord(w1, pr.Q) == RowCoord(w2, pr.Q)
    ensures RowBroadcast(pr, ys)[w1] == RowBroadcast(pr, ys)[w2]
    ensures ColCoord(w1, pr.Q) == 0 ==> RowBroadcast(pr, ys)[w1] == ys[w1]
  {
    CellOfRank(pr, w1);
  }

  /** After the column all-reduce every member of a column band holds the
      same buffer. */
  lemma ColAllReduceAgrees(pr: Problem, xs: seq<seq<int>>, w1: nat, w2: nat)
    requires HoldsColBuffers(pr, xs) && w1 < |xs| && w2 < |xs|
    requires ColCoord(w1, pr.Q) == ColCoord(w2, pr.Q)
    ensures ColAllReduce(pr, xs)[w1] == ColAllReduce(pr, xs)[w2]
  {
    var out := ColAllReduce(pr, xs);
    assert |out[w1]| == |out[w2]|;
    forall j | 0 <= j < |out[w1]|
      ensures out[w1][j] == out[w2][j]
    {
    }
  }
}
