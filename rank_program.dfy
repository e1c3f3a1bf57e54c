/** What one rank runs between the collectives of the distributed y = A·x
    program: allocate its views, fill them on the host and run the two
    kernels. Each method's result is the rank's entry of the world-level
    stage it belongs to, so the pipeline theorems cover the kernels. */
module RankProgram {
  import opened DenseAlgebra
  import opened ProcessGrid
  import opened LocalCompute
  import opened TileKernels
  import opened DistributedMvDot

  /** Allocate x (zero-initialised) and fill it on row band 0: the x buffer
      rank w hands to the column broadcast. */
  method RankFillX(pr: Problem, w: nat) returns (xBuf: seq<int>)
    requires ValidProblem(pr) && w < WorldSize(pr)
    ensures xBuf == InitialX(pr, Ones(pr.N))[w]
  {
    var n := TileCols(pr, w);
    var x := new int[n](_ => 0);
    FillXOnFirstBand(x, RowCoord(w, pr.Q));
    xBuf := x[..];
    ghost var xs := InitialX(pr, Ones(pr.N));
    if RowCoord(w, pr.Q) == 0 {
      SegmentOfOnes(pr, w);
      assert xs[w] == Ones(n);
      assert xBuf == Ones(n);
    } else {
      assert xs[w] == Zeros(n);
      assert xBuf == Zeros(n);
    }
  }

  /** Allocate A and y, fill A with ones, copy in the received x and run the
      yAx kernel: rank w's partial y. */
  method RankYAx(pr: Problem, w: nat, xRecv: seq<int>) returns (yBuf: seq<int>)
    requires ValidProblem(pr) && w < WorldSize(pr) && |xRecv| == TileCols(pr, w)
    ensures yBuf == MatVec(TileOf(pr, OnesMatrix(pr.M, pr.N), w), xRecv, TileCols(pr, w))
  {
    var m := TileRows(pr, w);
    var n := TileCols(pr, w);
    var a := new int[m, n];
    FillOnes(a);
    var x := new int[n](k requires 0 <= k < n => xRecv[k]);
    assert x[..] == xRecv;
    var y := new int[m];
    RowDot(a, x, y);
    ghost var tile := TileOf(pr, OnesMatrix(pr.M, pr.N), w);
    TileInside(pr, w);
    assert MatrixAllEqual(tile, 1, m, n);
    ConstantMatricesEqual(Rows(a), tile, 1, m, n);
    yBuf := y[..];
  }

  /** Allocate ID_A, fill it from the global indices, copy in the received y
      and run the xIDy kernel: rank w's x before the column all-reduce.
      Requires the rank's tile to be square, as every access of the kernel
      needs. */
  method RankXIdy(pr: Problem, w: nat, yRecv: seq<int>) returns (xBuf: seq<int>)
    requires ValidProblem(pr) && w < WorldSize(pr)
    requires TileRows(pr, w) == TileCols(pr, w) && |yRecv| == TileRows(pr, w)
    ensures xBuf == SelectorPass(SelectorTile(RowOffsetOf(pr, w), ColOffsetOf(pr, w), TileRows(pr, w), TileCols(pr, w)),
                                 yRecv, TileCols(pr, w), TileRows(pr, w))
  {
    var m := TileRows(pr, w);
    var n := TileCols(pr, w);
    var id := new int[m, n];
    FillSelector(id, RowOffsetOf(pr, w), ColOffsetOf(pr, w));
    var y := new int[m](k requires 0 <= k < m => yRecv[k]);
    assert y[..] == yRecv;
    var x := new int[n];
    SelectorMultiply(id, y, x);
    xBuf := x[..];
  }
}
