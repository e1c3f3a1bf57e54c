# Portable CPU/GPU example programs, modelled in Dafny

This project models the logic of a set of small C++ programs. Each program
runs the same computation on the host and on an accelerator, through
Kokkos, MPI, OpenMP or HIP. All the logic is integer index arithmetic or
element-wise arithmetic, so every matrix, vector and grid value is an `int`.

**The distributed y = A·x program** (`MatrixVectorDot/kokkos_mpi_cuda_mvdot.cpp`):
P·Q MPI ranks each own one block (tile) of a global M x N matrix.

- `ProcessGrid` maps a world rank to its (row band, column band) coordinates.
  It gives the tile sizes, in which the last band absorbs the remainder, and
  each band's first global index. It also models the ranks that
  `MPI_Comm_split` assigns with key = world rank, so the roots of the row and
  column communicators are known.
- `Collectives` models the three collectives the program uses (reduce to the
  row root, broadcast along a row, column all-reduce) plus the column
  broadcast of x. Each is a pure function over one buffer per world rank.
- `LocalCompute` and `TileKernels` model the per-rank host fills and the two
  kernels. They are values in `LocalCompute` and loops over `array2`
  buffers in `TileKernels`.
- `RankProgram` puts together what one rank runs between collectives.
- `DistributedMvDot` proves the pipeline correct. After the row phase, every
  rank holds its row band's segment of A·x. When the bands are uniform, the
  xIDy pass plus the column all-reduce moves y onto the global diagonal.
  It also instantiates the program's own all-ones run.

**The single-process kernels:**

- Dense row-dot variants (`SerialDot`, `KokkosMvDot`, `ThreadTeamDot`,
  `MvMult`) over row-major, column-major and two-dimensional storage. They
  share the sums in `DenseAlgebra`.
- Conway's Game of Life on a zero-padded (dim+2)² grid. `LifeRules` holds the
  rule, one generation, the live count and the seed. `SerialLife`,
  `KokkosLife` and `SingleGenLife` model the three programs' loops, swaps
  and counts.
- The top-down merge sort (`TopDownSort`). It covers both copies of the
  code. The merge's 50-slot scratch view is too small for any range ending at
  index 50 or beyond (see Findings); neither program's main calls the sort,
  so the defect is latent. The sort here gives each merge high + 1 slots. The merge is specified once in `MergeSpec`.
- The bottom-up merge kernels (`BottomUpMerge`), with the thread index taken
  as a parameter.
- The leapfrog seeding of the Lehmer generator in the OpenMP Monte-Carlo
  program (`LeapfrogLcg`).
- The launch geometry, kernel and check of the HIP vector add (`VectorAdd`).

Where a Kokkos `parallel_for` or `parallel_reduce` runs an index range, the
model runs the same body in a sequential loop over that range. Every such
body reads only buffers it does not write, so the visiting order does not
matter.

Where the behaviour description and the code differ, the model follows the
code:

- Ranks outside row band 0 leave x unfilled. The code's Kokkos view is
  zero-initialised, so their x is all zeros (`InitialX`), not undefined.
- The xIDy pass reads ID_A(i, j) for i < n and j < m, and y(i) for i < n.
  ID_A is m x n and y has length m. On a tile with m > 0 and n > 0 every
  access is in bounds exactly when m == n; a tile with m == 0 or n == 0
  makes no access at all. The model requires square tiles on every rank
  (`RankXIdy`, `SelectorX`), and `SquareTilesIffUniform` proves this holds
  exactly when the bands are uniform. Grids in which some tiles are empty
  and not square (M = N = 1 with P = Q = 2, say) are left out.
- The serial `performDotProduct` returns the last row's y times its row dot,
  which is the last row dot squared. It does not return M·N.
  `ReportedProductIsMTimesN` shows the two agree exactly when M == N, which
  holds in the program (M = N = 1000).

## Model

| member | source | states |
|---|---|---|
| `ProcessGrid.RowCoord` | MatrixVectorDot/kokkos_mpi_cuda_mvdot.cpp:30 | local_row = world_rank / Q; definition, whose properties `RankDecomposition` and `CoordsOfRankAt` state |
| `ProcessGrid.ColCoord` | MatrixVectorDot/kokkos_mpi_cuda_mvdot.cpp:31 | local_col = world_rank % Q; definition, whose properties `RankDecomposition` and `CoordsOfRankAt` state |
| `ProcessGrid.BandSize` | MatrixVectorDot/kokkos_mpi_cuda_mvdot.cpp:41-53 | a band is total/parts wide, and the last band adds total % parts; definition, summed by `BandSizesSum` |
| `ProcessGrid.BandOffset` | MatrixVectorDot/kokkos_mpi_cuda_mvdot.cpp:108-114 | band coord starts at (total/parts)·coord; definition, related to the sizes by `BandsAreContiguous` and `BandsPartition` |
| `ProcessGrid.SplitRank` | MatrixVectorDot/kokkos_mpi_cuda_mvdot.cpp:38-39 | MPI_Comm_split with key = world rank ranks a member by the number of lower world ranks of its color; definition, evaluated by `RowCommRankIsColCoord` and `ColCommRankIsRowCoord` |
| `ProcessGrid.RankDecomposition` | MatrixVectorDot/kokkos_mpi_cuda_mvdot.cpp:30-31 | world_rank == local_row·Q + local_col, with local_col < Q and local_row < P for every rank of the world |
| `ProcessGrid.CoordsOfRankAt` | MatrixVectorDot/kokkos_mpi_cuda_mvdot.cpp:30-31 | the rank at grid cell (row, col) is in the world and has coordinates (row, col); the coordinate map is a bijection |
| `ProcessGrid.BandsAreContiguous` | MatrixVectorDot/kokkos_mpi_cuda_mvdot.cpp:108-114 | the sizes of bands 0 .. k-1 add up to band k's first global index (M/P)·k |
| `ProcessGrid.BandSizesSum` | MatrixVectorDot/kokkos_mpi_cuda_mvdot.cpp:26-53 | the tile heights of all P row bands sum to M (and the tile widths to N): the last band absorbs M % P |
| `ProcessGrid.SevenRowsOverThreeBands` | MatrixVectorDot/kokkos_mpi_cuda_mvdot.cpp:41-47 | M = 7, P = 3 gives band heights 2, 2, 3, which sum to 7 |
| `ProcessGrid.BandsPartition` | MatrixVectorDot/kokkos_mpi_cuda_mvdot.cpp:108-114 | every global index g < total lies in exactly one band, namely BandOf(g) (both directions) |
| `ProcessGrid.RowCommRankIsColCoord` | MatrixVectorDot/kokkos_mpi_cuda_mvdot.cpp:38 | with key = world_rank, a rank's position in row_comm is its local_col, so row_comm rank 0 is the local_col 0 member |
| `ProcessGrid.ColCommRankIsRowCoord` | MatrixVectorDot/kokkos_mpi_cuda_mvdot.cpp:39 | a rank's position in col_comm is its local_row, so col_comm rank 0 is the local_row 0 member |
| `ProcessGrid.RowCommunicatorSize` | MatrixVectorDot/kokkos_mpi_cuda_mvdot.cpp:38 | every row communicator of a P·Q world has Q members |
| `ProcessGrid.ColCommunicatorSize` | MatrixVectorDot/kokkos_mpi_cuda_mvdot.cpp:39 | every column communicator of a P·Q world has P members |
| `Collectives.GridCell` | MatrixVectorDot/kokkos_mpi_cuda_mvdot.cpp:41-53 | the tile of cell (r, c) is BandSize(M, P, r) high and BandSize(N, Q, c) wide: m depends on the row band only and n on the column band only |
| `Collectives.RowRootIsCommRankZero` | MatrixVectorDot/kokkos_mpi_cuda_mvdot.cpp:145-150 | the local_col 0 member (the in-place branch) is rank 0 of row_comm, shares the caller's color and has the same m, so the reduce combines equal-length buffers |
| `Collectives.ColRootIsCommRankZero` | MatrixVectorDot/kokkos_mpi_cuda_mvdot.cpp:121 | the root of the x broadcast is rank 0 of col_comm, lies in row band 0 (the only band that filled x) and has the same n |
| `Collectives.RowReduce` | MatrixVectorDot/kokkos_mpi_cuda_mvdot.cpp:145-150 | after the in-place MPI_Reduce, each local_col 0 buffer is the element-wise sum of the Q partial y's of its row band, and every other buffer is unchanged |
| `Collectives.RowBroadcast` | MatrixVectorDot/kokkos_mpi_cuda_mvdot.cpp:153 | every rank receives the y buffer of its row root |
| `Collectives.ColBroadcast` | MatrixVectorDot/kokkos_mpi_cuda_mvdot.cpp:121 | every rank receives the x buffer of its column root |
| `Collectives.ColAllReduce` | MatrixVectorDot/kokkos_mpi_cuda_mvdot.cpp:174 | every rank's x becomes the element-wise sum of the P buffers of its column band |
| `Collectives.RowBroadcastAgrees` | MatrixVectorDot/kokkos_mpi_cuda_mvdot.cpp:153 | after the row broadcast, any two members of a row band hold identical y, and the root keeps its own |
| `Collectives.ColAllReduceAgrees` | MatrixVectorDot/kokkos_mpi_cuda_mvdot.cpp:174 | after the all-reduce, any two members of a column band hold identical x |
| `LocalCompute.SelectorTile` | MatrixVectorDot/kokkos_mpi_cuda_mvdot.cpp:111-120 | the host-filled ID_A is an m x n matrix; its entries are described by `SelectorIsZeroOne` |
| `LocalCompute.SelectorPass` | MatrixVectorDot/kokkos_mpi_cuda_mvdot.cpp:163-170 | the xIDy pass gives one x entry per i < n; its values are described by `SelectorPassPicksDiagonal` |
| `LocalCompute.SelectorIsZeroOne` | MatrixVectorDot/kokkos_mpi_cuda_mvdot.cpp:111-120 | every selector entry is 0 or 1, and it is 1 iff global row (M/P)·local_row + i equals global column (N/Q)·local_col + j |
| `LocalCompute.ScaledRowSumFactors` | MatrixVectorDot/kokkos_mpi_cuda_mvdot.cpp:165-169 | the xIDy accumulation Σ_{j<m} ID_A(i,j)·y(i) equals y(i)·Σ_{j<m} ID_A(i,j) |
| `LocalCompute.SelectorRowHits` | MatrixVectorDot/kokkos_mpi_cuda_mvdot.cpp:111-120 | a selector row holds a single 1 among its first k columns when its global row falls in those columns, and none otherwise |
| `LocalCompute.SelectorPassPicksDiagonal` | MatrixVectorDot/kokkos_mpi_cuda_mvdot.cpp:164-171 | on a square selector tile, x(i) = y(i) if row i meets the global diagonal inside the tile, else 0 |
| `TileKernels.FillOnes` | MatrixVectorDot/kokkos_mpi_cuda_mvdot.cpp:94-98 | every entry of h_A becomes 1 |
| `TileKernels.FillXOnFirstBand` | MatrixVectorDot/kokkos_mpi_cuda_mvdot.cpp:100-105 | ranks with local_row 0 set every x entry to 1; all other ranks leave x unchanged |
| `TileKernels.FillSelector` | MatrixVectorDot/kokkos_mpi_cuda_mvdot.cpp:107-120 | h_ID_A becomes exactly the selector tile of the rank's offsets |
| `TileKernels.RowDot` | MatrixVectorDot/kokkos_mpi_cuda_mvdot.cpp:133-140 | the yAx kernel sets y(i) = Σ_{j<n} A(i,j)·x(j) for every i < m |
| `TileKernels.SelectorMultiply` | MatrixVectorDot/kokkos_mpi_cuda_mvdot.cpp:164-171 | the xIDy kernel sets x(i) = Σ_{j<m} ID_A(i,j)·y(i) for every i < n, on a square tile |
| `RankProgram.RankFillX` | MatrixVectorDot/kokkos_mpi_cuda_mvdot.cpp:100-105 | the x buffer a rank hands to the column broadcast is its segment of the all-ones x on row band 0, and zeros elsewhere |
| `RankProgram.RankYAx` | MatrixVectorDot/kokkos_mpi_cuda_mvdot.cpp:94-140 | a rank's partial y is its tile of the all-ones A times the x it received |
| `RankProgram.RankXIdy` | MatrixVectorDot/kokkos_mpi_cuda_mvdot.cpp:107-171 | a rank's pre-all-reduce x is the xIDy pass of its selector tile over the y it received; requires m == n, the only shape of a non-empty tile on which every access is in bounds |
| `DistributedMvDot.TileInside` | MatrixVectorDot/kokkos_mpi_cuda_mvdot.cpp:108-114 | every rank's tile, placed at its global offsets, lies inside the M x N matrix |
| `DistributedMvDot.InitialX` | MatrixVectorDot/kokkos_mpi_cuda_mvdot.cpp:100-105 | before the broadcast, ranks in row band 0 hold their segment of x and every other rank holds zeros |
| `DistributedMvDot.BroadcastXIsSegment` | MatrixVectorDot/kokkos_mpi_cuda_mvdot.cpp:121 | after the column broadcast every rank holds its own column band's segment of x |
| `DistributedMvDot.PartialY` | MatrixVectorDot/kokkos_mpi_cuda_mvdot.cpp:133-140 | each rank's partial y is its tile times its x buffer, as long as its tile height |
| `DistributedMvDot.RowSumIsPrefixDot` | MatrixVectorDot/kokkos_mpi_cuda_mvdot.cpp:145-150 | summing the partial y's of the first k members of a row band gives the global row dot over the first k column bands |
| `DistributedMvDot.RowPhase` | MatrixVectorDot/kokkos_mpi_cuda_mvdot.cpp:121-153 | x broadcast, yAx, reduce and row broadcast in that order give every rank a buffer as long as its tile height; its values are stated by `RowPhaseComputesProduct` |
| `DistributedMvDot.RowPhaseComputesProduct` | MatrixVectorDot/kokkos_mpi_cuda_mvdot.cpp:121-153 | after broadcast, yAx, reduce and broadcast, entry i of every rank's y is (A·x) at global row offset + i, for any A and x |
| `DistributedMvDot.AllOnesRowPhase` | MatrixVectorDot/kokkos_mpi_cuda_mvdot.cpp:94-153 | with A and x all ones, each local y(i) is n before the reduce and N after the broadcast |
| `DistributedMvDot.SquareTilesIffUniform` | MatrixVectorDot/kokkos_mpi_cuda_mvdot.cpp:164-171 | every tile is square (m == n, which keeps the xIDy pass in bounds on a non-empty tile) iff P divides M, Q divides N and M/P == N/Q |
| `DistributedMvDot.SelectorX` | MatrixVectorDot/kokkos_mpi_cuda_mvdot.cpp:159-171 | each rank's x is the xIDy pass of its own selector tile over its y, as long as its tile width |
| `DistributedMvDot.FinalX` | MatrixVectorDot/kokkos_mpi_cuda_mvdot.cpp:159-174 | the xIDy pass followed by the column all-reduce gives every rank a buffer as long as its tile width; its values are stated by `RedistributionPicksDiagonal` |
| `DistributedMvDot.ColSumPicksDiagonal` | MatrixVectorDot/kokkos_mpi_cuda_mvdot.cpp:174 | with uniform bands, summing the selector passes down column band c picks the y of diagonal tile (c, c), or 0 if c ≥ P |
| `DistributedMvDot.DiagonalRankGeometry` | MatrixVectorDot/kokkos_mpi_cuda_mvdot.cpp:41-53 | with uniform bands, the diagonal rank (c, c) of any rank w's column band c exists, its tile height equals w's tile width, and its first global row equals w's first global column |
| `DistributedMvDot.DiagonalRankHoldsProduct` | MatrixVectorDot/kokkos_mpi_cuda_mvdot.cpp:145-153 | entry j of the row phase at a rank whose first global row is `first` is the dot of global row first + j with x, and that row exists |
| `DistributedMvDot.RedistributionPicksDiagonal` | MatrixVectorDot/kokkos_mpi_cuda_mvdot.cpp:159-174 | with uniform bands, the final x(j) on every rank of column band c is (A·x) at global index b·c + j (the matching diagonal position), and 0 for column bands with no diagonal tile |
| `DistributedMvDot.AllOnesRedistribution` | MatrixVectorDot/kokkos_mpi_cuda_mvdot.cpp:159-174 | on the program's square all-ones run (M = N, P = Q, P divides M), every final x entry on every rank is N |
| `DistributedMvDot.DiagonalHitExactlyOnce` | MatrixVectorDot/kokkos_mpi_cuda_mvdot.cpp:107-120 | each global diagonal index g < min(M, N) lies in exactly one tile, and that tile's selector has its 1 there |
| `DistributedMvDot.SelectorOnesAreDiagonal` | MatrixVectorDot/kokkos_mpi_cuda_mvdot.cpp:111-120 | conversely, every 1 of every selector tile is at a diagonal index g < min(M, N), in the tile assigned to g; so the 1-entries number min(M, N) |
| `DenseAlgebra.RowMajorIndexInRange` | Program1/serial.cpp:139 | i·cols + j < rows·cols for every i < rows, j < cols: every row-major access is inside the M·N allocation |
| `DenseAlgebra.ColMajorIndexInRange` | Program1/kokkos_mvdot.cpp:108 | i + rows·j < rows·cols: every column-major access is inside the allocation |
| `DenseAlgebra.RowMajorBijective` | Program1/kokkos_mvdot.cpp:99 | i·N + j is a bijection from [0,M)×[0,N) onto [0,M·N) |
| `DenseAlgebra.ColMajorBijective` | Program1/kokkos_mvdot.cpp:108 | i + M·j is a bijection from [0,M)×[0,N) onto [0,M·N) |
| `SerialDot.InitVectorOnes` | Program1/serial.cpp:46 | every x[i] becomes 1 |
| `SerialDot.InitRowMajorOnes` | Program1/serial.cpp:49-53 | the nested loop writing A[i·N + j] sets every entry of the M·N buffer to 1 |
| `SerialDot.PerformDotProduct` | Program1/serial.cpp:131-145 | y[i] = Σ_{j<cols} A[i·cols+j]·x[j] for every i < rows, y beyond rows unchanged; the return value is the last row's dot squared, 0 when rows == 0 |
| `SerialDot.PrintDotProduct` | Program1/serial.cpp:112-128 | leaves y exactly as performDotProduct does; the printed row dots are y[0..rows) |
| `SerialDot.RunSerial` | Program1/serial.cpp:41-80 | with all-ones inputs every y entry is N and the reported integer is N·N |
| `SerialDot.RunProgram` | Program1/serial.cpp:36-80 | the program's run with M = N = 1000: every y entry is N and the reported integer is M·N |
| `SerialDot.ReportedProductIsMTimesN` | Program1/serial.cpp:79 | the reported N·N equals the printed "M * N" exactly when M == N |
| `KokkosMvDot.InitColMajorOnes` | Program1/kokkos_mvdot.cpp:104-110 | the loop writing C(i + M·j) sets every entry of the M·N buffer to 1 |
| `KokkosMvDot.Fill2DMatrix` | Program1/kokkos_mvdot.cpp:220-229 | every entry (i, j), i < M, j < N, becomes 1 and nothing else in the view changes |
| `KokkosMvDot.PerformDotProduct` | Program1/kokkos_mvdot.cpp:233-248 | y(i) = Σ_{j<cols} data(i·cols+j)·x(j) for every i < rows; the reduction result is local and discarded, so y is the only effect |
| `KokkosMvDot.PerformOptimizedKernelDot` | Program1/kokkos_mvdot.cpp:251-267 | y(i) = Σ_{j<cols} data(j·rows+i)·x(j) for every i < rows, y being the only effect |
| `KokkosMvDot.LayoutsGiveSameProduct` | Program1/kokkos_mvdot.cpp:95-110 | a row-major and a column-major buffer that store the same matrix give both kernels the same y |
| `KokkosMvDot.OnesLayoutsAgree` | Program1/kokkos_mvdot.cpp:95-110 | the all-ones B and the all-ones C of main store the same matrix |
| `KokkosMvDot.RunBothLayouts` | Program1/kokkos_mvdot.cpp:142-177 | both kernels leave N in every y entry, and both printed results are h_y.extent(0)·N = M·N, computed from the length of y |
| `ThreadTeamDot.TeamReduce` | Program1/kokkos-threadteams.cpp:63-76 | result = Σ_{i<M} y(i)·Σ_{j<N} A(i,j)·x(j): each league rank's inner reduction is its row dot, and only team rank 0 adds it, so each row counts once; A, x and y are only read |
| `ThreadTeamDot.RunThreadTeams` | Program1/kokkos-threadteams.cpp:40-81 | with all-ones y, x and A the result is M·N, the value printed as "M * N" |
| `MvMult.YAx` | matrix-vector_matrix-matrix/mvmult.cpp:62-70 | result = Σ_{j<N} y(j)·Σ_{i<M} A(j,i)·x(i), reading A(j, i) only for j < N and i < M |
| `MvMult.RunMvMult` | matrix-vector_matrix-matrix/mvmult.cpp:36-78 | with all-ones inputs the result is N·M and the "result != solution" error is not reported |
| `LifeRules.NeighborSum` | Program2/serial_gol.cpp:193-199 | addNeighbors: the sum of the eight neighbours of an interior cell; definition, bounded by `NeighborSumRange` |
| `LifeRules.NextCell` | Program2/serial_gol.cpp:74-86 | the rule chain yields 0, 1 or the cell's own value (the final else); `NextCellIsB3S23` states which |
| `LifeRules.Evolve` | Program2/serial_gol.cpp:68-87 | one generation: every interior cell becomes the rule applied to its value and neighbour sum, and the padding ring is 0 |
| `LifeRules.Iterate` | Program2/serial_gol.cpp:67-99 | n generations in a row give a board of the same shape; `IterateKeepsValid` keeps it valid |
| `LifeRules.AliveCount` | Program2/serial_gol.cpp:108-113 | still_alive: the sum over board cells 1..dim × 1..dim; bounded by `AliveCountBounds` |
| `LifeRules.NeighborSumRange` | Program2/serial_gol.cpp:193-199 | on a 0/1 grid the eight-neighbour sum lies in [0, 8] |
| `LifeRules.NextCellIsB3S23` | Program2/serial_gol.cpp:74-86 | for 0/1 cells the rule chain gives 1 iff (alive and 2 or 3 neighbours) or (dead and exactly 3), else 0 |
| `LifeRules.FinalElseCopiesDeadCell` | Program2/serial_gol.cpp:85-86 | for 0/1 cells, the final else is reached only by a dead cell, and it copies 0 |
| `LifeRules.EvolveKeepsValid` | Program2/serial_gol.cpp:68-87 | one generation keeps every cell 0/1 and the padding ring dead |
| `LifeRules.IterateKeepsValid` | Program2/serial_gol.cpp:67-99 | any number of generations keeps the board valid |
| `LifeRules.AliveCountBounds` | Program2/serial_gol.cpp:108-113 | on a 0/1 board the live count lies in [0, dim²] |
| `LifeRules.SeededBoard` | Program2/kokkos_gol.cpp:56-62 | seeding a zero-initialised grid up to row/column last gives a valid board; cells past last (row and column dim when last = dim-1) and the padding stay 0 |
| `LifeRules.SeedingOverwritesBoard` | Program2/serial_gol.cpp:53-57 | seeding every board cell of a grid with a dead border gives the same board as seeding a zero-initialised grid: the old board cells do not matter |
| `SerialLife.SeedGrid` | Program2/serial_gol.cpp:53-57 | board cells 1..last × 1..last receive the random bits and every other cell keeps its value |
| `LifeRules.CellUpdate` | Program2/serial_gol.cpp:71-86 | the array neighbour sum followed by the rule chain returns the evolved board's cell (i, j); the grid is not written |
| `SerialLife.UpdateRow` | Program2/serial_gol.cpp:67-86 | the inner loop writes board row i, columns 1..dim, with the evolved cells; every other cell of newGrid keeps its value |
| `SerialLife.Generation` | Program2/serial_gol.cpp:68-87 | every interior cell of newGrid receives the rule applied to grid alone; border cells of newGrid are not written |
| `SerialLife.GenerationIsEvolve` | Program2/serial_gol.cpp:68-87 | when newGrid's border is dead, a generation leaves exactly the evolved board in it |
| `SerialLife.UninitialisedBorderRevivesCell` | Program2/serial_gol.cpp:42-49 | counterexample: on a 1 x 1 board seeded dead, a malloc'ed ring with its top row alive makes the first generation bring the cell to life; the zeroed ring keeps it dead |
| `SerialLife.RunLife` | Program2/serial_gol.cpp:67-99 | after the loop with its pointer swap, grid holds the board evolved `generations` times and stays valid |
| `SerialLife.StillAlive` | Program2/serial_gol.cpp:108-113 | still_alive is the number of interior cells equal to 1 |
| `SerialLife.SerialGameOfLife` | Program2/serial_gol.cpp:51-113 | on grids whose padding ring is dead (the board cells may hold anything), the program's count is the live cells of the seed evolved one generation, in [0, dim²] |
| `KokkosLife.SeedLimit` | Program2/kokkos_gol.cpp:58-59 | the Kokkos seed loops (i < dim, j < dim) reach row and column dim - 1 only |
| `KokkosLife.NeighborSumAsWrittenOnBoard` | Program2/kokkos_gol.cpp:82 | on interior cells the kernel's neighbour sum reads only inside the view and equals the padded neighbour sum |
| `KokkosLife.AsWrittenColumnRange` | Program2/kokkos_gol.cpp:77-82 | the kernel as written updates column 0 of rows 1..dim, whose sum reads column -1, and never column dim, which keeps B's stale value |
| `KokkosLife.KernelAsWritten` | Program2/kokkos_gol.cpp:77-99 | the kernel as written: rows 1..dim, columns 0..dim-1 get the rule applied to A, with reads at column -1 yielding an uncontrolled value; every other cell of B keeps its value; the result has the board's shape |
| `KokkosLife.AsWrittenRevivesPadding` | Program2/kokkos_gol.cpp:77-99 | as written, a padding cell (i, 0) next to three live cells in column 1 becomes alive, breaking the dead border; the evolved board keeps it dead |
| `KokkosLife.ColumnOneRevivesPadding` | kokkos/kokkos_gol.cpp:65-86 | counterexample: for dim ≥ 4, the seed with board column 1 alive in rows 1..dim-1 is one the program can draw, and in its first generation the kernel as written makes padding cell (2, 0) alive while the evolved board keeps it dead |
| `KokkosLife.AsWrittenMissesBirth` | kokkos/kokkos_gol.cpp:65-88 | counterexample: on a 4 x 4 board the drawable seed (1,3), (2,3), (3,3) has a birth at (2, 4) in the evolved board, while the kernel as written leaves (2, 4) dead in the zero-initialised B, whatever the off-grid reads yield |
| `KokkosLife.AsWrittenRun` | kokkos/kokkos_gol.cpp:63-93 | the views (A, B) after n kernels as written, each followed by the tmp/A/B swap; both keep the board's shape |
| `KokkosLife.AsWrittenRunKeepsColumnDead` | kokkos/kokkos_gol.cpp:65-92 | as written, board column dim stays dead in both views for the whole run when it starts dead in both: no cell of it is ever computed |
| `KokkosLife.AsWrittenRunZeroOne` | kokkos/kokkos_gol.cpp:65-92 | as written, every cell of both views stays 0 or 1 for the whole run, whatever the reads outside the allocation yield |
| `KokkosLife.AsWrittenProgramCount` | kokkos/kokkos_gol.cpp:45-101 | the count the program as written prints, after any number of generations from a drawn seed, lies in [0, dim²], and board column dim is dead in the final A |
| `KokkosLife.UpdateColumn` | Program2/kokkos_gol.cpp:77-99 | one lambda call writes board column j, rows 1..dim, with the evolved cells; every other cell of B keeps its value |
| `KokkosLife.KernelGeneration` | Program2/kokkos_gol.cpp:77-101 | the corrected kernel (columns 1..dim) writes every interior cell of B with the rule applied to A; B's border is untouched |
| `KokkosLife.CorrectedAgreesInsideRange` | kokkos/kokkos_gol.cpp:65-88 | the kernel as written and the corrected kernel agree on interior columns 1..dim-1 |
| `KokkosLife.RunGenerations` | kokkos/kokkos_gol.cpp:63-93 | with the corrected kernel (columns 1..dim): after each tmp/A/B swap, A holds the latest generation: after n kernels, the board evolved n times |
| `KokkosLife.KokkosGameOfLife` | Program2/kokkos_gol.cpp:39-117 | with the corrected kernel, the pipeline over `generations`: the initial count is the live cells of the seed and the final count those of the seed evolved `generations` times, each in [0, dim²] |
| `KokkosLife.ShortRun` | Program2/kokkos_gol.cpp:40-117 | with the corrected kernel, the single-generation program: the final count is the live cells of the seed evolved once |
| `KokkosLife.LongRun` | kokkos/kokkos_gol.cpp:28-102 | with the corrected kernel, the pipeline over 1000 generations: the final count is the live cells of the seed evolved 1000 times |
| `SingleGenLife.AddNeighborsAsWritten` | gol/kokkosGOL.cpp:167-172 | the helper as written returns no value: its result is whatever the caller reads, independent of the grid |
| `SingleGenLife.MissingReturnRevivesDeadBoard` | gol/kokkosGOL.cpp:167-172 | counterexample: on the drawable all-dead 2 x 2 seed, at cell (1, 1), which the kernel as written visits, a helper result of 3 brings the dead cell to life while the evolved board keeps it dead |
| `SingleGenLife.AddNeighborsCorrected` | gol/kokkosGOL.cpp:93-110 | the corrected helper's sum lies in [0, 8] and the rule applied to it is the evolved cell |
| `SingleGenLife.SingleGeneration` | gol/kokkosGOL.cpp:52-132 | with the corrected kernel (columns 1..dim) and the corrected helper: one kernel, one swap, and still_alive counted over the new A: the live cells of the evolved seed, in [0, dim²] |
| `MergeSpec.Merged` | Program4/1dsort.cpp:98-119 | the merge of two runs is as long as both together; its order and contents are stated by `MergedTieTakesRight`, `MergedPermutation` and `MergedSorted` |
| `MergeSpec.MergedTieTakesRight` | Program4/1dsort.cpp:99-108 | on equal heads the right run's element is placed first, because the comparison is strict |
| `MergeSpec.MergedPermutation` | Program4/1dsort.cpp:98-119 | the merge holds exactly the elements of the two runs (multiset equality) |
| `MergeSpec.MergedSorted` | kokkos/kokkos_sort.cpp:77-98 | merging two sorted runs gives a sorted run |
| `MergeSpec.MergeFromIsMerged` | Program4/mergesort.cpp:84-91 | the index-driven merge of two adjacent ranges equals the merge of the two runs |
| `TopDownSort.MidpointSplits` | Program4/1dsort.cpp:81-85 | for low < high, mid = (low+high)/2 gives low ≤ mid < high, so both recursive ranges are strictly smaller |
| `TopDownSort.FixedScratchOverflows` | Program4/1dsort.cpp:94 | counterexample: the 50-slot scratch view does not hold slot 50, which the last merge of a 51-element sort writes, nor any slot high ≥ 50 a merge ending at high writes; high + 1 slots hold every write |
| `TopDownSort.Merge` | Program4/1dsort.cpp:91-123 | arr[low..high] becomes the merge of arr[low..mid] and arr[mid+1..high], and nothing outside changes; requires a scratch view of more than high slots (the program's 50 slots suffice only for high < 50) |
| `TopDownSort.TakeSmallerHeads` | Program4/1dsort.cpp:98-109 | the first loop places heads into c(k) in merge order until one run is used up |
| `TopDownSort.CopyLeftRun` | Program4/1dsort.cpp:110-114 | the second loop copies the rest of the left run, keeping the merge order |
| `TopDownSort.CopyRightRun` | Program4/1dsort.cpp:115-119 | the third loop copies the rest of the right run, keeping the merge order |
| `TopDownSort.CopyBack` | Program4/1dsort.cpp:120-122 | scratch slots low..k-1 are copied into arr and nothing else in arr changes |
| `TopDownSort.MergeSort` | Program4/1dsort.cpp:78-89 | with each merge given high + 1 scratch slots (corrected), arr[low..high] ends sorted and a permutation of its old contents, nothing outside changes, and low ≥ high changes nothing |
| `TopDownSort.MergeOfSortedHalves` | kokkos/kokkos_sort.cpp:58-68 | sorting both halves and then merging gives a permutation of the whole range |
| `TopDownSort.MergeOfPermutedHalves` | kokkos/kokkos_sort.cpp:63-66 | merging a permutation of each half of a range gives a permutation of the whole range |
| `BottomUpMerge.NextHead` | Program4/mergesort.cpp:85-91 | the element the loop places next is the next element of the merge of what remains of both runs, and exactly one run advances |
| `BottomUpMerge.BottomUpMergeKernel` | Program4/mergesort.cpp:79-93 | dest[start..end) becomes the merge of source[start..middle) and source[middle..end), ties going right; source is not written and dest changes only in [start, end) |
| `BottomUpMerge.WindowStartIs` | Program4/mergesort.cpp:63-74 | window w of a thread starts at width·idx·slices + w·width |
| `BottomUpMerge.WindowMiddle` | Program4/mergesort.cpp:71 | middle = min(start + width/2, size); definition, bounded by `WindowBounds` |
| `BottomUpMerge.WindowEnd` | Program4/mergesort.cpp:72 | end = min(start + width, size); definition, bounded by `WindowBounds` |
| `BottomUpMerge.WindowBounds` | Program4/mergesort.cpp:71-72 | with start < size, start ≤ middle ≤ end ≤ size and the window is at most width long |
| `BottomUpMerge.PastEndWindows` | Program4/mergesort.cpp:68-69 | once a window starts at or past size so do all later ones, so the break loses nothing |
| `BottomUpMerge.WindowStep` | Program4/mergesort.cpp:71-74 | merging one window keeps the earlier windows merged and keeps changes inside the thread's region |
| `BottomUpMerge.GpuMergesort` | Program4/mergesort.cpp:59-76 | thread idx merges each of its up to `slices` windows into dest, and dest changes only in [width·idx·slices, width·idx·slices + slices·width) |
| `BottomUpMerge.ThreadRegionsDisjoint` | Program4/mergesort.cpp:63-75 | the regions of two different threads are disjoint, so their dest writes never overlap |
| `LeapfrogLcg.Stream` | Program3/mc_pi_openmp.cpp:31-32 | the single-multiplier sequence: n steps of x := MULTIPLIER·x mod PMOD; definition, bounded by `StreamBelowModulus` |
| `LeapfrogLcg.MultiplierPower` | Program3/mc_pi_openmp.cpp:72-77 | mult_n after the seeding loop: MULTIPLIER^n mod PMOD, one multiplication per step; definition, bounded by `MultiplierPowerBelowModulus` |
| `LeapfrogLcg.ThreadState` | Program3/mc_pi_openmp.cpp:31-32 | thread id's k-th state: its seed, then k steps with the leapfrog multiplier; `LeapfrogStreams` places it in the single sequence |
| `LeapfrogLcg.ProductsFit` | Program3/mc_pi_openmp.cpp:75-77 | products of two values below PMOD (< 2^31) fit in an unsigned 64-bit integer |
| `LeapfrogLcg.StreamBelowModulus` | Program3/mc_pi_openmp.cpp:75 | every state of the single-multiplier sequence started below PMOD stays below PMOD |
| `LeapfrogLcg.MultiplierPowerBelowModulus` | Program3/mc_pi_openmp.cpp:77 | the leapfrog multiplier stays below PMOD |
| `LeapfrogLcg.PowerJumps` | Program3/mc_pi_openmp.cpp:72-77 | multiplying by MULTIPLIER^n mod PMOD advances the sequence n places |
| `LeapfrogLcg.LeapfrogStreams` | Program3/mc_pi_openmp.cpp:63-80 | thread id's k-th state is element id + k·nthreads of the single sequence that starts at PMOD/MULTIPLIER |
| `LeapfrogLcg.PositionsDistinct` | Program3/mc_pi_openmp.cpp:63-67 | distinct (thread, draw) pairs use distinct positions of the sequence, so thread streams do not overlap |
| `LeapfrogLcg.Leapfrog.constructor` | Program3/mc_pi_openmp.cpp:14-18 | the static generator state starts at zero, with a 128-row seed table |
| `LeapfrogLcg.Leapfrog.Seed` | Program3/mc_pi_openmp.cpp:44-79 | random_low ≤ random_hi whatever the argument order; pseed[i] is element i of the sequence for i < nthreads; mult_n = MULTIPLIER^nthreads mod PMOD; requires nthreads ≤ 128 |
| `LeapfrogLcg.ThreadRng.constructor` | Program3/mc_pi_openmp.cpp:20 | a thread's random_last starts at 0 |
| `LeapfrogLcg.ThreadRng.Attach` | Program3/mc_pi_openmp.cpp:80 | a thread's random_last becomes its row of the seed table |
| `LeapfrogLcg.ThreadRng.Drandom` | Program3/mc_pi_openmp.cpp:31-32 | random_last := mult_n·random_last mod PMOD; the state stays below PMOD and the product fits in 64 bits |
| `LeapfrogLcg.ThreadRng.Draws` | Program3/mc_pi_openmp.cpp:99-104 | after seeding, a thread's k-th draw is element id + k·nthreads of the single sequence |
| `VectorAdd.NumBlocks` | rocm-hip/hip-vec-add.cpp:63 | numBlocks = (N + blockSize - 1) / blockSize; definition, whose ceiling property `NumBlocksIsCeiling` states |
| `VectorAdd.GlobalIndex` | rocm-hip/hip-vec-add.cpp:25 | idx = blockIdx.x·blockDim.x + threadIdx.x; definition, whose bijectivity `GlobalIndexBijective` states |
| `VectorAdd.Launched` | rocm-hip/hip-vec-add.cpp:23-31 | C after one launch covering indices below `covered` is as long as before; `LaunchSpec` states its contents |
| `VectorAdd.NumBlocksIsCeiling` | rocm-hip/hip-vec-add.cpp:63 | numBlocks·blockSize ≥ N and (numBlocks - 1)·blockSize < N |
| `VectorAdd.GlobalIndexBijective` | rocm-hip/hip-vec-add.cpp:25 | idx is distinct for distinct (block, thread) pairs and covers exactly [0, numBlocks·blockSize) |
| `VectorAdd.LaunchSpec` | rocm-hip/hip-vec-add.cpp:71-75 | a launch with the ceiling block count sets C[i] = A[i] + B[i] for all i < N, leaves C past N alone, and launching again changes nothing |
| `VectorAdd.VectorAddLaunch` | rocm-hip/hip-vec-add.cpp:23-31 | the thread with index idx writes C[idx] = A[idx] + B[idx] only when idx < N; nothing else changes |
| `VectorAdd.LaunchRepeatedly` | rocm-hip/hip-vec-add.cpp:68-75 | after 1000 launches C[i] = A[i] + B[i] for i < N and C is otherwise unchanged |
| `VectorAdd.VerifyPrefix` | rocm-hip/hip-vec-add.cpp:85-97 | the check passes iff the first 10 elements match, and on failure reports the first mismatching index |
| `VectorAdd.RunVectorAdd` | rocm-hip/hip-vec-add.cpp:33-97 | with A[i] = i and B[i] = 2i, every C[i] is 3i and the check passes |
| `VectorAdd.RunProgram` | rocm-hip/hip-vec-add.cpp:34-97 | the program's run with N = 2^24: every C[i] is 3i and the check passes |

## Findings

| source | as written | input that shows it | evidently intended | confidence | as-written member | corrected member |
|---|---|---|---|---|---|---|
| Program2/kokkos_gol.cpp:77 | `parallel_for(dim)` gives columns j in [0, dim): column 0 is updated from a read at column -1, and board column dim is never updated | dim = 4 with seed cells (1, 1), (2, 1), (3, 1) alive: padding cell (2, 0) becomes alive | update board columns 1..dim | high (not executed) | `KokkosLife.AsWrittenRevivesPadding` | `KokkosLife.KernelGeneration` |
| kokkos/kokkos_gol.cpp:65 | same column range over 1000 generations; board column dim is never written, so it stays dead for the whole run and every birth there is missed | dim = 4 with seed cells (1, 3), (2, 3), (3, 3) alive: the evolved board has a birth at (2, 4), the kernel as written leaves it dead | update board columns 1..dim | high (not executed) | `KokkosLife.AsWrittenMissesBirth` | `KokkosLife.RunGenerations` |
| gol/kokkosGOL.cpp:89 | same column range in the single-generation kernel | dim = 4 with seed cells (1, 1), (2, 1), (3, 1) alive: padding cell (2, 0) becomes alive, provided the helper with no return yields the true sum (the witness is for the kernel with the corrected helper) | update board columns 1..dim | high (not executed) | `KokkosLife.ColumnOneRevivesPadding` | `SingleGenLife.SingleGeneration` |
| Program2/serial_gol.cpp:42-49 | the grids are `malloc`ed, so the padding ring is undetermined, and every edge cell's neighbour sum reads it | dim = 1, seed cell dead, ring cells (0, 0), (0, 1), (0, 2) holding 1: the cell is born | a zeroed padding ring | medium (not executed) | `SerialLife.UninitialisedBorderRevivesCell` | `SerialLife.SerialGameOfLife` |
| Program4/1dsort.cpp:94 | the merge's scratch view `C` has 50 slots whatever the range, but it is written at every index low..high (also kokkos/kokkos_sort.cpp:73), so any merge with high ≥ 50 writes past it. The defect is latent: neither main calls merge_sort, and only its commented-out merge sort test, over global_m = 100000 elements of an undeclared `arr2`, would reach it | merge_sort on 51 elements: the last merge, of [0, 50], writes c(50) | a scratch view of at least high + 1 slots | high (not executed) | `TopDownSort.FixedScratchOverflows` | `TopDownSort.MergeSort` |
| gol/kokkosGOL.cpp:167-172 | `addNeighbors` computes the sum but has no return statement, so the caller reads an undefined value | dim = 2 with the all-dead seed, where the undefined value at cell (1, 1) is 3: the cell is born | return the eight-neighbour sum | high (not executed) | `SingleGenLife.MissingReturnRevivesDeadBoard` | `SingleGenLife.AddNeighborsCorrected` |

## Left out

- MPI, Kokkos and HIP runtime plumbing is left out: `MPI_Init`, communicator creation, the blocking of collectives, Kokkos initialize/finalize, mirror views, `deep_copy` and fences, and the vector add's `hipMalloc`, `hipMemcpy`, `hipGetLastError`, `hipDeviceSynchronize` and `hipFree` calls with the `HIP_CHECK` macro's exit on error (rocm-hip/hip-vec-add.cpp:11-19). Every runtime call is taken to succeed. The collectives are pure functions over all ranks' buffers. A world size different from P·Q is not modelled; the world is always the P·Q ranks.
- Timers and console output are left out (`MPI_Wtime`, `std::chrono`, `Kokkos::Timer`, print and show functions). So are the CSV lines and the yes/no prompt of the serial Game of Life.
- `rand()` fills are a `bits` parameter of 0/1 values.
- `Kokkos::sort` in the sort programs is a library call and is not part of this model. Neither is the main of `Program4/mergesort.cpp`, which refers to undefined names. `getIdx` is undefined, so the thread index is a parameter.
- Floating point is left out. Every matrix, vector and grid value is an `int`, and arithmetic is exact. The dot programs' doubles hold integers far below 2^53, so rounding does not arise there. The vector add's floats do round (see the two lines below). The int truncation of the Kokkos reduction variable is not modelled either. The π quadratures, the Kokkos random pool, and the double conversion and circle test of the Monte-Carlo program are not part of this model.
- 32-bit wrap-around of the `int` accumulators and indices is not modelled. Integers are unbounded; with the programs' sizes no value reaches 2^31.
- OpenMP threads in the Monte-Carlo program are sequential here. `Seed` is the `omp single` part, and `Attach` and `Draws` are one thread's part. Only column 0 of the padded `pseed[MAX_THREADS][4]` table is modelled, since it is the only column used. `random_low` and `random_hi` are `real`.
- `SerialLife.SerialGameOfLife`: requires a zeroed padding ring, as the program's comment intends. The malloc'ed ring of the program as written is undetermined; its effect is shown under Findings (`SerialLife.UninitialisedBorderRevivesCell`), and the count for an arbitrary ring is not stated.
- Device queries, hello-world and utility programs are not part of this model: `rocm-hip/hip-device-query.cpp`, `rocm-hip/hello-hip-rocm.cpp` and the `useful_util` files. `mojo/python-call-mojo-add.py` (a foreign call) and the ill-formed `matrix-vector_matrix-matrix/matrix-vector-mult.cpp` are not part of it either.
- `VectorAdd.RunVectorAdd`: C[i] == 3i holds in exact arithmetic only. With N = 2^24 the sums 3i pass 2^24, above which a float cannot hold every integer: 3·5,592,407 = 16,777,221 is rounded. Float rounding is not modelled; the program's check reads only the first 10 elements, where it does not arise.
- `VectorAdd.RunProgram`: the same exact-arithmetic reading of C[i] == 3i as `VectorAdd.RunVectorAdd`.
- `DistributedMvDot.RedistributionPicksDiagonal`: the end-to-end value of the redistribution is proved only for uniform bands, the problems on which every tile is square (`SquareTilesIffUniform`). On any other problem with all tiles non-empty, some tile has m != n and the program reads outside ID_A or y. Problems in which the non-square tiles are all empty (M = N = 1 with P = Q = 2, say) make no out-of-bounds access but are left out too.
- `SingleGenLife.SingleGeneration`: states the count of the program with both defects corrected (columns 1..dim and a helper that returns the sum). The count of the program as written is not stated: the helper with no return gives every cell an undetermined neighbour sum.
- `SingleGenLife.SingleGeneration`: `gol/kokkosGOL.cpp` seeds the host mirror `h_A` but never copies it into `A`, and counts `A` on the host. The model treats the mirror and the view as one buffer, which holds on a host-only build; on a device build the kernel would see the all-zero `A`, and the host read of `A` would not be allowed.
- `KokkosLife.KokkosGameOfLife`: it runs the corrected kernel (columns 1..dim). The kernel as written is covered by the as-written lemmas under Findings and by `KokkosLife.AsWrittenRun`, not by the whole-program method.
- `KokkosLife.ShortRun`: states the count of the corrected kernel. The count of the program as written is only bounded, by `KokkosLife.AsWrittenProgramCount`.
- `KokkosLife.LongRun`: states the 1000-generation count of the corrected kernel. For the program as written, `KokkosLife.AsWrittenProgramCount` states only that the count lies in [0, dim²] and that board column dim is dead at the end; the exact count is not stated.
- `KokkosLife.KernelAsWritten`: the reads at column -1 fall outside the allocation and are one fixed value `outside`, the same for every such read.
- `SerialDot.RunSerial`: models the large-size branch of main only, which reports sum_dot_result. When M < 10 and N < 10 the program instead calls printDotProduct, which leaves the same y (`SerialDot.PrintDotProduct`) and reports no integer. The program's M = N = 1000 takes the large branch.
- `LeapfrogLcg.Leapfrog.Seed`: requires nthreads ≤ 128, the rows of the static seed table. The source does not bound omp_get_num_threads(), so with more than 128 threads the seeding loop writes pseed[i][0] past the table. That out-of-bounds write is a latent defect of the source, and the model does not cover those thread counts.
- `KokkosMvDot.RunBothLayouts`: models the large-size branch of main only. The small-size branch runs the same row-major kernel and computes the same result from the length of y.
