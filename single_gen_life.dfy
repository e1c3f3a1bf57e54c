/** The single-generation Kokkos Game of Life program: one kernel whose
    neighbour count goes through a helper, one swap of the view handles, and
    the count of live cells in the new generation. The helper as written has
    no return statement; it is modelled here as written and then corrected. */
module SingleGenLife {
  import opened DenseAlgebra
  import opened LifeRules
  import SerialLife
  import KokkosLife

  /** The neighbour helper as written: it computes the sum into a local and
      falls off the end, so the caller receives a value the program does not
      determine, stood for here by `unspecified`. */
  function AddNeighborsAsWritten(a: seq<seq<int>>, dim: nat, i: nat, j: nat, unspecified: int): (r: int)
    requires IsBoard(a, dim) && Interior(i, j, dim)
    ensures r == unspecified
  {
    var sumNeighbors := NeighborSum(a, dim, i, j);
    unspecified
  }

  /** Counterexample: the all-dead seed is one the program can draw on a
      2 x 2 board, and the kernel as written visits cell (1, 1), since its
      column range [0, 2) holds column 1. A helper result of 3 there brings
      the dead cell to life, while the evolved board keeps it dead. */
  lemma MissingReturnRevivesDeadBoard()
    ensures Seeded(DeadBoard(2), 2, KokkosLife.SeedLimit(2), DeadBoard(2)) == DeadBoard(2)
    ensures NextCell(DeadBoard(2)[1][1], AddNeighborsAsWritten(DeadBoard(2), 2, 1, 1, 3)) == 1
    ensures Evolve(DeadBoard(2), 2)[1][1] == 0
  {
    BoardsEqual(Seeded(DeadBoard(2), 2, KokkosLife.SeedLimit(2), DeadBoard(2)), DeadBoard(2), 2);
    assert NeighborSum(DeadBoard(2), 2, 1, 1) == 0;
  }

  /** The corrected helper returns the eight-neighbour sum, which on a 0/1
      board lies in [0, 8] and therefore selects a rule of the chain. */
  lemma AddNeighborsCorrected(a: seq<seq<int>>, dim: nat, i: nat, j: nat)
    requires IsBoard(a, dim) && ZeroOne(a, dim) && Interior(i, j, dim)
    ensures 0 <= NeighborSum(a, dim, i, j) <= 8
    ensures NextCell(a[i][j], NeighborSum(a, dim, i, j)) == Evolve(a, dim)[i][j]
  {
    NeighborSumRange(a, dim, i, j);
  }

  /** The program: seed rows and columns 1 .. dim - 1 of the zero-initialised
      view A, run the kernel once into B, swap the handles (the new A is B)
      and count the live board cells of the new A, a number in [0, dim²]. */
  method SingleGeneration(a: array2<int>, b: array2<int>, dim: nat, bits: seq<seq<int>>)
      returns (stillAlive: int)
    requires a.Length0 == dim + 2 && a.Length1 == dim + 2
    requires b.Length0 == dim + 2 && b.Length1 == dim + 2
    requires a != b
    requires Rows(a) == DeadBoard(dim) && Rows(b) == DeadBoard(dim)
    requires IsBoard(bits, dim) && ZeroOne(bits, dim)
    modifies a, b
    ensures stillAlive == AliveCount(Evolve(Seeded(DeadBoard(dim), dim, KokkosLife.SeedLimit(dim), bits), dim), dim)
    ensures 0 <= stillAlive <= dim * dim
  {
    SerialLife.SeedGrid(a, dim, KokkosLife.SeedLimit(dim), bits);
    SeededBoard(dim, KokkosLife.SeedLimit(dim), bits);
    ghost var seeded := Rows(a);
    KokkosLife.KernelGeneration(a, b, dim);
    SerialLife.GenerationIsEvolve(DeadBoard(dim), Rows(b), seeded, dim);
    var cur := b;
    EvolveKeepsValid(seeded, dim);
    stillAlive := SerialLife.StillAlive(cur, dim);
    AliveCountBounds(Rows(cur), dim);
  }
}
