/** The serial Game of Life program: two heap grids, a game loop that fills
    the spare grid from the current one and swaps them, and the final count
    of live cells. */
module SerialLife {
  import opened DenseAlgebra
  import opened LifeRules

  /** The number of generations the serial program runs. */
  const Generations: nat := 1

  /** The random initial fill of board cells 1 .. last in both directions;
      `bits` stands for the rand() % 2 values. */
  method SeedGrid(grid: array2<int>, dim: nat, last: nat, bits: seq<seq<int>>)
    requires grid.Length0 == dim + 2 && grid.Length1 == dim + 2
    requires IsBoard(bits, dim) && last <= dim
    modifies grid
    ensures Rows(grid) == Seeded(old(Rows(grid)), dim, last, bits)
  {
    ghost var g := Rows(grid);
    for i := 1 to last + 1
      invariant forall r, c :: 0 <= r < dim + 2 && 0 <= c < dim + 2 ==>
                  grid[r, c] == if 1 <= r < i && 1 <= c <= last then bits[r][c] else g[r][c]
    {
      for j := 1 to last + 1
        invariant forall r, c :: 0 <= r < dim + 2 && 0 <= c < dim + 2 ==>
                    grid[r, c] == if (1 <= r < i && 1 <= c <= last) || (r == i && 1 <= c < j) then bits[r][c] else g[r][c]
      {
        grid[i, j] := bits[i][j];
      }
    }
    BoardsEqual(Rows(grid), Seeded(g, dim, last, bits), dim);
  }

  /** The inner loop of a generation: board row i of newGrid, columns
      1 .. dim, receives the rule applied to grid; nothing else changes. */
  method UpdateRow(grid: array2<int>, newGrid: array2<int>, dim: nat, i: nat)
    requires grid.Length0 == dim + 2 && grid.Length1 == dim + 2
    requires newGrid.Length0 == dim + 2 && newGrid.Length1 == dim + 2
    requires grid != newGrid && 1 <= i <= dim
    modifies newGrid
    ensures forall r, c :: 0 <= r < dim + 2 && 0 <= c < dim + 2 ==>
              newGrid[r, c] == if r == i && 1 <= c <= dim then Evolve(Rows(grid), dim)[r][c] else old(newGrid[r, c])
  {
    ghost var g := Rows(grid);
    ghost var e := Evolve(g, dim);
    for j := 1 to dim + 1
      invariant Rows(grid) == g
      invariant forall r, c :: 0 <= r < dim + 2 && 0 <= c < dim + 2 ==>
                  newGrid[r, c] == if r == i && 1 <= c < j then e[r][c] else old(newGrid[r, c])
    {
      var next := CellUpdate(grid, dim, i, j);
      assert next == e[i][j];
      newGrid[i, j] := next;
      forall r, c | 0 <= r < dim + 2 && 0 <= c < dim + 2
        ensures newGrid[r, c] == if r == i && 1 <= c < j + 1 then e[r][c] else old(newGrid[r, c])
      {
        if r == i && c == j {
          assert newGrid[r, c] == next;
        } else {
          assert newGrid[r, c] == old(newGrid[r, c]) || (r == i && 1 <= c < j);
        }
      }
    }
  }

  /** One generation of the game loop: every board cell of newGrid receives
      the rule applied to grid, read through the eight-neighbour sum; the
      padding of newGrid is not written. */
  method Generation(grid: array2<int>, newGrid: array2<int>, dim: nat)
    requires grid.Length0 == dim + 2 && grid.Length1 == dim + 2
    requires newGrid.Length0 == dim + 2 && newGrid.Length1 == dim + 2
    requires grid != newGrid
    modifies newGrid
    ensures forall i, j :: 0 <= i < dim + 2 && 0 <= j < dim + 2 ==>
              newGrid[i, j] == if Interior(i, j, dim) then Evolve(Rows(grid), dim)[i][j] else old(newGrid[i, j])
  {
    ghost var e := Evolve(Rows(grid), dim);
    for i := 1 to dim + 1
      invariant Evolve(Rows(grid), dim) == e
      invariant forall r, c :: 0 <= r < dim + 2 && 0 <= c < dim + 2 ==>
                  newGrid[r, c] == if 1 <= r < i && 1 <= c <= dim then e[r][c] else old(newGrid[r, c])
    {
      UpdateRow(grid, newGrid, dim, i);
    }
  }

  /** When the spare grid's padding is dead, a generation leaves in it
      exactly the evolved board. */
  lemma GenerationIsEvolve(before: seq<seq<int>>, after: seq<seq<int>>, g: seq<seq<int>>, dim: nat)
    requires IsBoard(before, dim) && IsBoard(after, dim) && IsBoard(g, dim) && ZeroBorder(before, dim)
    requires forall i, j :: 0 <= i < dim + 2 && 0 <= j < dim + 2 ==>
               after[i][j] == if Interior(i, j, dim) then Evolve(g, dim)[i][j] else before[i][j]
    ensures after == Evolve(g, dim)
  {
    BoardsEqual(after, Evolve(g, dim), dim);
  }

  /** Counterexample: malloc leaves the padding ring undetermined, and a
      generation reads it for every edge cell. On a 1 x 1 board seeded dead,
      a ring whose top three cells hold 1 brings the lone cell to life in the
      first generation; with the ring zeroed the cell stays dead. */
  lemma UninitialisedBorderRevivesCell()
    ensures var g := [[1, 1, 1], [0, 0, 0], [0, 0, 0]];
            IsBoard(g, 1) && !ZeroBorder(g, 1) && Seeded(g, 1, 1, DeadBoard(1)) == g &&
            Evolve(g, 1)[1][1] == 1
    ensures Evolve(Seeded(DeadBoard(1), 1, 1, DeadBoard(1)), 1)[1][1] == 0
  {
    var g := [[1, 1, 1], [0, 0, 0], [0, 0, 0]];
    BoardsEqual(Seeded(g, 1, 1, DeadBoard(1)), g, 1);
    assert NeighborSum(g, 1, 1, 1) == 3;
    BoardsEqual(Seeded(DeadBoard(1), 1, 1, DeadBoard(1)), DeadBoard(1), 1);
    assert NeighborSum(DeadBoard(1), 1, 1, 1) == 0;
  }

  /** The game loop with its pointer swap: after `generations` passes the
      current grid holds the board evolved that many times, and the two grid
      names still denote the two allocations. */
  method RunLife(grid: array2<int>, newGrid: array2<int>, dim: nat, generations: nat)
      returns (cur: array2<int>, spare: array2<int>)
    requires grid.Length0 == dim + 2 && grid.Length1 == dim + 2
    requires newGrid.Length0 == dim + 2 && newGrid.Length1 == dim + 2
    requires grid != newGrid
    requires ValidBoard(Rows(grid), dim) && ZeroBorder(Rows(newGrid), dim)
    modifies grid, newGrid
    ensures (cur == grid && spare == newGrid) || (cur == newGrid && spare == grid)
    ensures Rows(cur) == Iterate(old(Rows(grid)), dim, generations)
    ensures ValidBoard(Rows(cur), dim)
  {
    ghost var g0 := Rows(grid);
    cur, spare := grid, newGrid;
    var currentGen := 0;
    while currentGen < generations
      invariant 0 <= currentGen <= generations
      invariant (cur == grid && spare == newGrid) || (cur == newGrid && spare == grid)
      invariant Rows(cur) == Iterate(g0, dim, currentGen)
      invariant ValidBoard(Rows(cur), dim) && ZeroBorder(Rows(spare), dim)
    {
      ghost var before := Rows(spare);
      Generation(cur, spare, dim);
      GenerationIsEvolve(before, Rows(spare), Rows(cur), dim);
      EvolveKeepsValid(Rows(cur), dim);
      var tmpGrid := cur;
      cur := spare;
      spare := tmpGrid;
      currentGen := currentGen + 1;
    }
  }

  /** The closing count: the sum of the board cells of the grid. */
  method StillAlive(grid: array2<int>, dim: nat) returns (stillAlive: int)
    requires grid.Length0 == dim + 2 && grid.Length1 == dim + 2
    ensures stillAlive == AliveCount(Rows(grid), dim)
  {
    ghost var g := Rows(grid);
    stillAlive := 0;
    for i := 1 to dim + 1
      invariant stillAlive == RowsAlive(g, dim, i - 1)
    {
      ghost var rowStart := stillAlive;
      for j := 1 to dim + 1
        invariant stillAlive == rowStart + RowAlive(g, dim, i, j - 1)
      {
        stillAlive := stillAlive + grid[i, j];
      }
    }
  }

  /** The whole serial program on grids whose padding is dead: seed every
      board cell, run the game loop, count the survivors. The board cells'
      initial contents are overwritten by the seed; the count is the live
      cells of the evolved seed and lies in [0, dim²]. */
  method SerialGameOfLife(grid: array2<int>, newGrid: array2<int>, dim: nat, bits: seq<seq<int>>)
      returns (stillAlive: int)
    requires grid.Length0 == dim + 2 && grid.Length1 == dim + 2
    requires newGrid.Length0 == dim + 2 && newGrid.Length1 == dim + 2
    requires grid != newGrid
    requires ZeroBorder(Rows(grid), dim) && ZeroBorder(Rows(newGrid), dim)
    requires IsBoard(bits, dim) && ZeroOne(bits, dim)
    modifies grid, newGrid
    ensures stillAlive == AliveCount(Iterate(Seeded(DeadBoard(dim), dim, dim, bits), dim, Generations), dim)
    ensures 0 <= stillAlive <= dim * dim
  {
    SeedingOverwritesBoard(Rows(grid), dim, bits);
    SeedGrid(grid, dim, dim, bits);
    SeededBoard(dim, dim, bits);
    var cur, spare := RunLife(grid, newGrid, dim, Generations);
    stillAlive := StillAlive(cur, dim);
    AliveCountBounds(Rows(cur), dim);
  }
}
