/** Conway's Game of Life on a zero-padded board, as values: the board with
    its padding ring, the eight-neighbour sum, the rule chain each program
    applies, one generation of the whole board, and the live-cell count. */
module LifeRules {
  import opened DenseAlgebra

  /** A (dim+2) x (dim+2) grid: the dim x dim board and one padding cell on
      every side. */
  predicate IsBoard(g: seq<seq<int>>, dim: nat)
  {
    IsMatrix(g, dim + 2, dim + 2)
  }

  /** (i, j) is a cell of the board proper, not of the padding ring. */
  predicate Interior(i: int, j: int, dim: nat)
  {
    1 <= i <= dim && 1 <= j <= dim
  }

  /** Every cell of the grid is dead (0) or alive (1). */
  predicate ZeroOne(g: seq<seq<int>>, dim: nat)
    requires IsBoard(g, dim)
  {
    forall i, j :: 0 <= i < dim + 2 && 0 <= j < dim + 2 ==> g[i][j] == 0 || g[i][j] == 1
  }

  /** Every padding cell is dead. */
  predicate ZeroBorder(g: seq<seq<int>>, dim: nat)
    requires IsBoard(g, dim)
  {
    forall i, j :: 0 <= i < dim + 2 && 0 <= j < dim + 2 && !Interior(i, j, dim) ==> g[i][j] == 0
  }

  /** A board the programs can evolve: 0/1 cells and a dead padding ring. */
  predicate ValidBoard(g: seq<seq<int>>, dim: nat)
  {
    IsBoard(g, dim) && ZeroOne(g, dim) && ZeroBorder(g, dim)
  }

  /** The sum of the eight cells around board cell (i, j), in the order the
      programs add them; the padding ring keeps every read inside the grid. */
  function NeighborSum(g: seq<seq<int>>, dim: nat, i: nat, j: nat): int
    requires IsBoard(g, dim) && Interior(i, j, dim)
  {
    g[i + 1][j] + g[i - 1][j] + g[i][j + 1] + g[i][j - 1]
      + g[i + 1][j + 1] + g[i - 1][j - 1] + g[i - 1][j + 1] + g[i + 1][j - 1]
  }

  /** On a 0/1 grid the neighbour sum lies in [0, 8]. */
  lemma NeighborSumRange(g: seq<seq<int>>, dim: nat, i: nat, j: nat)
    requires IsBoard(g, dim) && ZeroOne(g, dim) && Interior(i, j, dim)
    ensures 0 <= NeighborSum(g, dim, i, j) <= 8
  {
    assert g[i + 1][j] in {0, 1} && g[i - 1][j] in {0, 1} && g[i][j + 1] in {0, 1} && g[i][j - 1] in {0, 1};
    assert g[i + 1][j + 1] in {0, 1} && g[i - 1][j - 1] in {0, 1} && g[i - 1][j + 1] in {0, 1} && g[i + 1][j - 1] in {0, 1};
  }

  /** The programs' rule chain: a live cell with fewer than 2 neighbours dies,
      with 2 or 3 stays alive, with more than 3 dies; a dead cell with exactly
      3 is born; otherwise the cell keeps its value. */
  function NextCell(cell: int, sum: int): (next: int)
    ensures next == 0 || next == 1 || next == cell
  {
    if cell == 1 && sum < 2 then 0
    else if cell == 1 && (sum == 2 || sum == 3) then 1
    else if cell == 1 && sum > 3 then 0
    else if cell == 0 && sum == 3 then 1
    else cell
  }

  /** For 0/1 cells the chain is the B3/S23 rule: the new cell is alive exactly
      when it is alive with 2 or 3 neighbours or dead with exactly 3. */
  lemma NextCellIsB3S23(cell: int, sum: int)
    requires cell == 0 || cell == 1
    ensures NextCell(cell, sum) == if (cell == 1 && (sum == 2 || sum == 3)) || (cell == 0 && sum == 3) then 1 else 0
  {
  }

  /** For 0/1 cells the final else of the chain is reached only by a dead
      cell, which it copies. */
  lemma FinalElseCopiesDeadCell(cell: int, sum: int)
    requires cell == 0 || cell == 1
    requires !(cell == 1 && sum < 2) && !(cell == 1 && (sum == 2 || sum == 3))
    requires !(cell == 1 && sum > 3) && !(cell == 0 && sum == 3)
    ensures cell == 0 && NextCell(cell, sum) == 0
  {
  }

  /** One generation of the whole grid: every board cell follows the rule
      applied to the old grid, and the padding ring is dead. */
  function Evolve(g: seq<seq<int>>, dim: nat): (h: seq<seq<int>>)
    requires IsBoard(g, dim)
    ensures IsBoard(h, dim)
    ensures forall i, j :: 0 <= i < dim + 2 && 0 <= j < dim + 2 ==>
              h[i][j] == if Interior(i, j, dim) then NextCell(g[i][j], NeighborSum(g, dim, i, j)) else 0
  {
    seq(dim + 2, i requires 0 <= i < dim + 2 =>
      seq(dim + 2, j requires 0 <= j < dim + 2 =>
        if Interior(i, j, dim) then NextCell(g[i][j], NeighborSum(g, dim, i, j)) else 0))
  }

  /** The update both game loops run for board cell (i, j) of grid a: the
      eight-neighbour sum read from the array, then the rule chain, whose
      final else copies the cell. It changes nothing and returns the cell of
      the evolved board. */
  method CellUpdate(a: array2<int>, dim: nat, i: nat, j: nat) returns (next: int)
    requires a.Length0 == dim + 2 && a.Length1 == dim + 2 && Interior(i, j, dim)
    ensures next == Evolve(Rows(a), dim)[i][j]
  {
    ghost var g := Rows(a);
    var sumNeighbors := a[i + 1, j] + a[i - 1, j] + a[i, j + 1] + a[i, j - 1]
      + a[i + 1, j + 1] + a[i - 1, j - 1] + a[i - 1, j + 1] + a[i + 1, j - 1];
    assert sumNeighbors == NeighborSum(g, dim, i, j);
    if a[i, j] == 1 && sumNeighbors < 2 {
      next := 0;
    } else if a[i, j] == 1 && (sumNeighbors == 2 || sumNeighbors == 3) {
      next := 1;
    } else if a[i, j] == 1 && sumNeighbors > 3 {
      next := 0;
    } else if a[i, j] == 0 && sumNeighbors == 3 {
      next := 1;
    } else {
      next := a[i, j];
    }
    assert next == NextCell(g[i][j], sumNeighbors);
  }

  /** A generation keeps the board valid: cells stay 0/1 and the padding
      stays dead. */
  lemma EvolveKeepsValid(g: seq<seq<int>>, dim: nat)
    requires ValidBoard(g, dim)
    ensures ValidBoard(Evolve(g, dim), dim)
  {
    var h := Evolve(g, dim);
    forall i, j | 0 <= i < dim + 2 && 0 <= j < dim + 2
      ensures h[i][j] == 0 || h[i][j] == 1
    {
      if Interior(i, j, dim) {
        NextCellIsB3S23(g[i][j], NeighborSum(g, dim, i, j));
      }
    }
  }

  /** n generations. */
  function Iterate(g: seq<seq<int>>, dim: nat, n: nat): (h: seq<seq<int>>)
    requires IsBoard(g, dim)
    ensures IsBoard(h, dim)
  {
    if n == 0 then g else Evolve(Iterate(g, dim, n - 1), dim)
  }

  /** Any number of generations keeps the board valid. */
  lemma {:induction false} IterateKeepsValid(g: seq<seq<int>>, dim: nat, n: nat)
    requires ValidBoard(g, dim)
    ensures ValidBoard(Iterate(g, dim, n), dim)
  {
    if n > 0 {
      IterateKeepsValid(g, dim, n - 1);
      EvolveKeepsValid(Iterate(g, dim, n - 1), dim);
    }
  }

  /** The live cells of row i among columns 1 .. k. */
  function RowAlive(g: seq<seq<int>>, dim: nat, i: nat, k: nat): int
    requires IsBoard(g, dim) && 1 <= i <= dim && k <= dim
  {
    if k == 0 then 0 else RowAlive(g, dim, i, k - 1) + g[i][k]
  }

  /** The live cells of rows 1 .. k of the board. */
  function RowsAlive(g: seq<seq<int>>, dim: nat, k: nat): int
    requires IsBoard(g, dim) && k <= dim
  {
    if k == 0 then 0 else RowsAlive(g, dim, k - 1) + RowAlive(g, dim, k, dim)
  }

  /** The number of live board cells, the value the programs report. */
  function AliveCount(g: seq<seq<int>>, dim: nat): int
    requires IsBoard(g, dim)
  {
    RowsAlive(g, dim, dim)
  }

  /** On a 0/1 board a row prefix holds between 0 and k live cells. */
  lemma {:induction false} RowAliveBounds(g: seq<seq<int>>, dim: nat, i: nat, k: nat)
    requires IsBoard(g, dim) && ZeroOne(g, dim) && 1 <= i <= dim && k <= dim
    ensures 0 <= RowAlive(g, dim, i, k) <= k
  {
    if k > 0 {
      RowAliveBounds(g, dim, i, k - 1);
    }
  }

  /** On a 0/1 board the first k rows hold between 0 and k·dim live cells. */
  lemma {:induction false} RowsAliveBounds(g: seq<seq<int>>, dim: nat, k: nat)
    requires IsBoard(g, dim) && ZeroOne(g, dim) && k <= dim
    ensures 0 <= RowsAlive(g, dim, k) <= k * dim
  {
    if k > 0 {
      RowsAliveBounds(g, dim, k - 1);
      RowAliveBounds(g, dim, k, dim);
      assert (k - 1) * dim + dim == k * dim;
    }
  }

  /** On a 0/1 board the live count lies in [0, dim²]. */
  lemma AliveCountBounds(g: seq<seq<int>>, dim: nat)
    requires IsBoard(g, dim) && ZeroOne(g, dim)
    ensures 0 <= AliveCount(g, dim) <= dim * dim
  {
    RowsAliveBounds(g, dim, dim);
  }

  /** The grid with board cells (i, j), 1 <= i, j <= last, taken from `bits`
      and every other cell kept: the random initial fill. */
  function Seeded(g: seq<seq<int>>, dim: nat, last: nat, bits: seq<seq<int>>): (h: seq<seq<int>>)
    requires IsBoard(g, dim) && IsBoard(bits, dim)
    ensures IsBoard(h, dim)
  {
    seq(dim + 2, i requires 0 <= i < dim + 2 =>
      seq(dim + 2, j requires 0 <= j < dim + 2 =>
        if 1 <= i <= last && 1 <= j <= last then bits[i][j] else g[i][j]))
  }

  /** The all-dead grid: a zero-initialised view. */
  function DeadBoard(dim: nat): (g: seq<seq<int>>)
    ensures ValidBoard(g, dim)
  {
    seq(dim + 2, _ => seq(dim + 2, _ => 0))
  }

  /** Seeding a dead grid with 0/1 bits up to row and column `last` <= dim
      gives a valid board whose cells past `last` stay dead. With last = dim - 1
      (the Kokkos programs' fill) the whole of row dim and column dim is dead. */
  lemma SeededBoard(dim: nat, last: nat, bits: seq<seq<int>>)
    requires IsBoard(bits, dim) && ZeroOne(bits, dim) && last <= dim
    ensures ValidBoard(Seeded(DeadBoard(dim), dim, last, bits), dim)
    ensures forall i, j :: 0 <= i < dim + 2 && 0 <= j < dim + 2 && (i > last || j > last) ==>
              Seeded(DeadBoard(dim), dim, last, bits)[i][j] == 0
    ensures forall i, j :: 1 <= i <= last && 1 <= j <= last ==>
              Seeded(DeadBoard(dim), dim, last, bits)[i][j] == bits[i][j]
  {
  }

  /** Seeding every board cell (last = dim) of a grid whose padding is dead
      gives the same board as seeding a zero-initialised grid: the board
      cells' old values do not matter. */
  lemma SeedingOverwritesBoard(g: seq<seq<int>>, dim: nat, bits: seq<seq<int>>)
    requires IsBoard(g, dim) && ZeroBorder(g, dim) && IsBoard(bits, dim)
    ensures Seeded(g, dim, dim, bits) == Seeded(DeadBoard(dim), dim, dim, bits)
  {
    BoardsEqual(Seeded(g, dim, dim, bits), Seeded(DeadBoard(dim), dim, dim, bits), dim);
  }

  /** Two boards that agree cell by cell are the same board. */
  lemma BoardsEqual(a: seq<seq<int>>, b: seq<seq<int>>, dim: nat)
    requires IsBoard(a, dim) && IsBoard(b, dim)
    requires forall i, j :: 0 <= i < dim + 2 && 0 <= j < dim + 2 ==> a[i][j] == b[i][j]
    ensures a == b
  {
    forall i | 0 <= i < dim + 2
      ensures a[i] == b[i]
    {
    }
  }
}
