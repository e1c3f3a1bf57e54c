/** The Kokkos Game of Life programs: two zero-initialised views, a seed of
    the board's first dim - 1 rows and columns, a parallel kernel over the
    columns, the view-handle swap, and the live counts before and after.
    The kernel as written iterates over columns 0 .. dim - 1; it is modelled
    here as written and then corrected to the board columns 1 .. dim. */
module KokkosLife {
  import opened DenseAlgebra
  import opened LifeRules
  import SerialLife

  /** The number of generations of the single-generation program. */
  const ShortRunGenerations: nat := 1

  /** The number of generations of the long-run program. */
  const LongRunGenerations: nat := 1000

  /** The last row and column the Kokkos seed loops reach (i < dim, j < dim). */
  function SeedLimit(dim: nat): (last: nat)
    ensures last <= dim
    ensures dim > 0 ==> last + 1 == dim
  {
    if dim == 0 then 0 else dim - 1
  }

  /** A read of the view at (r, c); a read outside the (dim+2)² allocation
      yields `outside`, a value the program does not control. */
  function ReadOr(a: seq<seq<int>>, dim: nat, r: int, c: int, outside: int): int
    requires IsBoard(a, dim)
  {
    if 0 <= r < dim + 2 && 0 <= c < dim + 2 then a[r][c] else outside
  }

  /** The kernel's eight-neighbour sum at any (i, j), off-grid reads included. */
  function NeighborSumAsWritten(a: seq<seq<int>>, dim: nat, i: int, j: int, outside: int): int
    requires IsBoard(a, dim)
  {
    ReadOr(a, dim, i + 1, j, outside) + ReadOr(a, dim, i - 1, j, outside)
      + ReadOr(a, dim, i, j + 1, outside) + ReadOr(a, dim, i, j - 1, outside)
      + ReadOr(a, dim, i + 1, j + 1, outside) + ReadOr(a, dim, i - 1, j - 1, outside)
      + ReadOr(a, dim, i - 1, j + 1, outside) + ReadOr(a, dim, i + 1, j - 1, outside)
  }

  /** On board cells the kernel's sum is the padded neighbour sum: every read
      stays inside the allocation. */
  lemma NeighborSumAsWrittenOnBoard(a: seq<seq<int>>, dim: nat, i: nat, j: nat, outside: int)
    requires IsBoard(a, dim) && Interior(i, j, dim)
    ensures NeighborSumAsWritten(a, dim, i, j, outside) == NeighborSum(a, dim, i, j)
  {
  }

  /** The destination view after the kernel as written: the lambda index j
      runs over 0 .. dim - 1 and i over 1 .. dim; every other cell of the
      destination keeps its value. */
  function KernelAsWritten(a: seq<seq<int>>, b: seq<seq<int>>, dim: nat, outside: int): (r: seq<seq<int>>)
    requires IsBoard(a, dim) && IsBoard(b, dim)
    ensures IsBoard(r, dim)
  {
    seq(dim + 2, i requires 0 <= i < dim + 2 =>
      seq(dim + 2, j requires 0 <= j < dim + 2 =>
        if 1 <= i <= dim && 0 <= j < dim then NextCell(a[i][j], NeighborSumAsWritten(a, dim, i, j, outside))
        else b[i][j]))
  }

  /** As written, column 0 of every board row is updated and its sum reads
      column -1, outside the view, while board column dim is never updated:
      it keeps the destination's stale value, whatever the source holds. */
  lemma AsWrittenColumnRange(a: seq<seq<int>>, b: seq<seq<int>>, dim: nat, outside: int)
    requires IsBoard(a, dim) && IsBoard(b, dim) && dim >= 1
    ensures forall i :: 1 <= i <= dim ==>
              KernelAsWritten(a, b, dim, outside)[i][0] == NextCell(a[i][0], NeighborSumAsWritten(a, dim, i, 0, outside))
    ensures forall i :: 0 <= i < dim + 2 ==> KernelAsWritten(a, b, dim, outside)[i][dim] == b[i][dim]
  {
  }

  /** As written, a dead padding cell (i, 0) whose three neighbours in board
      column 1 are alive comes to life, even when the off-grid reads yield 0;
      the padding ring the rules rely on is then lost from the next generation
      on. The evolved board keeps that cell dead. */
  lemma AsWrittenRevivesPadding(a: seq<seq<int>>, b: seq<seq<int>>, dim: nat, i: nat)
    requires ValidBoard(a, dim) && IsBoard(b, dim) && 1 <= i <= dim
    requires a[i - 1][1] + a[i][1] + a[i + 1][1] == 3
    ensures KernelAsWritten(a, b, dim, 0)[i][0] == 1
    ensures !ZeroBorder(KernelAsWritten(a, b, dim, 0), dim)
    ensures Evolve(a, dim)[i][0] == 0
  {
    var r := KernelAsWritten(a, b, dim, 0);
    assert a[i][0] == 0 && a[i - 1][0] == 0 && a[i + 1][0] == 0;
    assert NeighborSumAsWritten(a, dim, i, 0, 0) == 3;
    assert r[i][0] == NextCell(a[i][0], 3);
    assert !Interior(i, 0, dim) && r[i][0] != 0;
  }

  /** The seed bits whose only live cells are rows 1 .. dim - 1 of board
      column 1, the rows the seed loops reach. */
  function ColumnOneAlive(dim: nat): (g: seq<seq<int>>)
    ensures ValidBoard(g, dim)
    ensures forall i :: 1 <= i < dim ==> g[i][1] == 1
  {
    seq(dim + 2, i requires 0 <= i < dim + 2 =>
      seq(dim + 2, j requires 0 <= j < dim + 2 => if 1 <= i < dim && j == 1 then 1 else 0))
  }

  /** Counterexample: seeding column 1 of a board of side at least 4 gives a
      first generation in which the kernel as written makes padding cell
      (2, 0) alive, where the evolved board keeps it dead. */
  lemma ColumnOneRevivesPadding(dim: nat)
    requires dim >= 4
    ensures Seeded(DeadBoard(dim), dim, SeedLimit(dim), ColumnOneAlive(dim)) == ColumnOneAlive(dim)
    ensures KernelAsWritten(ColumnOneAlive(dim), DeadBoard(dim), dim, 0)[2][0] == 1
    ensures Evolve(ColumnOneAlive(dim), dim)[2][0] == 0
  {
    var g := ColumnOneAlive(dim);
    BoardsEqual(Seeded(DeadBoard(dim), dim, SeedLimit(dim), g), g, dim);
    assert g[1][1] + g[2][1] + g[3][1] == 3;
    AsWrittenRevivesPadding(g, DeadBoard(dim), dim, 2);
  }

  /** The seed bits of a 4 x 4 board whose live cells are (1, 3), (2, 3)
      and (3, 3), a vertical bar next to board column 4. */
  function BarNextToLastColumn(): (g: seq<seq<int>>)
    ensures ValidBoard(g, 4)
  {
    [[0, 0, 0, 0, 0, 0],
     [0, 0, 0, 1, 0, 0],
     [0, 0, 0, 1, 0, 0],
     [0, 0, 0, 1, 0, 0],
     [0, 0, 0, 0, 0, 0],
     [0, 0, 0, 0, 0, 0]]
  }

  /** Counterexample: the bar is a seed the program can draw on a 4 x 4 board
      (rows and columns 1 .. 3). Its evolved board has a birth at (2, 4) in
      board column 4, which the kernel as written never updates: the
      destination, a zero-initialised view, keeps that cell dead. */
  lemma AsWrittenMissesBirth(outside: int)
    ensures Seeded(DeadBoard(4), 4, SeedLimit(4), BarNextToLastColumn()) == BarNextToLastColumn()
    ensures Evolve(BarNextToLastColumn(), 4)[2][4] == 1
    ensures KernelAsWritten(BarNextToLastColumn(), DeadBoard(4), 4, outside)[2][4] == 0
  {
    var g := BarNextToLastColumn();
    BoardsEqual(Seeded(DeadBoard(4), 4, SeedLimit(4), g), g, 4);
    assert NeighborSum(g, 4, 2, 4) == 3;
  }

  /** Board column dim is dead in every row, padding rows included. */
  predicate ColumnDead(g: seq<seq<int>>, dim: nat)
    requires IsBoard(g, dim)
  {
    forall i :: 0 <= i < dim + 2 ==> g[i][dim] == 0
  }

  /** The views (A, B) after n generations of the program as written: the
      kernel as written fills B from A, then the handles swap. */
  function AsWrittenRun(a: seq<seq<int>>, b: seq<seq<int>>, dim: nat, outside: int, n: nat): (r: (seq<seq<int>>, seq<seq<int>>))
    requires IsBoard(a, dim) && IsBoard(b, dim)
    ensures IsBoard(r.0, dim) && IsBoard(r.1, dim)
    decreases n
  {
    if n == 0 then (a, b) else AsWrittenRun(KernelAsWritten(a, b, dim, outside), a, dim, outside, n - 1)
  }

  /** As written, board column dim stays dead in both views for the whole
      run when it starts dead in both, as it does after the seed: the
      program never computes a cell of that column. */
  lemma {:induction false} AsWrittenRunKeepsColumnDead(a: seq<seq<int>>, b: seq<seq<int>>, dim: nat, outside: int, n: nat)
    requires IsBoard(a, dim) && IsBoard(b, dim) && ColumnDead(a, dim) && ColumnDead(b, dim)
    ensures ColumnDead(AsWrittenRun(a, b, dim, outside, n).0, dim)
    ensures ColumnDead(AsWrittenRun(a, b, dim, outside, n).1, dim)
    decreases n
  {
    if n > 0 {
      var next := KernelAsWritten(a, b, dim, outside);
      assert ColumnDead(next, dim) by {
        forall i | 0 <= i < dim + 2
          ensures next[i][dim] == 0
        {
          assert next[i][dim] == b[i][dim];
        }
      }
      AsWrittenRunKeepsColumnDead(next, a, dim, outside, n - 1);
    }
  }

  /** As written, every cell of both views stays 0 or 1, whatever the reads
      outside the allocation return: each cell written is a rule result or
      a copy of a 0/1 cell. */
  lemma {:induction false} AsWrittenRunZeroOne(a: seq<seq<int>>, b: seq<seq<int>>, dim: nat, outside: int, n: nat)
    requires IsBoard(a, dim) && IsBoard(b, dim) && ZeroOne(a, dim) && ZeroOne(b, dim)
    ensures ZeroOne(AsWrittenRun(a, b, dim, outside, n).0, dim)
    ensures ZeroOne(AsWrittenRun(a, b, dim, outside, n).1, dim)
    decreases n
  {
    if n > 0 {
      var next := KernelAsWritten(a, b, dim, outside);
      assert ZeroOne(next, dim) by {
        forall i, j | 0 <= i < dim + 2 && 0 <= j < dim + 2
          ensures next[i][j] == 0 || next[i][j] == 1
        {
          if 1 <= i <= dim && 0 <= j < dim {
            assert next[i][j] == NextCell(a[i][j], NeighborSumAsWritten(a, dim, i, j, outside));
          } else {
            assert next[i][j] == b[i][j];
          }
        }
      }
      AsWrittenRunZeroOne(next, a, dim, outside, n - 1);
    }
  }

  /** The count the program as written reports after `generations`: the
      live board cells of A after the as-written run from the seed, with B
      zero-initialised. It lies in [0, dim²], and no live cell of column dim
      is ever part of it. */
  lemma AsWrittenProgramCount(dim: nat, bits: seq<seq<int>>, outside: int, generations: nat)
    requires IsBoard(bits, dim) && ZeroOne(bits, dim)
    ensures var final := AsWrittenRun(Seeded(DeadBoard(dim), dim, SeedLimit(dim), bits), DeadBoard(dim), dim, outside, generations).0;
            0 <= AliveCount(final, dim) <= dim * dim && ColumnDead(final, dim)
  {
    var seed := Seeded(DeadBoard(dim), dim, SeedLimit(dim), bits);
    SeededBoard(dim, SeedLimit(dim), bits);
    if dim > 0 {
      assert ColumnDead(seed, dim) by {
        forall i | 0 <= i < dim + 2
          ensures seed[i][dim] == 0
        {
          assert dim > SeedLimit(dim);
        }
      }
    }
    AsWrittenRunKeepsColumnDead(seed, DeadBoard(dim), dim, outside, generations);
    AsWrittenRunZeroOne(seed, DeadBoard(dim), dim, outside, generations);
    AliveCountBounds(AsWrittenRun(seed, DeadBoard(dim), dim, outside, generations).0, dim);
  }

  /** One call of the kernel lambda: column j of the board, rows 1 .. dim,
      receives the rule applied to A; nothing else in B changes. */
  method UpdateColumn(a: array2<int>, b: array2<int>, dim: nat, j: nat)
    requires a.Length0 == dim + 2 && a.Length1 == dim + 2
    requires b.Length0 == dim + 2 && b.Length1 == dim + 2
    requires a != b && 1 <= j <= dim
    modifies b
    ensures forall r, c :: 0 <= r < dim + 2 && 0 <= c < dim + 2 ==>
              b[r, c] == if c == j && 1 <= r <= dim then Evolve(Rows(a), dim)[r][c] else old(b[r, c])
  {
    ghost var g := Rows(a);
    ghost var e := Evolve(g, dim);
    for i := 1 to dim + 1
      invariant Rows(a) == g
      invariant forall r, c :: 0 <= r < dim + 2 && 0 <= c < dim + 2 ==>
                  b[r, c] == if c == j && 1 <= r < i then e[r][c] else old(b[r, c])
    {
      var next := CellUpdate(a, dim, i, j);
      assert next == e[i][j];
      b[i, j] := next;
      forall r, c | 0 <= r < dim + 2 && 0 <= c < dim + 2
        ensures b[r, c] == if c == j && 1 <= r < i + 1 then e[r][c] else old(b[r, c])
      {
        if r == i && c == j {
          assert b[r, c] == next;
        } else {
          assert b[r, c] == old(b[r, c]) || (c == j && 1 <= r < i);
        }
      }
    }
  }

  /** The kernel over the board columns 1 .. dim, one column per lambda call
      and the rows 1 .. dim inside it: every board cell of B receives the
      rule applied to A, the padding of B is not written. */
  method KernelGeneration(a: array2<int>, b: array2<int>, dim: nat)
    requires a.Length0 == dim + 2 && a.Length1 == dim + 2
    requires b.Length0 == dim + 2 && b.Length1 == dim + 2
    requires a != b
    modifies b
    ensures forall i, j :: 0 <= i < dim + 2 && 0 <= j < dim + 2 ==>
              b[i, j] == if Interior(i, j, dim) then Evolve(Rows(a), dim)[i][j] else old(b[i, j])
  {
    ghost var e := Evolve(Rows(a), dim);
    for j := 1 to dim + 1
      invariant Evolve(Rows(a), dim) == e
      invariant forall r, c :: 0 <= r < dim + 2 && 0 <= c < dim + 2 ==>
                  b[r, c] == if 1 <= c < j && 1 <= r <= dim then e[r][c] else old(b[r, c])
    {
      UpdateColumn(a, b, dim, j);
    }
  }

  /** The corrected kernel and the kernel as written agree on every board
      cell of columns 1 .. dim - 1 and differ only in which columns they
      touch: the as-written version adds padding column 0 and drops column dim. */
  lemma CorrectedAgreesInsideRange(a: seq<seq<int>>, b: seq<seq<int>>, dim: nat, outside: int, i: nat, j: nat)
    requires IsBoard(a, dim) && IsBoard(b, dim)
    requires 1 <= i <= dim && 1 <= j < dim
    ensures KernelAsWritten(a, b, dim, outside)[i][j] == Evolve(a, dim)[i][j]
  {
    NeighborSumAsWrittenOnBoard(a, dim, i, j, outside);
    var sum := NeighborSum(a, dim, i, j);
    assert KernelAsWritten(a, b, dim, outside)[i][j] == NextCell(a[i][j], sum);
    assert Evolve(a, dim)[i][j] == NextCell(a[i][j], sum);
  }

  /** The generations loop with the view-handle swap (tmp = A; A = B; B = tmp):
      after `generations` kernels, A holds the board evolved that many times. */
  method RunGenerations(a: array2<int>, b: array2<int>, dim: nat, generations: nat)
      returns (cur: array2<int>, spare: array2<int>)
    requires a.Length0 == dim + 2 && a.Length1 == dim + 2
    requires b.Length0 == dim + 2 && b.Length1 == dim + 2
    requires a != b
    requires ValidBoard(Rows(a), dim) && ZeroBorder(Rows(b), dim)
    modifies a, b
    ensures (cur == a && spare == b) || (cur == b && spare == a)
    ensures Rows(cur) == Iterate(old(Rows(a)), dim, generations)
    ensures ValidBoard(Rows(cur), dim)
  {
    ghost var g0 := Rows(a);
    cur, spare := a, b;
    var gen := 0;
    while gen < generations
      invariant 0 <= gen <= generations
      invariant (cur == a && spare == b) || (cur == b && spare == a)
      invariant Rows(cur) == Iterate(g0, dim, gen)
      invariant ValidBoard(Rows(cur), dim) && ZeroBorder(Rows(spare), dim)
    {
      ghost var before := Rows(spare);
      KernelGeneration(cur, spare, dim);
      SerialLife.GenerationIsEvolve(before, Rows(spare), Rows(cur), dim);
      EvolveKeepsValid(Rows(cur), dim);
      var tmp := cur;
      cur := spare;
      spare := tmp;
      gen := gen + 1;
    }
  }

  /** The whole Kokkos program on zero-initialised views: seed rows and
      columns 1 .. dim - 1, count the initial live cells, run the generations,
      count again. Both counts lie in [0, dim²]. */
  method KokkosGameOfLife(a: array2<int>, b: array2<int>, dim: nat, bits: seq<seq<int>>, generations: nat)
      returns (initialAlive: int, stillAlive: int)
    requires a.Length0 == dim + 2 && a.Length1 == dim + 2
    requires b.Length0 == dim + 2 && b.Length1 == dim + 2
    requires a != b
    requires Rows(a) == DeadBoard(dim) && Rows(b) == DeadBoard(dim)
    requires IsBoard(bits, dim) && ZeroOne(bits, dim)
    modifies a, b
    ensures initialAlive == AliveCount(Seeded(DeadBoard(dim), dim, SeedLimit(dim), bits), dim)
    ensures stillAlive == AliveCount(Iterate(Seeded(DeadBoard(dim), dim, SeedLimit(dim), bits), dim, generations), dim)
    ensures 0 <= initialAlive <= dim * dim && 0 <= stillAlive <= dim * dim
  {
    SerialLife.SeedGrid(a, dim, SeedLimit(dim), bits);
    SeededBoard(dim, SeedLimit(dim), bits);
    initialAlive := SerialLife.StillAlive(a, dim);
    AliveCountBounds(Rows(a), dim);
    var cur, spare := RunGenerations(a, b, dim, generations);
    stillAlive := SerialLife.StillAlive(cur, dim);
    AliveCountBounds(Rows(cur), dim);
  }

  /** The single-generation program: the pipeline over one generation. */
  method ShortRun(a: array2<int>, b: array2<int>, dim: nat, bits: seq<seq<int>>)
      returns (initialAlive: int, stillAlive: int)
    requires a.Length0 == dim + 2 && a.Length1 == dim + 2
    requires b.Length0 == dim + 2 && b.Length1 == dim + 2
    requires a != b
    requires Rows(a) == DeadBoard(dim) && Rows(b) == DeadBoard(dim)
    requires IsBoard(bits, dim) && ZeroOne(bits, dim)
    modifies a, b
    ensures initialAlive == AliveCount(Seeded(DeadBoard(dim), dim, SeedLimit(dim), bits), dim)
    ensures stillAlive == AliveCount(Evolve(Seeded(DeadBoard(dim), dim, SeedLimit(dim), bits), dim), dim)
    ensures 0 <= initialAlive <= dim * dim && 0 <= stillAlive <= dim * dim
  {
    initialAlive, stillAlive := KokkosGameOfLife(a, b, dim, bits, ShortRunGenerations);
  }

  /** The long-run program: the same pipeline over 1000 generations. */
  method LongRun(a: array2<int>, b: array2<int>, dim: nat, bits: seq<seq<int>>)
      returns (initialAlive: int, stillAlive: int)
    requires a.Length0 == dim + 2 && a.Length1 == dim + 2
    requires b.Length0 == dim + 2 && b.Length1 == dim + 2
    requires a != b
    requires Rows(a) == DeadBoard(dim) && Rows(b) == DeadBoard(dim)
    requires IsBoard(bits, dim) && ZeroOne(bits, dim)
    modifies a, b
    ensures initialAlive == AliveCount(Seeded(DeadBoard(dim), dim, SeedLimit(dim), bits), dim)
    ensures stillAlive == AliveCount(Iterate(Seeded(DeadBoard(dim), dim, SeedLimit(dim), bits), dim, LongRunGenerations), dim)
    ensures 0 <= initialAlive <= dim * dim && 0 <= stillAlive <= dim * dim
  {
    initialAlive, stillAlive := KokkosGameOfLife(a, b, dim, bits, LongRunGenerations);
  }
}
