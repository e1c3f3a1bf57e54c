/** Sums shared by the dense matrix-vector programs.
    A matrix is a sequence of rows and a vector a sequence of integers; the
    flat buffers the programs allocate are read back as matrices through the
    two storage layouts below. */
module DenseAlgebra {

  /** `a` has `rows` rows of `cols` entries each. */
  predicate IsMatrix(a: seq<seq<int>>, rows: nat, cols: nat)
  {
    |a| == rows && forall i :: 0 <= i < rows ==> |a[i]| == cols
  }

  /** The sum of a[k] * b[k] over k < n. */
  function Dot(a: seq<int>, b: seq<int>, n: nat): int
    requires n <= |a| && n <= |b|
  {
    if n == 0 then 0 else Dot(a, b, n - 1) + a[n - 1] * b[n - 1]
  }

  /** The sum of v[k] over k < n. */
  function Sum(v: seq<int>, n: nat): int
    requires n <= |v|
  {
    if n == 0 then 0 else Sum(v, n - 1) + v[n - 1]
  }

  /** The product a·x: one row dot per row of `a`. */
  function MatVec(a: seq<seq<int>>, x: seq<int>, cols: nat): (y: seq<int>)
    requires forall i :: 0 <= i < |a| ==> cols <= |a[i]|
    requires cols <= |x|
    ensures |y| == |a|
    ensures forall i :: 0 <= i < |a| ==> y[i] == Dot(a[i], x, cols)
  {
    seq(|a|, i requires 0 <= i < |a| => Dot(a[i], x, cols))
  }

  /** The weighted total Σ_{i<rows} w[i] · (Σ_{j<cols} a[i][j]·x[j]). */
  function WeightedRowTotal(w: seq<int>, a: seq<seq<int>>, x: seq<int>, rows: nat, cols: nat): int
    requires rows <= |w| && rows <= |a| && cols <= |x|
    requires forall i :: 0 <= i < rows ==> cols <= |a[i]|
  {
    if rows == 0 then 0
    else WeightedRowTotal(w, a, x, rows - 1, cols) + w[rows - 1] * Dot(a[rows - 1], x, cols)
  }

  /** Every one of the first n entries of v equals c. */
  predicate AllEqual(v: seq<int>, c: int, n: nat)
    requires n <= |v|
  {
    forall k :: 0 <= k < n ==> v[k] == c
  }

  /** Every entry of the rows x cols matrix `a` equals c. */
  predicate MatrixAllEqual(a: seq<seq<int>>, c: int, rows: nat, cols: nat)
    requires rows <= |a| && forall i :: 0 <= i < rows ==> cols <= |a[i]|
  {
    forall i, j :: 0 <= i < rows && 0 <= j < cols ==> a[i][j] == c
  }

  /** The contents of a two-dimensional buffer, row by row. */
  ghost function Rows(a: array2<int>): (r: seq<seq<int>>)
    reads a
    ensures IsMatrix(r, a.Length0, a.Length1)
    ensures forall i, j :: 0 <= i < a.Length0 && 0 <= j < a.Length1 ==> r[i][j] == a[i, j]
  {
    seq(a.Length0, i reads a requires 0 <= i < a.Length0 =>
      seq(a.Length1, j reads a requires 0 <= j < a.Length1 => a[i, j]))
  }

  /** Where entry (i, j) of a rows x cols matrix lives in row-major storage. */
  function RowMajorIndex(i: int, j: int, cols: int): int
  {
    i * cols + j
  }

  /** Where entry (i, j) of a rows x cols matrix lives in column-major storage. */
  function ColMajorIndex(i: int, j: int, rows: int): int
  {
    i + rows * j
  }

  /** A row-major index stays inside the rows·cols allocation. */
  lemma RowMajorIndexInRange(i: int, j: int, rows: int, cols: int)
    requires 0 <= i < rows && 0 <= j < cols
    ensures 0 <= RowMajorIndex(i, j, cols) < rows * cols
  {
    assert i * cols + j < (i + 1) * cols;
    assert (i + 1) * cols <= rows * cols;
  }

  /** A column-major index stays inside the rows·cols allocation. */
  lemma ColMajorIndexInRange(i: int, j: int, rows: int, cols: int)
    requires 0 <= i < rows && 0 <= j < cols
    ensures 0 <= ColMajorIndex(i, j, rows) < rows * cols
  {
    assert i + rows * j < rows * (j + 1);
    assert rows * (j + 1) <= rows * cols;
  }

  /** The matrix a flat buffer holds in row-major order: entry (i, j) at i·cols + j. */
  function RowMajor(data: seq<int>, rows: nat, cols: nat): (a: seq<seq<int>>)
    requires rows * cols <= |data|
    ensures IsMatrix(a, rows, cols)
  {
    seq(rows, i requires 0 <= i < rows =>
      seq(cols, j requires 0 <= j < cols =>
        RowMajorIndexInRange(i, j, rows, cols); data[RowMajorIndex(i, j, cols)]))
  }

  /** Entry (i, j) of the row-major matrix is the buffer entry at i·cols + j. */
  lemma RowMajorEntry(data: seq<int>, rows: nat, cols: nat, i: nat, j: nat)
    requires rows * cols <= |data| && i < rows && j < cols
    ensures 0 <= RowMajorIndex(i, j, cols) < rows * cols
    ensures RowMajor(data, rows, cols)[i][j] == data[RowMajorIndex(i, j, cols)]
  {
    RowMajorIndexInRange(i, j, rows, cols);
  }

  /** The matrix a flat buffer holds in column-major order: entry (i, j) at i + rows·j. */
  function ColMajor(data: seq<int>, rows: nat, cols: nat): (a: seq<seq<int>>)
    requires rows * cols <= |data|
    ensures IsMatrix(a, rows, cols)
  {
    seq(rows, i requires 0 <= i < rows =>
      seq(cols, j requires 0 <= j < cols =>
        ColMajorIndexInRange(i, j, rows, cols); data[ColMajorIndex(i, j, rows)]))
  }

  /** Entry (i, j) of the column-major matrix is the buffer entry at i + rows·j. */
  lemma ColMajorEntry(data: seq<int>, rows: nat, cols: nat, i: nat, j: nat)
    requires rows * cols <= |data| && i < rows && j < cols
    ensures 0 <= ColMajorIndex(i, j, rows) < rows * cols
    ensures ColMajor(data, rows, cols)[i][j] == data[ColMajorIndex(i, j, rows)]
  {
    ColMajorIndexInRange(i, j, rows, cols);
  }

  /** Row-major flattening is a bijection from [0,rows)×[0,cols) onto [0,rows·cols):
      distinct cells get distinct indices, and every index k is the image of
      (k / cols, k % cols). */
  lemma RowMajorBijective(rows: nat, cols: nat)
    ensures forall i1, j1, i2, j2 ::
              (0 <= i1 < rows && 0 <= j1 < cols && 0 <= i2 < rows && 0 <= j2 < cols &&
               RowMajorIndex(i1, j1, cols) == RowMajorIndex(i2, j2, cols)) ==> i1 == i2 && j1 == j2
    ensures forall k :: 0 <= k < rows * cols ==>
              0 <= k / cols < rows && 0 <= k % cols < cols && RowMajorIndex(k / cols, k % cols, cols) == k
  {
    forall i1, j1, i2, j2 |
      0 <= i1 < rows && 0 <= j1 < cols && 0 <= i2 < rows && 0 <= j2 < cols &&
      RowMajorIndex(i1, j1, cols) == RowMajorIndex(i2, j2, cols)
      ensures i1 == i2 && j1 == j2
    {
      SameQuotient(i1, j1, i2, j2, cols);
    }
    forall k | 0 <= k < rows * cols
      ensures 0 <= k / cols < rows && 0 <= k % cols < cols && RowMajorIndex(k / cols, k % cols, cols) == k
    {
      QuotientBelow(k, rows, cols);
    }
  }

  /** Column-major flattening is a bijection from [0,rows)×[0,cols) onto [0,rows·cols):
      distinct cells get distinct indices, and every index k is the image of
      (k % rows, k / rows). */
  lemma ColMajorBijective(rows: nat, cols: nat)
    ensures forall i1, j1, i2, j2 ::
              (0 <= i1 < rows && 0 <= j1 < cols && 0 <= i2 < rows && 0 <= j2 < cols &&
               ColMajorIndex(i1, j1, rows) == ColMajorIndex(i2, j2, rows)) ==> i1 == i2 && j1 == j2
    ensures forall k :: 0 <= k < rows * cols ==>
              0 <= k % rows < rows && 0 <= k / rows < cols && ColMajorIndex(k % rows, k / rows, rows) == k
  {
    forall i1, j1, i2, j2 |
      0 <= i1 < rows && 0 <= j1 < cols && 0 <= i2 < rows && 0 <= j2 < cols &&
      ColMajorIndex(i1, j1, rows) == ColMajorIndex(i2, j2, rows)
      ensures i1 == i2 && j1 == j2
    {
      SameQuotient(j1, i1, j2, i2, rows);
    }
    forall k | 0 <= k < rows * cols
      ensures 0 <= k % rows < rows && 0 <= k / rows < cols && ColMajorIndex(k % rows, k / rows, rows) == k
    {
      QuotientBelow(k, cols, rows);
    }
  }

  /** Multiplying by a non-negative factor keeps order. */
  lemma MulMonotone(a: int, b: int, q: nat)
    requires a <= b
    ensures a * q <= b * q
  {
    assert b * q - a * q == (b - a) * q;
  }

  /** q·d + r determines q and r when 0 <= r < d. */
  lemma SameQuotient(q1: int, r1: int, q2: int, r2: int, d: int)
    requires 0 <= r1 < d && 0 <= r2 < d
    requires q1 * d + r1 == q2 * d + r2
    ensures q1 == q2 && r1 == r2
  {
    var e := q1 - q2;
    assert e * d == r2 - r1;
    assert e >= 1 ==> e * d >= d;
    assert e <= -1 ==> e * d <= -d;
  }

  /** The quotient of an index below n·d by d is below n. */
  lemma QuotientBelow(k: int, n: int, d: int)
    requires 0 <= n && 0 <= k < n * d
    ensures 0 < d && 0 <= k / d < n && 0 <= k % d < d && (k / d) * d + k % d == k
  {
    assert d <= 0 ==> n * d <= 0;
    assert 0 < d;
    assert (k / d) * d <= k < n * d;
    assert (n - k / d) * d > 0;
  }

  /** A dot product of vectors whose first n entries are all one is n. */
  lemma {:induction false} DotOfOnes(a: seq<int>, b: seq<int>, n: nat)
    requires n <= |a| && n <= |b|
    requires AllEqual(a, 1, n) && AllEqual(b, 1, n)
    ensures Dot(a, b, n) == n
  {
    if n > 0 {
      DotOfOnes(a, b, n - 1);
    }
  }

  /** Summing n copies of c gives n·c. */
  lemma {:induction false} SumOfConstant(v: seq<int>, c: int, n: nat)
    requires n <= |v| && AllEqual(v, c, n)
    ensures Sum(v, n) == n * c
  {
    if n > 0 {
      SumOfConstant(v, c, n - 1);
      assert n * c == (n - 1) * c + c;
    }
  }

  /** With all-ones weights, matrix and vector, the weighted row total is rows·cols. */
  lemma {:induction false} WeightedRowTotalOfOnes(w: seq<int>, a: seq<seq<int>>, x: seq<int>, rows: nat, cols: nat)
    requires rows <= |a| && forall i :: 0 <= i < rows ==> cols <= |a[i]|
    requires rows <= |w| && cols <= |x|
    requires AllEqual(w, 1, rows) && MatrixAllEqual(a, 1, rows, cols) && AllEqual(x, 1, cols)
    ensures WeightedRowTotal(w, a, x, rows, cols) == rows * cols
  {
    if rows > 0 {
      WeightedRowTotalOfOnes(w, a, x, rows - 1, cols);
      DotOfOnes(a[rows - 1], x, cols);
      assert rows * cols == (rows - 1) * cols + cols;
    }
  }

  /** Dot products only look at their first n entries. */
  lemma {:induction false} DotPrefixOnly(a: seq<int>, b: seq<int>, a': seq<int>, b': seq<int>, n: nat)
    requires n <= |a| && n <= |b| && n <= |a'| && n <= |b'|
    requires forall k :: 0 <= k < n ==> a[k] == a'[k] && b[k] == b'[k]
    ensures Dot(a, b, n) == Dot(a', b', n)
  {
    if n > 0 {
      DotPrefixOnly(a, b, a', b', n - 1);
    }
  }

  /** A dot product over off + n entries splits into the first off entries and
      the n entries after them. */
  lemma {:induction false} DotSplit(a: seq<int>, b: seq<int>, off: nat, n: nat)
    requires off + n <= |a| && off + n <= |b|
    ensures Dot(a, b, off + n) == Dot(a, b, off) + Dot(a[off..off + n], b[off..off + n], n)
  {
    if n > 0 {
      DotSplit(a, b, off, n - 1);
      DotPrefixOnly(a[off..off + n], b[off..off + n], a[off..off + n - 1], b[off..off + n - 1], n - 1);
    }
  }

  /** Two rows x cols matrices whose entries are all c are the same matrix. */
  lemma ConstantMatricesEqual(a: seq<seq<int>>, b: seq<seq<int>>, c: int, rows: nat, cols: nat)
    requires IsMatrix(a, rows, cols) && IsMatrix(b, rows, cols)
    requires MatrixAllEqual(a, c, rows, cols) && MatrixAllEqual(b, c, rows, cols)
    ensures a == b
  {
    forall i | 0 <= i < rows
      ensures a[i] == b[i]
    {
    }
  }
}
