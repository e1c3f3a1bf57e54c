/** The HIP vector-add program: a one-dimensional launch of numBlocks blocks
    of blockSize threads, each thread adding one pair of elements when its
    global index is inside the vector, repeated to keep the device busy, and
    a check of the first ten results. Element values are integers here. */
module VectorAdd {
  import opened DenseAlgebra

  /** Threads per block. */
  const BlockSize: nat := 256

  /** Number of back-to-back launches. */
  const NumIterations: nat := 1000

  /** Vector length of the program: 16 Mi elements. */
  const VectorLength: nat := 1024 * 1024 * 16

  /** Number of leading elements the verification reads. */
  const CheckedPrefix: nat := 10

  /** numBlocks = (N + blockSize - 1) / blockSize: the ceiling of N / blockSize. */
  function NumBlocks(n: nat, blockSize: nat): nat
    requires blockSize > 0
  {
    (n + blockSize - 1) / blockSize
  }

  /** The launch has enough threads for every element, and one block fewer
      would not: numBlocks·blockSize >= N and (numBlocks - 1)·blockSize < N. */
  lemma NumBlocksIsCeiling(n: nat, blockSize: nat)
    requires blockSize > 0
    ensures NumBlocks(n, blockSize) * blockSize >= n
    ensures (NumBlocks(n, blockSize) - 1) * blockSize < n
  {
    var q := NumBlocks(n, blockSize);
    var r := (n + blockSize - 1) % blockSize;
    assert q * blockSize + r == n + blockSize - 1;
    assert (q - 1) * blockSize == q * blockSize - blockSize;
  }

  /** idx = blockIdx.x·blockDim.x + threadIdx.x. */
  function GlobalIndex(block: nat, blockSize: nat, thread: nat): nat
  {
    block * blockSize + thread
  }

  /** Distinct (block, thread) pairs of a launch get distinct indices, and the
      indices of a launch of numBlocks blocks are exactly [0, numBlocks·blockSize). */
  lemma GlobalIndexBijective(numBlocks: nat, blockSize: nat)
    ensures forall b1, t1, b2, t2 ::
              (0 <= b1 < numBlocks && 0 <= t1 < blockSize && 0 <= b2 < numBlocks && 0 <= t2 < blockSize &&
               GlobalIndex(b1, blockSize, t1) == GlobalIndex(b2, blockSize, t2)) ==> b1 == b2 && t1 == t2
    ensures forall b, t :: 0 <= b < numBlocks && 0 <= t < blockSize ==>
              GlobalIndex(b, blockSize, t) < numBlocks * blockSize
    ensures forall k :: 0 <= k < numBlocks * blockSize ==>
              k / blockSize < numBlocks && k % blockSize < blockSize &&
              GlobalIndex(k / blockSize, blockSize, k % blockSize) == k
  {
    forall b1, t1, b2, t2 |
      0 <= b1 < numBlocks && 0 <= t1 < blockSize && 0 <= b2 < numBlocks && 0 <= t2 < blockSize &&
      GlobalIndex(b1, blockSize, t1) == GlobalIndex(b2, blockSize, t2)
      ensures b1 == b2 && t1 == t2
    {
      SameQuotient(b1, t1, b2, t2, blockSize);
    }
    forall b, t | 0 <= b < numBlocks && 0 <= t < blockSize
      ensures GlobalIndex(b, blockSize, t) < numBlocks * blockSize
    {
      RowMajorIndexInRange(b, t, numBlocks, blockSize);
    }
    forall k | 0 <= k < numBlocks * blockSize
      ensures k / blockSize < numBlocks && k % blockSize < blockSize &&
              GlobalIndex(k / blockSize, blockSize, k % blockSize) == k
    {
      QuotientBelow(k, numBlocks, blockSize);
    }
  }

  /** The contents of C after one launch that covers the first `covered`
      indices: C[i] = A[i] + B[i] where i < N and i is covered, the old C
      elsewhere. */
  function Launched(a: seq<int>, b: seq<int>, c: seq<int>, n: nat, covered: nat): (r: seq<int>)
    requires |a| == |c| && |b| == |c|
    ensures |r| == |c|
  {
    seq(|c|, i requires 0 <= i < |c| => if i < n && i < covered then a[i] + b[i] else c[i])
  }

  /** A launch with the ceiling block count writes every C[i], i < N, with
      A[i] + B[i] and never writes past N; launching again changes nothing. */
  lemma LaunchSpec(a: seq<int>, b: seq<int>, c: seq<int>, n: nat, blockSize: nat)
    requires |a| == |c| && |b| == |c| && blockSize > 0
    ensures forall i :: 0 <= i < |c| ==>
              Launched(a, b, c, n, NumBlocks(n, blockSize) * blockSize)[i] ==
              if i < n then a[i] + b[i] else c[i]
    ensures Launched(a, b, Launched(a, b, c, n, NumBlocks(n, blockSize) * blockSize), n, NumBlocks(n, blockSize) * blockSize)
            == Launched(a, b, c, n, NumBlocks(n, blockSize) * blockSize)
  {
    NumBlocksIsCeiling(n, blockSize);
  }

  /** One kernel launch of numBlocks blocks of blockSize threads, run block by
      block and thread by thread: the thread with global index idx writes
      C[idx] = A[idx] + B[idx] when idx < N, and nothing otherwise. */
  method VectorAddLaunch(a: array<int>, b: array<int>, c: array<int>, n: nat, numBlocks: nat, blockSize: nat)
    requires a.Length == c.Length && b.Length == c.Length && n <= c.Length
    requires c != a && c != b
    modifies c
    ensures c[..] == Launched(a[..], b[..], old(c[..]), n, numBlocks * blockSize)
  {
    ghost var c0 := c[..];
    for block := 0 to numBlocks
      invariant forall k :: 0 <= k < c.Length ==>
                  c[k] == if k < n && k < GlobalIndex(block, blockSize, 0) then a[k] + b[k] else c0[k]
    {
      for thread := 0 to blockSize
        invariant forall k :: 0 <= k < c.Length ==>
                    c[k] == if k < n && k < GlobalIndex(block, blockSize, thread) then a[k] + b[k] else c0[k]
      {
        var idx := GlobalIndex(block, blockSize, thread);
        if idx < n {
          c[idx] := a[idx] + b[idx];
        }
      }
      assert GlobalIndex(block, blockSize, blockSize) == GlobalIndex(block + 1, blockSize, 0);
    }
    assert GlobalIndex(numBlocks, blockSize, 0) == numBlocks * blockSize;
  }

  /** The launch loop: `iterations` launches with the ceiling block count.
      After at least one of them C[i] = A[i] + B[i] for every i < N, and
      C past N is untouched; further launches leave C as it is. */
  method LaunchRepeatedly(a: array<int>, b: array<int>, c: array<int>, n: nat, blockSize: nat, iterations: nat)
    requires a.Length == c.Length && b.Length == c.Length && n <= c.Length && blockSize > 0
    requires c != a && c != b
    modifies c
    ensures iterations > 0 ==> forall i :: 0 <= i < n ==> c[i] == a[i] + b[i]
    ensures forall i :: (iterations == 0 || n <= i) && 0 <= i < c.Length ==> c[i] == old(c[i])
  {
    var numBlocks := NumBlocks(n, blockSize);
    ghost var once := Launched(a[..], b[..], c[..], n, numBlocks * blockSize);
    LaunchSpec(a[..], b[..], c[..], n, blockSize);
    for iter := 0 to iterations
      invariant iter > 0 ==> c[..] == once
      invariant iter == 0 ==> c[..] == old(c[..])
    {
      VectorAddLaunch(a, b, c, n, numBlocks, blockSize);
    }
  }

  /** The verification loop: compare C[i] with A[i] + B[i] for the first ten
      elements and stop at the first mismatch. It passes exactly when all ten
      match; on failure `mismatchAt` is the first index that differs. */
  method VerifyPrefix(a: array<int>, b: array<int>, c: array<int>) returns (passed: bool, mismatchAt: nat)
    requires CheckedPrefix <= a.Length && CheckedPrefix <= b.Length && CheckedPrefix <= c.Length
    ensures passed <==> forall i :: 0 <= i < CheckedPrefix ==> c[i] == a[i] + b[i]
    ensures !passed ==> mismatchAt < CheckedPrefix && c[mismatchAt] != a[mismatchAt] + b[mismatchAt] &&
                        forall i :: 0 <= i < mismatchAt ==> c[i] == a[i] + b[i]
  {
    var i := 0;
    while i < CheckedPrefix && c[i] == a[i] + b[i]
      invariant 0 <= i <= CheckedPrefix
      invariant forall k :: 0 <= k < i ==> c[k] == a[k] + b[k]
    {
      i := i + 1;
    }
    passed := i == CheckedPrefix;
    mismatchAt := i;
  }

  /** The program: A[i] = i and B[i] = 2i, 1000 launches, then the check of
      the first ten elements. Every C[i] is 3i and the check passes. The
      program fixes N at 16 Mi; any N of at least ten behaves the same. */
  method RunVectorAdd(n: nat) returns (passed: bool, result: seq<int>)
    requires CheckedPrefix <= n
    ensures |result| == n && forall i :: 0 <= i < n ==> result[i] == 3 * i
    ensures passed
  {
    var hA := new int[n];
    var hB := new int[n];
    var hC := new int[n];
    for i := 0 to n
      invariant forall k :: 0 <= k < i ==> hA[k] == k && hB[k] == k * 2
    {
      hA[i] := i;
      hB[i] := i * 2;
    }
    LaunchRepeatedly(hA, hB, hC, n, BlockSize, NumIterations);
    var mismatchAt;
    passed, mismatchAt := VerifyPrefix(hA, hB, hC);
    result := hC[..];
  }

  /** The program at its own length of 16 Mi elements: every C[i] is 3i in
      exact arithmetic, and the check passes. */
  method RunProgram() returns (passed: bool, result: seq<int>)
    ensures |result| == VectorLength && forall i :: 0 <= i < VectorLength ==> result[i] == 3 * i
    ensures passed
  {
    passed, result := RunVectorAdd(VectorLength);
  }
}
