/** The recursive merge sort of a one-dimensional view: split at the
    midpoint, sort both halves in place, then merge them through a fresh
    scratch view and copy the result back. The program allocates 50 scratch
    slots per merge; the sort here allocates high + 1. */
module TopDownSort {
  import opened MergeSpec

  /** The number of slots of the scratch view each merge allocates as written. */
  const ScratchSize: nat := 50

  /** A scratch view of `size` slots holds every index a merge of [low, high]
      writes, which run from low to high. */
  predicate ScratchHolds(high: int, size: nat)
  {
    high < size
  }

  /** As written, the scratch view has ScratchSize slots whatever the range.
      Sorting 51 elements ends with the merge of [0, 50], split at 25, whose
      last write is slot 50, one past the view; every merge ending at
      high >= 50 writes past the view in the same way. A view of high + 1
      slots holds every write of a merge ending at any `high`. */
  lemma FixedScratchOverflows(high: nat)
    ensures (0 + 50) / 2 == 25 && !ScratchHolds(50, ScratchSize)
    ensures high >= ScratchSize ==> !ScratchHolds(high, ScratchSize)
    ensures ScratchHolds(high, high + 1)
  {
  }

  /** The midpoint split: for low < high, mid = (low + high) / 2 leaves two
      non-empty ranges [low, mid] and [mid + 1, high], each strictly shorter
      than [low, high], so the recursion ends. */
  lemma MidpointSplits(low: int, high: int)
    requires 0 <= low < high
    ensures low <= (low + high) / 2 < high
    ensures (low + high) / 2 - low < high - low && high - ((low + high) / 2 + 1) < high - low
  {
  }

  /** Merges the adjacent runs arr[low..mid] and arr[mid+1..high] (inclusive
      bounds) through the scratch view: arr[low..high] becomes their merge and
      nothing else in arr changes. The scratch view has `scratchSize` slots,
      which must hold every scratch index k in [low, high]. */
  method Merge(arr: array<int>, low: int, high: int, mid: int, scratchSize: nat)
    requires 0 <= low <= mid + 1 <= high + 1 <= arr.Length
    requires ScratchHolds(high, scratchSize)
    modifies arr
    ensures arr[low..high + 1] == Merged(old(arr[low..mid + 1]), old(arr[mid + 1..high + 1]))
    ensures forall k :: 0 <= k < arr.Length && !(low <= k <= high) ==> arr[k] == old(arr[k])
  {
    var c := new int[scratchSize];
    ghost var a := arr[..];
    ghost var left, right := arr[low..mid + 1], arr[mid + 1..high + 1];
    ghost var whole := MergeFrom(a, low, mid + 1, mid + 1, high + 1);
    MergeFromIsMerged(a, low, mid + 1, mid + 1, high + 1);
    assert a[low..mid + 1] == left && a[mid + 1..high + 1] == right;
    assert whole == Merged(left, right);
    var i, j, k, out := TakeSmallerHeads(arr, c, low, high, mid, low, mid + 1, low, [], whole);
    assert arr[..] == a;
    i, j, k, out := CopyLeftRun(arr, c, low, high, mid, i, j, k, out, whole);
    assert arr[..] == a;
    j, k, out := CopyRightRun(arr, c, low, high, mid, j, k, out, whole);
    assert arr[..] == a;
    MergeFinished(a, out, mid + 1, mid + 1, j, high + 1, whole);
    assert out == whole && k == high + 1;
    CopyBack(arr, c, low, k, whole);
    assert arr[low..high + 1] == whole;
  }

  /** The final loop: scratch slots low .. k - 1 are copied back into arr. */
  method CopyBack(arr: array<int>, c: array<int>, low: int, k: int, ghost merged: seq<int>)
    requires 0 <= low <= k <= arr.Length && k <= c.Length && arr != c
    requires |merged| == k - low && forall t :: low <= t < k ==> c[t] == merged[t - low]
    modifies arr
    ensures arr[low..k] == merged
    ensures forall m :: 0 <= m < arr.Length && !(low <= m < k) ==> arr[m] == old(arr[m])
  {
    var i := low;
    while i < k
      invariant low <= i <= k
      invariant forall t :: low <= t < i ==> arr[t] == merged[t - low]
      invariant forall m :: 0 <= m < arr.Length && !(low <= m < i) ==> arr[m] == old(arr[m])
    {
      arr[i] := c[i];
      i := i + 1;
    }
  }

  /** The first merge loop: while both runs have elements, copy the left head
      into the scratch view if it is strictly smaller, else the right head. */
  method TakeSmallerHeads(arr: array<int>, c: array<int>, low: int, high: int, mid: int,
                          i0: int, j0: int, k0: int, ghost out0: seq<int>, ghost whole: seq<int>)
      returns (i: int, j: int, k: int, ghost out: seq<int>)
    requires high < c.Length && arr != c && 0 <= low <= i0 && k0 == i0 + j0 - mid - 1
    requires MergeProgress(arr[..], out0, i0, mid + 1, j0, high + 1, whole)
    requires |out0| == k0 - low && forall t :: low <= t < k0 ==> c[t] == out0[t - low]
    modifies c
    ensures i0 <= i <= mid + 1 && j0 <= j <= high + 1 && k == i + j - mid - 1 && (i > mid || j > high)
    ensures MergeProgress(arr[..], out, i, mid + 1, j, high + 1, whole)
    ensures |out| == k - low && forall t :: low <= t < k ==> c[t] == out[t - low]
  {
    ghost var a := arr[..];
    i, j, k, out := i0, j0, k0, out0;
    while i <= mid && j <= high
      invariant i0 <= i <= mid + 1 && j0 <= j <= high + 1 && k == i + j - mid - 1
      invariant |out| == k - low && forall t :: low <= t < k ==> c[t] == out[t - low]
      invariant MergeProgress(a, out, i, mid + 1, j, high + 1, whole)
    {
      if arr[i] < arr[j] {
        StepLeft(a, out, i, mid + 1, j, high + 1, whole);
        c[k] := arr[i];
        out := out + [a[i]];
        k := k + 1;
        i := i + 1;
      } else {
        StepRight(a, out, i, mid + 1, j, high + 1, whole);
        c[k] := arr[j];
        out := out + [a[j]];
        k := k + 1;
        j := j + 1;
      }
    }
  }

  /** The second merge loop: copy what is left of the left run. */
  method CopyLeftRun(arr: array<int>, c: array<int>, low: int, high: int, mid: int,
                     i0: int, j0: int, k0: int, ghost out0: seq<int>, ghost whole: seq<int>)
      returns (i: int, j: int, k: int, ghost out: seq<int>)
    requires high < c.Length && arr != c && 0 <= low <= i0 && k0 == i0 + j0 - mid - 1
    requires i0 <= mid ==> j0 == high + 1
    requires MergeProgress(arr[..], out0, i0, mid + 1, j0, high + 1, whole)
    requires |out0| == k0 - low && forall t :: low <= t < k0 ==> c[t] == out0[t - low]
    modifies c
    ensures i == mid + 1 && j == j0 && k == i + j - mid - 1
    ensures MergeProgress(arr[..], out, i, mid + 1, j, high + 1, whole)
    ensures |out| == k - low && forall t :: low <= t < k ==> c[t] == out[t - low]
  {
    ghost var a := arr[..];
    i, j, k, out := i0, j0, k0, out0;
    while i <= mid
      invariant i0 <= i <= mid + 1 && k == i + j - mid - 1
      invariant |out| == k - low && forall t :: low <= t < k ==> c[t] == out[t - low]
      invariant MergeProgress(a, out, i, mid + 1, j, high + 1, whole)
    {
      StepLeft(a, out, i, mid + 1, j, high + 1, whole);
      c[k] := arr[i];
      out := out + [a[i]];
      k := k + 1;
      i := i + 1;
    }
  }

  /** The third merge loop: copy what is left of the right run. */
  method CopyRightRun(arr: array<int>, c: array<int>, low: int, high: int, mid: int,
                      j0: int, k0: int, ghost out0: seq<int>, ghost whole: seq<int>)
      returns (j: int, k: int, ghost out: seq<int>)
    requires high < c.Length && arr != c && 0 <= low <= mid + 1 && k0 == j0
    requires MergeProgress(arr[..], out0, mid + 1, mid + 1, j0, high + 1, whole)
    requires |out0| == k0 - low && forall t :: low <= t < k0 ==> c[t] == out0[t - low]
    modifies c
    ensures j == high + 1 && k == j
    ensures MergeProgress(arr[..], out, mid + 1, mid + 1, j, high + 1, whole)
    ensures |out| == k - low && forall t :: low <= t < k ==> c[t] == out[t - low]
  {
    ghost var a := arr[..];
    j, k, out := j0, k0, out0;
    while j <= high
      invariant j0 <= j <= high + 1 && k == j
      invariant |out| == k - low && forall t :: low <= t < k ==> c[t] == out[t - low]
      invariant MergeProgress(a, out, mid + 1, mid + 1, j, high + 1, whole)
    {
      StepRight(a, out, mid + 1, mid + 1, j, high + 1, whole);
      c[k] := arr[j];
      out := out + [a[j]];
      k := k + 1;
      j := j + 1;
    }
  }

  /** Sorts arr[low..high] (inclusive) in place: afterwards the range is
      sorted and holds the same elements, and nothing outside it changes.
      A range with low >= high is left alone. Each merge gets a scratch view
      of high + 1 slots, enough for any range. */
  method MergeSort(arr: array<int>, low: int, high: int)
    requires low < high ==> 0 <= low && high < arr.Length
    modifies arr
    ensures low < high ==> Sorted(arr[low..high + 1])
    ensures low < high ==> multiset(arr[low..high + 1]) == multiset(old(arr[low..high + 1]))
    ensures forall k :: 0 <= k < arr.Length && !(low <= k <= high) ==> arr[k] == old(arr[k])
    ensures low >= high ==> arr[..] == old(arr[..])
    decreases high - low
  {
    if low < high {
      var mid := (low + high) / 2;
      MidpointSplits(low, high);
      ghost var s0 := arr[..];
      MergeSort(arr, low, mid);
      ghost var s1 := arr[..];
      MergeSort(arr, mid + 1, high);
      ghost var s2 := arr[..];
      assert multiset(s1[low..mid + 1]) == multiset(s0[low..mid + 1]) by {
        if mid == low {
          assert s1 == s0;
        }
      }
      assert multiset(s2[mid + 1..high + 1]) == multiset(s1[mid + 1..high + 1]) by {
        if mid + 1 == high {
          assert s2 == s1;
        }
      }
      assert s2[low..mid + 1] == s1[low..mid + 1];
      assert s1[mid + 1..high + 1] == s0[mid + 1..high + 1];
      Merge(arr, low, high, mid, high + 1);
      MergedSorted(s2[low..mid + 1], s2[mid + 1..high + 1]);
      MergeOfSortedHalves(s0, s1, s2, arr[..], low, mid, high);
    }
  }

  /** The permutation bookkeeping of one merge sort call: sorting each half
      permutes it, the other half stays put, and the merge permutes the
      union, so the whole range is a permutation of what it was. */
  lemma MergeOfSortedHalves(s0: seq<int>, s1: seq<int>, s2: seq<int>, s3: seq<int>, low: int, mid: int, high: int)
    requires 0 <= low <= mid < high < |s0| && |s1| == |s0| && |s2| == |s0| && |s3| == |s0|
    requires multiset(s1[low..mid + 1]) == multiset(s0[low..mid + 1])
    requires s1[mid + 1..high + 1] == s0[mid + 1..high + 1]
    requires multiset(s2[mid + 1..high + 1]) == multiset(s1[mid + 1..high + 1])
    requires s2[low..mid + 1] == s1[low..mid + 1]
    requires s3[low..high + 1] == Merged(s2[low..mid + 1], s2[mid + 1..high + 1])
    ensures multiset(s3[low..high + 1]) == multiset(s0[low..high + 1])
  {
    HalvesPermuted(s0, s1, s2, low, mid, high);
    MergeOfPermutedHalves(s0, s3[low..high + 1], s2[low..mid + 1], s2[mid + 1..high + 1], low, mid, high);
  }

  /** Merging a permutation of each half of s0[low..high] gives a
      permutation of the whole range. */
  lemma MergeOfPermutedHalves(s0: seq<int>, m: seq<int>, left: seq<int>, right: seq<int>, low: int, mid: int, high: int)
    requires 0 <= low <= mid < high < |s0|
    requires multiset(left) == multiset(s0[low..mid + 1])
    requires multiset(right) == multiset(s0[mid + 1..high + 1])
    requires m == Merged(left, right)
    ensures multiset(m) == multiset(s0[low..high + 1])
  {
    MergedPermutation(left, right);
    SplitRuns(s0, low, mid + 1, high + 1);
  }

  /** Each half after both recursive calls is a permutation of that half
      before them. */
  lemma HalvesPermuted(s0: seq<int>, s1: seq<int>, s2: seq<int>, low: int, mid: int, high: int)
    requires 0 <= low <= mid < high < |s0| && |s1| == |s0| && |s2| == |s0|
    requires multiset(s1[low..mid + 1]) == multiset(s0[low..mid + 1])
    requires s1[mid + 1..high + 1] == s0[mid + 1..high + 1]
    requires multiset(s2[mid + 1..high + 1]) == multiset(s1[mid + 1..high + 1])
    requires s2[low..mid + 1] == s1[low..mid + 1]
    ensures multiset(s2[low..mid + 1]) == multiset(s0[low..mid + 1])
    ensures multiset(s2[mid + 1..high + 1]) == multiset(s0[mid + 1..high + 1])
  {
  }
}
