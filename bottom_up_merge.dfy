/** The device kernels of the bottom-up merge sort: one pass merges adjacent
    windows of `width` elements from `source` into `dest`; each thread handles
    `slices` consecutive windows. The thread index is a parameter. */
module BottomUpMerge {
  import opened DenseAlgebra
  import opened MergeSpec

  /** Merges source[start..middle) and source[middle..end) into
      dest[start..end): the left element is taken while the left run lasts
      and either the right run is used up or the left element is strictly
      smaller. source is not written and dest changes only in [start, end). */
  method BottomUpMergeKernel(source: array<int>, dest: array<int>, start: int, middle: int, end: int)
    requires 0 <= start <= middle <= end <= source.Length && end <= dest.Length
    requires source != dest
    modifies dest
    ensures dest[start..end] == Merged(source[start..middle], source[middle..end])
    ensures forall k :: 0 <= k < dest.Length && !(start <= k < end) ==> dest[k] == old(dest[k])
  {
    ghost var s := source[..];
    ghost var whole := MergeFrom(s, start, middle, middle, end);
    MergeFromIsMerged(s, start, middle, middle, end);
    ghost var out: seq<int> := [];
    var i, j := start, middle;
    for k := start to end
      invariant k == i + j - middle && source[..] == s
      invariant MergeProgress(s, out, i, middle, j, end, whole)
      invariant dest[start..k] == out
      invariant forall t :: 0 <= t < dest.Length && !(start <= t < k) ==> dest[t] == old(dest[t])
    {
      var v;
      v, i, j := NextHead(source, s, out, i, middle, j, end, whole);
      ghost var written := dest[start..k];
      dest[k] := v;
      assert dest[start..k] == written;
      assert dest[start..k + 1] == dest[start..k] + [v];
      out := out + [v];
    }
    MergeFinished(s, out, i, middle, j, end, whole);
  }

  /** One step of the merge loop: the head the kernel places next, and the
      run positions after taking it. */
  method NextHead(source: array<int>, ghost s: seq<int>, ghost out: seq<int>,
                  i: int, middle: int, j: int, end: int, ghost whole: seq<int>)
      returns (v: int, i': int, j': int)
    requires source[..] == s && MergeProgress(s, out, i, middle, j, end, whole)
    requires i < middle || j < end
    ensures i' + j' == i + j + 1
    ensures MergeProgress(s, out + [v], i', middle, j', end, whole)
  {
    if i < middle && (j >= end || source[i] < source[j]) {
      StepLeft(s, out, i, middle, j, end, whole);
      v, i', j' := source[i], i + 1, j;
    } else {
      StepRight(s, out, i, middle, j, end, whole);
      v, i', j' := source[j], i, j + 1;
    }
  }

  /** The first element of thread idx's region: width·idx·slices. */
  function ThreadBase(width: nat, idx: nat, slices: nat): nat
  {
    width * idx * slices
  }

  /** The start of a thread's window w: `width` past the start of window w - 1. */
  function WindowStart(base: nat, width: nat, w: nat): nat
  {
    if w == 0 then base else WindowStart(base, width, w - 1) + width
  }

  /** Window w starts w·width past the thread's base. */
  lemma {:induction false} WindowStartIs(base: nat, width: nat, w: nat)
    ensures WindowStart(base, width, w) == base + w * width
  {
    if w > 0 {
      WindowStartIs(base, width, w - 1);
      assert (w - 1) * width + width == w * width;
    }
  }

  /** A window ends, at the latest, where any later window starts. */
  lemma {:induction false} WindowsInOrder(base: nat, width: nat, v: nat, w: nat)
    requires v < w
    ensures WindowStart(base, width, v) + width <= WindowStart(base, width, w)
  {
    if v + 1 < w {
      WindowsInOrder(base, width, v, w - 1);
    }
  }

  /** The window's split point and end, both clipped to the array size. */
  function WindowMiddle(start: nat, width: nat, size: nat): nat
  {
    if start + width / 2 < size then start + width / 2 else size
  }

  function WindowEnd(start: nat, width: nat, size: nat): nat
  {
    if start + width < size then start + width else size
  }

  /** A window that starts inside the array has start <= middle <= end <= size,
      and it is at most `width` long. */
  lemma WindowBounds(start: nat, width: nat, size: nat)
    requires start < size
    ensures start <= WindowMiddle(start, width, size) <= WindowEnd(start, width, size) <= size
    ensures WindowEnd(start, width, size) <= start + width
  {
  }

  /** dest holds the merge of the window at `start`, or the window starts at
      or past the end of the array and there is nothing to merge. */
  ghost predicate WindowMerged(source: seq<int>, dest: seq<int>, start: nat, width: nat)
    requires |source| == |dest|
  {
    var size := |source|;
    start < size ==>
      dest[start..WindowEnd(start, width, size)]
        == Merged(source[start..WindowMiddle(start, width, size)],
                  source[WindowMiddle(start, width, size)..WindowEnd(start, width, size)])
  }

  /** Windows 0 .. n - 1 of the thread whose first window starts at base are
      merged in dest. */
  ghost predicate AllWindowsMerged(source: seq<int>, dest: seq<int>, base: nat, width: nat, n: nat)
    requires |source| == |dest|
  {
    forall w :: 0 <= w < n ==> WindowMerged(source, dest, WindowStart(base, width, w), width)
  }

  /** b equals a outside [lo, hi). */
  ghost predicate UnchangedOutside(a: seq<int>, b: seq<int>, lo: int, hi: int)
  {
    |a| == |b| && forall k :: 0 <= k < |a| && !(lo <= k < hi) ==> a[k] == b[k]
  }

  /** Thread idx of one pass: it merges its windows w = 0 .. slices - 1 in
      order, stopping at the first window that starts at or past the end.
      Afterwards every window of the thread is merged into dest, source is
      untouched, and dest changes only inside the thread's region
      [width·idx·slices, width·idx·slices + slices·width). */
  method GpuMergesort(source: array<int>, dest: array<int>, size: nat, width: nat, slices: nat, idx: nat)
    requires source.Length == size && dest.Length == size && source != dest
    modifies dest
    ensures AllWindowsMerged(source[..], dest[..], ThreadBase(width, idx, slices), width, slices)
    ensures UnchangedOutside(old(dest[..]), dest[..], ThreadBase(width, idx, slices),
                             WindowStart(ThreadBase(width, idx, slices), width, slices))
  {
    ghost var base := ThreadBase(width, idx, slices);
    ghost var src := source[..];
    ghost var d0 := dest[..];
    var start := width * idx * slices;
    var middle, end;
    var slice := 0;
    while slice < slices
      invariant 0 <= slice <= slices
      invariant start == WindowStart(base, width, slice) && base <= start
      invariant source[..] == src && |dest[..]| == size
      invariant AllWindowsMerged(src, dest[..], base, width, slice)
      invariant UnchangedOutside(d0, dest[..], base, start)
    {
      if start >= size {
        PastEndWindows(src, dest[..], base, width, slice, slices);
        break;
      }
      middle := WindowMiddle(start, width, size);
      end := WindowEnd(start, width, size);
      WindowBounds(start, width, size);
      ghost var before := dest[..];
      BottomUpMergeKernel(source, dest, start, middle, end);
      WindowStep(src, d0, before, dest[..], base, width, slice, end);
      start := start + width;
      slice := slice + 1;
    }
    WindowsWithinRegion(base, width, slice, slices);
  }

  /** Once a window starts at or past the end, so do all later ones, and
      there is nothing to merge for them: the loop may break. */
  lemma PastEndWindows(source: seq<int>, dest: seq<int>, base: nat, width: nat, slice: nat, slices: nat)
    requires |source| == |dest| && WindowStart(base, width, slice) >= |source|
    requires AllWindowsMerged(source, dest, base, width, slice)
    ensures AllWindowsMerged(source, dest, base, width, slices)
  {
    forall w | slice < w < slices
      ensures WindowStart(base, width, w) >= |source|
    {
      WindowsInOrder(base, width, slice, w);
    }
  }

  /** One iteration: merging window `slice` into dest keeps the earlier
      windows merged (they end at or before its start), adds it, and keeps
      every change inside [base, start of window slice + 1). */
  lemma WindowStep(source: seq<int>, d0: seq<int>, before: seq<int>, after: seq<int>, base: nat, width: nat,
                   slice: nat, end: nat)
    requires |source| == |before| == |after|
    requires WindowStart(base, width, slice) < |source| && base <= WindowStart(base, width, slice)
    requires end == WindowEnd(WindowStart(base, width, slice), width, |source|)
    requires AllWindowsMerged(source, before, base, width, slice)
    requires UnchangedOutside(d0, before, base, WindowStart(base, width, slice))
    requires UnchangedOutside(before, after, WindowStart(base, width, slice), end)
    requires after[WindowStart(base, width, slice)..end]
               == Merged(source[WindowStart(base, width, slice)..WindowMiddle(WindowStart(base, width, slice), width, |source|)],
                         source[WindowMiddle(WindowStart(base, width, slice), width, |source|)..end])
    ensures AllWindowsMerged(source, after, base, width, slice + 1)
    ensures UnchangedOutside(d0, after, base, WindowStart(base, width, slice + 1))
  {
    forall w | 0 <= w < slice
      ensures WindowMerged(source, after, WindowStart(base, width, w), width)
    {
      WindowsInOrder(base, width, w, slice);
      WindowKept(source, before, after, WindowStart(base, width, w), width, WindowStart(base, width, slice), end);
    }
  }

  /** A merged window that ends before `bound` stays merged when only
      [bound, end) changes. */
  lemma WindowKept(source: seq<int>, before: seq<int>, after: seq<int>, start: nat, width: nat, bound: nat, end: nat)
    requires |source| == |before| == |after|
    requires WindowMerged(source, before, start, width) && start + width <= bound
    requires UnchangedOutside(before, after, bound, end)
    ensures WindowMerged(source, after, start, width)
  {
    if start < |source| {
      var e := WindowEnd(start, width, |source|);
      assert after[start..e] == before[start..e];
    }
  }

  /** The loop's writes stay below the start of window `slices`. */
  lemma WindowsWithinRegion(base: nat, width: nat, slice: nat, slices: nat)
    requires slice <= slices
    ensures WindowStart(base, width, slice) <= WindowStart(base, width, slices)
  {
    if slice < slices {
      WindowsInOrder(base, width, slice, slices);
    }
  }

  /** The regions of two different threads are disjoint: thread idx's region
      ends at or before thread idx + 1's begins, so concurrent threads never
      write the same dest element. */
  lemma ThreadRegionsDisjoint(width: nat, slices: nat, idx: nat, other: nat)
    requires idx < other
    ensures WindowStart(ThreadBase(width, idx, slices), width, slices) <= ThreadBase(width, other, slices)
  {
    WindowStartIs(ThreadBase(width, idx, slices), width, slices);
    MulMonotone(idx + 1, other, width * slices);
    assert width * idx * slices + slices * width == (idx + 1) * (width * slices);
    assert width * other * slices == other * (width * slices);
  }
}
