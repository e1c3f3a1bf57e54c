/** The merge both merge sorts perform, as a value: two runs combined by
    repeatedly taking the smaller head, where a strict comparison sends ties
    to the right run. */
module MergeSpec {

  predicate Sorted(s: seq<int>)
  {
    forall i, j :: 0 <= i < j < |s| ==> s[i] <= s[j]
  }

  /** The merge of runs a and b: the left head is taken only when it is
      strictly smaller than the right head. */
  function Merged(a: seq<int>, b: seq<int>): (r: seq<int>)
    ensures |r| == |a| + |b|
    decreases |a| + |b|
  {
    if |a| == 0 then b
    else if |b| == 0 then a
    else if a[0] < b[0] then [a[0]] + Merged(a[1..], b)
    else [b[0]] + Merged(a, b[1..])
  }

  /** The step that takes the left head: the left run is not empty and the
      right run is empty or has a strictly larger head. */
  lemma MergedTakesLeft(a: seq<int>, b: seq<int>)
    requires |a| > 0 && (|b| == 0 || a[0] < b[0])
    ensures Merged(a, b) == [a[0]] + Merged(a[1..], b)
  {
    if |b| == 0 {
      assert Merged(a[1..], b) == a[1..];
      assert a == [a[0]] + a[1..];
    }
  }

  /** The step that takes the right head: the right run is not empty and the
      left run is empty or has a head that is not strictly smaller. */
  lemma MergedTakesRight(a: seq<int>, b: seq<int>)
    requires |b| > 0 && (|a| == 0 || !(a[0] < b[0]))
    ensures Merged(a, b) == [b[0]] + Merged(a, b[1..])
  {
    if |a| == 0 {
      calc {
        Merged(a, b);
        b;
        { assert b == [b[0]] + b[1..]; }
        [b[0]] + b[1..];
        [b[0]] + Merged(a, b[1..]);
      }
    } else {
      assert |b| != 0 && !(a[0] < b[0]);
    }
  }

  /** On equal heads the right run's element comes first. */
  lemma MergedTieTakesRight(a: seq<int>, b: seq<int>)
    requires |a| > 0 && |b| > 0 && a[0] == b[0]
    ensures Merged(a, b)[0] == b[0]
    ensures Merged(a, b)[1..] == Merged(a, b[1..])
  {
    MergedTakesRight(a, b);
  }

  /** The merge holds exactly the elements of the two runs. */
  lemma {:induction false} MergedPermutation(a: seq<int>, b: seq<int>)
    ensures multiset(Merged(a, b)) == multiset(a) + multiset(b)
    decreases |a| + |b|
  {
    if |a| == 0 {
    } else if |b| == 0 {
    } else if a[0] < b[0] {
      var rest := Merged(a[1..], b);
      MergedPermutation(a[1..], b);
      assert Merged(a, b) == [a[0]] + rest;
      assert multiset([a[0]] + rest) == multiset([a[0]]) + multiset(rest);
      assert a == [a[0]] + a[1..];
      assert multiset(a) == multiset([a[0]]) + multiset(a[1..]);
    } else {
      var rest := Merged(a, b[1..]);
      MergedPermutation(a, b[1..]);
      assert Merged(a, b) == [b[0]] + rest;
      assert multiset([b[0]] + rest) == multiset([b[0]]) + multiset(rest);
      assert b == [b[0]] + b[1..];
      assert multiset(b) == multiset([b[0]]) + multiset(b[1..]);
    }
  }

  /** Every element of s is at least h. */
  predicate AtLeast(s: seq<int>, h: int)
  {
    forall i :: 0 <= i < |s| ==> h <= s[i]
  }

  /** A bound below both runs is a bound below their merge. */
  lemma {:induction false} MergedAtLeast(a: seq<int>, b: seq<int>, h: int)
    requires AtLeast(a, h) && AtLeast(b, h)
    ensures AtLeast(Merged(a, b), h)
    decreases |a| + |b|
  {
    if |a| == 0 || |b| == 0 {
    } else if a[0] < b[0] {
      MergedAtLeast(a[1..], b, h);
    } else {
      MergedAtLeast(a, b[1..], h);
    }
  }

  /** A head no larger than any element of a sorted tail gives a sorted run. */
  lemma ConsSorted(h: int, tail: seq<int>)
    requires Sorted(tail) && AtLeast(tail, h)
    ensures Sorted([h] + tail)
  {
    var s := [h] + tail;
    forall i, j | 0 <= i < j < |s|
      ensures s[i] <= s[j]
    {
      assert s[j] == tail[j - 1];
      if i > 0 {
        assert s[i] == tail[i - 1];
      }
    }
  }

  /** Merging two sorted runs gives a sorted run. */
  lemma {:induction false} MergedSorted(a: seq<int>, b: seq<int>)
    requires Sorted(a) && Sorted(b)
    ensures Sorted(Merged(a, b))
    decreases |a| + |b|
  {
    if |a| == 0 || |b| == 0 {
    } else if a[0] < b[0] {
      MergedSorted(a[1..], b);
      assert AtLeast(a[1..], a[0]);
      MergedAtLeast(a[1..], b, a[0]);
      ConsSorted(a[0], Merged(a[1..], b));
    } else {
      MergedSorted(a, b[1..]);
      assert AtLeast(b[1..], b[0]);
      MergedAtLeast(a, b[1..], b[0]);
      ConsSorted(b[0], Merged(a, b[1..]));
    }
  }

  /** The run a ++ b split at |a|: the merge of two adjacent runs of one
      array, as used by both sorts. */
  lemma SplitRuns(s: seq<int>, lo: int, mid: int, hi: int)
    requires 0 <= lo <= mid <= hi <= |s|
    ensures s[lo..hi] == s[lo..mid] + s[mid..hi]
    ensures multiset(s[lo..hi]) == multiset(s[lo..mid]) + multiset(s[mid..hi])
  {
    assert s[lo..hi] == s[lo..mid] + s[mid..hi];
  }

  /** The merge of s[i..iEnd) and s[j..jEnd), by indices: the same choices
      as Merged, without building the runs. */
  function MergeFrom(s: seq<int>, i: int, iEnd: int, j: int, jEnd: int): (r: seq<int>)
    requires 0 <= i <= iEnd <= j <= jEnd <= |s|
    ensures |r| == (iEnd - i) + (jEnd - j)
    decreases (iEnd - i) + (jEnd - j)
  {
    if i == iEnd then s[j..jEnd]
    else if j == jEnd then s[i..iEnd]
    else if s[i] < s[j] then [s[i]] + MergeFrom(s, i + 1, iEnd, j, jEnd)
    else [s[j]] + MergeFrom(s, i, iEnd, j + 1, jEnd)
  }

  /** The index form is the merge of the two runs. */
  lemma {:induction false} MergeFromIsMerged(s: seq<int>, i: int, iEnd: int, j: int, jEnd: int)
    requires 0 <= i <= iEnd <= j <= jEnd <= |s|
    ensures MergeFrom(s, i, iEnd, j, jEnd) == Merged(s[i..iEnd], s[j..jEnd])
    decreases (iEnd - i) + (jEnd - j)
  {
    if i == iEnd || j == jEnd {
    } else if s[i] < s[j] {
      MergeFromIsMerged(s, i + 1, iEnd, j, jEnd);
      MergedTakesLeft(s[i..iEnd], s[j..jEnd]);
      assert s[i..iEnd][1..] == s[i + 1..iEnd];
    } else {
      MergeFromIsMerged(s, i, iEnd, j + 1, jEnd);
      MergedTakesRight(s[i..iEnd], s[j..jEnd]);
      assert s[j..jEnd][1..] == s[j + 1..jEnd];
    }
  }

  /** The invariant of a merge loop over s[i0..iEnd) and s[j0..jEnd): the
      elements placed so far, followed by the merge of what remains of both
      runs, make up the whole merge. */
  predicate MergeProgress(s: seq<int>, done: seq<int>, i: int, iEnd: int, j: int, jEnd: int, whole: seq<int>)
  {
    0 <= i <= iEnd <= j <= jEnd <= |s| && done + MergeFrom(s, i, iEnd, j, jEnd) == whole
  }

  /** Placing the left head keeps the invariant. */
  lemma StepLeft(s: seq<int>, done: seq<int>, i: int, iEnd: int, j: int, jEnd: int, whole: seq<int>)
    requires MergeProgress(s, done, i, iEnd, j, jEnd, whole)
    requires i < iEnd && (j >= jEnd || s[i] < s[j])
    ensures MergeProgress(s, done + [s[i]], i + 1, iEnd, j, jEnd, whole)
  {
    if j == jEnd {
      assert s[i..iEnd] == [s[i]] + s[i + 1..iEnd];
    }
  }

  /** Placing the right head keeps the invariant. */
  lemma StepRight(s: seq<int>, done: seq<int>, i: int, iEnd: int, j: int, jEnd: int, whole: seq<int>)
    requires MergeProgress(s, done, i, iEnd, j, jEnd, whole)
    requires j < jEnd && (i >= iEnd || !(s[i] < s[j]))
    ensures MergeProgress(s, done + [s[j]], i, iEnd, j + 1, jEnd, whole)
  {
    if i == iEnd {
      assert s[j..jEnd] == [s[j]] + s[j + 1..jEnd];
    }
  }

  /** With both runs used up, the elements placed are the whole merge. */
  lemma MergeFinished(s: seq<int>, done: seq<int>, i: int, iEnd: int, j: int, jEnd: int, whole: seq<int>)
    requires MergeProgress(s, done, i, iEnd, j, jEnd, whole) && i == iEnd && j == jEnd
    ensures done == whole
  {
  }
}
