/**
 * Top-down merge sorts with a caller-supplied buffer: merge_sort_std_rec and
 * merge_sort_hybrid_rec in a2_experiments.cpp, and merge_sort in A2.cpp,
 * which is the hybrid with its threshold fixed at 15.
 */
module MergeSort {
  import opened SortSpec
  import opened Insertion
  import opened Merging

  /** The insertion-sort cut-off of merge_sort in A2.cpp. */
  const THRESHOLD: int := 15

  /**
   * m = l + (r - l) / 2: inside the range, strictly inside once the range
   * has two elements, and the right half is never the shorter one, by at
   * most one element.
   */
  function Midpoint(l: int, r: int): (m: int)
    requires l <= r
    ensures l <= m <= r
    ensures r - l >= 2 ==> l < m < r
    ensures r - m == m - l || r - m == m - l + 1
  {
    l + (r - l) / 2
  }

  /** What one call of merge_sort_hybrid_rec does with its range. */
  datatype Step = Small | Split(m: int)

  /**
   * The decision at the head of merge_sort_hybrid_rec, as written: a range
   * of at most threshold elements goes to insertion sort, any other is split
   * at its midpoint.
   */
  function HybridStep(l: int, r: int, threshold: int): (st: Step)
    requires l <= r
    ensures st.Small? <==> r - l <= threshold
    ensures st.Split? ==> l <= st.m <= r
  {
    if r - l <= threshold then Small else Split(Midpoint(l, r))
  }

  /**
   * With threshold 0, a one-element range is split at m == l, so the call on
   * [m, r) has the caller's own arguments and the recursion never ends.
   */
  lemma ThresholdZeroRepeats(l: int)
    ensures HybridStep(l, l + 1, 0) == Split(l)
  {
  }

  /** With threshold >= 1 both recursive calls are on strictly shorter ranges. */
  lemma HybridSplitShrinks(l: int, r: int, threshold: int)
    requires l <= r && threshold >= 1 && HybridStep(l, r, threshold).Split?
    ensures l < HybridStep(l, r, threshold).m < r
  {
  }

  /** A merge of two sorted halves written into [l, r) leaves that segment sorted. */
  lemma MergedSorted(s: seq<int>, t: seq<int>, l: int, m: int, r: int)
    requires 0 <= l <= m <= r <= |s| == |t| && Sorted(s, l, m) && Sorted(s, m, r)
    requires t[l..r] == Merge(s[l..m], s[m..r])
    ensures Sorted(t, l, r)
  {
    SortedSlice(s, l, m);
    SortedSlice(s, m, r);
    MergeSorted(s[l..m], s[m..r]);
    forall x, y | l <= x < y < r
      ensures t[x] <= t[y]
    {
      assert t[x] == t[l..r][x - l] && t[y] == t[l..r][y - l];
    }
  }

  /** A merge written into [l, r), with the rest unchanged, only rearranges [l, r). */
  lemma MergedPerm(s: seq<int>, t: seq<int>, l: int, m: int, r: int)
    requires 0 <= l <= m <= r <= |s| == |t|
    requires t[l..r] == Merge(s[l..m], s[m..r])
    requires t[..l] == s[..l] && t[r..] == s[r..]
    ensures Perm(s, t, l, r)
  {
    MergePerm(s[l..m], s[m..r]);
    assert t == t[..l] + t[l..r] + t[r..];
    assert s == s[..l] + s[l..m] + s[m..r] + s[r..];
    forall k | 0 <= k < |t| && !(l <= k < r)
      ensures t[k] == s[k]
    {
      if k < l {
        assert t[k] == t[..l][k] && s[k] == s[..l][k];
      } else {
        assert t[k] == t[r..][k - r] && s[k] == s[r..][k - r];
      }
    }
  }

  /**
   * After both halves are sorted in place and merged: the merged segment is
   * sorted and a rearrangement of the original one.
   */
  lemma MergedSegment(o: seq<int>, s1: seq<int>, s2: seq<int>, t: seq<int>, l: int, m: int, r: int)
    requires Perm(o, s1, l, m) && Sorted(s1, l, m)
    requires Perm(s1, s2, m, r) && Sorted(s2, m, r) && l <= m
    requires |t| == |s2| && t[l..r] == Merge(s2[l..m], s2[m..r])
    requires t[..l] == s2[..l] && t[r..] == s2[r..]
    ensures Sorted(t, l, r) && Perm(o, t, l, r)
  {
    assert Sorted(s2, l, m);
    MergedSorted(s2, t, l, m, r);
    MergedPerm(s2, t, l, m, r);
    PermWiden(o, s1, l, m, l, r);
    PermWiden(s1, s2, m, r, l, r);
    PermTrans(o, s1, s2, l, r);
    PermTrans(o, s2, t, l, r);
  }

  /**
   * merge_sort_std_rec: a range of at most one element is already sorted;
   * otherwise sort both halves, then merge them through tmp.  tmp must be a
   * separate vector of at least r elements and is written only in [l, r).
   */
  method MergeSortStdRec(a: array<int>, tmp: array<int>, l: int, r: int)
    requires 0 <= l <= r <= a.Length && r <= tmp.Length && a != tmp
    modifies a, tmp
    ensures Sorted(a[..], l, r) && Perm(old(a[..]), a[..], l, r)
    ensures tmp[..l] == old(tmp[..l]) && tmp[r..] == old(tmp[r..])
    decreases r - l
  {
    if r - l <= 1 {
      return;
    }
    var m := Midpoint(l, r);
    MergeSortStdRec(a, tmp, l, m);
    ghost var s1 := a[..];
    MergeSortStdRec(a, tmp, m, r);
    ghost var s2 := a[..];
    MergeHalves(a, tmp, l, m, r);
    MergedSegment(old(a[..]), s1, s2, a[..], l, m, r);
  }

  /**
   * merge_sort_hybrid_rec: as merge_sort_std_rec, but a range of at most
   * threshold elements goes to insertion sort.  The threshold must be
   * positive; see ThresholdZeroRepeats.
   */
  method MergeSortHybridRec(a: array<int>, tmp: array<int>, l: int, r: int, threshold: int)
    requires 0 <= l <= r <= a.Length && r <= tmp.Length && a != tmp
    requires threshold >= 1
    modifies a, tmp
    ensures Sorted(a[..], l, r) && Perm(old(a[..]), a[..], l, r)
    ensures tmp[..l] == old(tmp[..l]) && tmp[r..] == old(tmp[r..])
    decreases r - l
  {
    match HybridStep(l, r, threshold)
    case Small =>
      InsertionSort(a, l, r);
    case Split(m) =>
      HybridSplitShrinks(l, r, threshold);
      MergeSortHybridRec(a, tmp, l, m, threshold);
      ghost var s1 := a[..];
      MergeSortHybridRec(a, tmp, m, r, threshold);
      ghost var s2 := a[..];
      MergeHalves(a, tmp, l, m, r);
      MergedSegment(old(a[..]), s1, s2, a[..], l, m, r);
  }

  /** merge_sort of A2.cpp: the hybrid with THRESHOLD. */
  method MergeSortA2(a: array<int>, tmp: array<int>, l: int, r: int)
    requires 0 <= l <= r <= a.Length && r <= tmp.Length && a != tmp
    modifies a, tmp
    ensures Sorted(a[..], l, r) && Perm(old(a[..]), a[..], l, r)
    ensures tmp[..l] == old(tmp[..l]) && tmp[r..] == old(tmp[r..])
  {
    MergeSortHybridRec(a, tmp, l, r, THRESHOLD);
  }

  /**
   * The sort in A2.cpp's main: a vector of more than one element is sorted
   * through a fresh buffer of the same size.
   */
  method SortVector(a: array<int>)
    modifies a
    ensures Sorted(a[..], 0, a.Length) && Perm(old(a[..]), a[..], 0, a.Length)
  {
    if a.Length > 1 {
      var tmp := new int[a.Length];
      MergeSortA2(a, tmp, 0, a.Length);
    }
  }

  /** A fresh copy of a. */
  method Copy(a: array<int>) returns (b: array<int>)
    ensures fresh(b) && b[..] == a[..]
  {
    b := new int[a.Length];
    forall i | 0 <= i < a.Length {
      b[i] := a[i];
    }
  }

  /**
   * For every threshold of at least one, merge_sort_std_rec and
   * merge_sort_hybrid_rec, each run on its own copy of the same input, leave
   * identical vectors: the one sorted rearrangement of the input.
   */
  method SameResult(a: array<int>, threshold: int) returns (x: seq<int>, y: seq<int>)
    requires threshold >= 1
    ensures x == y
    ensures |x| == a.Length && Sorted(x, 0, |x|) && multiset(x) == multiset(a[..])
  {
    var n := a.Length;
    var b := Copy(a);
    var tmp := new int[n];
    MergeSortStdRec(b, tmp, 0, n);
    var c := Copy(a);
    var tmp2 := new int[n];
    MergeSortHybridRec(c, tmp2, 0, n, threshold);
    SortedPermUnique(a[..], b[..], c[..], 0, n);
    x, y := b[..], c[..];
  }
}
