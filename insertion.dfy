/**
 * Insertion sort of a segment, the same routine in all four files:
 * insertion_sort_segment (A3i.cpp, a2_experiments.cpp), insertion_segment
 * (a3_experiments.cpp) and insertion_sort (A2.cpp).
 */
module Insertion {
  import opened SortSpec

  /**
   * Sorts a[lo..hi) in place: for i = lo+1 .. hi-1, insert a[i] into the
   * sorted prefix a[lo..i).
   */
  method InsertionSort(a: array<int>, lo: int, hi: int)
    requires 0 <= lo <= hi <= a.Length
    modifies a
    ensures Sorted(a[..], lo, hi)
    ensures Perm(old(a[..]), a[..], lo, hi)
  {
    var i := lo + 1;
    while i < hi
      invariant lo < i && (i <= hi || i == lo + 1)
      invariant i <= hi ==> Sorted(a[..], lo, i)
      invariant Perm(old(a[..]), a[..], lo, hi)
    {
      ghost var before := a[..];
      Insert(a, lo, i);
      PermWiden(before, a[..], lo, i + 1, lo, hi);
      i := i + 1;
    }
  }

  /**
   * The body of the outer loop: x = a[i] moves left past every larger element
   * of the sorted prefix a[lo..i), each shifted one place right.  The shift
   * loop tests `j >= lo` before it reads a[j], so it never reads below lo.
   */
  method Insert(a: array<int>, lo: int, i: int)
    requires 0 <= lo < i < a.Length
    requires Sorted(a[..], lo, i)
    modifies a
    ensures Sorted(a[..], lo, i + 1)
    ensures Perm(old(a[..]), a[..], lo, i + 1)
  {
    var x := a[i];
    var j := i - 1;
    while j >= lo && a[j] > x
      invariant lo - 1 <= j <= i - 1
      invariant forall k :: 0 <= k < a.Length && !(j < k <= i) ==> a[k] == old(a[k])
      invariant forall k :: j + 2 <= k <= i ==> a[k] == old(a[k - 1]) && a[k] > x
    {
      a[j + 1] := a[j];
      j := j - 1;
    }
    a[j + 1] := x;
    InsertStep(old(a[..]), a[..], lo, i, j, x);
    MoveIsPerm(old(a[..]), a[..], j + 1, i);
  }

  /**
   * What one Insert achieves: x = before[i] lands at j + 1, after an element
   * that is at most x and before the shifted elements, all greater than x.
   * The result is sorted on [lo, i + 1).
   */
  lemma InsertStep(before: seq<int>, after: seq<int>, lo: int, i: int, j: int, x: int)
    requires 0 <= lo <= i < |before| == |after|
    requires lo - 1 <= j <= i - 1
    requires Sorted(before, lo, i) && before[i] == x
    requires j >= lo ==> before[j] <= x
    requires after[j + 1] == x
    requires forall k :: 0 <= k < |after| && !(j < k <= i) ==> after[k] == before[k]
    requires forall k :: j + 2 <= k <= i ==> after[k] == before[k - 1] && after[k] > x
    ensures Sorted(after, lo, i + 1)
  {
  }

  /** Moving the element at i to position p < i (shifting the rest right) keeps the multiset. */
  lemma MoveIsPerm(before: seq<int>, after: seq<int>, p: int, i: int)
    requires 0 <= p <= i < |before| == |after|
    requires after[p] == before[i]
    requires forall k :: 0 <= k < |after| && !(p <= k <= i) ==> after[k] == before[k]
    requires forall k :: p + 1 <= k <= i ==> after[k] == before[k - 1]
    ensures multiset(after) == multiset(before)
  {
    var x := before[i];
    var front, mid, back := before[..p], before[p..i], before[i + 1..];
    assert before == front + mid + [x] + back;
    assert after == front + [x] + mid + back by {
      forall k | 0 <= k < |after|
        ensures after[k] == (front + [x] + mid + back)[k]
      {
        if p + 1 <= k <= i {
          assert after[k] == before[k - 1] == mid[k - 1 - p];
        }
      }
    }
  }
}
