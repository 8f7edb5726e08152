/**
 * Hoare-style partition around a pivot value (partition_random in A3i.cpp,
 * partition_quick in a3_experiments.cpp).
 *
 * Two cursors start at the ends of [lo, hi): i moves right while a[i] < pivot,
 * j moves left while a[j] > pivot; when they meet or cross, j is returned,
 * otherwise a[i] and a[j] are swapped and both cursors step inward.  Neither
 * scan tests its bound: each is stopped by a sentinel, an element on the far
 * side that the scan cannot pass (the pivot itself in the first round, the
 * element just swapped past the other cursor afterwards).
 */
module Partition {
  import opened SortSpec
  import opened XorShift

  /**
   * The state at the top of the `while (true)` loop: everything left of i is
   * at most pivot, everything right of j at least pivot, and each cursor has
   * its sentinel ahead of it: u for the upward scan, d for the downward one.
   */
  ghost predicate HoareInv(s: seq<int>, lo: int, hi: int, i: int, j: int, pivot: int, u: int, d: int)
  {
    && 0 <= lo <= i < hi <= |s|
    && lo <= j + 1 && j < hi && i <= j + 1
    && Below(s, lo, i, pivot)
    && Above(s, j + 1, hi, pivot)
    && i <= u < hi && pivot <= s[u]
    && lo <= d <= j && s[d] <= pivot
  }

  /** Scans that meet or cross leave the segment split after j. */
  lemma ScansMet(s: seq<int>, lo: int, hi: int, i: int, j: int, pivot: int)
    requires 0 <= lo <= j <= i < hi <= |s|
    requires Below(s, lo, i, pivot) && Above(s, j + 1, hi, pivot)
    requires pivot <= s[i] && s[j] <= pivot
    ensures Below(s, lo, j + 1, pivot)
  {
  }

  /**
   * Scans that stop apart swap a large element and a small one past each
   * other; each then serves as the sentinel of the other cursor.
   */
  lemma ScansSwap(o: seq<int>, s: seq<int>, lo: int, hi: int, i: int, j: int, pivot: int)
    requires Perm(o, s, lo, hi) && lo <= i < j < hi
    requires Below(s, lo, i, pivot) && Above(s, j + 1, hi, pivot)
    requires pivot <= s[i] && s[j] <= pivot
    ensures HoareInv(Swap(s, i, j), lo, hi, i + 1, j - 1, pivot, j, i)
    ensures Perm(o, Swap(s, i, j), lo, hi)
  {
    SwapIsPerm(s, i, j, lo, hi);
    PermTrans(o, s, Swap(s, i, j), lo, hi);
  }

  /**
   * The in-place partition of a[lo..hi) around the value at pivotIndex.  The
   * split p lies in [lo, hi - 1], every element of [lo, p] is at most the
   * pivot, every element of (p, hi) at least the pivot, and only the segment
   * was rearranged.  Both scans stay inside [lo, hi) although neither tests
   * a bound.
   */
  method Partition(a: array<int>, lo: int, hi: int, pivotIndex: int) returns (p: int)
    requires 0 <= lo <= pivotIndex < hi <= a.Length
    modifies a
    ensures lo <= p <= hi - 1
    ensures Perm(old(a[..]), a[..], lo, hi)
    ensures Below(a[..], lo, p + 1, old(a[pivotIndex]))
    ensures Above(a[..], p + 1, hi, old(a[pivotIndex]))
  {
    var pivot := a[pivotIndex];
    var i := lo;
    var j := hi - 1;
    ghost var u, d := pivotIndex, pivotIndex;
    while true
      invariant HoareInv(a[..], lo, hi, i, j, pivot, u, d)
      invariant Perm(old(a[..]), a[..], lo, hi)
      decreases j - i + 1
    {
      while a[i] < pivot
        invariant i <= u && Below(a[..], lo, i, pivot)
        decreases u - i
      {
        i := i + 1;
      }
      while a[j] > pivot
        invariant d <= j && Above(a[..], j + 1, hi, pivot)
        decreases j - d
      {
        j := j - 1;
      }
      if i >= j {
        ScansMet(a[..], lo, hi, i, j, pivot);
        return j;
      }
      ghost var before := a[..];
      a[i], a[j] := a[j], a[i];
      assert a[..] == Swap(before, i, j);
      ScansSwap(old(a[..]), before, lo, hi, i, j, pivot);
      u, d := j, i;
      i := i + 1;
      j := j - 1;
    }
  }

  /**
   * The choice introsort_rec and quick_sort_rec make after a partition at p
   * of [lo, hi): recurse into the left side [lo, p + 1) when it is strictly
   * shorter than the right side, otherwise into the right side [p + 1, hi).
   * The side recursed into never holds more than half of the segment.
   */
  function RecurseLeft(lo: int, p: int, hi: int): (left: bool)
    requires lo <= p < hi
    ensures left ==> 2 * (p + 1 - lo) < hi - lo
    ensures !left ==> 2 * (hi - (p + 1)) <= hi - lo
  {
    p + 1 - lo < hi - (p + 1)
  }

  /**
   * partition_random / partition_quick: the pivot index is drawn from the
   * generator as lo + next % (hi - lo), then the segment is partitioned
   * around the element that stood at that index.  The pivot value is
   * returned as a ghost so callers can use the two bounds.
   */
  method PartitionRandom(a: array<int>, lo: int, hi: int, rng: FastRng) returns (p: int, ghost pivot: int)
    requires 0 <= lo < hi <= a.Length && hi - lo <= 0x7FFF_FFFF
    modifies a, rng
    ensures lo <= p <= hi - 1
    ensures Perm(old(a[..]), a[..], lo, hi)
    ensures Below(a[..], lo, p + 1, pivot) && Above(a[..], p + 1, hi, pivot)
    ensures rng.state == Step(old(rng.state))
    ensures pivot == old(a[Pick(Low32(Step(rng.state)), lo, hi)])
  {
    var pivotIndex := rng.NextInt(lo, hi);
    pivot := a[pivotIndex];
    p := Partition(a, lo, hi, pivotIndex);
  }
}
