/**
 * Randomised quicksort (quick_sort_rec and quick_sort in a3_experiments.cpp):
 * the same partition-and-loop scheme as introsort, with no insertion-sort
 * cut-off and no depth budget.
 *
 * Whether the loop ends depends on the pivots drawn: partition may return
 * hi - 1, in which case the loop continues on the very segment it started
 * with.  The model therefore carries a bound on the number of partition
 * rounds and reports whether the sort finished within it.
 */
module QuickSort {
  import opened SortSpec
  import opened XorShift
  import opened Partition

  /**
   * Sorts a[left..right) in place using at most fuel partition rounds on
   * each level.  Whatever the outcome, only the segment is rearranged; when
   * done is true the segment is sorted.
   */
  method QuickSortRec(a: array<int>, left: int, right: int, rng: FastRng, fuel: nat) returns (done: bool)
    requires 0 <= left <= right <= a.Length <= 0x7FFF_FFFF
    modifies a, rng
    ensures Perm(old(a[..]), a[..], left, right)
    ensures done ==> Sorted(a[..], left, right)
    decreases fuel
  {
    var lo, hi := left, right;
    var rounds: nat := fuel;
    while hi - lo > 1
      invariant left <= lo <= hi <= right
      invariant Framed(a[..], left, lo, hi, right)
      invariant Perm(old(a[..]), a[..], left, right)
      invariant rounds <= fuel
      decreases rounds
    {
      if rounds == 0 {
        return false;
      }
      rounds := rounds - 1;
      ghost var before := a[..];
      var p, pivot := PartitionRandom(a, lo, hi, rng);
      FramedPerm(before, a[..], left, lo, hi, right);
      PermExtend(old(a[..]), before, a[..], left, lo, hi, right);

      ghost var split := a[..];
      if RecurseLeft(lo, p, hi) {
        if lo < p + 1 {
          var ok := QuickSortRec(a, lo, p + 1, rng, rounds);
          if !ok {
            PermExtend(old(a[..]), split, a[..], left, lo, p + 1, right);
            return false;
          }
          SortedLeftSide(old(a[..]), split, a[..], left, lo, p + 1, hi, right, pivot);
        }
        lo := p + 1;
      } else {
        if p + 1 < hi {
          var ok := QuickSortRec(a, p + 1, hi, rng, rounds);
          if !ok {
            PermExtend(old(a[..]), split, a[..], left, p + 1, hi, right);
            return false;
          }
          SortedRightSide(old(a[..]), split, a[..], left, lo, p + 1, hi, right, pivot);
        }
        hi := p + 1;
      }
    }
    FramedDone(a[..], left, lo, hi, right);
    return true;
  }

  /** quick_sort: an empty vector is left alone, any other is sorted whole. */
  method QuickSort(a: array<int>, rng: FastRng, fuel: nat) returns (done: bool)
    requires a.Length <= 0x7FFF_FFFF
    modifies a, rng
    ensures Perm(old(a[..]), a[..], 0, a.Length)
    ensures done ==> Sorted(a[..], 0, a.Length)
  {
    if a.Length == 0 {
      return true;
    }
    done := QuickSortRec(a, 0, a.Length, rng, fuel);
  }
}
