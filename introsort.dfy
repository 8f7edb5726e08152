/**
 * Introsort (introsort_rec and introsort in a3_experiments.cpp, and the same
 * routine with the sort of the input vector in A3i.cpp).
 *
 * The loop partitions the pending segment around a random pivot, recurses on
 * the smaller side and keeps looping on the larger one.  A segment shorter
 * than INSERTION_THRESHOLD is finished by insertion sort, and once the depth
 * budget is spent by heap sort.  The budget, 2 * floor(log2 n), falls by one
 * on every partition, so the recursion and the loop both end.
 */
module Introsort {
  import opened SortSpec
  import opened XorShift
  import opened Insertion
  import opened Heap
  import opened Partition

  /** Segments shorter than this go to insertion sort. */
  const INSERTION_THRESHOLD: int := 16

  /** floor(log2 n). */
  function Log2(n: int): nat
    requires n >= 1
    decreases n
  {
    if n == 1 then 0 else 1 + Log2(n / 2)
  }

  function Pow2(k: nat): (r: int)
    ensures r >= 1
  {
    if k == 0 then 1 else 2 * Pow2(k - 1)
  }

  /** Log2(n) is the exponent of the largest power of two not above n. */
  lemma {:induction false} Log2Bounds(n: int)
    requires n >= 1
    ensures Pow2(Log2(n)) <= n < Pow2(Log2(n) + 1)
    decreases n
  {
    if n > 1 {
      Log2Bounds(n / 2);
    }
  }

  /**
   * The depth budget computed before the first call: count the halvings
   * `m >>= 1` that bring n down to 1, then double the count.
   */
  method DepthLimit(n: int) returns (d: nat)
    requires n >= 1
    ensures d == 2 * Log2(n)
    ensures Pow2(d / 2) <= n < Pow2(d / 2 + 1)
  {
    var m := n;
    var k := 0;
    while m > 1
      invariant m >= 1 && k + Log2(m) == Log2(n)
      decreases m
    {
      m := m / 2;
      k := k + 1;
    }
    d := 2 * k;
    Log2Bounds(n);
  }

  /**
   * Sorts a[left..right) in place with the given depth budget, drawing
   * pivots from rng; nothing outside the segment changes.
   */
  method IntrosortRec(a: array<int>, left: int, right: int, depthLimit: nat, rng: FastRng)
    requires 0 <= left <= right <= a.Length <= 0x7FFF_FFFF
    modifies a, rng
    ensures Sorted(a[..], left, right)
    ensures Perm(old(a[..]), a[..], left, right)
    decreases depthLimit
  {
    var lo, hi := left, right;
    var depth: nat := depthLimit;
    while hi - lo > 1
      invariant left <= lo <= hi <= right
      invariant Framed(a[..], left, lo, hi, right)
      invariant Perm(old(a[..]), a[..], left, right)
      invariant depth <= depthLimit
      decreases depth
    {
      ghost var before := a[..];
      if hi - lo < INSERTION_THRESHOLD {
        InsertionSort(a, lo, hi);
        FramedSortAll(before, a[..], left, lo, hi, right);
        PermExtend(old(a[..]), before, a[..], left, lo, hi, right);
        return;
      }
      if depth == 0 {
        HeapSort(a, lo, hi);
        FramedSortAll(before, a[..], left, lo, hi, right);
        PermExtend(old(a[..]), before, a[..], left, lo, hi, right);
        return;
      }
      depth := depth - 1;

      var p, pivot := PartitionRandom(a, lo, hi, rng);
      FramedPerm(before, a[..], left, lo, hi, right);
      PermExtend(old(a[..]), before, a[..], left, lo, hi, right);

      ghost var split := a[..];
      if RecurseLeft(lo, p, hi) {
        if lo < p + 1 {
          IntrosortRec(a, lo, p + 1, depth, rng);
          SortedLeftSide(old(a[..]), split, a[..], left, lo, p + 1, hi, right, pivot);
        }
        lo := p + 1;
      } else {
        if p + 1 < hi {
          IntrosortRec(a, p + 1, hi, depth, rng);
          SortedRightSide(old(a[..]), split, a[..], left, lo, p + 1, hi, right, pivot);
        }
        hi := p + 1;
      }
    }
    FramedDone(a[..], left, lo, hi, right);
  }

  /**
   * introsort: sorts the whole vector; vectors of at most one element are
   * left as they are.
   */
  method Introsort(a: array<int>, rng: FastRng)
    requires a.Length <= 0x7FFF_FFFF
    modifies a, rng
    ensures Sorted(a[..], 0, a.Length)
    ensures Perm(old(a[..]), a[..], 0, a.Length)
  {
    var n := a.Length;
    if n <= 1 {
      return;
    }
    var depthLimit := DepthLimit(n);
    IntrosortRec(a, 0, n, depthLimit, rng);
  }

  /**
   * The sort in A3i.cpp's main: introsort of the whole vector, drawing pivots
   * from the process-wide xorshift state, which starts at DEFAULT_SEED.
   */
  method SortInput(a: array<int>)
    requires a.Length <= 0x7FFF_FFFF
    modifies a
    ensures Sorted(a[..], 0, a.Length)
    ensures Perm(old(a[..]), a[..], 0, a.Length)
  {
    var rng := new FastRng(DEFAULT_SEED);
    Introsort(a, rng);
  }
}
