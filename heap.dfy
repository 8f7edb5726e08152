/**
 * Heap sort of a segment: heap_sort_segment in A3i.cpp and
 * a3_experiments.cpp, which builds a max-heap on [lo, hi) (std::make_heap)
 * and then repeatedly moves the maximum behind the heap (std::sort_heap).
 *
 * The heap is the implicit binary tree of the segment: the node at offset k
 * from lo has its children at offsets 2k + 1 and 2k + 2.
 */
module Heap {
  import opened SortSpec

  /** Index of the parent of node x in the heap rooted at lo. */
  function Parent(lo: int, x: int): (p: int)
    requires lo < x
    ensures lo <= p < x
  {
    lo + (x - lo - 1) / 2
  }

  /** Index of the first child of node c in the heap rooted at lo. */
  function FirstChild(lo: int, c: int): (x: int)
    requires lo <= c
    ensures c < x && Parent(lo, x) == c && Parent(lo, x + 1) == c
  {
    lo + 2 * (c - lo) + 1
  }

  /** The children of c are exactly FirstChild(lo, c) and the one after it. */
  lemma ChildrenOf(lo: int, c: int, x: int)
    requires lo <= c && lo < x
    ensures Parent(lo, x) == c <==> x == FirstChild(lo, c) || x == FirstChild(lo, c) + 1
  {
  }

  /** A node whose first child lies beyond end has no children in [lo, end). */
  lemma NoChildren(lo: int, c: int, end: int)
    requires lo <= c && end <= FirstChild(lo, c)
    ensures forall x :: lo < x < end ==> Parent(lo, x) != c
  {
    forall x | lo < x < end
      ensures Parent(lo, x) != c
    {
      ChildrenOf(lo, c, x);
    }
  }

  /**
   * Every node of [lo, end) whose parent is at or after start is at most its
   * parent.  HeapFrom(s, lo, end, lo) says that [lo, end) is a max-heap.
   */
  ghost predicate HeapFrom(s: seq<int>, lo: int, end: int, start: int)
    requires 0 <= lo <= end <= |s|
  {
    forall x :: lo < x < end && start <= Parent(lo, x) ==> s[x] <= s[Parent(lo, x)]
  }

  /** The root of a max-heap is its largest element. */
  lemma {:induction false} RootIsMax(s: seq<int>, lo: int, end: int, x: int)
    requires 0 <= lo <= x < end <= |s| && HeapFrom(s, lo, end, lo)
    ensures s[x] <= s[lo]
    decreases x
  {
    if x > lo {
      RootIsMax(s, lo, end, Parent(lo, x));
    }
  }

  /** Nodes in the second half of the segment have no children, so they form a heap. */
  lemma LeavesAreHeap(s: seq<int>, lo: int, hi: int)
    requires 0 <= lo <= hi <= |s|
    ensures HeapFrom(s, lo, hi, lo + (hi - lo) / 2)
  {
  }

  /**
   * The state of a sift-down from start whose moving element sits at c: the
   * heap order holds everywhere below start except between c and its
   * children, and c's parent (when c is not start) dominates c's children.
   */
  ghost predicate SiftInv(s: seq<int>, lo: int, end: int, start: int, c: int)
    requires 0 <= lo <= start <= c < end <= |s|
  {
    && (forall x :: lo < x < end && start <= Parent(lo, x) && Parent(lo, x) != c ==> s[x] <= s[Parent(lo, x)])
    && (start < c ==> start <= Parent(lo, c))
    && (start < c ==> forall x :: lo < x < end && Parent(lo, x) == c ==> s[x] <= s[Parent(lo, c)])
  }

  /** Swapping c with its larger child, when that child is larger, moves the hole down. */
  lemma SiftStep(s: seq<int>, lo: int, end: int, start: int, c: int, child: int)
    requires 0 <= lo <= start <= c < child < end <= |s|
    requires SiftInv(s, lo, end, start, c)
    requires Parent(lo, child) == c && s[c] < s[child]
    requires forall x :: lo < x < end && Parent(lo, x) == c ==> s[x] <= s[child]
    ensures SiftInv(Swap(s, c, child), lo, end, start, child)
  {
    var t := Swap(s, c, child);
    forall x | lo < x < end && start <= Parent(lo, x) && Parent(lo, x) != child
      ensures t[x] <= t[Parent(lo, x)]
    {
      if Parent(lo, x) == c {
      } else if x == c {
      } else if x == child {
      }
    }
    forall x | lo < x < end && Parent(lo, x) == child
      ensures t[x] <= t[Parent(lo, child)]
    {
      assert x != c && x != child;
    }
  }

  /**
   * The child picked by the sift (the second one only when it exists and is
   * strictly larger) is at least as large as every child of c.
   */
  lemma LargerChild(s: seq<int>, lo: int, end: int, c: int, child: int)
    requires 0 <= lo <= c && FirstChild(lo, c) < end <= |s|
    requires var first := FirstChild(lo, c);
      if first + 1 < end && s[first] < s[first + 1] then child == first + 1 else child == first
    ensures forall x :: lo < x < end && Parent(lo, x) == c ==> s[x] <= s[child]
  {
    forall x | lo < x < end && Parent(lo, x) == c
      ensures s[x] <= s[child]
    {
      ChildrenOf(lo, c, x);
    }
  }

  /** A sift that stops with c no smaller than its children has restored the heap. */
  lemma SiftDone(s: seq<int>, lo: int, end: int, start: int, c: int)
    requires 0 <= lo <= start <= c < end <= |s|
    requires SiftInv(s, lo, end, start, c)
    requires forall x :: lo < x < end && Parent(lo, x) == c ==> s[x] <= s[c]
    ensures HeapFrom(s, lo, end, start)
  {
  }

  /**
   * Moves the element at start down the heap [lo, end) until it is no
   * smaller than its children, given that every subtree below start is
   * already a heap.  Only [start, end) is rearranged.
   */
  method SiftDown(a: array<int>, lo: int, end: int, start: int)
    requires 0 <= lo <= start < end <= a.Length
    requires HeapFrom(a[..], lo, end, start + 1)
    modifies a
    ensures HeapFrom(a[..], lo, end, start)
    ensures Perm(old(a[..]), a[..], start, end)
  {
    var c := start;
    while true
      invariant start <= c < end
      invariant SiftInv(a[..], lo, end, start, c)
      invariant Perm(old(a[..]), a[..], start, end)
      decreases end - c
    {
      var first := FirstChild(lo, c);
      if first >= end {
        NoChildren(lo, c, end);
        SiftDone(a[..], lo, end, start, c);
        return;
      }
      var child := first;
      if first + 1 < end && a[first] < a[first + 1] {
        child := first + 1;
      }
      LargerChild(a[..], lo, end, c, child);
      if a[child] <= a[c] {
        SiftDone(a[..], lo, end, start, c);
        return;
      }
      ghost var before := a[..];
      a[c], a[child] := a[child], a[c];
      assert a[..] == Swap(before, c, child);
      SiftStep(before, lo, end, start, c, child);
      SwapIsPerm(before, c, child, start, end);
      PermTrans(old(a[..]), before, a[..], start, end);
      c := child;
    }
  }

  /** std::make_heap: sift every inner node down, last inner node first. */
  method MakeHeap(a: array<int>, lo: int, hi: int)
    requires 0 <= lo <= hi <= a.Length
    modifies a
    ensures HeapFrom(a[..], lo, hi, lo)
    ensures Perm(old(a[..]), a[..], lo, hi)
  {
    var start := lo + (hi - lo) / 2;
    LeavesAreHeap(a[..], lo, hi);
    while start > lo
      invariant lo <= start <= lo + (hi - lo) / 2
      invariant HeapFrom(a[..], lo, hi, start)
      invariant Perm(old(a[..]), a[..], lo, hi)
    {
      start := start - 1;
      ghost var before := a[..];
      SiftDown(a, lo, hi, start);
      PermWiden(before, a[..], start, hi, lo, hi);
      PermTrans(old(a[..]), before, a[..], lo, hi);
    }
  }

  /**
   * One pop of std::sort_heap: the root, the largest element of the heap,
   * is swapped behind it.  The heap shrinks by one, its order is broken only
   * at the root, and the sorted suffix grows by one.
   */
  lemma PopStep(s: seq<int>, lo: int, end: int, hi: int)
    requires 0 <= lo && lo + 1 < end <= hi <= |s|
    requires HeapFrom(s, lo, end, lo) && Framed(s, lo, lo, end, hi)
    ensures HeapFrom(Swap(s, lo, end - 1), lo, end - 1, lo + 1)
    ensures Framed(Swap(s, lo, end - 1), lo, lo, end - 1, hi)
  {
    var t := Swap(s, lo, end - 1);
    forall x | lo <= x < end
      ensures s[x] <= s[lo]
    {
      RootIsMax(s, lo, end, x);
    }
    assert Sorted(t, end - 1, hi);
  }

  /** std::sort_heap: pop the maximum behind the heap until one element is left. */
  method SortHeap(a: array<int>, lo: int, hi: int)
    requires 0 <= lo <= hi <= a.Length && HeapFrom(a[..], lo, hi, lo)
    modifies a
    ensures Sorted(a[..], lo, hi)
    ensures Perm(old(a[..]), a[..], lo, hi)
  {
    var end := hi;
    while end - lo > 1
      invariant lo <= end <= hi
      invariant HeapFrom(a[..], lo, end, lo)
      invariant Framed(a[..], lo, lo, end, hi)
      invariant Perm(old(a[..]), a[..], lo, hi)
      decreases end
    {
      ghost var before := a[..];
      a[lo], a[end - 1] := a[end - 1], a[lo];
      assert a[..] == Swap(before, lo, end - 1);
      PopStep(before, lo, end, hi);
      SwapIsPerm(before, lo, end - 1, lo, hi);
      PermTrans(old(a[..]), before, a[..], lo, hi);
      end := end - 1;
      ghost var popped := a[..];
      SiftDown(a, lo, end, lo);
      FramedPerm(popped, a[..], lo, lo, end, hi);
      PermWiden(popped, a[..], lo, end, lo, hi);
      PermTrans(old(a[..]), popped, a[..], lo, hi);
    }
    FramedDone(a[..], lo, lo, end, hi);
  }

  /** heap_sort_segment: sorts a[lo..hi) in place; nothing outside changes. */
  method HeapSort(a: array<int>, lo: int, hi: int)
    requires 0 <= lo <= hi <= a.Length
    modifies a
    ensures Sorted(a[..], lo, hi)
    ensures Perm(old(a[..]), a[..], lo, hi)
  {
    MakeHeap(a, lo, hi);
    ghost var heap := a[..];
    SortHeap(a, lo, hi);
    PermTrans(old(a[..]), heap, a[..], lo, hi);
  }
}
