/**
 * Specification vocabulary shared by every sorting routine of the repository.
 *
 * A routine works on a segment [lo, hi) of a vector of integers.  Its contract
 * always has the same three parts: the segment ends up non-decreasing, the
 * vector holds the same multiset of values, and nothing outside the segment
 * changes.
 */
module SortSpec {

  /** s[lo..hi) is non-decreasing. */
  ghost predicate Sorted(s: seq<int>, lo: int, hi: int)
    requires 0 <= lo <= hi <= |s|
  {
    forall x, y :: lo <= x < y < hi ==> s[x] <= s[y]
  }

  /** Every element of s[lo..hi) is at most v. */
  ghost predicate Below(s: seq<int>, lo: int, hi: int, v: int)
    requires 0 <= lo <= hi <= |s|
  {
    forall k :: lo <= k < hi ==> s[k] <= v
  }

  /** Every element of s[lo..hi) is at least v. */
  ghost predicate Above(s: seq<int>, lo: int, hi: int, v: int)
    requires 0 <= lo <= hi <= |s|
  {
    forall k :: lo <= k < hi ==> v <= s[k]
  }

  /**
   * t is s with only the elements of [lo, hi) rearranged: same length, same
   * multiset of values, and every index outside the segment keeps its value.
   */
  ghost predicate Perm(s: seq<int>, t: seq<int>, lo: int, hi: int)
  {
    && |s| == |t|
    && 0 <= lo <= hi <= |s|
    && multiset(s) == multiset(t)
    && forall k :: 0 <= k < |s| && !(lo <= k < hi) ==> s[k] == t[k]
  }

  /** The vector with the elements at i and j exchanged (std::swap). */
  function Swap(s: seq<int>, i: int, j: int): (t: seq<int>)
    requires 0 <= i < |s| && 0 <= j < |s|
    ensures |t| == |s| && t[i] == s[j] && t[j] == s[i]
    ensures forall k :: 0 <= k < |s| && k != i && k != j ==> t[k] == s[k]
    ensures multiset(t) == multiset(s)
  {
    s[i := s[j]][j := s[i]]
  }

  lemma SwapIsPerm(s: seq<int>, i: int, j: int, lo: int, hi: int)
    requires 0 <= lo <= i < hi <= |s| && lo <= j < hi
    ensures Perm(s, Swap(s, i, j), lo, hi)
  {
  }

  lemma PermTrans(s: seq<int>, t: seq<int>, u: seq<int>, lo: int, hi: int)
    requires Perm(s, t, lo, hi) && Perm(t, u, lo, hi)
    ensures Perm(s, u, lo, hi)
  {
  }

  /** A rearrangement of a sub-segment is a rearrangement of any segment around it. */
  lemma PermWiden(s: seq<int>, t: seq<int>, lo: int, hi: int, lo': int, hi': int)
    requires Perm(s, t, lo, hi) && 0 <= lo' <= lo && hi <= hi' <= |s|
    ensures Perm(s, t, lo', hi')
  {
  }

  /** A rearrangement of [left, right) followed by one of a sub-segment [lo, hi). */
  lemma PermExtend(s: seq<int>, t: seq<int>, u: seq<int>, left: int, lo: int, hi: int, right: int)
    requires Perm(s, t, left, right) && Perm(t, u, lo, hi) && left <= lo && hi <= right
    ensures Perm(s, u, left, right)
  {
  }

  /** A rearrangement of [lo, hi) keeps the multiset of the segment itself. */
  lemma {:induction false} PermSegment(s: seq<int>, t: seq<int>, lo: int, hi: int)
    requires Perm(s, t, lo, hi)
    ensures multiset(s[lo..hi]) == multiset(t[lo..hi])
  {
    assert s[..lo] == t[..lo];
    assert s[hi..] == t[hi..];
    assert s == s[..lo] + s[lo..hi] + s[hi..];
    assert t == t[..lo] + t[lo..hi] + t[hi..];
    calc {
      multiset(s[lo..hi]);
      multiset(s) - multiset(s[..lo]) - multiset(s[hi..]);
      multiset(t) - multiset(t[..lo]) - multiset(t[hi..]);
      multiset(t[lo..hi]);
    }
  }

  /** Every value of the rearranged segment was somewhere in the old segment. */
  lemma PermWitness(s: seq<int>, t: seq<int>, lo: int, hi: int, k: int) returns (w: int)
    requires Perm(s, t, lo, hi) && lo <= k < hi
    ensures lo <= w < hi && s[w] == t[k]
  {
    PermSegment(s, t, lo, hi);
    assert t[k] == t[lo..hi][k - lo];
    assert t[k] in multiset(s[lo..hi]);
    var i :| 0 <= i < hi - lo && s[lo..hi][i] == t[k];
    w := lo + i;
  }

  /** An upper bound on a segment survives any rearrangement inside it. */
  lemma PermBelow(s: seq<int>, t: seq<int>, lo: int, hi: int, v: int)
    requires Perm(s, t, lo, hi) && Below(s, lo, hi, v)
    ensures Below(t, lo, hi, v)
  {
    forall k | lo <= k < hi
      ensures t[k] <= v
    {
      var w := PermWitness(s, t, lo, hi, k);
    }
  }

  /** A lower bound on a segment survives any rearrangement inside it. */
  lemma PermAbove(s: seq<int>, t: seq<int>, lo: int, hi: int, v: int)
    requires Perm(s, t, lo, hi) && Above(s, lo, hi, v)
    ensures Above(t, lo, hi, v)
  {
    forall k | lo <= k < hi
      ensures v <= t[k]
    {
      var w := PermWitness(s, t, lo, hi, k);
    }
  }

  /** The tail of a sorted sequence is sorted. */
  lemma SortedTail(s: seq<int>)
    requires |s| > 0 && Sorted(s, 0, |s|)
    ensures Sorted(s[1..], 0, |s| - 1)
  {
    forall x, y | 0 <= x < y < |s| - 1
      ensures s[1..][x] <= s[1..][y]
    {
      assert s[1..][x] == s[x + 1] && s[1..][y] == s[y + 1];
    }
  }

  /** The head of a sorted sequence is at most any of its elements. */
  lemma SortedHeadMin(s: seq<int>, v: int)
    requires |s| > 0 && Sorted(s, 0, |s|) && v in multiset(s)
    ensures s[0] <= v
  {
    var i :| 0 <= i < |s| && s[i] == v;
  }

  /** Removing equal heads from sequences with equal multisets leaves equal multisets. */
  lemma MultisetTails(s: seq<int>, t: seq<int>)
    requires |s| > 0 && |t| > 0 && s[0] == t[0] && multiset(s) == multiset(t)
    ensures multiset(s[1..]) == multiset(t[1..])
  {
    assert s == [s[0]] + s[1..];
    assert t == [t[0]] + t[1..];
    var ms, mt := multiset(s[1..]), multiset(t[1..]);
    assert multiset{s[0]} + ms == multiset{t[0]} + mt;
    forall v
      ensures ms[v] == mt[v]
    {
      assert (multiset{s[0]} + ms)[v] == (multiset{s[0]} + mt)[v];
    }
  }

  lemma HeadTailEqual(s: seq<int>, t: seq<int>)
    requires |s| > 0 && |t| > 0 && s[0] == t[0] && s[1..] == t[1..]
    ensures s == t
  {
    assert s == [s[0]] + s[1..];
    assert t == [t[0]] + t[1..];
  }

  /**
   * Two sorted sequences holding the same multiset are equal: the sorted
   * permutation of a multiset is unique.
   */
  lemma {:induction false} SortedUnique(s: seq<int>, t: seq<int>)
    requires Sorted(s, 0, |s|) && Sorted(t, 0, |t|)
    requires multiset(s) == multiset(t)
    ensures s == t
    decreases |s|
  {
    assert |s| == |multiset(s)| == |multiset(t)| == |t|;
    if |s| > 0 {
      assert s[0] in multiset(t) && t[0] in multiset(s);
      SortedHeadMin(t, s[0]);
      SortedHeadMin(s, t[0]);
      MultisetTails(s, t);
      SortedTail(s);
      SortedTail(t);
      SortedUnique(s[1..], t[1..]);
      HeadTailEqual(s, t);
    }
  }

  lemma SortedSlice(s: seq<int>, lo: int, hi: int)
    requires 0 <= lo <= hi <= |s| && Sorted(s, lo, hi)
    ensures Sorted(s[lo..hi], 0, hi - lo)
  {
    forall x, y | 0 <= x < y < hi - lo
      ensures s[lo..hi][x] <= s[lo..hi][y]
    {
      assert s[lo..hi][x] == s[lo + x] && s[lo..hi][y] == s[lo + y];
    }
  }

  /**
   * Two sorts of the same segment agree: rearranging [lo, hi) of s into
   * sorted order gives one and the same vector, whichever routine does it.
   */
  lemma SortedPermUnique(s: seq<int>, t: seq<int>, u: seq<int>, lo: int, hi: int)
    requires Perm(s, t, lo, hi) && Perm(s, u, lo, hi)
    requires Sorted(t, lo, hi) && Sorted(u, lo, hi)
    ensures t == u
  {
    PermSegment(s, t, lo, hi);
    PermSegment(s, u, lo, hi);
    SortedSlice(t, lo, hi);
    SortedSlice(u, lo, hi);
    SortedUnique(t[lo..hi], u[lo..hi]);
    forall k | 0 <= k < |t|
      ensures t[k] == u[k]
    {
      if lo <= k < hi {
        assert t[k] == t[lo..hi][k - lo] && u[k] == u[lo..hi][k - lo];
      }
    }
  }

  /** Sorting a segment that is already sorted changes nothing (idempotence). */
  lemma SortIdempotent(s: seq<int>, t: seq<int>, lo: int, hi: int)
    requires Perm(s, t, lo, hi) && Sorted(s, lo, hi) && Sorted(t, lo, hi)
    ensures t == s
  {
    SortedPermUnique(s, t, s, lo, hi);
  }

  /**
   * Framed(s, left, lo, hi, right): inside [left, right) everything outside the
   * pending segment [lo, hi) is already in its final place.  This is the state
   * the introsort and quicksort loops keep while they narrow [lo, hi).
   */
  ghost predicate Framed(s: seq<int>, left: int, lo: int, hi: int, right: int)
  {
    && 0 <= left <= lo <= hi <= right <= |s|
    && Sorted(s, left, lo)
    && Sorted(s, hi, right)
    && (forall x, y :: left <= x < lo <= y < right ==> s[x] <= s[y])
    && (forall x, y :: left <= x < hi <= y < right ==> s[x] <= s[y])
  }

  /** Rearranging the pending segment keeps the frame. */
  lemma FramedPerm(s: seq<int>, t: seq<int>, left: int, lo: int, hi: int, right: int)
    requires Framed(s, left, lo, hi, right) && Perm(s, t, lo, hi)
    ensures Framed(t, left, lo, hi, right)
  {
    forall x, y | left <= x < lo <= y < right
      ensures t[x] <= t[y]
    {
      if y < hi {
        var w := PermWitness(s, t, lo, hi, y);
      }
    }
    forall x, y | left <= x < hi <= y < right
      ensures t[x] <= t[y]
    {
      if lo <= x {
        var w := PermWitness(s, t, lo, hi, x);
      }
    }
  }

  /** Once the pending segment is sorted, the whole of [left, right) is. */
  lemma FramedDone(s: seq<int>, left: int, lo: int, hi: int, right: int)
    requires Framed(s, left, lo, hi, right) && Sorted(s, lo, hi)
    ensures Sorted(s, left, right)
  {
  }

  /**
   * A pending segment split at m around a value v (left part at most v, right
   * part at least v): once its left part is sorted, only [m, hi) is pending.
   */
  lemma FramedLeftDone(s: seq<int>, left: int, lo: int, m: int, hi: int, right: int, v: int)
    requires Framed(s, left, lo, hi, right) && lo <= m <= hi
    requires Below(s, lo, m, v) && Above(s, m, hi, v) && Sorted(s, lo, m)
    ensures Framed(s, left, m, hi, right)
  {
  }

  /** Symmetric to FramedLeftDone: once [m, hi) is sorted, only [lo, m) is pending. */
  lemma FramedRightDone(s: seq<int>, left: int, lo: int, m: int, hi: int, right: int, v: int)
    requires Framed(s, left, lo, hi, right) && lo <= m <= hi
    requires Below(s, lo, m, v) && Above(s, m, hi, v) && Sorted(s, m, hi)
    ensures Framed(s, left, lo, m, right)
  {
  }

  /**
   * A pending segment split at m around v: once [lo, m) has been rearranged
   * into sorted order, only [m, hi) is pending.
   */
  lemma FramedSortLeft(s: seq<int>, t: seq<int>, left: int, lo: int, m: int, hi: int, right: int, v: int)
    requires Framed(s, left, lo, hi, right) && lo <= m <= hi
    requires Below(s, lo, m, v) && Above(s, m, hi, v)
    requires Perm(s, t, lo, m) && Sorted(t, lo, m)
    ensures Framed(t, left, m, hi, right)
  {
    PermWiden(s, t, lo, m, lo, hi);
    FramedPerm(s, t, left, lo, hi, right);
    PermBelow(s, t, lo, m, v);
    FramedLeftDone(t, left, lo, m, hi, right, v);
  }

  /** Symmetric to FramedSortLeft: once [m, hi) is sorted, only [lo, m) is pending. */
  lemma FramedSortRight(s: seq<int>, t: seq<int>, left: int, lo: int, m: int, hi: int, right: int, v: int)
    requires Framed(s, left, lo, hi, right) && lo <= m <= hi
    requires Below(s, lo, m, v) && Above(s, m, hi, v)
    requires Perm(s, t, m, hi) && Sorted(t, m, hi)
    ensures Framed(t, left, lo, m, right)
  {
    PermWiden(s, t, m, hi, lo, hi);
    FramedPerm(s, t, left, lo, hi, right);
    PermAbove(s, t, m, hi, v);
    FramedRightDone(t, left, lo, m, hi, right, v);
  }

  /** Sorting the whole pending segment in place finishes [left, right). */
  lemma FramedSortAll(s: seq<int>, t: seq<int>, left: int, lo: int, hi: int, right: int)
    requires Framed(s, left, lo, hi, right) && Perm(s, t, lo, hi) && Sorted(t, lo, hi)
    ensures Sorted(t, left, right)
  {
    FramedPerm(s, t, left, lo, hi, right);
    FramedDone(t, left, lo, hi, right);
  }

  /**
   * After the smaller left side [lo, m) of a split around v has been sorted,
   * a loop can continue on [m, hi) with everything else of [left, right) in
   * its final place.
   */
  lemma SortedLeftSide(o: seq<int>, s: seq<int>, t: seq<int>, left: int, lo: int, m: int, hi: int, right: int, v: int)
    requires Perm(o, s, left, right) && Framed(s, left, lo, hi, right) && lo <= m <= hi
    requires Below(s, lo, m, v) && Above(s, m, hi, v)
    requires Perm(s, t, lo, m) && Sorted(t, lo, m)
    ensures Framed(t, left, m, hi, right) && Perm(o, t, left, right)
  {
    FramedSortLeft(s, t, left, lo, m, hi, right, v);
    PermExtend(o, s, t, left, lo, m, right);
  }

  /** Symmetric to SortedLeftSide, for the right side [m, hi). */
  lemma SortedRightSide(o: seq<int>, s: seq<int>, t: seq<int>, left: int, lo: int, m: int, hi: int, right: int, v: int)
    requires Perm(o, s, left, right) && Framed(s, left, lo, hi, right) && lo <= m <= hi
    requires Below(s, lo, m, v) && Above(s, m, hi, v)
    requires Perm(s, t, m, hi) && Sorted(t, m, hi)
    ensures Framed(t, left, lo, m, right) && Perm(o, t, left, right)
  {
    FramedSortRight(s, t, left, lo, m, hi, right, v);
    PermExtend(o, s, t, left, m, hi, right);
  }
}
