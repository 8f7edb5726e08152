/**
 * The merge step of the top-down merge sorts (merge_sort in A2.cpp,
 * merge_sort_std_rec and merge_sort_hybrid_rec in a2_experiments.cpp).
 *
 * Merge is the value the three cursor loops build in tmp: repeatedly take
 * the head of the left run when it is not larger than the head of the right
 * run (or the right run is used up), otherwise the head of the right run.
 * FromLeft records, for each position of the result, which run it came from.
 */
module Merging {
  import opened SortSpec

  /** The merge takes from the left run: it is non-empty and its head wins ties. */
  predicate TakeLeft(x: seq<int>, y: seq<int>)
  {
    |x| > 0 && (|y| == 0 || x[0] <= y[0])
  }

  function Merge(x: seq<int>, y: seq<int>): (r: seq<int>)
    ensures |r| == |x| + |y|
    decreases |x| + |y|
  {
    if |x| + |y| == 0 then []
    else if TakeLeft(x, y) then [x[0]] + Merge(x[1..], y)
    else [y[0]] + Merge(x, y[1..])
  }

  /** For each position of Merge(x, y): true when the element came from x. */
  function FromLeft(x: seq<int>, y: seq<int>): (o: seq<bool>)
    ensures |o| == |x| + |y|
    decreases |x| + |y|
  {
    if |x| + |y| == 0 then []
    else if TakeLeft(x, y) then [true] + FromLeft(x[1..], y)
    else [false] + FromLeft(x, y[1..])
  }

  /** The elements of s whose tag in o equals b, in order. */
  function Select(s: seq<int>, o: seq<bool>, b: bool): seq<int>
    requires |s| == |o|
  {
    if |s| == 0 then []
    else if o[0] == b then [s[0]] + Select(s[1..], o[1..], b)
    else Select(s[1..], o[1..], b)
  }

  lemma MultisetCons(x: seq<int>)
    requires |x| > 0
    ensures multiset(x) == multiset{x[0]} + multiset(x[1..])
  {
    assert x == [x[0]] + x[1..];
  }

  /** The merge neither loses nor invents elements. */
  lemma {:induction false} MergePerm(x: seq<int>, y: seq<int>)
    ensures multiset(Merge(x, y)) == multiset(x) + multiset(y)
    decreases |x| + |y|
  {
    if |x| + |y| == 0 {
    } else if TakeLeft(x, y) {
      MergePerm(x[1..], y);
      MultisetCons(x);
    } else {
      MergePerm(x, y[1..]);
      MultisetCons(y);
    }
  }

  /** A lower bound of both runs is a lower bound of their merge. */
  lemma {:induction false} MergeAbove(x: seq<int>, y: seq<int>, v: int)
    requires Above(x, 0, |x|, v) && Above(y, 0, |y|, v)
    ensures Above(Merge(x, y), 0, |x| + |y|, v)
    decreases |x| + |y|
  {
    if |x| + |y| == 0 {
    } else if TakeLeft(x, y) {
      MergeAbove(x[1..], y, v);
    } else {
      MergeAbove(x, y[1..], v);
    }
  }

  /** A sorted sequence stays sorted when an element no larger than all of it is put in front. */
  lemma ConsSorted(v: int, s: seq<int>)
    requires Sorted(s, 0, |s|) && Above(s, 0, |s|, v)
    ensures Sorted([v] + s, 0, |s| + 1)
  {
    var t := [v] + s;
    forall x, y | 0 <= x < y < |t|
      ensures t[x] <= t[y]
    {
      assert t[y] == s[y - 1];
      if x > 0 {
        assert t[x] == s[x - 1];
      }
    }
  }

  /** Merging two sorted runs gives a sorted sequence. */
  lemma {:induction false} MergeSorted(x: seq<int>, y: seq<int>)
    requires Sorted(x, 0, |x|) && Sorted(y, 0, |y|)
    ensures Sorted(Merge(x, y), 0, |x| + |y|)
    decreases |x| + |y|
  {
    if |x| + |y| == 0 {
    } else if TakeLeft(x, y) {
      SortedTail(x);
      MergeSorted(x[1..], y);
      MergeAbove(x[1..], y, x[0]);
      ConsSorted(x[0], Merge(x[1..], y));
    } else {
      SortedTail(y);
      MergeSorted(x, y[1..]);
      MergeAbove(x, y[1..], y[0]);
      ConsSorted(y[0], Merge(x, y[1..]));
    }
  }

  /** Taken in order, the elements from the left run are the left run, and likewise on the right. */
  lemma {:induction false} MergeKeepsOrder(x: seq<int>, y: seq<int>)
    ensures Select(Merge(x, y), FromLeft(x, y), true) == x
    ensures Select(Merge(x, y), FromLeft(x, y), false) == y
    decreases |x| + |y|
  {
    if |x| + |y| == 0 {
    } else if TakeLeft(x, y) {
      MergeKeepsOrder(x[1..], y);
      assert x == [x[0]] + x[1..];
    } else {
      MergeKeepsOrder(x, y[1..]);
      assert y == [y[0]] + y[1..];
    }
  }

  /** An element of the merge that came from the left run is at least any lower bound of that run. */
  lemma {:induction false} FromLeftAbove(x: seq<int>, y: seq<int>, q: int, v: int)
    requires 0 <= q < |x| + |y| && FromLeft(x, y)[q] && Above(x, 0, |x|, v)
    ensures v <= Merge(x, y)[q]
    decreases |x| + |y|
  {
    if TakeLeft(x, y) {
      if q > 0 {
        FromLeftAbove(x[1..], y, q - 1, v);
      }
    } else {
      FromLeftAbove(x, y[1..], q - 1, v);
    }
  }

  /**
   * Stability on two sorted runs: of two equal elements of the merge, the
   * earlier one comes from the left run whenever the later one does, so no
   * element of the right run overtakes an equal element of the left run.
   */
  lemma {:induction false} MergeStableAt(x: seq<int>, y: seq<int>, p: int, q: int)
    requires Sorted(x, 0, |x|) && Sorted(y, 0, |y|)
    requires 0 <= p < q < |x| + |y|
    requires Merge(x, y)[p] == Merge(x, y)[q] && FromLeft(x, y)[q]
    ensures FromLeft(x, y)[p]
    decreases |x| + |y|
  {
    if TakeLeft(x, y) {
      if p > 0 {
        SortedTail(x);
        MergeStableAt(x[1..], y, p - 1, q - 1);
      }
    } else if p == 0 {
      if |x| == 0 {
        FromLeftAbove(x, y[1..], q - 1, Merge(x, y)[q] + 1);
      } else {
        FromLeftAbove(x, y[1..], q - 1, x[0]);
      }
    } else {
      SortedTail(y);
      MergeStableAt(x, y[1..], p - 1, q - 1);
    }
  }

  lemma MergeStable(x: seq<int>, y: seq<int>)
    requires Sorted(x, 0, |x|) && Sorted(y, 0, |y|)
    ensures forall p, q ::
      0 <= p < q < |x| + |y| && Merge(x, y)[p] == Merge(x, y)[q] && FromLeft(x, y)[q] ==> FromLeft(x, y)[p]
  {
    forall p, q | 0 <= p < q < |x| + |y| && Merge(x, y)[p] == Merge(x, y)[q] && FromLeft(x, y)[q]
      ensures FromLeft(x, y)[p]
    {
      MergeStableAt(x, y, p, q);
    }
  }

  /**
   * The merge of a[l..m) and a[m..r) through tmp: the cursor loops write
   * Merge(a[l..m), a[m..r)) into tmp[l..r), and the final loop copies it back
   * into a.  tmp is written only inside [l, r), and must not be the vector a
   * itself.
   */
  method MergeHalves(a: array<int>, tmp: array<int>, l: int, m: int, r: int)
    requires 0 <= l <= m <= r <= a.Length && r <= tmp.Length && a != tmp
    modifies a, tmp
    ensures a[l..r] == Merge(old(a[l..m]), old(a[m..r]))
    ensures a[..l] == old(a[..l]) && a[r..] == old(a[r..])
    ensures tmp[l..r] == a[l..r]
    ensures tmp[..l] == old(tmp[..l]) && tmp[r..] == old(tmp[r..])
  {
    MergeInto(a, tmp, l, m, r);
    CopyBack(a, tmp, l, r);
  }

  /**
   * The merge as the cursor loops see it: what is left of the runs s[i..m)
   * and s[j..r) when the cursors stand at i and j.
   */
  function MergeFrom(s: seq<int>, i: int, m: int, j: int, r: int): (o: seq<int>)
    requires 0 <= i <= m <= j <= r <= |s|
    ensures |o| == m - i + r - j
    decreases m - i + r - j
  {
    if i == m && j == r then []
    else if i < m && (j == r || s[i] <= s[j]) then [s[i]] + MergeFrom(s, i + 1, m, j, r)
    else [s[j]] + MergeFrom(s, i, m, j + 1, r)
  }

  /** The cursor view agrees with Merge on the two slices. */
  lemma {:induction false} MergeFromIsMerge(s: seq<int>, i: int, m: int, j: int, r: int)
    requires 0 <= i <= m <= j <= r <= |s|
    ensures MergeFrom(s, i, m, j, r) == Merge(s[i..m], s[j..r])
    decreases m - i + r - j
  {
    if i == m && j == r {
    } else if i < m && (j == r || s[i] <= s[j]) {
      MergeFromIsMerge(s, i + 1, m, j, r);
      assert s[i..m][1..] == s[i + 1..m];
    } else {
      MergeFromIsMerge(s, i, m, j + 1, r);
      assert s[j..r][1..] == s[j + 1..r];
    }
  }

  /**
   * The three cursor loops write the merge of a[l..m) and a[m..r) into
   * tmp[l..r) and nothing else into tmp.
   */
  method MergeInto(a: array<int>, tmp: array<int>, l: int, m: int, r: int)
    requires 0 <= l <= m <= r <= a.Length && r <= tmp.Length && a != tmp
    modifies tmp
    ensures tmp[l..r] == Merge(a[l..m], a[m..r])
    ensures tmp[..l] == old(tmp[..l]) && tmp[r..] == old(tmp[r..])
  {
    ghost var s := a[..];
    ghost var merged := MergeFrom(s, l, m, m, r);
    var i, j, k := MergeBoth(a, tmp, l, m, r, s, merged);
    i, k := DrainLeft(a, tmp, l, m, r, i, j, k, s, merged);
    j, k := DrainRight(a, tmp, l, m, r, i, j, k, s, merged);
    MergeFromIsMerge(s, l, m, m, r);
  }

  /**
   * The first cursor loop: while both runs have elements, the smaller head
   * goes to tmp[k], the left one on a tie.  On exit one run is used up,
   * tmp[l..k) holds the start of the merge and what is left of the runs
   * merges into the rest of it.
   */
  method MergeBoth(a: array<int>, tmp: array<int>, l: int, m: int, r: int, ghost s: seq<int>, ghost merged: seq<int>)
    returns (i: int, j: int, k: int)
    requires 0 <= l <= m <= r <= a.Length && r <= tmp.Length && a != tmp
    requires s == a[..] && merged == MergeFrom(s, l, m, m, r)
    modifies tmp
    ensures l <= i <= m <= j <= r && k == l + (i - l) + (j - m) && (i == m || j == r)
    ensures MergeFrom(s, i, m, j, r) == merged[k - l..]
    ensures tmp[l..k] == merged[..k - l]
    ensures tmp[..l] == old(tmp[..l]) && tmp[r..] == old(tmp[r..])
  {
    i, j, k := l, m, l;
    while i < m && j < r
      invariant l <= i <= m <= j <= r && k == l + (i - l) + (j - m)
      invariant MergeFrom(s, i, m, j, r) == merged[k - l..]
      invariant tmp[l..k] == merged[..k - l]
      invariant tmp[..l] == old(tmp[..l]) && tmp[r..] == old(tmp[r..])
      decreases m - i + r - j
    {
      ghost var i0, j0 := i, j;
      var v;
      if a[i] <= a[j] {
        v := a[i];
        i := i + 1;
      } else {
        v := a[j];
        j := j + 1;
      }
      Advance(s, merged, l, m, r, i0, j0, k, i, j, v);
      tmp[k] := v;
      k := k + 1;
    }
  }

  /** One step of the first cursor loop, whichever head it takes. */
  lemma Advance(s: seq<int>, merged: seq<int>, l: int, m: int, r: int, i0: int, j0: int, k: int, i: int, j: int, v: int)
    requires 0 <= i0 < m <= j0 < r <= |s| && 0 <= k - l <= |merged|
    requires MergeFrom(s, i0, m, j0, r) == merged[k - l..]
    requires if s[i0] <= s[j0] then i == i0 + 1 && j == j0 && v == s[i0] else i == i0 && j == j0 + 1 && v == s[j0]
    ensures k - l < |merged| && merged[k - l] == v
    ensures MergeFrom(s, i, m, j, r) == merged[k + 1 - l..]
  {
    if s[i0] <= s[j0] {
      TakeFromLeft(s, merged, i0, m, j0, r, l, k);
    } else {
      TakeFromRight(s, merged, i0, m, j0, r, l, k);
    }
  }

  /** The second loop: copy what is left of the left run. */
  method DrainLeft(a: array<int>, tmp: array<int>, l: int, m: int, r: int, i0: int, j: int, k0: int,
                   ghost s: seq<int>, ghost merged: seq<int>) returns (i: int, k: int)
    requires r <= tmp.Length && a != tmp && s == a[..]
    requires 0 <= l <= i0 <= m <= j <= r <= |s| && |merged| == r - l && k0 == l + (i0 - l) + (j - m) && (i0 == m || j == r)
    requires MergeFrom(s, i0, m, j, r) == merged[k0 - l..]
    requires tmp[l..k0] == merged[..k0 - l]
    modifies tmp
    ensures i == m && k == l + (i - l) + (j - m)
    ensures MergeFrom(s, i, m, j, r) == merged[k - l..]
    ensures tmp[l..k] == merged[..k - l]
    ensures tmp[..l] == old(tmp[..l]) && tmp[r..] == old(tmp[r..])
  {
    i, k := i0, k0;
    while i < m
      invariant l <= i <= m && k == l + (i - l) + (j - m) && (i == m || j == r)
      invariant MergeFrom(s, i, m, j, r) == merged[k - l..]
      invariant tmp[l..k] == merged[..k - l]
      invariant tmp[..l] == old(tmp[..l]) && tmp[r..] == old(tmp[r..])
      decreases m - i
    {
      TakeFromLeft(s, merged, i, m, j, r, l, k);
      tmp[k] := a[i];
      i := i + 1;
      k := k + 1;
    }
  }

  /** The third loop: copy what is left of the right run; then tmp[l..r) is the merge. */
  method DrainRight(a: array<int>, tmp: array<int>, l: int, m: int, r: int, i: int, j0: int, k0: int,
                    ghost s: seq<int>, ghost merged: seq<int>) returns (j: int, k: int)
    requires r <= tmp.Length && a != tmp && s == a[..]
    requires 0 <= l <= i == m <= j0 <= r <= |s| && |merged| == r - l && k0 == l + (i - l) + (j0 - m)
    requires MergeFrom(s, i, m, j0, r) == merged[k0 - l..]
    requires tmp[l..k0] == merged[..k0 - l]
    modifies tmp
    ensures tmp[l..r] == merged
    ensures tmp[..l] == old(tmp[..l]) && tmp[r..] == old(tmp[r..])
  {
    j, k := j0, k0;
    while j < r
      invariant m <= j <= r && k == l + (i - l) + (j - m)
      invariant MergeFrom(s, i, m, j, r) == merged[k - l..]
      invariant tmp[l..k] == merged[..k - l]
      invariant tmp[..l] == old(tmp[..l]) && tmp[r..] == old(tmp[r..])
      decreases r - j
    {
      TakeFromRight(s, merged, i, m, j, r, l, k);
      tmp[k] := a[j];
      j := j + 1;
      k := k + 1;
    }
  }

  /** The copy-back loop: a[l..r) := tmp[l..r). */
  method CopyBack(a: array<int>, tmp: array<int>, l: int, r: int)
    requires 0 <= l <= r <= a.Length && r <= tmp.Length && a != tmp
    modifies a
    ensures a[l..r] == tmp[l..r]
    ensures a[..l] == old(a[..l]) && a[r..] == old(a[r..])
  {
    var t := l;
    while t < r
      invariant l <= t <= r
      invariant a[l..t] == tmp[l..t]
      invariant a[..l] == old(a[..l]) && a[r..] == old(a[r..])
    {
      a[t] := tmp[t];
      t := t + 1;
    }
  }

  /**
   * One step of the merge loops that takes s[i]: when what is left of both
   * runs merges into merged[k - l..], s[i] is merged[k - l] and the runs
   * without it merge into what follows.
   */
  lemma TakeFromLeft(s: seq<int>, merged: seq<int>, i: int, m: int, j: int, r: int, l: int, k: int)
    requires 0 <= i < m <= j <= r <= |s| && 0 <= k - l <= |merged|
    requires j < r ==> s[i] <= s[j]
    requires MergeFrom(s, i, m, j, r) == merged[k - l..]
    ensures k - l < |merged| && merged[k - l] == s[i]
    ensures MergeFrom(s, i + 1, m, j, r) == merged[k + 1 - l..]
  {
    assert merged[k - l..][1..] == merged[k + 1 - l..];
  }

  /** One step of the merge loops that takes s[j]. */
  lemma TakeFromRight(s: seq<int>, merged: seq<int>, i: int, m: int, j: int, r: int, l: int, k: int)
    requires 0 <= i <= m <= j < r <= |s| && 0 <= k - l <= |merged|
    requires i < m ==> s[i] > s[j]
    requires MergeFrom(s, i, m, j, r) == merged[k - l..]
    ensures k - l < |merged| && merged[k - l] == s[j]
    ensures MergeFrom(s, i, m, j + 1, r) == merged[k + 1 - l..]
  {
    assert merged[k - l..][1..] == merged[k + 1 - l..];
  }
}
