/**
 * The test-data generators of the experiment drivers: ArrayGenerator in
 * a3_experiments.cpp (values from the xorshift generator) and ArrayGenerator
 * in a2_experiments.cpp (values from std::mt19937).
 *
 * Both build three vectors of maxSize values once, in the constructor: the
 * values as drawn, the same values in non-increasing order, and the values
 * in ascending order disturbed by maxSize / 20 swaps of two positions.
 * fill hands out a prefix of one of them.  The two classes have the same
 * fields and the same fill and differ only in how they draw, so they are one
 * class here with one constructor per way of drawing.
 */
module Generators {
  import opened SortSpec
  import opened XorShift

  /** The seed both generators are constructed with. */
  const GENERATOR_SEED: bv64 := 123456789

  /** ArrayGenerator::Type. */
  datatype Kind = Random | Reversed | AlmostSorted

  /** s is in non-increasing order, as std::sort with std::greater<int> leaves it. */
  ghost predicate NonIncreasing(s: seq<int>)
  {
    forall x, y :: 0 <= x < y < |s| ==> s[y] <= s[x]
  }

  /** v inserted into the sorted s before the first element not below it. */
  function InsertSorted(v: int, s: seq<int>): (r: seq<int>)
    requires Sorted(s, 0, |s|)
    ensures |r| == |s| + 1 && multiset(r) == multiset(s) + multiset{v}
    ensures Sorted(r, 0, |r|)
  {
    if |s| == 0 || v <= s[0] then [v] + s
    else
      assert s == [s[0]] + s[1..];
      var rest := InsertSorted(v, s[1..]);
      LowerBound(s[0], v, s[1..], rest);
      [s[0]] + rest
  }

  /**
   * A lower bound of v and of the sorted s, placed before a sorted
   * rearrangement of s with v, keeps it sorted.
   */
  lemma LowerBound(h: int, v: int, s: seq<int>, rest: seq<int>)
    requires h <= v && (forall x :: 0 <= x < |s| ==> h <= s[x])
    requires multiset(rest) == multiset(s) + multiset{v} && Sorted(rest, 0, |rest|)
    ensures Sorted([h] + rest, 0, |rest| + 1)
  {
    forall x | 0 <= x < |rest|
      ensures h <= rest[x]
    {
      assert rest[x] in multiset(rest);
      if rest[x] != v {
        assert rest[x] in multiset(s);
      }
    }
  }

  /**
   * std::sort in ascending order.  A sorted rearrangement is unique (see
   * AscendingIsAnySort), so this is the vector std::sort leaves, whatever
   * algorithm it uses.
   */
  function SortAscending(s: seq<int>): (r: seq<int>)
    ensures |r| == |s| && multiset(r) == multiset(s)
    ensures Sorted(r, 0, |r|)
  {
    if |s| == 0 then []
    else
      assert s == [s[0]] + s[1..];
      InsertSorted(s[0], SortAscending(s[1..]))
  }

  /** Every sorted rearrangement of s is SortAscending(s). */
  lemma AscendingIsAnySort(s: seq<int>, t: seq<int>)
    requires |t| == |s| && multiset(t) == multiset(s) && Sorted(t, 0, |t|)
    ensures t == SortAscending(s)
  {
    SortedPermUnique(s, t, SortAscending(s), 0, |s|);
  }

  /**
   * The vectors the as-written mt19937 constructor holds before its swaps:
   * random and almost both SortAscending(draws), which sorting leaves as it
   * is, and reversed a non-increasing rearrangement of it.
   */
  lemma SortedStart(draws: seq<int>)
    ensures SortAscending(SortAscending(draws)) == SortAscending(draws)
    ensures multiset(SortDescending(draws)) == multiset(SortAscending(draws))
  {
    AscendingIsAnySort(SortAscending(draws), SortAscending(draws));
  }

  /** s backwards. */
  function Reverse(s: seq<int>): (r: seq<int>)
    ensures |r| == |s|
    ensures forall x :: 0 <= x < |s| ==> r[x] == s[|s| - 1 - x]
  {
    if |s| == 0 then [] else Reverse(s[1..]) + [s[0]]
  }

  lemma {:induction false} ReverseMultiset(s: seq<int>)
    ensures multiset(Reverse(s)) == multiset(s)
  {
    if |s| > 0 {
      ReverseMultiset(s[1..]);
      assert s == [s[0]] + s[1..];
    }
  }

  /** std::sort with std::greater<int>: the values in non-increasing order. */
  function SortDescending(s: seq<int>): (r: seq<int>)
    ensures |r| == |s| && multiset(r) == multiset(s)
    ensures NonIncreasing(r)
  {
    ReverseMultiset(SortAscending(s));
    Reverse(SortAscending(s))
  }

  /** The number of positions at which s and t differ. */
  function Displaced(s: seq<int>, t: seq<int>): (n: nat)
    requires |s| == |t|
    ensures n <= |s|
  {
    if |s| == 0 then 0
    else
      assert s == [s[0]] + s[1..] && t == [t[0]] + t[1..];
      (if s[0] != t[0] then 1 else 0) + Displaced(s[1..], t[1..])
  }

  /** No position differs exactly when the two are equal. */
  lemma {:induction false} DisplacedZero(s: seq<int>, t: seq<int>)
    requires |s| == |t|
    ensures Displaced(s, t) == 0 <==> s == t
  {
    if |s| > 0 {
      DisplacedZero(s[1..], t[1..]);
      assert s == [s[0]] + s[1..] && t == [t[0]] + t[1..];
    }
  }

  /** Overwriting one position displaces at most one more element. */
  lemma {:induction false} DisplacedUpdate(s: seq<int>, t: seq<int>, x: int, v: int)
    requires |s| == |t| && 0 <= x < |s|
    ensures Displaced(s[x := v], t) <= Displaced(s, t) + 1
  {
    if x > 0 {
      DisplacedUpdate(s[1..], t[1..], x - 1, v);
      assert s[x := v][1..] == s[1..][x - 1 := v];
    } else {
      assert s[x := v][1..] == s[1..];
    }
  }

  /** One swap displaces at most two more elements. */
  lemma DisplacedSwap(s: seq<int>, t: seq<int>, x: int, y: int)
    requires |s| == |t| && 0 <= x < |s| && 0 <= y < |s|
    ensures Displaced(Swap(s, x, y), t) <= Displaced(s, t) + 2
  {
    DisplacedUpdate(s, t, x, s[y]);
    DisplacedUpdate(s[x := s[y]], t, y, s[x]);
  }

  /** The step of the swap loops: swap i + 1 keeps the values and displaces at most two more. */
  lemma SwapStep(s: seq<int>, t: seq<int>, x: int, y: int, i: int)
    requires |s| == |t| && 0 <= x < |s| && 0 <= y < |s|
    requires multiset(s) == multiset(t) && Displaced(s, t) <= 2 * i
    ensures multiset(Swap(s, x, y)) == multiset(t) && Displaced(Swap(s, x, y), t) <= 2 * (i + 1)
  {
    DisplacedSwap(s, t, x, y);
  }

  /**
   * The first k swaps of the mt19937 swap loop applied to s in order: swap j
   * exchanges the positions positions[2j] and positions[2j + 1].  The result
   * holds the same values and differs from s in at most two positions per swap.
   */
  function ApplySwaps(s: seq<int>, positions: seq<int>, k: nat): (r: seq<int>)
    requires 2 * k <= |positions|
    requires forall j :: 0 <= j < 2 * k ==> 0 <= positions[j] < |s|
    ensures |r| == |s| && multiset(r) == multiset(s)
    ensures Displaced(r, s) <= 2 * k
  {
    if k == 0 then
      DisplacedZero(s, s);
      s
    else
      var before := ApplySwaps(s, positions, k - 1);
      var x, y := positions[2 * k - 2], positions[2 * k - 1];
      SwapStep(before, s, x, y, k - 1);
      Swap(before, x, y)
  }

  /** Swap k + 1 applied to the result of the first k swaps. */
  lemma ApplySwapsNext(s: seq<int>, positions: seq<int>, k: nat)
    requires 2 * k + 2 <= |positions|
    requires forall j :: 0 <= j < 2 * k + 2 ==> 0 <= positions[j] < |s|
    ensures ApplySwaps(s, positions, k + 1)
      == Swap(ApplySwaps(s, positions, k), positions[2 * k], positions[2 * k + 1])
  {
    var x, y := positions[2 * (k + 1) - 2], positions[2 * (k + 1) - 1];
    assert x == positions[2 * k] && y == positions[2 * k + 1];
  }

  /** A prefix displaces no more than the whole. */
  lemma {:induction false} DisplacedPrefix(s: seq<int>, t: seq<int>, n: int)
    requires |s| == |t| && 0 <= n <= |s|
    ensures Displaced(s[..n], t[..n]) <= Displaced(s, t)
  {
    if n > 0 {
      DisplacedPrefix(s[1..], t[1..], n - 1);
      assert s[..n][1..] == s[1..][..n - 1];
      assert t[..n][1..] == t[1..][..n - 1];
    }
  }

  /** The xorshift state after k steps from seed. */
  function StateAfter(seed: bv64, k: nat): bv64
  {
    if k == 0 then seed else Step(StateAfter(seed, k - 1))
  }

  /**
   * The k-th value of the xorshift generator: `next_u32() % (maxValue + 1)`
   * on the (k + 1)-th state after GENERATOR_SEED, a value in [0, maxValue].
   */
  function XorshiftValue(k: nat, maxValue: int): (v: int)
    requires 0 <= maxValue < 0x7FFF_FFFF
    ensures 0 <= v <= maxValue
  {
    (Low32(StateAfter(GENERATOR_SEED, k + 1)) as int) % (maxValue + 1)
  }

  /** The number of swaps that disturb the ascending vector. */
  function SwapCount(maxSize: int): int
  {
    maxSize / 20
  }

  class ArrayGenerator {
    const maxSize: int
    var random: seq<int>
    var reversed: seq<int>
    var almost: seq<int>

    /**
     * What fill relies on and the three kinds promise: each vector has
     * maxSize elements and holds the same values, the reversed one in
     * non-increasing order, and the almost sorted one differs from the
     * ascending order in at most two positions per swap.
     */
    ghost predicate Valid()
      reads this
    {
      && 0 <= maxSize
      && |random| == maxSize && |reversed| == maxSize && |almost| == maxSize
      && multiset(reversed) == multiset(random) && NonIncreasing(reversed)
      && multiset(almost) == multiset(random)
      && Displaced(almost, SortAscending(random)) <= 2 * SwapCount(maxSize)
    }

    /**
     * The constructor of a3_experiments.cpp: maxSize draws of the xorshift
     * generator reduced into [0, maxValue], then the two sorted copies and
     * the swaps, whose positions come from the same generator.
     */
    constructor Xorshift(maxSize: int, maxValue: int)
      requires 0 <= maxSize <= 0x7FFF_FFFF && 0 <= maxValue < 0x7FFF_FFFF
      ensures Valid() && this.maxSize == maxSize
      ensures forall k :: 0 <= k < maxSize ==> random[k] == XorshiftValue(k, maxValue)
      ensures reversed == SortDescending(random)
    {
      this.maxSize := maxSize;
      random, reversed, almost := [], [], [];
      new;
      var rng := new FastRng(GENERATOR_SEED);
      DrawXorshift(rng, maxValue);
      reversed := SortDescending(random);
      almost := SortAscending(random);
      SwapXorshift(rng);
    }

    /** The value loop of the xorshift constructor. */
    method DrawXorshift(rng: FastRng, maxValue: int)
      requires 0 <= maxSize && 0 <= maxValue < 0x7FFF_FFFF && rng.state == GENERATOR_SEED
      modifies this, rng
      ensures |random| == maxSize
      ensures forall k :: 0 <= k < maxSize ==> random[k] == XorshiftValue(k, maxValue)
      ensures rng.state == StateAfter(GENERATOR_SEED, maxSize)
      ensures reversed == old(reversed) && almost == old(almost)
    {
      random := seq(maxSize, _ => 0);
      var i := 0;
      while i < maxSize
        invariant 0 <= i <= maxSize && |random| == maxSize
        invariant forall k :: 0 <= k < i ==> random[k] == XorshiftValue(k, maxValue)
        invariant rng.state == StateAfter(GENERATOR_SEED, i)
        invariant reversed == old(reversed) && almost == old(almost)
      {
        var x := rng.NextU32();
        random := random[i := (x as int) % (maxValue + 1)];
        i := i + 1;
      }
    }

    /**
     * The swap loop of the xorshift constructor: maxSize / 20 swaps, each of
     * two positions drawn by next_int(0, maxSize).
     */
    method SwapXorshift(rng: FastRng)
      requires 0 <= maxSize <= 0x7FFF_FFFF && |random| == maxSize
      requires almost == SortAscending(random)
      requires |reversed| == maxSize && multiset(reversed) == multiset(random) && NonIncreasing(reversed)
      modifies this, rng
      ensures random == old(random) && reversed == old(reversed)
      ensures Valid()
    {
      ghost var ascending := almost;
      DisplacedZero(almost, ascending);
      var swaps := maxSize / 20;
      var i := 0;
      while i < swaps
        invariant 0 <= i <= swaps && |almost| == maxSize
        invariant random == old(random) && reversed == old(reversed)
        invariant multiset(almost) == multiset(ascending)
        invariant Displaced(almost, ascending) <= 2 * i
      {
        var x, y := DrawPositions(rng, maxSize);
        SwapStep(almost, ascending, x, y, i);
        almost := Swap(almost, x, y);
        i := i + 1;
      }
    }

    /** The two positions of one swap: next_int(0, maxSize), twice. */
    static method DrawPositions(rng: FastRng, n: int) returns (x: int, y: int)
      requires 0 < n <= 0x7FFF_FFFF
      modifies rng
      ensures rng.state == Step(Step(old(rng.state)))
      ensures x == Pick(Low32(Step(old(rng.state))), 0, n) && y == Pick(Low32(rng.state), 0, n)
      ensures 0 <= x < n && 0 <= y < n
    {
      x := rng.NextInt(0, n);
      y := rng.NextInt(0, n);
    }

    /**
     * The constructor of a2_experiments.cpp as written.  The draws of
     * std::uniform_int_distribution over std::mt19937 are the parameter
     * draws, the swap positions the parameter positions (two per swap).
     * Line 22 sorts random_ itself before copying it into almost_, so the
     * Random kind hands out ascending vectors; see RandomKindSorted.
     */
    constructor MtAsWritten(maxSize: int, maxValue: int, draws: seq<int>, positions: seq<int>)
      requires 1 <= maxSize && |draws| == maxSize
      requires forall k :: 0 <= k < maxSize ==> 0 <= draws[k] <= maxValue
      requires |positions| == 2 * SwapCount(maxSize)
      requires forall k :: 0 <= k < |positions| ==> 0 <= positions[k] < maxSize
      ensures Valid() && this.maxSize == maxSize
      ensures random == SortAscending(draws) && reversed == SortDescending(draws)
    {
      this.maxSize := maxSize;
      random, reversed, almost := [], [], [];
      new;
      DrawMt(draws);
      reversed := SortDescending(random);
      random := SortAscending(random);
      almost := random;
      SortedStart(draws);
      SwapMt(positions);
    }

    /**
     * The constructor of a2_experiments.cpp as intended: random_ keeps the
     * values as drawn and only the copy in almost_ is sorted.
     */
    constructor Mt(maxSize: int, maxValue: int, draws: seq<int>, positions: seq<int>)
      requires 1 <= maxSize && |draws| == maxSize
      requires forall k :: 0 <= k < maxSize ==> 0 <= draws[k] <= maxValue
      requires |positions| == 2 * SwapCount(maxSize)
      requires forall k :: 0 <= k < |positions| ==> 0 <= positions[k] < maxSize
      ensures Valid() && this.maxSize == maxSize
      ensures random == draws && reversed == SortDescending(draws)
    {
      this.maxSize := maxSize;
      random, reversed, almost := [], [], [];
      new;
      DrawMt(draws);
      reversed := SortDescending(random);
      almost := SortAscending(random);
      SwapMt(positions);
    }

    /** The value loop of the mt19937 constructor: random_[i] = dist(rng_). */
    method DrawMt(draws: seq<int>)
      requires |draws| == maxSize
      modifies this
      ensures random == draws
      ensures reversed == old(reversed) && almost == old(almost)
    {
      random := seq(maxSize, _ => 0);
      var i := 0;
      while i < maxSize
        invariant 0 <= i <= maxSize && |random| == maxSize
        invariant random[..i] == draws[..i]
        invariant reversed == old(reversed) && almost == old(almost)
      {
        random := random[i := draws[i]];
        i := i + 1;
      }
    }

    /** The swap loop of the mt19937 constructor: swap k exchanges positions[2k] and positions[2k + 1]. */
    method SwapMt(positions: seq<int>)
      requires 0 <= maxSize && |random| == maxSize
      requires almost == SortAscending(random)
      requires |reversed| == maxSize && multiset(reversed) == multiset(random) && NonIncreasing(reversed)
      requires |positions| == 2 * SwapCount(maxSize)
      requires forall k :: 0 <= k < |positions| ==> 0 <= positions[k] < maxSize
      modifies this
      ensures random == old(random) && reversed == old(reversed)
      ensures almost == ApplySwaps(old(almost), positions, SwapCount(maxSize))
      ensures Valid()
    {
      almost := SwapPairs(almost, positions, SwapCount(maxSize));
    }

    /**
     * The loop of SwapMt on the vector s: for i < swaps, swap the positions
     * positions[2i] and positions[2i + 1].
     */
    static method SwapPairs(s: seq<int>, positions: seq<int>, swaps: nat) returns (t: seq<int>)
      requires 2 * swaps <= |positions|
      requires forall j :: 0 <= j < 2 * swaps ==> 0 <= positions[j] < |s|
      ensures t == ApplySwaps(s, positions, swaps)
    {
      t := s;
      var i := 0;
      while i < swaps
        invariant 0 <= i <= swaps
        invariant t == ApplySwaps(s, positions, i)
      {
        var x := positions[2 * i];
        var y := positions[2 * i + 1];
        ApplySwapsNext(s, positions, i);
        t := Swap(t, x, y);
        i := i + 1;
      }
    }

    /**
     * fill: the first n elements of the vector of the given kind.  A reversed
     * prefix is non-increasing, and an almost sorted prefix differs from the
     * ascending order of the values in at most two positions per swap.
     */
    function Fill(n: int, kind: Kind): (dest: seq<int>)
      reads this
      requires Valid() && 0 <= n <= maxSize
      ensures |dest| == n
      ensures kind == Random ==> dest == random[..n]
      ensures kind == Reversed ==> NonIncreasing(dest) && dest == reversed[..n]
      ensures kind == AlmostSorted ==> dest == almost[..n]
      ensures kind == AlmostSorted ==>
        Displaced(dest, SortAscending(random)[..n]) <= 2 * SwapCount(maxSize)
    {
      match kind
      case Random => random[..n]
      case Reversed => reversed[..n]
      case AlmostSorted =>
        DisplacedPrefix(almost, SortAscending(random), n);
        almost[..n]
    }
  }

  /**
   * With the draws 1 then 0, the as-written mt19937 constructor stores
   * random == SortAscending([1, 0]) == [0, 1]: the Random kind is not the
   * values as drawn.
   */
  lemma RandomKindSorted()
    ensures SortAscending([1, 0]) == [0, 1] != [1, 0]
  {
    assert [1, 0][1..] == [0];
    assert [0][1..] == [];
  }
}
