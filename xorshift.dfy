/**
 * The 64-bit xorshift generator that draws pivots (FastRng in
 * a3_experiments.cpp; the same code over a process-global state in A3i.cpp).
 *
 * One step is `state ^= state << 7; state ^= state >> 9;` on 64 bits, and a
 * draw returns the low 32 bits of the new state.
 */
module XorShift {

  /** Seed of A3i.cpp's global state and FastRng's default seed. */
  const DEFAULT_SEED: bv64 := 88172645463393265

  /** One update of the 64-bit state. */
  function Step(s: bv64): bv64
  {
    var t := s ^ (s << 7);
    t ^ (t >> 9)
  }

  /** Inverse of `t ^= t >> 9`: xor in every further multiple of 9 bits. */
  function UnshiftRight9(y: bv64): bv64
  {
    y ^ (y >> 9) ^ (y >> 18) ^ (y >> 27) ^ (y >> 36) ^ (y >> 45) ^ (y >> 54) ^ (y >> 63)
  }

  /** Inverse of `t ^= t << 7`: xor in every further multiple of 7 bits. */
  function UnshiftLeft7(y: bv64): bv64
  {
    y ^ (y << 7) ^ (y << 14) ^ (y << 21) ^ (y << 28) ^ (y << 35)
      ^ (y << 42) ^ (y << 49) ^ (y << 56) ^ (y << 63)
  }

  /** Step run backwards: the state that Step maps to s. */
  function Unstep(s: bv64): bv64
  {
    UnshiftLeft7(UnshiftRight9(s))
  }

  lemma UnshiftRight9Inverts(x: bv64)
    ensures UnshiftRight9(x ^ (x >> 9)) == x
  {
  }

  lemma UnshiftLeft7Inverts(x: bv64)
    ensures UnshiftLeft7(x ^ (x << 7)) == x
  {
  }

  /** Unstep undoes Step, so Step is injective: distinct states stay distinct. */
  lemma StepInvertible(s: bv64)
    ensures Unstep(Step(s)) == s
  {
    UnshiftRight9Inverts(s ^ (s << 7));
    UnshiftLeft7Inverts(s);
  }

  /** A non-zero state never collapses to zero, the generator's one stuck state. */
  lemma StepNonZero(s: bv64)
    requires s != 0
    ensures Step(s) != 0
  {
    StepInvertible(s);
    StepInvertible(0);
  }

  /**
   * The low 32 bits of the state, as `static_cast<std::uint32_t>(state)`:
   * the remainder of s modulo 2^32, which with the high half of s rebuilds s.
   */
  function Low32(s: bv64): (r: bv32)
    ensures r as bv64 == s % 0x1_0000_0000
    ensures ((s >> 32) << 32) | (r as bv64) == s
  {
    (s & 0xFFFF_FFFF) as bv32
  }

  /**
   * `l + static_cast<int>(x % static_cast<std::uint32_t>(r - l))`: a draw x
   * reduced into [l, r).  The span must be non-zero (r > l), and as a
   * difference of two `int` indices it fits in 31 bits.
   */
  function Pick(x: bv32, l: int, r: int): (k: int)
    requires l < r && r - l <= 0x7FFF_FFFF
    ensures l <= k < r
    ensures k - l == (x as int) % (r - l)
  {
    l + (x as int) % (r - l)
  }

  /** The generator object: its only field is the 64-bit state. */
  class FastRng {
    var state: bv64

    constructor (seed: bv64)
      ensures state == seed
    {
      state := seed;
    }

    /** next_u32 (and A3i.cpp's next_rand): advance one step, return the low half. */
    method NextU32() returns (x: bv32)
      modifies this
      ensures state == Step(old(state))
      ensures x == Low32(state)
    {
      state := Step(state);
      x := Low32(state);
    }

    /** next_int(l, r): one draw reduced into [l, r). */
    method NextInt(l: int, r: int) returns (k: int)
      requires l < r && r - l <= 0x7FFF_FFFF
      modifies this
      ensures state == Step(old(state))
      ensures k == Pick(Low32(state), l, r)
      ensures l <= k < r
    {
      var x := NextU32();
      k := Pick(x, l, r);
    }
  }
}
