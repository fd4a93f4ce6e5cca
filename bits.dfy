/**
 * Bit-level facts about the 64-bit fields of a world state.
 *
 * The planner keeps one atom per bit of a 64-bit integer.  Bit positions are
 * `bv64` values below 64 so that shifts stay within bit-vector arithmetic.
 * Every lemma here states a single bit-vector fact; the facts about
 * counting set bits are proved by induction from them.
 */
module Bits {
  /** All 64 bits set: the C constant `-1LL`. */
  const ALL: bv64 := 0xFFFF_FFFF_FFFF_FFFF

  /** The single-bit mask `1LL << i`. */
  function Bit(i: bv64): bv64
    requires i < 64
  {
    1 << i
  }

  /** Bit `i` of `x` is set. */
  predicate IsSet(x: bv64, i: bv64)
    requires i < 64
  {
    (x >> i) & 1 != 0
  }

  /** `x` with bit `i` set. */
  function SetBit(x: bv64, i: bv64): bv64
    requires i < 64
  {
    x | Bit(i)
  }

  /** `x` with bit `i` cleared. */
  function ClearBit(x: bv64, i: bv64): bv64
    requires i < 64
  {
    x & !Bit(i)
  }

  /** The bits of `a` where `d` is set, and of `p` where `d` is clear. */
  function Select(a: bv64, d: bv64, p: bv64): bv64
  {
    (a & d) | (p & (d ^ ALL))
  }

  /** The mask of the `n` lowest bits. */
  function LowMask(n: bv64): bv64
    requires n <= 64
  {
    !(ALL << n)
  }

  /** The number of set bits of `x` among positions `0 .. n-1`. */
  function Ones(x: bv64, n: bv64): nat
    requires n <= 64
    decreases n
  {
    if n == 0 then 0 else Ones(x, n - 1) + (if IsSet(x, n - 1) then 1 else 0)
  }

  // ---------------------------------------------------------------------
  // Single-bit and word-level facts

  /** The C test `(x & (1LL << i)) != 0` reads bit `i`. */
  lemma BitTest(x: bv64, i: bv64)
    requires i < 64
    ensures (x & Bit(i) != 0) == IsSet(x, i)
  {
  }

  lemma SetBitHit(x: bv64, i: bv64)
    requires i < 64
    ensures IsSet(SetBit(x, i), i)
  {
  }

  lemma ClearBitHit(x: bv64, i: bv64)
    requires i < 64
    ensures !IsSet(ClearBit(x, i), i)
  {
  }

  /** Clearing bit `i` forgets whether it had been set. */
  lemma ClearAfterSet(x: bv64, i: bv64)
    requires i < 64
    ensures ClearBit(SetBit(x, i), i) == ClearBit(x, i)
  {
  }

  lemma ClearTwice(x: bv64, i: bv64)
    requires i < 64
    ensures ClearBit(ClearBit(x, i), i) == ClearBit(x, i)
  {
  }

  /** `Select` keeps `a` where `d` is set ... */
  lemma SelectKeeps(a: bv64, d: bv64, p: bv64)
    ensures Select(a, d, p) & d == a & d
  {
  }

  /** ... and takes `p` where `d` is clear. */
  lemma SelectTakes(a: bv64, d: bv64, p: bv64)
    ensures Select(a, d, p) & (d ^ ALL) == p & (d ^ ALL)
  {
  }

  /** Selecting again with the same mask and source changes nothing. */
  lemma SelectTwice(a: bv64, d: bv64, p: bv64)
    ensures Select(Select(a, d, p), d, p) == Select(a, d, p)
  {
  }

  lemma AndTwice(x: bv64, y: bv64)
    ensures (x & y) & y == x & y
  {
  }

  /** Two words are equal exactly when their difference is empty. */
  lemma XorZero(x: bv64, y: bv64)
    ensures (x ^ y == 0) == (x == y)
  {
  }

  lemma PredAsInt(n: bv64)
    requires 0 < n <= 64
    ensures (n - 1) as int == n as int - 1
  {
  }

  /** Masking with `d` leaves no bit outside `d`. */
  lemma AndClears(x: bv64, d: bv64)
    ensures (x & d) & (d ^ ALL) == 0
  {
  }

  lemma ZeroBit(i: bv64)
    requires i < 64
    ensures !IsSet(0, i)
  {
  }

  lemma LowMaskZero()
    ensures LowMask(0) == 0
  {
  }

  lemma LowMaskFull()
    ensures LowMask(64) == ALL
  {
  }

  /** Growing the low mask by one clear bit keeps `x` clear under it. */
  lemma LowBitsStep(x: bv64, n: bv64)
    requires n < 64
    requires x & LowMask(n) == 0
    requires !IsSet(x, n)
    ensures x & LowMask(n + 1) == 0
  {
  }

  // ---------------------------------------------------------------------
  // Counting set bits

  /** Counting one more position adds that bit. */
  lemma OnesStep(x: bv64, n: bv64)
    requires n < 64
    ensures Ones(x, n + 1) == Ones(x, n) + (if IsSet(x, n) then 1 else 0)
  {
  }

  /** At most `n` bits are counted below position `n`. */
  lemma {:induction false} OnesBound(x: bv64, n: bv64)
    requires n <= 64
    decreases n
    ensures Ones(x, n) <= n as int
  {
    if n > 0 {
      OnesBound(x, n - 1);
      PredAsInt(n);
    }
  }

  /** No bit counted below `n` means no bit set below `n`. */
  lemma {:induction false} OnesZeroOnlyIf(x: bv64, n: bv64)
    requires n <= 64
    requires Ones(x, n) == 0
    decreases n
    ensures x & LowMask(n) == 0
  {
    if n == 0 {
      LowMaskZero();
    } else {
      OnesZeroOnlyIf(x, n - 1);
      LowBitsStep(x, n - 1);
    }
  }

  /** A word with no set bit is zero. */
  lemma NoOnesIsZero(x: bv64)
    requires Ones(x, 64) == 0
    ensures x == 0
  {
    OnesZeroOnlyIf(x, 64);
    LowMaskFull();
  }

  /** Zero has no set bit. */
  lemma {:induction false} ZeroHasNoOnes(n: bv64)
    requires n <= 64
    decreases n
    ensures Ones(0, n) == 0
  {
    if n > 0 {
      ZeroHasNoOnes(n - 1);
      ZeroBit(n - 1);
    }
  }
}
