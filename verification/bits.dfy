/**
 * Bit-level facts about 64-bit words.
 *
 * Every lemma here is stated over a `bv8` bit index, so that the solver can
 * settle it inside the bit-vector theory alone. The candidate-set module
 * (`PSets`) lifts these facts to its `nat`-indexed view of a word as a set
 * of colours; the few lemmas relating `nat` indices to `bv8` indices are at
 * the end of this module.
 */
module Bits {

  type Word = bv64

  /** The all-ones word, `((pset_t) 0) - 1` in the source. */
  const AllOnes: Word := 0xFFFF_FFFF_FFFF_FFFF

  /** Bit `x` of `w` is set. */
  predicate Bit(w: Word, x: bv8)
    requires x < 64
  {
    (w >> x) & 1 == 1
  }

  /** The mask of the bits strictly below bit `x`. */
  function Below(x: bv8): Word
    requires x < 64
  {
    (1 << x) - 1
  }

  /** No bit of `w` below bit `x` is set. */
  ghost predicate NoneBelow(w: Word, x: bv8)
    requires x <= 64
  {
    forall y: bv8 | y < x :: !Bit(w, y)
  }

  // ---------------------------------------------------------------------
  // Bitwise operators, one bit at a time
  // ---------------------------------------------------------------------

  lemma ZeroBit(x: bv8)
    requires x < 64
    ensures !Bit(0, x)
  {
  }

  lemma AndBit(a: Word, b: Word, x: bv8)
    requires x < 64
    ensures Bit(a & b, x) <==> Bit(a, x) && Bit(b, x)
  {
  }

  lemma OrBit(a: Word, b: Word, x: bv8)
    requires x < 64
    ensures Bit(a | b, x) <==> Bit(a, x) || Bit(b, x)
  {
  }

  lemma XorBit(a: Word, b: Word, x: bv8)
    requires x < 64
    ensures Bit(a ^ b, x) <==> Bit(a, x) != Bit(b, x)
  {
  }

  lemma NotBit(a: Word, x: bv8)
    requires x < 64
    ensures Bit(!a, x) <==> !Bit(a, x)
  {
  }

  /** `1 << y` has bit `y` and no other. */
  lemma OneShiftBit(y: bv8, x: bv8)
    requires y < 64 && x < 64
    ensures Bit(1 << y, x) <==> x == y
  {
  }

  /** `AllOnes >> (64 - k)` keeps the `k` lowest bits ... */
  lemma LowOnesIn(k: bv8, x: bv8)
    requires x < k <= 64
    ensures Bit(AllOnes >> (64 - k), x)
  {
  }

  /** ... and no other. */
  lemma LowOnesOut(k: bv8, x: bv8)
    requires 0 < k <= x < 64
    ensures !Bit(AllOnes >> (64 - k), x)
  {
  }

  /** The low bit of `w >> x` is bit `x`, which is what `tmp % 2` reads. */
  lemma ShiftedParity(w: Word, x: bv8)
    requires x < 64
    ensures Bit(w, x) <==> (w >> x) % 2 == 1
  {
  }

  /** Shifting right by `x` and then by one is shifting right by `x + 1`. */
  lemma {:induction false} ShiftStep(w: Word, x: bv8)
    requires x < 63
    ensures (w >> x) >> 1 == w >> (x + 1)
  {
    // The solver settles the identity quickly on a narrow range of `x`.
    if x < 8 { ShiftStep0(w, x); }
    else if x < 16 { ShiftStep1(w, x); }
    else if x < 24 { ShiftStep2(w, x); }
    else if x < 32 { ShiftStep3(w, x); }
    else if x < 48 { ShiftStep4(w, x); }
    else { ShiftStep5(w, x); }
  }

  lemma ShiftStep0(w: Word, x: bv8)
    requires x < 8
    ensures (w >> x) >> 1 == w >> (x + 1)
  {
  }

  lemma ShiftStep1(w: Word, x: bv8)
    requires 8 <= x < 16
    ensures (w >> x) >> 1 == w >> (x + 1)
  {
  }

  lemma ShiftStep2(w: Word, x: bv8)
    requires 16 <= x < 24
    ensures (w >> x) >> 1 == w >> (x + 1)
  {
  }

  lemma ShiftStep3(w: Word, x: bv8)
    requires 24 <= x < 32
    ensures (w >> x) >> 1 == w >> (x + 1)
  {
  }

  lemma ShiftStep4(w: Word, x: bv8)
    requires 32 <= x < 48
    ensures (w >> x) >> 1 == w >> (x + 1)
  {
  }

  lemma ShiftStep5(w: Word, x: bv8)
    requires 48 <= x < 63
    ensures (w >> x) >> 1 == w >> (x + 1)
  {
  }

  /** Bit `y` of `w >> 1` is bit `y + 1` of `w`. */
  lemma BitShift(w: Word, y: bv8)
    requires y < 63
    ensures Bit(w >> 1, y) == Bit(w, y + 1)
  {
  }

  /** Bit 0 is the remainder modulo 2. */
  lemma BitZero(w: Word)
    ensures Bit(w, 0) <==> w % 2 == 1
  {
  }

  // ---------------------------------------------------------------------
  // The lowest set bit
  // ---------------------------------------------------------------------

  /** Above the lowest set bit, `w & (w - 1)` keeps the bit of `w`. */
  lemma ClearAbove(w: Word, x: bv8)
    requires x < 64 && w & Below(x) != 0
    ensures Bit(w & (w - 1), x) == Bit(w, x)
  {
  }

  /** Up to the lowest set bit, `w & (w - 1)` has no bit. */
  lemma ClearUpTo(w: Word, x: bv8)
    requires x < 64 && w & Below(x) == 0
    ensures !Bit(w & (w - 1), x)
  {
  }

  /** Above the lowest set bit, `w ^ (w & (w - 1))` has no bit. */
  lemma LowestAbove(w: Word, x: bv8)
    requires x < 64 && w & Below(x) != 0
    ensures !Bit(w ^ (w & (w - 1)), x)
  {
  }

  /** Up to the lowest set bit, `w ^ (w & (w - 1))` keeps the bit of `w`. */
  lemma LowestUpTo(w: Word, x: bv8)
    requires x < 64 && w & Below(x) == 0
    ensures Bit(w ^ (w & (w - 1)), x) == Bit(w, x)
  {
  }

  /** Masking with `Below(x)` keeps the bits below `x`. */
  lemma BelowKeeps(w: Word, x: bv8, y: bv8)
    requires x < 64 && y < x
    ensures Bit(w & Below(x), y) <==> Bit(w, y)
  {
  }

  lemma BelowStep(x: bv8)
    requires x < 63
    ensures Below(x + 1) == Below(x) | (1 << x)
  {
  }

  lemma SingleBitMask(w: Word, x: bv8)
    requires x < 64
    ensures w & (1 << x) == 0 <==> !Bit(w, x)
  {
  }

  lemma OrZero(w: Word, a: Word, b: Word)
    requires w & a == 0 && w & b == 0
    ensures w & (a | b) == 0
  {
  }

  lemma NoneBelowStep(w: Word, x: bv8)
    requires 0 < x < 64 && NoneBelow(w, x)
    ensures NoneBelow(w, x - 1) && !Bit(w, x - 1)
  {
  }

  /** A word with no set bit below `x` vanishes under the mask `Below(x)`. */
  lemma {:induction false} ZeroBelow(w: Word, x: bv8)
    requires x < 64 && NoneBelow(w, x)
    ensures w & Below(x) == 0
    decreases x as int
  {
    if x > 0 {
      NoneBelowStep(w, x);
      ZeroBelow(w, x - 1);
      BelowStep(x - 1);
      SingleBitMask(w, x - 1);
      OrZero(w, Below(x - 1), 1 << (x - 1));
    }
  }

  /** A word with no set bit at all is zero. */
  lemma {:induction false} NoBitZero(w: Word)
    requires NoneBelow(w, 64)
    ensures w == 0
  {
    ZeroBelow(w, 63);
    SingleBitMask(w, 63);
    OrZero(w, Below(63), 1 << 63);
  }

  // ---------------------------------------------------------------------
  // `nat` bit indices against `bv8` bit indices
  // ---------------------------------------------------------------------

  lemma IndexRoundTrip(i: nat)
    requires i < 64
    ensures (i as bv8) as nat == i
  {
  }

  lemma IndexRoundTripBv(x: bv8)
    requires x < 64
    ensures (x as nat) as bv8 == x
  {
  }

  lemma IndexBoundBv(x: bv8)
    requires x < 64
    ensures x as nat < 64
  {
  }

  lemma {:induction false} IndexLessNat(i: nat, k: nat)
    requires i < k <= 64
    ensures i as bv8 < k as bv8 <= 64
  {
    IndexRoundTrip(i);
    IndexBoundNat(i as bv8);
    if k < 64 {
      IndexRoundTrip(k);
      IndexBoundNat(k as bv8);
      IndexLessBv(i as bv8, k as bv8);
    } else {
      assert k as bv8 == 64;
    }
  }

  lemma IndexSucc(x: bv8)
    requires x < 63
    ensures (x + 1) as nat == x as nat + 1
  {
  }

  lemma IndexBelow63(x: bv8)
    requires x as nat < 63
    ensures x < 63
  {
  }

  lemma IndexBoundNat(x: bv8)
    requires x as nat < 64
    ensures x < 64
  {
  }

  lemma IndexLessBv(x: bv8, y: bv8)
    requires x < 64 && y < 64
    ensures x < y <==> x as nat < y as nat
  {
  }
}
