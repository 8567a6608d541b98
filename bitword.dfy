/**
 * The 64-bit bitmap words of src/memory/physical.cpp as machine integers, and the
 * flag-sequence view the Physical module works with: flag k of a word is bit k
 * (bit 0 the least significant). The lemmas here show that each operator the
 * allocator applies to a uint64 word is the matching update of its flags:
 *   entry |= 1ull << k     sets flag k        (SetFlag)
 *   entry & ~(1ull << k)   clears flag k      (ClearFlag)
 *   (entry & 1u) == 0      reads flag 0       (LowFlag)
 *   entry >>= 1            drops flag 0 and shifts a clear flag in at the top (ShiftFlags)
 *   memset(0xFF)           sets every flag    (AllOnesFlags)
 */
module BitWord {

  const WordBits: nat := 64
  const AllOnes: bv64 := 0xFFFF_FFFF_FFFF_FFFF

  /** The word and the mask have a one bit in common. */
  predicate Has(w: bv64, m: bv64)
  {
    w & m != 0
  }

  /** The mask `1ull << k` for a shift amount below 64. */
  function Mask(k: bv6): bv64
  {
    1 << k
  }

  /** Bit k of the word is one. */
  predicate BitSet(w: bv64, k: bv6)
  {
    Has(w, Mask(k))
  }

  /** A frame offset inside a word as a 6-bit shift amount: 0 stepped up k times. */
  function Idx(k: nat): bv6
  {
    if k == 0 then 0 else Idx(k - 1) + 1
  }

  /** Below 64 the shift amount has the offset's value. */
  lemma {:induction false} IdxValue(k: nat)
    requires k < WordBits
    ensures Idx(k) as int == k
  {
    if k > 0 {
      IdxValue(k - 1);
      var p := Idx(k - 1);
      StepValue(p);
    }
  }

  /** Different offsets below 64 are different shift amounts. */
  lemma IdxInjective(k: nat, j: nat)
    requires k < WordBits && j < WordBits && k != j
    ensures Idx(k) != Idx(j)
  {
    IdxValue(k);
    IdxValue(j);
  }

  /** The flags of a word, bit 0 first. */
  function Flags(w: bv64): (f: seq<bool>)
    ensures |f| == WordBits
  {
    seq(WordBits, k requires 0 <= k < WordBits => BitSet(w, Idx(k)))
  }

  /** Flag k of a word is its bit k. */
  lemma FlagAt(w: bv64, k: nat)
    requires k < WordBits
    ensures Flags(w)[k] == BitSet(w, Idx(k))
  {
  }

  /** `entry |= 1ull << k` sets flag k and keeps the others. */
  lemma SetFlag(w: bv64, k: nat)
    requires k < WordBits
    ensures Flags(w | Mask(Idx(k))) == Flags(w)[k := true]
  {
    var b := Idx(k);
    var v := w | Mask(b);
    SetSameBit(w, b);
    forall j | 0 <= j < WordBits && j != k
      ensures BitSet(v, Idx(j)) == BitSet(w, Idx(j))
    {
      IdxInjective(k, j);
      SetOtherBit(w, b, Idx(j));
    }
    FlagsUpdate(w, v, k);
  }

  /** `entry & ~(1ull << k)` clears flag k and keeps the others. */
  lemma ClearFlag(w: bv64, k: nat)
    requires k < WordBits
    ensures Flags(w & !Mask(Idx(k))) == Flags(w)[k := false]
  {
    var b := Idx(k);
    var v := w & !Mask(b);
    ClearSameBit(w, b);
    forall j | 0 <= j < WordBits && j != k
      ensures BitSet(v, Idx(j)) == BitSet(w, Idx(j))
    {
      IdxInjective(k, j);
      ClearOtherBit(w, b, Idx(j));
    }
    FlagsUpdate(w, v, k);
  }

  /** Two words whose bits agree except at k have the same flags except at k. */
  lemma FlagsUpdate(w: bv64, v: bv64, k: nat)
    requires k < WordBits
    requires forall j :: 0 <= j < WordBits && j != k ==> BitSet(v, Idx(j)) == BitSet(w, Idx(j))
    ensures Flags(v) == Flags(w)[k := BitSet(v, Idx(k))]
  {
    forall j | 0 <= j < WordBits
      ensures Flags(v)[j] == Flags(w)[k := BitSet(v, Idx(k))][j]
    {
      FlagAt(v, j);
      FlagAt(w, j);
    }
  }

  /** `(entry & 1u) == 0` tests flag 0. */
  lemma LowFlag(w: bv64)
    ensures (w & 1 == 0) == !Flags(w)[0]
  {
    FlagAt(w, 0);
  }

  /** `entry >>= 1` moves every flag down by one and clears the top flag. */
  lemma ShiftFlags(w: bv64)
    ensures Flags(w >> 1) == Flags(w)[1..] + [false]
  {
    forall t | 0 <= t < WordBits
      ensures Flags(w >> 1)[t] == (Flags(w)[1..] + [false])[t]
    {
      FlagAt(w >> 1, t);
      IdxValue(t);
      var b := Idx(t);
      if t + 1 < WordBits {
        FlagAt(w, t + 1);
        ShiftLow(w, b);
      } else {
        ShiftTop(w, b);
      }
    }
  }

  /** A word of all ones (what memset with 0xFF writes) has every flag set. */
  lemma AllOnesFlags()
    ensures Flags(AllOnes) == seq(WordBits, _ => true)
  {
    forall k | 0 <= k < WordBits
      ensures Flags(AllOnes)[k]
    {
      FlagAt(AllOnes, k);
      AllOnesBit(Idx(k));
    }
  }

  // ---------------------------------------------------------------------------
  // Single-bit facts on 6-bit shift amounts

  lemma StepValue(p: bv6)
    requires p as int < 63
    ensures (p + 1) as int == p as int + 1
  {
  }

  lemma SetSameBit(w: bv64, k: bv6)
    ensures BitSet(w | Mask(k), k)
  {
  }

  lemma SetOtherBit(w: bv64, k: bv6, j: bv6)
    requires k != j
    ensures BitSet(w | Mask(k), j) == BitSet(w, j)
  {
  }

  lemma ClearSameBit(w: bv64, k: bv6)
    ensures !BitSet(w & !Mask(k), k)
  {
  }

  lemma ClearOtherBit(w: bv64, k: bv6, j: bv6)
    requires k != j
    ensures BitSet(w & !Mask(k), j) == BitSet(w, j)
  {
  }

  /** Shifting right by one moves bit t + 1 down to bit t. */
  lemma ShiftLow(w: bv64, t: bv6)
    requires t as int < 63
    ensures BitSet(w >> 1, t) == BitSet(w, t + 1)
  {
  }

  /** Shifting right by one leaves the top bit clear. */
  lemma ShiftTop(w: bv64, t: bv6)
    requires t as int == 63
    ensures !BitSet(w >> 1, t)
  {
  }

  lemma AllOnesBit(k: bv6)
    ensures BitSet(AllOnes, k)
  {
  }
}
