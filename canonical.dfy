/**
 * Canonical virtual addresses on x86-64 (lib/chos-lib/src/arch/x64/mm/mod.rs).
 *
 * With 48-bit linear addresses, bits 47 to 63 of a canonical address are all
 * copies of bit 47 (section 3.3.7.1 of the Intel 64 and IA-32 Architectures
 * Software Developer's Manual, Volume 1).
 */
module Canonical {
  type u64 = bv64

  const PAGE_SHIFT: nat := 12
  const CANONICAL_SHIFT: bv64 := 47
  /** Bits 47..63, that is `!((1 << CANONICAL_SHIFT) - 1)` (see CanonicalMaskValue). */
  const CANONICAL_MASK: u64 := 0xffff_8000_0000_0000
  /** Bits 0..46, the ones `make_canonical` keeps. */
  const LOW_BITS: u64 := 0x0000_7fff_ffff_ffff

  /** Independent reference: the address lies in the low or in the high half of the address space. */
  predicate InLowOrHighHalf(addr: u64) {
    addr < 0x0000_8000_0000_0000 || addr >= 0xffff_8000_0000_0000
  }

  /** `is_canonical`: bits 47..63 all clear or all set, that is an address in one of the two halves. */
  predicate IsCanonical(addr: u64): (r: bool)
    ensures r <==> InLowOrHighHalf(addr)
  {
    addr & CANONICAL_MASK == 0 || addr & CANONICAL_MASK == CANONICAL_MASK
  }

  /**
   * `make_canonical`: a canonical address with the low 47 bits of the
   * input, the address itself when it is already canonical.
   */
  function MakeCanonical(addr: u64): (r: u64)
    ensures IsCanonical(r)
    ensures IsCanonical(addr) ==> r == addr
    ensures r & LOW_BITS == addr & LOW_BITS
  {
    var r := if addr & CANONICAL_MASK == 0 then addr else addr | CANONICAL_MASK;
    CanonicalForm(addr, r);
    CanonicalFormLow(addr, r);
    r
  }

  /** The two outcomes of `make_canonical`, each checked on its own. */
  lemma CanonicalForm(x: u64, r: u64)
    requires r == (if x & CANONICAL_MASK == 0 then x else x | CANONICAL_MASK)
    ensures IsCanonical(r)
    ensures IsCanonical(x) ==> r == x
  {
    if x & CANONICAL_MASK != 0 {
      OrHighCanonical(x);
    }
  }

  /** Either outcome of `make_canonical` keeps bits 0..46. */
  lemma CanonicalFormLow(x: u64, r: u64)
    requires r == (if x & CANONICAL_MASK == 0 then x else x | CANONICAL_MASK)
    ensures r & LOW_BITS == x & LOW_BITS
  {
    if x & CANONICAL_MASK != 0 {
      OrHighKeepsLow(x);
    }
  }

  /** Setting bits 47..63 gives a canonical address, the address itself when they were all set. */
  lemma OrHighCanonical(x: u64)
    ensures (x | CANONICAL_MASK) & CANONICAL_MASK == CANONICAL_MASK
    ensures x & CANONICAL_MASK == CANONICAL_MASK ==> x | CANONICAL_MASK == x
  {
  }

  /** The mask test agrees with the description "bits 47..63 all zero or all one". */
  lemma IsCanonicalIffHalves(addr: u64)
    ensures IsCanonical(addr) <==> InLowOrHighHalf(addr)
  {
  }

  lemma MakeCanonicalIsCanonical(addr: u64)
    ensures IsCanonical(MakeCanonical(addr))
  {
    if addr & CANONICAL_MASK != 0 {
      assert MakeCanonical(addr) == addr | CANONICAL_MASK;
    } else {
      assert MakeCanonical(addr) == addr;
    }
  }

  /** Canonical inputs come back unchanged. */
  lemma MakeCanonicalIdentity(addr: u64)
    requires IsCanonical(addr)
    ensures MakeCanonical(addr) == addr
  {
  }

  /** Setting bits 47..63 keeps bits 0..46. */
  lemma OrHighKeepsLow(x: u64)
    ensures (x | CANONICAL_MASK) & LOW_BITS == x & LOW_BITS
  {
  }

  lemma MakeCanonicalIdempotent(addr: u64)
    ensures MakeCanonical(MakeCanonical(addr)) == MakeCanonical(addr)
  {
    MakeCanonicalIdentity(MakeCanonical(addr));
  }

  lemma CanonicalMaskValue()
    ensures CANONICAL_MASK == !((1 << CANONICAL_SHIFT) - 1)
  {
  }

  /** Any address with a bit set in 47..63 lands in the high half. */
  lemma MakeCanonicalHighHalf(addr: u64)
    ensures addr & CANONICAL_MASK != 0 ==> MakeCanonical(addr) >= 0xffff_8000_0000_0000
    ensures addr & CANONICAL_MASK == 0 ==> MakeCanonical(addr) < 0x0000_8000_0000_0000
  {
  }

  lemma CanonicalExamples()
    ensures IsCanonical(0x0000_0000_0000_0000) && IsCanonical(0xffff_8000_0000_0000)
    ensures IsCanonical(0xffff_ffff_ffff_ffff)
    ensures !IsCanonical(0x8000_0000_0000_0000) && !IsCanonical(0xff00_0000_0000_0000)
    ensures MakeCanonical(0x0000_8000_0000_0000) == 0xffff_8000_0000_0000
    ensures MakeCanonical(0x0000_7fff_ffff_ffff) == 0x0000_7fff_ffff_ffff
    ensures MakeCanonical(0x0000_ffff_ffff_ffff) == 0xffff_ffff_ffff_ffff
  {
  }
}
