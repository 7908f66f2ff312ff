/**
 * Bit fields inside an unsigned machine word (lib/chos-lib/src/bitfield.rs):
 * `get_bits`/`set_bits` of the `Bitfield`/`BitfieldMut` traits for `u64`,
 * and the `bool` instance of `FieldCast`.
 *
 * A field is the inclusive bit range `from..=to`. The source computes the mask
 * as `((1 << bits) - 1) << from` with `bits = to - from + 1`; the shift
 * overflows unless `bits` is below the word width, and `to - from` underflows
 * unless `from <= to`, so those are the callers' obligations here.
 */
module Bitfield {
  import opened IntOps
  import opened Bits

  const WORD_BITS: nat := 64

  /** The field bounds for which the source computes a mask without overflow. */
  predicate ValidField(from: nat, to: nat) {
    from <= to < WORD_BITS && to - from + 1 < WORD_BITS
  }

  function Width(from: nat, to: nat): nat
    requires ValidField(from, to)
  {
    to - from + 1
  }

  /** `((1 << bits) - 1) << from`. */
  function Mask(from: nat, to: nat): nat
    requires ValidField(from, to)
  {
    Shl(Pow2(Width(from, to)) - 1, from)
  }

  /** `get_bits`: `(x & mask) >> from`, that is the field moved down to bit 0. */
  function GetBits(x: nat, from: nat, to: nat): (r: nat)
    requires ValidField(from, to)
    ensures r < Pow2(Width(from, to))
  {
    LowBound(Shr(x, from), Width(from, to));
    Low(Shr(x, from), Width(from, to))
  }

  /**
   * `set_bits`: `(x & !mask) | ((bits << from) & mask)`. The word is rebuilt
   * from three parts: the bits of `x` above `to`, the low `to - from + 1`
   * bits of `bits` (what `(bits << from) & mask` keeps), and the bits of `x`
   * below `from`.
   */
  function SetBits(x: nat, from: nat, to: nat, bits: nat): (r: nat)
    requires ValidField(from, to)
    ensures GetBits(r, from, to) == Low(bits, Width(from, to))
  {
    var w := Width(from, to);
    var field := Low(bits, w);
    LowBound(bits, w);
    LowBound(x, from);
    var upper := Concat(Shr(x, to + 1), field, w);
    ShrConcat(upper, Low(x, from), from, from);
    LowConcat(Shr(x, to + 1), field, w);
    Concat(upper, Low(x, from), from)
  }

  /** `FieldCast<u64> for bool`: any non-zero field reads as `true`. */
  function BoolFromRepr(v: nat): bool {
    v != 0
  }

  function BoolIntoRepr(b: bool): nat {
    if b then 1 else 0
  }

  // ---------------------------------------------------------------- properties

  /** The mask has exactly the bits `from..=to` set. */
  lemma MaskExactBits(from: nat, to: nat, i: nat)
    requires ValidField(from, to)
    ensures Bit(Mask(from, to), i) <==> from <= i <= to
  {
    BitShl(Pow2(Width(from, to)) - 1, from, i);
    if from <= i {
      AllOnesBit(Width(from, to), i - from);
    }
  }

  /** `get_bits` returns exactly bits `from..=to` of `x`, moved down to bit 0. */
  lemma GetBitsBits(x: nat, from: nat, to: nat, k: nat)
    requires ValidField(from, to)
    ensures Bit(GetBits(x, from, to), k) <==> k < Width(from, to) && Bit(x, from + k)
  {
    BitLow(Shr(x, from), Width(from, to), k);
    BitShr(x, from, k);
  }

  /** The result of `get_bits` fits in `to - from + 1` bits. */
  lemma GetBitsBound(x: nat, from: nat, to: nat)
    requires ValidField(from, to)
    ensures GetBits(x, from, to) < Pow2(Width(from, to))
  {
    LowBound(Shr(x, from), Width(from, to));
  }

  /** `set_bits` leaves every bit outside `from..=to` as it was. */
  lemma SetBitsKeepsOtherBits(x: nat, from: nat, to: nat, bits: nat, i: nat)
    requires ValidField(from, to) && !(from <= i <= to)
    ensures Bit(SetBits(x, from, to, bits), i) == Bit(x, i)
  {
    var w := Width(from, to);
    var field := Low(bits, w);
    LowBound(bits, w);
    LowBound(x, from);
    var upper := Concat(Shr(x, to + 1), field, w);
    BitConcat(upper, Low(x, from), from, i);
    if i < from {
      BitLow(x, from, i);
    } else {
      BitConcat(Shr(x, to + 1), field, w, i - from);
      BitShr(x, to + 1, i - from - w);
    }
  }

  /** `set_bits` stores the low `to - from + 1` bits of `bits` in the field. */
  lemma SetBitsWritesField(x: nat, from: nat, to: nat, bits: nat, k: nat)
    requires ValidField(from, to) && k < Width(from, to)
    ensures Bit(SetBits(x, from, to, bits), from + k) == Bit(bits, k)
  {
    var w := Width(from, to);
    var field := Low(bits, w);
    LowBound(bits, w);
    LowBound(x, from);
    BitConcat(Concat(Shr(x, to + 1), field, w), Low(x, from), from, from + k);
    BitConcat(Shr(x, to + 1), field, w, k);
    BitLow(bits, w, k);
  }

  /** Reading a field back gives the written value truncated to the field width. */
  lemma GetAfterSet(x: nat, from: nat, to: nat, bits: nat)
    requires ValidField(from, to)
    ensures GetBits(SetBits(x, from, to, bits), from, to) == Low(bits, Width(from, to))
  {
    var w := Width(from, to);
    var field := Low(bits, w);
    LowBound(bits, w);
    LowBound(x, from);
    var upper := Concat(Shr(x, to + 1), field, w);
    ShrConcat(upper, Low(x, from), from, from);
    LowConcat(Shr(x, to + 1), field, w);
  }

  /** Writing a field with the value it already holds changes nothing. */
  lemma SetOwnValue(x: nat, from: nat, to: nat)
    requires ValidField(from, to)
    ensures SetBits(x, from, to, GetBits(x, from, to)) == x
  {
    var w := Width(from, to);
    var y := Shr(x, from);
    LowBound(y, w);
    LowOfNarrow(Low(y, w), w);
    ShrShr(x, from, w);
    SplitAt(y, w);
    SplitAt(x, from);
  }

  /** A word stays a word: `set_bits` on a value below 2^64 gives a value below 2^64. */
  lemma SetBitsBound(x: nat, from: nat, to: nat, bits: nat)
    requires ValidField(from, to) && x < Pow2(WORD_BITS)
    ensures SetBits(x, from, to, bits) < Pow2(WORD_BITS)
  {
    var w := Width(from, to);
    var field := Low(bits, w);
    LowBound(bits, w);
    LowBound(x, from);
    var upper := Concat(Shr(x, to + 1), field, w);
    ShrConcat(upper, Low(x, from), from, WORD_BITS);
    ShrConcat(Shr(x, to + 1), field, w, WORD_BITS - from);
    ShrShr(x, to + 1, WORD_BITS - (to + 1));
    ShrZeroIff(x, WORD_BITS);
    ShrZeroIff(SetBits(x, from, to, bits), WORD_BITS);
  }

  /** `from_repr(into_repr(b)) == b`; `into_repr(from_repr(v)) == v` only for 0 and 1. */
  lemma BoolRoundTrip(b: bool, v: nat)
    ensures BoolFromRepr(BoolIntoRepr(b)) == b
    ensures BoolIntoRepr(BoolFromRepr(v)) == v <==> v <= 1
  {
  }
}
