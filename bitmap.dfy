/**
 * `Bitmap`: a view of a slice of 64-bit words as one long bit string, bit
 * `i` being bit `i % 64` of word `i / 64`. The words are an `array<nat>`
 * whose entries stay below `2^64`; reads are functions of its contents,
 * writes are methods that change the array in place.
 */
module Bitmap {
  import opened Wrappers
  import opened IntOps
  import opened Bits

  /** `REPR_BITS`: the width of a `usize` word. */
  const REPR_BITS: nat := 64

  /** `2^64`, one past the largest word. */
  const WORD_LIMIT: nat := 0x1_0000_0000_0000_0000

  /** `!0`: the word with every bit set. */
  const ALL_ONES: nat := 0xffff_ffff_ffff_ffff

  datatype OutOfRange = OutOfRange

  /** Every word fits in 64 bits. */
  predicate WordsWf(words: seq<nat>) {
    forall k :: 0 <= k < |words| ==> words[k] < WORD_LIMIT
  }

  /** `len`: the number of bits. */
  function Len(words: seq<nat>): nat {
    |words| * REPR_BITS
  }

  /** `get_bit`: bit `i % 64` of word `i / 64`. */
  predicate GetBit(words: seq<nat>, i: nat): (r: bool)
    requires i < Len(words)
    ensures words[i / REPR_BITS] == 0 ==> !r
    ensures words[i / REPR_BITS] == ALL_ONES ==> r
  {
    LenCountsBits(words, i);
    ZeroHasNoBits(i % REPR_BITS);
    AllOnesWordBit(i % REPR_BITS);
    Bit(words[i / REPR_BITS], i % REPR_BITS)
  }

  /** `checked_get_bit`: `OutOfRange` exactly when word `i / 64` does not exist. */
  function CheckedGetBit(words: seq<nat>, i: nat): (r: Result<bool, OutOfRange>)
    ensures r.Err? <==> i / REPR_BITS >= |words|
    ensures r.Ok? ==> i < Len(words) && r.value == GetBit(words, i)
  {
    if i / REPR_BITS < |words| then Ok(GetBit(words, i)) else Err(OutOfRange)
  }

  // ------------------------------------------------------------------ word facts

  lemma HalfWordIsPow2()
    ensures Pow2(32) == 0x1_0000_0000
  {
    assert Pow2(4) == 16;
    Pow2Add(4, 4);
    Pow2Add(8, 8);
    Pow2Add(16, 16);
  }

  lemma WordLimitIsPow2()
    ensures Pow2(64) == WORD_LIMIT && ALL_ONES == Pow2(64) - 1
  {
    HalfWordIsPow2();
    Pow2Add(32, 32);
  }

  /** `!0` has exactly the bits 0..64. */
  lemma AllOnesWordBit(b: nat)
    ensures Bit(ALL_ONES, b) <==> b < REPR_BITS
  {
    WordLimitIsPow2();
    AllOnesBit(64, b);
  }

  /** A word has no bit at or above 64. */
  lemma WordHasNoHighBit(x: nat, b: nat)
    requires x < WORD_LIMIT && REPR_BITS <= b
    ensures !Bit(x, b)
  {
    WordLimitIsPow2();
    BitAbove(x, 64, b);
  }

  /** `|` of two words is a word. */
  lemma OrIsWord(a: nat, b: nat)
    requires a < WORD_LIMIT && b < WORD_LIMIT
    ensures Or(a, b) < WORD_LIMIT
  {
    WordLimitIsPow2();
    OrBound(a, b, 64);
  }

  /** `1 << n` and `(1 << n) - 1` are words for `n < 64`, and the latter also for `n == 64`. */
  lemma PowIsWord(n: nat)
    requires n <= REPR_BITS
    ensures Pow2(n) - 1 < WORD_LIMIT
    ensures n < REPR_BITS ==> Pow2(n) < WORD_LIMIT
  {
    WordLimitIsPow2();
    Pow2Monotone(n, 64);
    if n < REPR_BITS {
      Pow2Monotone(n + 1, 64);
    }
  }

  /** Bit `i` lies in word `i / 64`, at `i % 64`, and every index in range has its word. */
  lemma WordBitOf(k: nat, b: nat)
    requires b < REPR_BITS
    ensures (k * REPR_BITS + b) / REPR_BITS == k && (k * REPR_BITS + b) % REPR_BITS == b
  {
    DivUnique(k * REPR_BITS + b, REPR_BITS, k, b);
  }

  /** `len` counts exactly the indices whose word exists. */
  lemma LenCountsBits(words: seq<nat>, i: nat)
    ensures i < Len(words) <==> i / REPR_BITS < |words|
  {
    DivUnique(i, REPR_BITS, i / REPR_BITS, i % REPR_BITS);
  }

  /** `(1 << n) - 1`. */
  function LowMask(n: nat): nat {
    Pow2(n) - 1
  }

  /** `!((1 << n) - 1)`. */
  function HighMask(n: nat): nat {
    AndNot(ALL_ONES, LowMask(n))
  }

  /** `!((1 << lo) - 1) & ((1 << hi) - 1)`. */
  function RangeMask(lo: nat, hi: nat): nat {
    And(HighMask(lo), LowMask(hi))
  }

  /** The masks are words. */
  lemma MasksAreWords(lo: nat, hi: nat)
    requires hi <= REPR_BITS
    ensures LowMask(hi) < WORD_LIMIT && HighMask(lo) < WORD_LIMIT && RangeMask(lo, hi) < WORD_LIMIT
  {
    PowIsWord(hi);
    AndBound(ALL_ONES, LowMask(lo));
    AndBound(HighMask(lo), LowMask(hi));
  }

  /** `(1 << n) - 1` keeps the bits below `n`. */
  lemma LowMaskBit(n: nat, b: nat)
    ensures Bit(LowMask(n), b) <==> b < n
  {
    AllOnesBit(n, b);
  }

  /** `!((1 << n) - 1)` keeps the bits from `n` to 63. */
  lemma HighMaskBit(n: nat, b: nat)
    ensures Bit(HighMask(n), b) <==> n <= b < REPR_BITS
  {
    BitAndNot(ALL_ONES, LowMask(n), b);
    AllOnesWordBit(b);
    LowMaskBit(n, b);
  }

  /** The same-word mask keeps the bits from `lo` below `hi`. */
  lemma RangeMaskBit(lo: nat, hi: nat, b: nat)
    requires hi <= REPR_BITS
    ensures Bit(RangeMask(lo, hi), b) <==> lo <= b < hi
  {
    BitAnd(HighMask(lo), LowMask(hi), b);
    HighMaskBit(lo, b);
    LowMaskBit(hi, b);
  }

  /** A word below `2^64` whose bits 0..64 are all `one` is `!0` or `0`. */
  lemma WordOfBits(w: nat, one: bool)
    requires w < WORD_LIMIT
    requires forall b :: 0 <= b < REPR_BITS ==> Bit(w, b) == one
    ensures w == if one then ALL_ONES else 0
  {
    var target := if one then ALL_ONES else 0;
    forall i: nat
      ensures Bit(w, i) == Bit(target, i)
    {
      if i >= 64 {
        WordHasNoHighBit(w, i);
        AllOnesWordBit(i);
        ZeroHasNoBits(i);
      } else if one {
        AllOnesWordBit(i);
      } else {
        ZeroHasNoBits(i);
      }
    }
    BitsDetermine(w, target);
  }

  // ------------------------------------------------------------------ single bits

  /**
   * `set_bit`: bit `i` becomes `b` and every other bit keeps its value.
   * Indexing the missing word panics, so `i` must be within `len`.
   */
  method SetBit(repr: array<nat>, i: nat, b: bool)
    requires WordsWf(repr[..]) && i < Len(repr[..])
    modifies repr
    ensures WordsWf(repr[..])
    ensures GetBit(repr[..], i) == b
    ensures forall j :: 0 <= j < Len(repr[..]) && j != i ==> GetBit(repr[..], j) == GetBit(old(repr[..]), j)
  {
    LenCountsBits(repr[..], i);
    var word, bit := i / REPR_BITS, i % REPR_BITS;
    ghost var before := repr[..];
    var w := repr[word];
    if b {
      PowIsWord(bit);
      OrIsWord(w, Pow2(bit));
      repr[word] := Or(w, Pow2(bit));
    } else {
      AndBound(w, Pow2(bit));
      repr[word] := AndNot(w, Pow2(bit));
    }
    SetBitEffect(before, repr[..], i, b);
  }

  /** The word written by `set_bit` has the effect its contract states. */
  lemma SetBitEffect(before: seq<nat>, after: seq<nat>, i: nat, b: bool)
    requires i < Len(before) && |after| == |before|
    requires var word, bit := i / REPR_BITS, i % REPR_BITS;
      after == before[word := if b then Or(before[word], Pow2(bit)) else AndNot(before[word], Pow2(bit))]
    ensures GetBit(after, i) == b
    ensures forall j :: 0 <= j < Len(after) && j != i ==> GetBit(after, j) == GetBit(before, j)
  {
    var word, bit := i / REPR_BITS, i % REPR_BITS;
    BitOr(before[word], Pow2(bit), bit);
    BitAndNot(before[word], Pow2(bit), bit);
    SingleBit(bit, bit);
    forall j | 0 <= j < Len(after) && j != i
      ensures GetBit(after, j) == GetBit(before, j)
    {
      if j / REPR_BITS == word {
        var jb := j % REPR_BITS;
        assert jb != bit;
        BitOr(before[word], Pow2(bit), jb);
        BitAndNot(before[word], Pow2(bit), jb);
        SingleBit(bit, jb);
      }
    }
  }

  /** `checked_set_bit`: `OutOfRange`, and nothing written, exactly when word `i / 64` does not exist. */
  method CheckedSetBit(repr: array<nat>, i: nat, b: bool) returns (r: Result<(), OutOfRange>)
    requires WordsWf(repr[..])
    modifies repr
    ensures WordsWf(repr[..])
    ensures r.Err? <==> i / REPR_BITS >= repr.Length
    ensures r.Err? ==> repr[..] == old(repr[..])
    ensures r.Ok? ==> i < Len(repr[..]) && GetBit(repr[..], i) == b
    ensures r.Ok? ==> forall j :: 0 <= j < Len(repr[..]) && j != i ==> GetBit(repr[..], j) == GetBit(old(repr[..]), j)
  {
    LenCountsBits(repr[..], i);
    if i / REPR_BITS < repr.Length {
      SetBit(repr, i, b);
      r := Ok(());
    } else {
      r := Err(OutOfRange);
    }
  }

  // ------------------------------------------------------------------ ranges

  datatype Bound = Included(i: nat) | Excluded(i: nat) | Unbounded

  datatype RangeError = InvalidBounds | IndexOutOfBounds

  /**
   * The first index of a range from its start bound, as written: an
   * excluded start `i` gives `i - 1`, and an excluded 0 panics.
   */
  function StartAsWritten(b: Bound): (r: Option<nat>)
    ensures r.None? <==> b == Excluded(0)
  {
    match b
    case Included(i) => Some(i)
    case Excluded(i) => if i == 0 then None else Some(i - 1)
    case Unbounded => Some(0)
  }

  /** The first index of a range from its start bound: an excluded start `i` begins at `i + 1`. */
  function Start(b: Bound): (r: Option<nat>)
    ensures r.None? <==> b == Excluded(0)
    ensures r.Some? ==> forall j: nat :: InStart(b, j) <==> r.value <= j
  {
    match b
    case Included(i) => Some(i)
    case Excluded(i) => if i == 0 then None else Some(i + 1)
    case Unbounded => Some(0)
  }

  /** The index after a range from its end bound, `len` when unbounded. */
  function End(b: Bound, len: nat): (r: nat)
    ensures forall j: nat :: InEnd(b, len, j) <==> j < r
  {
    match b
    case Included(i) => i + 1
    case Excluded(i) => i
    case Unbounded => len
  }

  /** Whether index `j` satisfies the start bound, by `RangeBounds::contains`. */
  predicate InStart(b: Bound, j: nat) {
    match b
    case Included(i) => i <= j
    case Excluded(i) => i < j
    case Unbounded => true
  }

  /** Whether index `j` satisfies the end bound, `len` standing in for an unbounded end. */
  predicate InEnd(b: Bound, len: nat, j: nat) {
    match b
    case Included(i) => j <= i
    case Excluded(i) => j < i
    case Unbounded => j < len
  }

  /** As written, `(Excluded(3), Excluded(5))` starts at bit 2, which the range does not contain. */
  lemma StartAsWrittenIncludesBelow()
    ensures StartAsWritten(Excluded(3)) == Some(2) && !InStart(Excluded(3), 2)
    ensures Start(Excluded(3)) == Some(4)
  {
  }

  /**
   * After `k` words of the walk: the bits of `[s, e)` below `upto` hold `v`,
   * and every other bit is as it was in `orig`.
   */
  ghost predicate Done(cur: seq<nat>, orig: seq<nat>, s: nat, e: nat, v: bool, upto: nat)
    requires |cur| == |orig|
  {
    forall j :: 0 <= j < Len(cur) ==> GetBit(cur, j) == if j < upto && s <= j < e then v else GetBit(orig, j)
  }

  lemma DoneStart(orig: seq<nat>, s: nat, e: nat, v: bool, upto: nat)
    requires upto <= s
    ensures Done(orig, orig, s, e, v, upto)
  {
  }

  /** Writing word `k` with the range's bits of that word brings the walk past it. */
  lemma DoneStep(cur: seq<nat>, orig: seq<nat>, s: nat, e: nat, v: bool, k: nat, w: nat)
    requires |cur| == |orig| && k < |cur|
    requires Done(cur, orig, s, e, v, k * REPR_BITS)
    requires forall b :: 0 <= b < REPR_BITS ==>
      Bit(w, b) == if s <= k * REPR_BITS + b < e then v else Bit(cur[k], b)
    ensures Done(cur[k := w], orig, s, e, v, (k + 1) * REPR_BITS)
  {
    var next := cur[k := w];
    forall j | 0 <= j < Len(next)
      ensures GetBit(next, j) == if j < (k + 1) * REPR_BITS && s <= j < e then v else GetBit(orig, j)
    {
      var q, b := j / REPR_BITS, j % REPR_BITS;
      WordBitOf(q, b);
      if q == k {
        assert GetBit(next, j) == Bit(w, b);
        assert GetBit(cur, j) == Bit(cur[k], b);
      } else {
        assert GetBit(next, j) == GetBit(cur, j);
        if q < k {
          MulMonotone(q + 1, k, REPR_BITS);
        } else {
          MulMonotone(k + 1, q, REPR_BITS);
        }
      }
    }
  }

  /** Past the end of the range, the walk has done exactly the range. */
  lemma DoneFinal(cur: seq<nat>, orig: seq<nat>, s: nat, e: nat, v: bool, upto: nat)
    requires |cur| == |orig| && e <= upto && Done(cur, orig, s, e, v, upto)
    ensures forall j :: 0 <= j < Len(cur) ==> GetBit(cur, j) == if s <= j < e then v else GetBit(orig, j)
  {
  }

  /** Bits `[lo, hi)` of the word written for `v`, the others kept. */
  predicate WordWritten(w: nat, old_w: nat, lo: nat, hi: nat, v: bool) {
    forall b :: 0 <= b < REPR_BITS ==> Bit(w, b) == if lo <= b < hi then v else Bit(old_w, b)
  }

  /** Among the bits of a word, `m` has exactly those of `[lo, hi)`. */
  predicate MaskIs(m: nat, lo: nat, hi: nat) {
    forall b :: 0 <= b < REPR_BITS ==> (Bit(m, b) <==> lo <= b < hi)
  }

  lemma LowMaskIs(n: nat)
    ensures MaskIs(LowMask(n), 0, n)
  {
    forall b | 0 <= b < REPR_BITS
      ensures Bit(LowMask(n), b) <==> 0 <= b < n
    {
      LowMaskBit(n, b);
    }
  }

  lemma HighMaskIs(n: nat)
    ensures MaskIs(HighMask(n), n, REPR_BITS)
  {
    forall b | 0 <= b < REPR_BITS
      ensures Bit(HighMask(n), b) <==> n <= b < REPR_BITS
    {
      HighMaskBit(n, b);
    }
  }

  lemma RangeMaskIs(lo: nat, hi: nat)
    requires hi <= REPR_BITS
    ensures MaskIs(RangeMask(lo, hi), lo, hi)
  {
    forall b | 0 <= b < REPR_BITS
      ensures Bit(RangeMask(lo, hi), b) <==> lo <= b < hi
    {
      RangeMaskBit(lo, hi, b);
    }
  }

  /** `w |= m` sets the mask's bits. */
  lemma OrWritten(w: nat, m: nat, lo: nat, hi: nat)
    requires MaskIs(m, lo, hi)
    ensures WordWritten(Or(w, m), w, lo, hi, true)
  {
    forall b | 0 <= b < REPR_BITS
      ensures Bit(Or(w, m), b) == if lo <= b < hi then true else Bit(w, b)
    {
      BitOr(w, m, b);
    }
  }

  /** `w &= !m` clears the mask's bits. */
  lemma AndNotWritten(w: nat, m: nat, lo: nat, hi: nat)
    requires MaskIs(m, lo, hi)
    ensures WordWritten(AndNot(w, m), w, lo, hi, false)
  {
    forall b | 0 <= b < REPR_BITS
      ensures Bit(AndNot(w, m), b) == if lo <= b < hi then false else Bit(w, b)
    {
      BitAndNot(w, m, b);
    }
  }

  /** `w &= m`, for a mask of the bits below `lo`, clears the bits from `lo` up. */
  lemma AndWritten(w: nat, m: nat, lo: nat)
    requires MaskIs(m, 0, lo)
    ensures WordWritten(And(w, m), w, lo, REPR_BITS, false)
  {
    forall b | 0 <= b < REPR_BITS
      ensures Bit(And(w, m), b) == if lo <= b < REPR_BITS then false else Bit(w, b)
    {
      BitAnd(w, m, b);
    }
  }

  lemma FullWordWrite(v: bool)
    ensures var w := if v then ALL_ONES else 0;
      w < WORD_LIMIT && forall old_w: nat :: WordWritten(w, old_w, 0, REPR_BITS, v)
  {
    var w := if v then ALL_ONES else 0;
    forall b | 0 <= b < REPR_BITS
      ensures Bit(w, b) == v
    {
      AllOnesWordBit(b);
      ZeroHasNoBits(b);
    }
  }

  /**
   * Writing word `k` with bits `[lo, hi)` set to `v`, where those are the
   * bits of `[s, e)` in that word, brings the walk past word `k`.
   */
  lemma WriteAdvances(cur: seq<nat>, next: seq<nat>, orig: seq<nat>, s: nat, e: nat, v: bool, k: nat, lo: nat, hi: nat)
    requires |cur| == |orig| && k < |cur| && |next| == |cur| && next == cur[k := next[k]]
    requires Done(cur, orig, s, e, v, k * REPR_BITS)
    requires WordWritten(next[k], cur[k], lo, hi, v)
    requires k * REPR_BITS + lo == s || (lo == 0 && s <= k * REPR_BITS)
    requires k * REPR_BITS + hi == e || (hi == REPR_BITS && (k + 1) * REPR_BITS <= e)
    ensures Done(next, orig, s, e, v, (k + 1) * REPR_BITS)
  {
    DoneStep(cur, orig, s, e, v, k, next[k]);
  }

  /** `w | mask` with the mask of bits `[lo, hi)` is a word with those bits set. */
  lemma SetWithin(w: nat, lo: nat, hi: nat)
    requires w < WORD_LIMIT && hi <= REPR_BITS
    ensures Or(w, RangeMask(lo, hi)) < WORD_LIMIT && WordWritten(Or(w, RangeMask(lo, hi)), w, lo, hi, true)
  {
    RangeMaskIs(lo, hi);
    OrWritten(w, RangeMask(lo, hi), lo, hi);
    MasksAreWords(lo, hi);
    OrIsWord(w, RangeMask(lo, hi));
  }

  /** `w & !mask` with the mask of bits `[lo, hi)` is a word with those bits clear. */
  lemma ClearWithin(w: nat, lo: nat, hi: nat)
    requires w < WORD_LIMIT && hi <= REPR_BITS
    ensures AndNot(w, RangeMask(lo, hi)) < WORD_LIMIT && WordWritten(AndNot(w, RangeMask(lo, hi)), w, lo, hi, false)
  {
    RangeMaskIs(lo, hi);
    AndNotWritten(w, RangeMask(lo, hi), lo, hi);
    AndBound(w, RangeMask(lo, hi));
  }

  /** `w | !mask` with `mask = (1 << lo) - 1` sets the bits from `lo` up. */
  lemma SetHead(w: nat, lo: nat)
    requires w < WORD_LIMIT
    ensures Or(w, HighMask(lo)) < WORD_LIMIT && WordWritten(Or(w, HighMask(lo)), w, lo, REPR_BITS, true)
  {
    HighMaskIs(lo);
    OrWritten(w, HighMask(lo), lo, REPR_BITS);
    MasksAreWords(lo, 0);
    OrIsWord(w, HighMask(lo));
  }

  /** `w & mask` with `mask = (1 << lo) - 1` clears the bits from `lo` up. */
  lemma ClearHead(w: nat, lo: nat)
    requires w < WORD_LIMIT
    ensures And(w, LowMask(lo)) < WORD_LIMIT && WordWritten(And(w, LowMask(lo)), w, lo, REPR_BITS, false)
  {
    LowMaskIs(lo);
    AndWritten(w, LowMask(lo), lo);
    AndBound(w, LowMask(lo));
  }

  /** `w | mask` with `mask = (1 << hi) - 1` sets the bits below `hi`. */
  lemma SetTail(w: nat, hi: nat)
    requires w < WORD_LIMIT && hi <= REPR_BITS
    ensures Or(w, LowMask(hi)) < WORD_LIMIT && WordWritten(Or(w, LowMask(hi)), w, 0, hi, true)
  {
    LowMaskIs(hi);
    OrWritten(w, LowMask(hi), 0, hi);
    MasksAreWords(0, hi);
    OrIsWord(w, LowMask(hi));
  }

  /** `w & !mask` with `mask = (1 << hi) - 1` clears the bits below `hi`. */
  lemma ClearTail(w: nat, hi: nat)
    requires w < WORD_LIMIT && hi <= REPR_BITS
    ensures AndNot(w, LowMask(hi)) < WORD_LIMIT && WordWritten(AndNot(w, LowMask(hi)), w, 0, hi, false)
  {
    LowMaskIs(hi);
    AndNotWritten(w, LowMask(hi), 0, hi);
    AndBound(w, LowMask(hi));
  }

  /** The write of a range within one word: `repr[k] |= mask` or `&= !mask` with the mask of bits `[lo, hi)`. */
  method WriteWithin(repr: array<nat>, k: nat, lo: nat, hi: nat, v: bool)
    requires WordsWf(repr[..]) && k < repr.Length && hi <= REPR_BITS
    modifies repr
    ensures WordsWf(repr[..]) && repr[..] == old(repr[..])[k := repr[k]]
    ensures WordWritten(repr[k], old(repr[k]), lo, hi, v)
  {
    var mask := RangeMask(lo, hi);
    var w := repr[k];
    if v {
      SetWithin(w, lo, hi);
      w := Or(w, mask);
    } else {
      ClearWithin(w, lo, hi);
      w := AndNot(w, mask);
    }
    WordsWfUpdate(repr[..], k, w);
    repr[k] := w;
  }

  /** The write of the first, partial word: the bits from `lo` up, with `mask = (1 << lo) - 1`. */
  method WriteHead(repr: array<nat>, k: nat, lo: nat, v: bool)
    requires WordsWf(repr[..]) && k < repr.Length
    modifies repr
    ensures WordsWf(repr[..]) && repr[..] == old(repr[..])[k := repr[k]]
    ensures WordWritten(repr[k], old(repr[k]), lo, REPR_BITS, v)
  {
    var mask := LowMask(lo);
    var w := repr[k];
    if v {
      SetHead(w, lo);
      w := Or(w, AndNot(ALL_ONES, mask));
    } else {
      ClearHead(w, lo);
      w := And(w, mask);
    }
    WordsWfUpdate(repr[..], k, w);
    repr[k] := w;
  }

  /** The write of the last, partial word: the bits below `hi`. */
  method WriteTail(repr: array<nat>, k: nat, hi: nat, v: bool)
    requires WordsWf(repr[..]) && k < repr.Length && hi <= REPR_BITS
    modifies repr
    ensures WordsWf(repr[..]) && repr[..] == old(repr[..])[k := repr[k]]
    ensures WordWritten(repr[k], old(repr[k]), 0, hi, v)
  {
    var mask := LowMask(hi);
    var w := repr[k];
    if v {
      SetTail(w, hi);
      w := Or(w, mask);
    } else {
      ClearTail(w, hi);
      w := AndNot(w, mask);
    }
    WordsWfUpdate(repr[..], k, w);
    repr[k] := w;
  }

  /** The write of a whole word in between: `!0` or `0`. */
  method WriteFull(repr: array<nat>, k: nat, v: bool)
    requires WordsWf(repr[..]) && k < repr.Length
    modifies repr
    ensures WordsWf(repr[..]) && repr[..] == old(repr[..])[k := repr[k]]
    ensures WordWritten(repr[k], old(repr[k]), 0, REPR_BITS, v)
  {
    FullWordWrite(v);
    WordsWfUpdate(repr[..], k, if v then ALL_ONES else 0);
    repr[k] := if v then ALL_ONES else 0;
  }

  lemma WordsWfUpdate(words: seq<nat>, k: nat, w: nat)
    requires WordsWf(words) && k < |words| && w < WORD_LIMIT
    ensures WordsWf(words[k := w])
  {
  }

  /**
   * `set_all_to` over the bits `[s, e)` resolved from the bounds, the start
   * bound read as `Start` (an excluded start `i` begins at `i + 1`). An
   * excluded 0 start panics, and so does indexing the missing word when
   * `s == e == len`; both report an error with nothing written. The range
   * must lie within `len`.
   */
  method SetAllTo(repr: array<nat>, v: bool, start: Bound, end: Bound) returns (r: Result<(), RangeError>)
    requires WordsWf(repr[..])
    requires Start(start).Some? ==> Start(start).value <= End(end, Len(repr[..])) <= Len(repr[..])
    modifies repr
    ensures WordsWf(repr[..])
    ensures r == Err(InvalidBounds) <==> start == Excluded(0)
    ensures r == Err(IndexOutOfBounds) <==> start != Excluded(0) && Start(start).value == End(end, Len(repr[..])) == Len(repr[..])
    ensures r.Err? ==> repr[..] == old(repr[..])
    ensures r.Ok? ==> forall j :: 0 <= j < Len(repr[..]) ==>
      GetBit(repr[..], j) == if InStart(start, j) && InEnd(end, Len(repr[..]), j) then v else GetBit(old(repr[..]), j)
  {
    var first := Start(start);
    if first.None? {
      return Err(InvalidBounds);
    }
    var s, e := first.value, End(end, repr.Length * REPR_BITS);
    LenCountsBits(repr[..], s);
    if s / REPR_BITS >= repr.Length {
      return Err(IndexOutOfBounds);
    }
    WriteBits(repr, s, e, v);
    r := Ok(());
  }

  /**
   * The walk of `set_all_to` over `[s, e)`: the partial first word, the
   * whole words in between and the partial last word.
   */
  method WriteBits(repr: array<nat>, s: nat, e: nat, v: bool)
    requires WordsWf(repr[..]) && s <= e <= Len(repr[..]) && s / REPR_BITS < repr.Length
    modifies repr
    ensures WordsWf(repr[..])
    ensures forall j :: 0 <= j < Len(repr[..]) ==> GetBit(repr[..], j) == if s <= j < e then v else GetBit(old(repr[..]), j)
  {
    var startWord, startBit := s / REPR_BITS, s % REPR_BITS;
    var endWord, endBit := e / REPR_BITS, e % REPR_BITS;
    ghost var orig := repr[..];
    WordBitOf(startWord, startBit);
    WordBitOf(endWord, endBit);
    DoneStart(orig, s, e, v, startWord * REPR_BITS);
    if startWord == endWord {
      ghost var cur := repr[..];
      WriteWithin(repr, startWord, startBit, endBit, v);
      WriteAdvances(cur, repr[..], orig, s, e, v, startWord, startBit, endBit);
      DoneFinal(repr[..], orig, s, e, v, (startWord + 1) * REPR_BITS);
      return;
    }
    MulMonotone(startWord + 1, endWord, REPR_BITS);
    var k := startWord;
    if startBit != 0 {
      ghost var cur := repr[..];
      WriteHead(repr, k, startBit, v);
      WriteAdvances(cur, repr[..], orig, s, e, v, k, startBit, REPR_BITS);
      k := k + 1;
    }
    while k < endWord
      invariant startWord <= k <= endWord && k <= repr.Length
      invariant startBit != 0 ==> k > startWord
      invariant WordsWf(repr[..]) && |repr[..]| == |orig|
      invariant Done(repr[..], orig, s, e, v, k * REPR_BITS)
    {
      MulMonotone(k + 1, endWord, REPR_BITS);
      if k > startWord {
        MulMonotone(startWord + 1, k, REPR_BITS);
      }
      ghost var cur := repr[..];
      WriteFull(repr, k, v);
      WriteAdvances(cur, repr[..], orig, s, e, v, k, 0, REPR_BITS);
      k := k + 1;
    }
    if endBit != 0 {
      LenCountsBits(repr[..], e);
      ghost var cur := repr[..];
      WriteTail(repr, endWord, endBit, v);
      WriteAdvances(cur, repr[..], orig, s, e, v, endWord, 0, endBit);
      DoneFinal(repr[..], orig, s, e, v, (endWord + 1) * REPR_BITS);
    } else {
      DoneFinal(repr[..], orig, s, e, v, endWord * REPR_BITS);
    }
  }

  /** `set_all`: every word becomes `!0`; a bitmap with no words panics. */
  method SetAll(repr: array<nat>) returns (r: Result<(), RangeError>)
    requires WordsWf(repr[..])
    modifies repr
    ensures WordsWf(repr[..])
    ensures r.Err? <==> repr.Length == 0
    ensures r.Ok? ==> forall k :: 0 <= k < repr.Length ==> repr[k] == ALL_ONES
  {
    assert Len(repr[..]) == 0 <==> repr.Length == 0;
    r := SetAllTo(repr, true, Unbounded, Unbounded);
    assert Start(Unbounded) == Some(0) && End(Unbounded, Len(repr[..])) == Len(repr[..]);
    if r.Err? {
      assert r.error == InvalidBounds || r.error == IndexOutOfBounds;
      assert r != Err(InvalidBounds);
      assert r == Err(IndexOutOfBounds);
    }
    if r.Ok? {
      AllWords(repr[..], true);
    }
  }

  /** `unset_all`: every word becomes 0; a bitmap with no words panics. */
  method UnsetAll(repr: array<nat>) returns (r: Result<(), RangeError>)
    requires WordsWf(repr[..])
    modifies repr
    ensures WordsWf(repr[..])
    ensures r.Err? <==> repr.Length == 0
    ensures r.Ok? ==> forall k :: 0 <= k < repr.Length ==> repr[k] == 0
  {
    assert Len(repr[..]) == 0 <==> repr.Length == 0;
    r := SetAllTo(repr, false, Unbounded, Unbounded);
    assert Start(Unbounded) == Some(0) && End(Unbounded, Len(repr[..])) == Len(repr[..]);
    if r.Err? {
      assert r.error == InvalidBounds || r.error == IndexOutOfBounds;
      assert r != Err(InvalidBounds);
      assert r == Err(IndexOutOfBounds);
    }
    if r.Ok? {
      AllWords(repr[..], false);
    }
  }

  /** Words whose every bit is `one` are all `!0`, or all 0. */
  lemma AllWords(words: seq<nat>, one: bool)
    requires WordsWf(words)
    requires forall j :: 0 <= j < Len(words) ==> GetBit(words, j) == one
    ensures forall k :: 0 <= k < |words| ==> words[k] == if one then ALL_ONES else 0
  {
    forall k | 0 <= k < |words|
      ensures words[k] == if one then ALL_ONES else 0
    {
      forall b | 0 <= b < REPR_BITS
        ensures Bit(words[k], b) == one
      {
        WordBitOf(k, b);
        MulMonotone(k + 1, |words|, REPR_BITS);
        assert GetBit(words, k * REPR_BITS + b) == one;
      }
      WordOfBits(words[k], one);
    }
  }

  // ------------------------------------------------------------------ runs

  /** The number of top bits, among the low `n` of `w`, equal to `one`: `leading_zeros`/`leading_ones` for `n == 64`. */
  function LeadingRun(w: nat, one: bool, n: nat): (r: nat)
    ensures r <= n
  {
    if n == 0 || Bit(w, n - 1) != one then 0 else 1 + LeadingRun(w, one, n - 1)
  }

  /** The number of low bits of `w`, up to `n`, equal to `one`: `trailing_zeros`/`trailing_ones` for `n == 64`. */
  function TrailingRun(w: nat, one: bool, n: nat): (r: nat)
    ensures r <= n
  {
    if n == 0 || (w % 2 == 1) != one then 0 else 1 + TrailingRun(w / 2, one, n - 1)
  }

  lemma {:induction false} LeadingRunBits(w: nat, one: bool, n: nat)
    ensures forall b :: n - LeadingRun(w, one, n) <= b < n ==> Bit(w, b) == one
    ensures LeadingRun(w, one, n) < n ==> Bit(w, n - 1 - LeadingRun(w, one, n)) != one
    decreases n
  {
    if n > 0 && Bit(w, n - 1) == one {
      LeadingRunBits(w, one, n - 1);
    }
  }

  lemma {:induction false} TrailingRunBits(w: nat, one: bool, n: nat)
    ensures forall b :: 0 <= b < TrailingRun(w, one, n) ==> Bit(w, b) == one
    ensures TrailingRun(w, one, n) < n ==> Bit(w, TrailingRun(w, one, n)) != one
    decreases n
  {
    if n > 0 && (w % 2 == 1) == one {
      TrailingRunBits(w / 2, one, n - 1);
      forall b | 0 <= b < TrailingRun(w, one, n)
        ensures Bit(w, b) == one
      {
        if b > 0 {
          assert Bit(w / 2, b - 1) == one;
        }
      }
    }
  }

  /** `t` is the number of top bits of the bitmap equal to `one`: they all are, and the next one down is not. */
  predicate IsLeadingCount(words: seq<nat>, one: bool, t: nat) {
    && t <= Len(words)
    && (forall j :: Len(words) - t <= j < Len(words) ==> GetBit(words, j) == one)
    && (t < Len(words) ==> GetBit(words, Len(words) - 1 - t) != one)
  }

  /** `t` is the number of low bits of the bitmap equal to `one`. */
  predicate IsTrailingCount(words: seq<nat>, one: bool, t: nat) {
    && t <= Len(words)
    && (forall j :: 0 <= j < t ==> GetBit(words, j) == one)
    && (t < Len(words) ==> GetBit(words, t) != one)
  }

  /** The run length is determined: at most one count fits. */
  lemma LeadingCountUnique(words: seq<nat>, one: bool, t1: nat, t2: nat)
    requires IsLeadingCount(words, one, t1) && IsLeadingCount(words, one, t2)
    ensures t1 == t2
  {
  }

  lemma TrailingCountUnique(words: seq<nat>, one: bool, t1: nat, t2: nat)
    requires IsTrailingCount(words, one, t1) && IsTrailingCount(words, one, t2)
    ensures t1 == t2
  {
  }

  /**
   * `leading_zeroes` (`one == false`) and `leading_ones` (`one == true`):
   * the words from the top, adding each word's leading run while the
   * word is all run, the first shorter run included.
   */
  method LeadingXs(repr: array<nat>, one: bool) returns (total: nat)
    ensures IsLeadingCount(repr[..], one, total)
  {
    total := 0;
    var k := repr.Length;
    while k > 0
      invariant 0 <= k <= repr.Length
      invariant total == (repr.Length - k) * REPR_BITS
      invariant forall j :: k * REPR_BITS <= j < Len(repr[..]) ==> GetBit(repr[..], j) == one
    {
      var run := LeadingRun(repr[k - 1], one, REPR_BITS);
      LeadingRunBits(repr[k - 1], one, REPR_BITS);
      LeadingWord(repr[..], one, k - 1, run);
      total := total + run;
      if run != REPR_BITS {
        return;
      }
      k := k - 1;
    }
  }

  /** How one word's leading run extends the run of the words above it. */
  lemma LeadingWord(words: seq<nat>, one: bool, k: nat, run: nat)
    requires k < |words| && run <= REPR_BITS
    requires forall j :: (k + 1) * REPR_BITS <= j < Len(words) ==> GetBit(words, j) == one
    requires forall b :: REPR_BITS - run <= b < REPR_BITS ==> Bit(words[k], b) == one
    requires run < REPR_BITS ==> Bit(words[k], REPR_BITS - 1 - run) != one
    ensures forall j :: k * REPR_BITS + (REPR_BITS - run) <= j < Len(words) ==> GetBit(words, j) == one
    ensures run < REPR_BITS ==> GetBit(words, k * REPR_BITS + (REPR_BITS - 1 - run)) != one
  {
    MulMonotone(k + 1, |words|, REPR_BITS);
    if run < REPR_BITS {
      WordBitOf(k, REPR_BITS - 1 - run);
    }
    forall j | k * REPR_BITS + (REPR_BITS - run) <= j < (k + 1) * REPR_BITS
      ensures GetBit(words, j) == one
    {
      WordBitOf(k, j - k * REPR_BITS);
    }
  }

  /** `trailing_zeroes` and `trailing_ones`: the same walk from the bottom word up. */
  method TrailingXs(repr: array<nat>, one: bool) returns (total: nat)
    ensures IsTrailingCount(repr[..], one, total)
  {
    total := 0;
    var k := 0;
    while k < repr.Length
      invariant 0 <= k <= repr.Length
      invariant total == k * REPR_BITS
      invariant forall j :: 0 <= j < k * REPR_BITS ==> GetBit(repr[..], j) == one
    {
      var run := TrailingRun(repr[k], one, REPR_BITS);
      TrailingRunBits(repr[k], one, REPR_BITS);
      TrailingWord(repr[..], one, k, run);
      total := total + run;
      if run != REPR_BITS {
        return;
      }
      k := k + 1;
    }
  }

  lemma TrailingWord(words: seq<nat>, one: bool, k: nat, run: nat)
    requires k < |words| && run <= REPR_BITS
    requires forall j :: 0 <= j < k * REPR_BITS ==> GetBit(words, j) == one
    requires forall b :: 0 <= b < run ==> Bit(words[k], b) == one
    requires run < REPR_BITS ==> Bit(words[k], run) != one
    ensures forall j :: 0 <= j < k * REPR_BITS + run ==> GetBit(words, j) == one
    ensures run < REPR_BITS ==> k * REPR_BITS + run < Len(words) && GetBit(words, k * REPR_BITS + run) != one
  {
    MulMonotone(k + 1, |words|, REPR_BITS);
    WordBitOf(k, run % REPR_BITS);
    forall j | k * REPR_BITS <= j < k * REPR_BITS + run
      ensures GetBit(words, j) == one
    {
      WordBitOf(k, j - k * REPR_BITS);
    }
  }

  /** `[1, 0, 0, 0]` has 255 leading zeroes, and `[0, 0, 0, 1 << 63]` 255 trailing zeroes. */
  lemma RunExamples(t1: nat, t2: nat)
    requires IsLeadingCount([1, 0, 0, 0], false, t1)
    requires IsTrailingCount([0, 0, 0, Pow2(63)], false, t2)
    ensures t1 == 255 && t2 == 255
  {
    var a: seq<nat> := [1, 0, 0, 0];
    var c: seq<nat> := [0, 0, 0, Pow2(63)];
    forall j | 1 <= j < Len(a)
      ensures !GetBit(a, j)
    {
      if j < 64 {
        SingleBit(0, j);
      } else {
        ZeroHasNoBits(j % 64);
      }
    }
    SingleBit(0, 0);
    assert GetBit(a, 0);
    assert IsLeadingCount(a, false, 255);
    LeadingCountUnique(a, false, t1, 255);
    forall j | 0 <= j < 255
      ensures !GetBit(c, j)
    {
      if j >= 192 {
        SingleBit(63, j % 64);
      } else {
        ZeroHasNoBits(j % 64);
      }
    }
    SingleBit(63, 63);
    assert GetBit(c, 255);
    assert IsTrailingCount(c, false, 255);
    TrailingCountUnique(c, false, t2, 255);
  }
}
