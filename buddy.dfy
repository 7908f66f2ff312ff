/**
 * The physical page allocator of kernel/src/mm/phys/raw_alloc.rs: a buddy
 * allocator per memory region. A region starts with metadata pages (the
 * region header, one free-list head per order and a bitmap); the pages
 * after them are the data area, and a block of order `o` is `2^o` data
 * pages. Blocks are named here by the index of their first page in the
 * data area, so a block at page `p` is the frame
 * `base + metaPages + p` of the region.
 *
 * The bitmap holds one bit per buddy pair and order, at bit number
 * `(page >> (order + 1)) + bitmap_offset[order]`; seeding, allocation,
 * put-back and merge flip it. The source keeps bit number `n` as bit
 * `n % 8` of word `n / 8` of a slice of `bitmap_bits.ceil_div(8)` words;
 * the model keeps the set of the bit numbers that are set. The slice
 * length does not bound those numbers: the single block of the biggest
 * order, and a block whose pair runs past the data area, get numbers up
 * to `bitmap_bits` itself (`PairBitInSlice`), one past the slice when
 * `bitmap_bits` is a multiple of 8 (`TopOrderFreeOverruns`,
 * `SeedOverrunsSlice`). The model sizes the slice for that one more bit
 * (`BitmapWords`); `FreeAsWritten` keeps the source's slice and its
 * panic. The number of a pair that runs past the data area is also the
 * number of the first pair of the next order, and the model shares that
 * bit between them as the source does.
 */
module BuddyAlloc {
  import opened Wrappers
  import opened IntOps

  const PAGE_SIZE: nat := 4096
  /** `size_of::<usize>()` and `align_of::<usize>()` on x86-64. */
  const WORD_BYTES: nat := 8

  // ------------------------------------------------------------------ metadata

  datatype Metadata = Metadata(totalPages: nat, metaPages: nat, freePages: nat, biggestOrder: nat, bitmapBits: nat)

  /**
   * The byte sizes of the region header and of one free-list head. Both
   * types hold pointers and `u64`s, so both are multiples of their
   * alignment, 8.
   */
  datatype Layout = Layout(regionSize: nat, blockHeadSize: nat)

  predicate LayoutWf(l: Layout) {
    0 < l.regionSize && l.regionSize % WORD_BYTES == 0 && l.blockHeadSize % WORD_BYTES == 0
  }

  /** `estimate_bitmap_bits`: one bit per pair of pages, per pair of pairs, and so on. */
  function EstimateBitmapBits(pages: nat): (r: nat)
    ensures r == 0 <==> pages <= 1
  {
    if pages <= 1 then 0 else pages / 2 + EstimateBitmapBits(pages / 2)
  }

  /** The number of set bits of `n`. */
  function PopCount(n: nat): nat {
    if n == 0 then 0 else n % 2 + PopCount(n / 2)
  }

  /** The bitmap estimate is `pages` less the number of set bits in `pages`. */
  lemma {:induction false} EstimateBitmapBitsCount(pages: nat)
    ensures EstimateBitmapBits(pages) + PopCount(pages) == pages
  {
    if pages > 1 {
      EstimateBitmapBitsCount(pages / 2);
    } else if pages == 1 {
      assert PopCount(1) == 1 + PopCount(0);
    }
  }

  lemma {:induction false} PopCountPositive(n: nat)
    requires n >= 1
    ensures PopCount(n) >= 1
  {
    if n % 2 == 0 {
      PopCountPositive(n / 2);
    }
  }

  /** The estimate is 0 for at most one page and below the page count otherwise. */
  lemma EstimateBitmapBitsBelow(pages: nat)
    ensures pages <= 1 ==> EstimateBitmapBits(pages) == 0
    ensures pages >= 1 ==> EstimateBitmapBits(pages) < pages
  {
    EstimateBitmapBitsCount(pages);
    if pages >= 1 {
      PopCountPositive(pages);
    }
  }

  /** The words of the bitmap slice as `bitmap_ptr` lays it out: `bitmap_bits.ceil_div(8)`. */
  function SliceWords(bits: nat): nat {
    CeilDiv(bits, WORD_BYTES)
  }

  /**
   * The words the bitmap needs: pair bits are numbered up to `bits` itself
   * (`PairBitInSlice`), so the slice needs room for one bit more than it has.
   */
  function BitmapWords(bits: nat): (r: nat)
    ensures bits / WORD_BYTES < r
    ensures SliceWords(bits) <= r <= SliceWords(bits) + 1
  {
    CeilDiv(bits + 1, WORD_BYTES)
  }

  /** The bytes the bitmap spans, with room for every pair bit. */
  function BitmapSpan(bits: nat): nat {
    WORD_BYTES * BitmapWords(bits)
  }

  /** Where the bitmap starts: past the header and the list heads, aligned to a word. */
  function BitmapStart(l: Layout, biggestOrder: nat): nat {
    AlignUp(AlignUp(l.regionSize, WORD_BYTES) + l.blockHeadSize * (biggestOrder + 1), WORD_BYTES)
  }

  /** The metadata bytes as written: the bitmap is counted as `ceil_div(bits, 8)` bytes. */
  function MetaBytesAsWritten(l: Layout, biggestOrder: nat, bits: nat): (r: nat)
    ensures r + 7 * SliceWords(bits) + WORD_BYTES * (BitmapWords(bits) - SliceWords(bits)) == MetaBytes(l, biggestOrder, bits)
  {
    AlignUp(l.regionSize, WORD_BYTES) + AlignUp(l.blockHeadSize * (biggestOrder + 1), WORD_BYTES)
      + CeilDiv(bits, WORD_BYTES)
  }

  /** The metadata bytes with the bitmap counted in words, one pair bit more than the source's slice holds. */
  function MetaBytes(l: Layout, biggestOrder: nat, bits: nat): nat {
    AlignUp(l.regionSize, WORD_BYTES) + AlignUp(l.blockHeadSize * (biggestOrder + 1), WORD_BYTES)
      + BitmapSpan(bits)
  }

  /** The region is well formed: the first page holds metadata, and `biggestOrder` is the log of the rest. */
  predicate MetaWf(m: Metadata) {
    m.totalPages >= 2 && m.metaPages >= 1 && m.freePages + m.metaPages == m.totalPages
    && Pow2(m.biggestOrder) <= m.totalPages - 1 < Pow2(m.biggestOrder + 1)
  }

  /** The metadata pages `calculate_meta` reserves for a region of `totalPages` pages, with the bitmap counted in full. */
  function MetaPagesNeeded(totalPages: nat, l: Layout): (r: nat)
    requires totalPages >= 2 && LayoutWf(l)
    ensures r >= 1
  {
    MetaBytesPositive(l, Log2(totalPages - 1), EstimateBitmapBits(totalPages - 1));
    CeilDiv(MetaBytes(l, Log2(totalPages - 1), EstimateBitmapBits(totalPages - 1)), PAGE_SIZE)
  }

  /** The metadata bytes include the region header, so at least one page is needed. */
  lemma MetaBytesPositive(l: Layout, biggestOrder: nat, bits: nat)
    requires LayoutWf(l)
    ensures CeilDiv(MetaBytes(l, biggestOrder, bits), PAGE_SIZE) >= 1
  {
    AlignUpBounds(l.regionSize, WORD_BYTES);
  }

  /**
   * `calculate_meta`, with the bitmap counted in full. `None` stands for
   * the underflow of `total_pages - meta_pages`, which panics.
   */
  function CalculateMeta(totalPages: nat, l: Layout): (r: Option<Metadata>)
    requires totalPages >= 2 && LayoutWf(l)
    ensures r.None? <==> MetaPagesNeeded(totalPages, l) > totalPages
    ensures r.Some? ==> r.value.metaPages == MetaPagesNeeded(totalPages, l)
    ensures r.Some? ==> r.value.biggestOrder == Log2(totalPages - 1) && r.value.bitmapBits == EstimateBitmapBits(totalPages - 1)
    ensures r.Some? ==> MetaWf(r.value) && r.value.totalPages == totalPages
    ensures r.Some? ==> r.value.bitmapBits < totalPages - 1
    ensures r.Some? ==> BitmapStart(l, r.value.biggestOrder) + BitmapSpan(r.value.bitmapBits) <= r.value.metaPages * PAGE_SIZE
  {
    var metaPages := MetaPagesNeeded(totalPages, l);
    if metaPages > totalPages then None
    else
      var biggestOrder := Log2(totalPages - 1);
      var bits := EstimateBitmapBits(totalPages - 1);
      var m := Metadata(totalPages, metaPages, totalPages - metaPages, biggestOrder, bits);
      assert MetaWf(m) by {
        Log2Bounds(totalPages - 1);
      }
      assert bits < totalPages - 1 by {
        EstimateBitmapBitsBelow(totalPages - 1);
      }
      assert BitmapStart(l, biggestOrder) + BitmapSpan(bits) <= metaPages * PAGE_SIZE by {
        MetaCovers(l, biggestOrder, bits);
      }
      Some(m)
  }

  /** `calculate_meta` as written, which counts too few bytes for the bitmap. */
  function CalculateMetaAsWritten(totalPages: nat, l: Layout): (r: Option<Metadata>)
    requires totalPages >= 2 && LayoutWf(l)
    ensures r.None? <==> CeilDiv(MetaBytesAsWritten(l, Log2(totalPages - 1), EstimateBitmapBits(totalPages - 1)), PAGE_SIZE) > totalPages
    ensures r.Some? ==> r.value.metaPages == CeilDiv(MetaBytesAsWritten(l, Log2(totalPages - 1), EstimateBitmapBits(totalPages - 1)), PAGE_SIZE)
    ensures r.Some? ==> r.value.biggestOrder == Log2(totalPages - 1) && r.value.bitmapBits == EstimateBitmapBits(totalPages - 1)
    ensures r.Some? ==> r.value.totalPages == totalPages && r.value.freePages + r.value.metaPages == totalPages
  {
    var biggestOrder := Log2(totalPages - 1);
    var bits := EstimateBitmapBits(totalPages - 1);
    var metaPages := CeilDiv(MetaBytesAsWritten(l, biggestOrder, bits), PAGE_SIZE);
    if metaPages > totalPages then None
    else Some(Metadata(totalPages, metaPages, totalPages - metaPages, biggestOrder, bits))
  }

  /** The corrected metadata pages hold the bitmap, and there is at least one of them. */
  lemma MetaCovers(l: Layout, biggestOrder: nat, bits: nat)
    requires LayoutWf(l)
    ensures BitmapStart(l, biggestOrder) + BitmapSpan(bits) <= MetaBytes(l, biggestOrder, bits)
    ensures MetaBytes(l, biggestOrder, bits) <= CeilDiv(MetaBytes(l, biggestOrder, bits), PAGE_SIZE) * PAGE_SIZE
    ensures CeilDiv(MetaBytes(l, biggestOrder, bits), PAGE_SIZE) >= 1
    ensures BitmapStart(l, biggestOrder) + BitmapSpan(bits) <= CeilDiv(MetaBytes(l, biggestOrder, bits), PAGE_SIZE) * PAGE_SIZE
  {
    var heads := l.blockHeadSize * (biggestOrder + 1);
    HeadsAligned(l, biggestOrder);
    MultipleAlignUp(l.regionSize);
    MultipleAlignUp(heads);
    MultipleAlignUp(l.regionSize + heads);
    CeilDivIsLeastCover(MetaBytes(l, biggestOrder, bits), PAGE_SIZE);
  }

  /** The list heads take a whole number of words. */
  lemma HeadsAligned(l: Layout, biggestOrder: nat)
    requires LayoutWf(l)
    ensures (l.blockHeadSize * (biggestOrder + 1)) % WORD_BYTES == 0
  {
    var heads := l.blockHeadSize * (biggestOrder + 1);
    MultipleIffModZero(l.blockHeadSize, WORD_BYTES);
    var q :| l.blockHeadSize == q * WORD_BYTES;
    assert heads == (q * (biggestOrder + 1)) * WORD_BYTES;
    MultipleIffModZero(heads, WORD_BYTES);
  }

  /** A multiple of the word size is its own word alignment. */
  lemma MultipleAlignUp(a: nat)
    requires a % WORD_BYTES == 0
    ensures AlignUp(a, WORD_BYTES) == a
  {
    AlignUpOfMultiple(a / WORD_BYTES, WORD_BYTES);
  }

  /**
   * With 65537 pages the bitmap has 65535 bits. Counted as bytes that is
   * 8192 bytes, but the slice spans 8192 words, 65536 bytes: with any
   * header under a page and list heads under 64 bytes, the bitmap runs past
   * the three metadata pages into the data area.
   */
  lemma BitmapOverrunsMetaPages(l: Layout)
    requires LayoutWf(l) && l.regionSize <= PAGE_SIZE && l.blockHeadSize <= 64
    ensures var m := CalculateMetaAsWritten(65537, l);
      m.Some? && m.value.metaPages * PAGE_SIZE < BitmapStart(l, m.value.biggestOrder) + WORD_BYTES * SliceWords(m.value.bitmapBits)
  {
    Pow2Sixteen();
    Log2OfPow2(16);
    EstimateBitmapBitsCount(65536);
    PopCountPow2(16);
    var bits := EstimateBitmapBits(65536);
    assert bits == 65535;
    assert CeilDiv(bits, WORD_BYTES) == 8192;
    var heads := l.blockHeadSize * 17;
    assert heads <= 1088;
    AlignUpBounds(l.regionSize, WORD_BYTES);
    AlignUpBounds(heads, WORD_BYTES);
    var bytes := MetaBytesAsWritten(l, 16, bits);
    assert bytes <= 4104 + 1096 + 8192;
    assert CeilDiv(bytes, PAGE_SIZE) <= 4;
    AlignUpBounds(AlignUp(l.regionSize, WORD_BYTES) + heads, WORD_BYTES);
  }

  lemma Pow2Sixteen()
    ensures Pow2(16) == 65536
  {
    assert Pow2(4) == 16;
    Pow2Add(4, 4);
    Pow2Add(8, 8);
  }

  lemma {:induction false} PopCountPow2(k: nat)
    ensures PopCount(Pow2(k)) == 1
  {
    if k > 0 {
      PopCountPow2(k - 1);
      assert Pow2(k) / 2 == Pow2(k - 1);
    }
  }

  // ------------------------------------------------------------------ free lists

  /** The pages held by the free lists of orders `o` and up. */
  function FreeFrom(lists: seq<seq<nat>>, o: nat): nat
    decreases |lists| - o
  {
    if o >= |lists| then 0 else |lists[o]| * Pow2(o) + FreeFrom(lists, o + 1)
  }

  /** Every free block of order `o` starts at a multiple of `2^o`. */
  ghost predicate AlignedBlocks(lists: seq<seq<nat>>) {
    forall o, i :: 0 <= o < |lists| && 0 <= i < |lists[o]| ==> lists[o][i] % Pow2(o) == 0
  }

  /** Some free list of order `o` or above holds a block. */
  ghost predicate HasBlockFrom(lists: seq<seq<nat>>, o: nat) {
    exists j, i :: o <= j < |lists| && 0 <= i < |lists[j]| && lists[j][i] >= 0
  }

  /** The `2^o` pages from `p` lie inside a block that the lists hold at order `o` or above. */
  ghost predicate InFreeBlock(lists: seq<seq<nat>>, p: nat, o: nat) {
    exists j, i :: o <= j < |lists| && 0 <= i < |lists[j]| && lists[j][i] <= p && p + Pow2(o) <= lists[j][i] + Pow2(j)
  }

  /** Replacing the list of order `j` changes the pages counted from `o <= j` by the difference. */
  lemma {:induction false} FreeFromUpdate(lists: seq<seq<nat>>, o: nat, j: nat, l: seq<nat>)
    requires o <= j < |lists|
    ensures FreeFrom(lists[j := l], o) + |lists[j]| * Pow2(j) == FreeFrom(lists, o) + |l| * Pow2(j)
    decreases j - o
  {
    if o < j {
      FreeFromUpdate(lists, o + 1, j, l);
    } else {
      FreeFromAbove(lists, j + 1, j, l);
    }
  }

  /** `FreeFromAbove` for every order above `j`. */
  lemma FreeFromAboveAll(lists: seq<seq<nat>>, j: nat, l: seq<nat>)
    requires j < |lists|
    ensures forall o :: j < o ==> FreeFrom(lists[j := l], o) == FreeFrom(lists, o)
  {
    forall o | j < o
      ensures FreeFrom(lists[j := l], o) == FreeFrom(lists, o)
    {
      FreeFromAbove(lists, o, j, l);
    }
  }

  /** Replacing the list of order `j` leaves the pages counted above `j` alone. */
  lemma {:induction false} FreeFromAbove(lists: seq<seq<nat>>, o: nat, j: nat, l: seq<nat>)
    requires j < o && j < |lists|
    ensures FreeFrom(lists[j := l], o) == FreeFrom(lists, o)
    decreases |lists| - o
  {
    if o < |lists| {
      FreeFromAbove(lists, o + 1, j, l);
    }
  }

  /** The pages counted from `o` include those of any list of order `j >= o`. */
  lemma {:induction false} FreeFromCovers(lists: seq<seq<nat>>, o: nat, j: nat)
    requires o <= j < |lists|
    ensures |lists[j]| * Pow2(j) <= FreeFrom(lists, o)
    decreases j - o
  {
    if o < j {
      FreeFromCovers(lists, o + 1, j);
    }
  }

  /** Pushing a block of order `o` counts `2^o` more pages. */
  lemma FreeFromPush(lists: seq<seq<nat>>, o: nat, p: nat)
    requires o < |lists|
    ensures FreeFrom(lists[o := [p] + lists[o]], 0) == FreeFrom(lists, 0) + Pow2(o)
  {
    FreeFromUpdate(lists, 0, o, [p] + lists[o]);
    MulSucc(|lists[o]|, Pow2(o));
  }

  /** Removing the block at index `i` of order `o` counts `2^o` fewer pages. */
  lemma FreeFromRemove(lists: seq<seq<nat>>, o: nat, i: nat)
    requires o < |lists| && i < |lists[o]|
    ensures FreeFrom(lists, 0) >= Pow2(o)
    ensures FreeFrom(lists[o := lists[o][..i] + lists[o][i + 1..]], 0) == FreeFrom(lists, 0) - Pow2(o)
  {
    var l := lists[o][..i] + lists[o][i + 1..];
    FreeFromUpdate(lists, 0, o, l);
    FreeFromCovers(lists, 0, o);
    assert |lists[o]| == |l| + 1;
    MulSucc(|l|, Pow2(o));
  }

  lemma MulSucc(n: nat, a: nat)
    ensures (n + 1) * a == n * a + a
  {
  }

  lemma AlignedPush(lists: seq<seq<nat>>, o: nat, p: nat)
    requires AlignedBlocks(lists) && o < |lists| && p % Pow2(o) == 0
    ensures AlignedBlocks(lists[o := [p] + lists[o]])
  {
    var lists1 := lists[o := [p] + lists[o]];
    forall j, i | 0 <= j < |lists1| && 0 <= i < |lists1[j]|
      ensures lists1[j][i] % Pow2(j) == 0
    {
      if j == o && i > 0 {
        assert lists1[j][i] == lists[j][i - 1];
      }
    }
  }

  lemma AlignedRemove(lists: seq<seq<nat>>, o: nat, i: nat)
    requires AlignedBlocks(lists) && o < |lists| && i < |lists[o]|
    ensures AlignedBlocks(lists[o := lists[o][..i] + lists[o][i + 1..]])
  {
    var lists1 := lists[o := lists[o][..i] + lists[o][i + 1..]];
    forall j, k | 0 <= j < |lists1| && 0 <= k < |lists1[j]|
      ensures lists1[j][k] % Pow2(j) == 0
    {
      if j == o {
        assert lists1[j][k] == if k < i then lists[o][k] else lists[o][k + 1];
      }
    }
  }

  // ------------------------------------------------------------------ buddies

  /** The first page of the pair of order-`o` blocks that `p` falls in. */
  function PairBase(p: nat, o: nat): nat {
    MulNonNegative(Shr(p, o + 1), Pow2(o + 1));
    Shr(p, o + 1) * Pow2(o + 1)
  }

  /** The other half of the pair: the block a freed block of order `o` merges with. */
  function Buddy(p: nat, o: nat): nat {
    if p == PairBase(p, o) then p + Pow2(o) else PairBase(p, o)
  }

  /**
   * An aligned block and its buddy are `2^o` pages apart, both aligned,
   * and the lower of them starts the pair, a block of order `o + 1`.
   */
  lemma BuddyFacts(p: nat, o: nat)
    requires p % Pow2(o) == 0
    ensures Buddy(p, o) % Pow2(o) == 0 && Buddy(p, o) != p
    ensures Min(p, Buddy(p, o)) == PairBase(p, o) && PairBase(p, o) % Pow2(o + 1) == 0
    ensures Max(p, Buddy(p, o)) == PairBase(p, o) + Pow2(o)
  {
    var a := Pow2(o);
    PairBaseFacts(p, o);
    if (p / a) % 2 == 0 {
      assert p == PairBase(p, o);
      assert (p + a) % a == 0 by {
        DivUnique(p, a, p / a, 0);
        DivUnique(p + a, a, p / a + 1, 0);
      }
    } else {
      assert p == PairBase(p, o) + a;
    }
  }

  /** The pair base is aligned to both orders, and `p` is its first or second half. */
  lemma PairBaseFacts(p: nat, o: nat)
    requires p % Pow2(o) == 0
    ensures PairBase(p, o) % Pow2(o + 1) == 0 && PairBase(p, o) % Pow2(o) == 0
    ensures p == PairBase(p, o) + (p / Pow2(o)) % 2 * Pow2(o)
  {
    var a := Pow2(o);
    assert Pow2(o + 1) == a * 2;
    DivDiv(p, a, 2);
    var base := PairBase(p, o);
    var q := p / (a * 2);
    assert base == q * (a * 2);
    assert base % (a * 2) == 0 by {
      DivUnique(base, a * 2, q, 0);
    }
    MulAssoc(q, a, 2);
    assert base % a == 0 by {
      DivUnique(base, a, q * 2, 0);
    }
  }

  function Min(a: nat, b: nat): nat { if a <= b then a else b }
  function Max(a: nat, b: nat): nat { if a >= b then a else b }

  /** Splitting an aligned block of order `o + 1` gives two aligned halves. */
  lemma SplitHalves(p: nat, o: nat)
    requires p % Pow2(o + 1) == 0
    ensures p % Pow2(o) == 0 && (p + Pow2(o)) % Pow2(o) == 0
  {
    var a := Pow2(o);
    assert Pow2(o + 1) == a * 2;
    DivUnique(p, a, p / (a * 2) * 2, 0);
    DivUnique(p + a, a, p / (a * 2) * 2 + 1, 0);
  }

  /** The bitmap with bit `b` flipped. */
  function Toggle(bits: set<nat>, b: nat): (r: set<nat>)
    ensures b in r <==> b !in bits
    ensures forall c :: c != b ==> (c in r <==> c in bits)
  {
    if b in bits then bits - {b} else bits + {b}
  }

  /** The bitmap bit of the pair a block of order `o` at page `p` belongs to. */
  function PageBit(p: nat, o: nat, offsets: seq<nat>): nat
    requires o < |offsets|
  {
    Shr(p, o + 1) + offsets[o]
  }

  /** `x >> n`. */
  function Shr(x: nat, n: nat): nat {
    var d := Pow2(n);
    DivNat(x, d);
    x / d
  }

  lemma DivNat(x: nat, d: nat)
    requires d >= 1
    ensures 0 <= x / d <= x
  {
  }

  /** Shifting right once more halves. */
  lemma ShrStep(x: nat, n: nat)
    ensures Shr(x, n) / 2 == Shr(x, n + 1)
  {
    DivDiv(x, Pow2(n), 2);
  }

  /** `bitmap_offset` of the list of order `o`: the bits of the pair levels below it. */
  function OffsetOf(free: nat, o: nat): nat {
    if o == 0 then 0 else OffsetOf(free, o - 1) + Shr(free, o)
  }

  lemma DivMonotone(x: nat, y: nat, d: nat)
    requires x <= y && d > 0
    ensures x / d <= y / d
  {
    if x / d > y / d {
      MulMonotone(y / d + 1, x / d, d);
    }
  }

  /** The offset of order `n` plus the bits of the orders above it is the whole estimate. */
  lemma {:induction false} OffsetPlusRest(free: nat, n: nat)
    ensures OffsetOf(free, n) + EstimateBitmapBits(Shr(free, n)) == EstimateBitmapBits(free)
  {
    if n > 0 {
      OffsetPlusRest(free, n - 1);
      ShrStep(free, n - 1);
    }
  }

  lemma {:induction false} EstimateMonotone(a: nat, b: nat)
    requires a <= b
    ensures EstimateBitmapBits(a) <= EstimateBitmapBits(b)
    decreases b
  {
    if a > 1 {
      EstimateMonotone(a / 2, b / 2);
    }
  }

  /**
   * The pair bit of any block that lies in the data area, of any order,
   * is at most `bitmap_bits`: a bitmap of `BitmapWords` words holds it.
   * The bound is reached by the single block of the biggest order when
   * there is one metadata page, and by a block whose pair runs past the
   * data area.
   */
  lemma PairBitInSlice(m: Metadata, p: nat, o: nat)
    requires MetaWf(m) && m.bitmapBits == EstimateBitmapBits(m.totalPages - 1)
    requires p + Pow2(o) <= m.freePages
    ensures Shr(p, o + 1) + OffsetOf(m.freePages, o) <= m.bitmapBits
    ensures (Shr(p, o + 1) + OffsetOf(m.freePages, o)) / WORD_BYTES < BitmapWords(m.bitmapBits)
  {
    var free, total := m.freePages, m.totalPages - 1;
    assert free <= total && p <= free;
    var bit := Shr(p, o + 1) + OffsetOf(free, o);
    PairBitBound(free, total, p, o);
    WordOfBit(bit, m.bitmapBits);
  }

  /** The pair bit of a block inside `free` pages is within the estimate for `total >= free` pages. */
  lemma PairBitBound(free: nat, total: nat, p: nat, o: nat)
    requires free <= total && p <= free
    ensures Shr(p, o + 1) + OffsetOf(free, o) <= EstimateBitmapBits(total)
  {
    assert Shr(p, o + 1) <= Shr(free, o + 1) by {
      DivMonotone(p, free, Pow2(o + 1));
    }
    assert OffsetOf(free, o + 1) == OffsetOf(free, o) + Shr(free, o + 1);
    assert OffsetOf(free, o + 1) <= EstimateBitmapBits(free) by {
      OffsetPlusRest(free, o + 1);
    }
    EstimateMonotone(free, total);
  }

  lemma WordOfBit(bit: nat, bits: nat)
    requires bit <= bits
    ensures bit / WORD_BYTES < BitmapWords(bits)
  {
    DivMonotone(bit, bits, WORD_BYTES);
  }

  /** The pages counted from `a` and from `b` agree when the lists between are empty. */
  lemma {:induction false} FreeFromSkip(lists: seq<seq<nat>>, a: nat, b: nat)
    requires a <= b <= |lists|
    requires forall o :: a <= o < b ==> lists[o] == []
    ensures FreeFrom(lists, a) == FreeFrom(lists, b)
    decreases b - a
  {
    if a < b {
      FreeFromSkip(lists, a + 1, b);
    }
  }

  /** A power of two below another has the smaller exponent. */
  lemma Pow2Below(a: nat, b: nat)
    requires Pow2(a) < Pow2(b)
    ensures a < b
  {
    if b <= a {
      Pow2Monotone(b, a);
    }
  }

  /** Alignment to `2^b` implies alignment to any smaller power. */
  lemma AlignedLower(p: nat, a: nat, b: nat)
    requires a <= b && p % Pow2(b) == 0
    ensures p % Pow2(a) == 0
  {
    var A, B, P := Pow2(a), Pow2(b - a), Pow2(b);
    Pow2Add(a, b - a);
    assert P == A * B;
    var q := p / P;
    ExactQuotient(p, P);
    MulAssoc(q, A, B);
    assert p == (q * B) * A;
    DivUnique(p, A, q * B, 0);
  }

  /** A multiple of `m` is its quotient times `m`. */
  lemma ExactQuotient(p: nat, m: nat)
    requires m > 0 && p % m == 0
    ensures p == (p / m) * m
  {
  }

  lemma MulAssoc(q: nat, a: nat, b: nat)
    ensures q * (a * b) == (q * b) * a
  {
  }

  /** Adding `2^a` keeps alignment to `2^a`. */
  lemma AlignedAdd(p: nat, a: nat)
    requires p % Pow2(a) == 0
    ensures (p + Pow2(a)) % Pow2(a) == 0
  {
    DivUnique(p + Pow2(a), Pow2(a), p / Pow2(a) + 1, 0);
  }

  /**
   * The state of the seeding loop: the blocks so far start at 0, one per
   * order from `k` up, each where the bigger ones end, and cover `current`
   * pages, a multiple of `2^k`.
   */
  ghost predicate SeedInv(lists: seq<seq<nat>>, current: nat, k: nat) {
    k <= |lists| && current % Pow2(k) == 0
    && AlignedBlocks(lists) && FreeFrom(lists, 0) == current && FreeFrom(lists, k) == current
    && (forall o :: 0 <= o < k ==> lists[o] == [])
    && (forall o :: k <= o < |lists| ==> |lists[o]| <= 1)
    && (forall o :: k <= o < |lists| && lists[o] != [] ==> lists[o][0] == FreeFrom(lists, o + 1))
  }

  /** Seeding a block of the next lower order `j` at `current` keeps the seeding state. */
  lemma SeedStep(lists: seq<seq<nat>>, current: nat, k: nat, j: nat, lists1: seq<seq<nat>>, current1: nat)
    requires SeedInv(lists, current, k) && j < k
    requires lists1 == lists[j := [current] + lists[j]] && current1 == current + Pow2(j)
    ensures SeedInv(lists1, current1, j)
  {
    AlignedLower(current, j, k);
    AlignedPush(lists, j, current);
    AlignedAdd(current, j);
    SeedStepCounts(lists, current, k, j, lists1);
    SeedStepShape(lists, current, k, j, lists1);
  }

  /** The page counts after seeding a block of order `j` at `current`. */
  lemma SeedStepCounts(lists: seq<seq<nat>>, current: nat, k: nat, j: nat, lists1: seq<seq<nat>>)
    requires SeedInv(lists, current, k) && j < k
    requires lists1 == lists[j := [current] + lists[j]]
    ensures FreeFrom(lists1, 0) == current + Pow2(j) && FreeFrom(lists1, j) == current + Pow2(j)
    ensures forall o :: j < o ==> FreeFrom(lists1, o) == FreeFrom(lists, o)
    ensures FreeFrom(lists, j + 1) == current
  {
    FreeFromSkip(lists, j + 1, k);
    FreeFromPush(lists, j, current);
    FreeFromAboveAll(lists, j, [current] + lists[j]);
    assert FreeFrom(lists1, j) == Pow2(j) + FreeFrom(lists1, j + 1) by {
      MulSucc(0, Pow2(j));
    }
  }

  /** The list shapes after seeding a block of order `j` at `current`. */
  lemma SeedStepShape(lists: seq<seq<nat>>, current: nat, k: nat, j: nat, lists1: seq<seq<nat>>)
    requires SeedInv(lists, current, k) && j < k
    requires lists1 == lists[j := [current] + lists[j]]
    requires forall o :: j < o ==> FreeFrom(lists1, o) == FreeFrom(lists, o)
    requires FreeFrom(lists, j + 1) == current
    ensures forall o :: 0 <= o < j ==> lists1[o] == []
    ensures forall o :: j <= o < |lists1| ==> |lists1[o]| <= 1
    ensures forall o :: j <= o < |lists1| && lists1[o] != [] ==> lists1[o][0] == FreeFrom(lists1, o + 1)
  {
    forall o | 0 <= o < j
      ensures lists1[o] == []
    {
      assert lists1[o] == lists[o];
    }
    forall o | j <= o < |lists1|
      ensures |lists1[o]| <= 1 && (lists1[o] != [] ==> lists1[o][0] == FreeFrom(lists1, o + 1))
    {
      if o == j {
        assert lists1[o] == [current];
      } else {
        assert lists1[o] == lists[o] && FreeFrom(lists1, o + 1) == FreeFrom(lists, o + 1);
        if o < k {
          assert lists[o] == [];
        }
      }
    }
  }

  /**
   * The bitmap seeded for the blocks of `lists` from order `o` up to `top`
   * (not included): each list's front block flips its pair bit once.
   */
  function ToggledFrom(lists: seq<seq<nat>>, offsets: seq<nat>, o: nat, top: nat): set<nat>
    requires top <= |lists| && top <= |offsets|
    decreases top - o
  {
    if o >= top then {}
    else
      var rest := ToggledFrom(lists, offsets, o + 1, top);
      if lists[o] == [] then rest else Toggle(rest, PageBit(lists[o][0], o, offsets))
  }

  /** Empty lists from `a` to `b` flip nothing. */
  lemma {:induction false} ToggledSkip(lists: seq<seq<nat>>, offsets: seq<nat>, a: nat, b: nat, top: nat)
    requires top <= |lists| && top <= |offsets| && a <= b <= top
    requires forall o :: a <= o < b ==> lists[o] == []
    ensures ToggledFrom(lists, offsets, a, top) == ToggledFrom(lists, offsets, b, top)
    decreases b - a
  {
    if a < b && a < top {
      ToggledSkip(lists, offsets, a + 1, b, top);
    }
  }

  /** Lists that agree from `o` up flip the same bits from `o` up. */
  lemma {:induction false} ToggledAgree(lists: seq<seq<nat>>, lists1: seq<seq<nat>>, offsets: seq<nat>, o: nat, top: nat)
    requires top <= |lists| && top <= |lists1| && top <= |offsets|
    requires forall j :: o <= j < top ==> lists1[j] == lists[j]
    ensures ToggledFrom(lists1, offsets, o, top) == ToggledFrom(lists, offsets, o, top)
    decreases top - o
  {
    if o < top {
      ToggledAgree(lists, lists1, offsets, o + 1, top);
    }
  }

  /** Seeding a block of order `j` at `current`, below the other seeded orders, flips its pair bit when `j` is below `top`. */
  lemma SeedToggleStep(lists: seq<seq<nat>>, offsets: seq<nat>, j: nat, k: nat, top: nat, current: nat)
    requires top < |lists| && top < |offsets| && j < k <= |lists|
    requires forall o :: 0 <= o < k ==> lists[o] == []
    ensures var lists1 := lists[j := [current] + lists[j]];
      ToggledFrom(lists1, offsets, 0, top)
        == if j < top then Toggle(ToggledFrom(lists, offsets, 0, top), PageBit(current, j, offsets)) else ToggledFrom(lists, offsets, 0, top)
  {
    var lists1 := lists[j := [current] + lists[j]];
    if j < top {
      ToggledSkip(lists1, offsets, 0, j, top);
      ToggledSkip(lists, offsets, 0, j + 1, top);
      ToggledAgree(lists, lists1, offsets, j + 1, top);
      assert lists1[j] == [current];
    } else {
      ToggledAgree(lists, lists1, offsets, 0, top);
    }
  }

  /**
   * A block seeded at `current`, with `remaining` pages still to seed below
   * it, is the lower half of a pair that runs past the data area: its pair
   * bit is the first after the bits of its order.
   */
  lemma SeedBitIsPartialPair(free: nat, current: nat, remaining: nat, j: nat, k: nat)
    requires current + remaining == free && current % Pow2(k) == 0 && j < k
    requires Pow2(j) <= remaining < Pow2(j + 1)
    ensures Shr(current, j + 1) + OffsetOf(free, j) == OffsetOf(free, j + 1)
  {
    AlignedLower(current, j + 1, k);
    var d := Pow2(j + 1);
    ExactQuotient(current, d);
    DivUnique(free, d, current / d, remaining);
    DivUnique(current, d, current / d, 0);
  }

  /** With every order up to `top` owning a pair, `OffsetOf` grows strictly. */
  lemma {:induction false} OffsetStrict(free: nat, a: nat, b: nat, top: nat)
    requires a < b <= top && Pow2(top) <= free
    ensures OffsetOf(free, a) < OffsetOf(free, b)
    decreases b - a
  {
    Pow2Monotone(b, top);
    DivUnique(free, Pow2(b), free / Pow2(b), free % Pow2(b));
    if a + 1 < b {
      OffsetStrict(free, a, b - 1, top);
    }
  }

  /** Every front block below `top` is the lower half of a pair that runs past the data area. */
  predicate FrontsArePartial(lists: seq<seq<nat>>, offsets: seq<nat>, free: nat, top: nat)
    requires top <= |lists| && top <= |offsets|
  {
    forall o :: 0 <= o < top && lists[o] != [] ==> PageBit(lists[o][0], o, offsets) == OffsetOf(free, o + 1)
  }

  /** One round of the seeding loop keeps the bitmap in step with the seeded blocks. */
  lemma SeedBitmapStep(lists: seq<seq<nat>>, offsets: seq<nat>, free: nat, top: nat, j: nat, k: nat, current: nat, remaining: nat, bits: set<nat>)
    requires |lists| == top + 1 && OffsetsUpTo(offsets, free, |lists|) && j < k <= |lists|
    requires forall o :: 0 <= o < k ==> lists[o] == []
    requires current + remaining == free && current % Pow2(k) == 0 && Pow2(j) <= remaining < Pow2(j + 1)
    requires bits == ToggledFrom(lists, offsets, 0, top) && FrontsArePartial(lists, offsets, free, top)
    ensures var lists1 := lists[j := [current] + lists[j]];
      && (if j < top then Toggle(bits, PageBit(current, j, offsets)) else bits) == ToggledFrom(lists1, offsets, 0, top)
      && FrontsArePartial(lists1, offsets, free, top)
  {
    SeedToggleStep(lists, offsets, j, k, top, current);
    SeedBitIsPartialPair(free, current, remaining, j, k);
    var lists1 := lists[j := [current] + lists[j]];
    assert lists1[j] == [current];
  }

  /**
   * When the seeded blocks are partial pairs and the pairs of every order
   * up to `top` start below the data's end, their bits are distinct, so
   * each one is set once: the bitmap is exactly the set of their bits.
   */
  lemma {:induction false} ToggledDistinct(lists: seq<seq<nat>>, offsets: seq<nat>, free: nat, o: nat, top: nat)
    requires top <= |lists| && top <= |offsets| && Pow2(top) <= free
    requires forall j :: o <= j < top && lists[j] != [] ==> PageBit(lists[j][0], j, offsets) == OffsetOf(free, j + 1)
    ensures ToggledFrom(lists, offsets, o, top) == SeededBits(lists, free, o, top)
    decreases top - o
  {
    if o < top {
      ToggledDistinct(lists, offsets, free, o + 1, top);
      var rest := SeededBits(lists, free, o + 1, top);
      if lists[o] != [] {
        forall x | x in rest
          ensures OffsetOf(free, o + 1) < x
        {
          var j :| o + 1 <= j < top && lists[j] != [] && x == OffsetOf(free, j + 1);
          OffsetStrict(free, o + 1, j + 1, top);
        }
        SeededBitsStep(lists, free, o, top);
      } else {
        SeededBitsStep(lists, free, o, top);
      }
    } else {
      SeededBitsEmpty(lists, free, o, top);
    }
  }

  /** The bits of the partial pairs of the seeded blocks from order `o` up to `top` (not included). */
  function SeededBits(lists: seq<seq<nat>>, free: nat, o: nat, top: nat): set<nat>
    requires top <= |lists|
  {
    set j | o <= j < top && lists[j] != [] :: OffsetOf(free, j + 1)
  }

  lemma SeededBitsStep(lists: seq<seq<nat>>, free: nat, o: nat, top: nat)
    requires o < top <= |lists|
    ensures lists[o] != [] ==> SeededBits(lists, free, o, top) == SeededBits(lists, free, o + 1, top) + {OffsetOf(free, o + 1)}
    ensures lists[o] == [] ==> SeededBits(lists, free, o, top) == SeededBits(lists, free, o + 1, top)
  {
    var all, rest := SeededBits(lists, free, o, top), SeededBits(lists, free, o + 1, top);
    forall x | x in all
      ensures x in rest || (lists[o] != [] && x == OffsetOf(free, o + 1))
    {
      var j :| o <= j < top && lists[j] != [] && x == OffsetOf(free, j + 1);
      if j > o {
        assert x in rest;
      }
    }
    if lists[o] != [] {
      assert OffsetOf(free, o + 1) in all;
    }
  }

  lemma SeededBitsEmpty(lists: seq<seq<nat>>, free: nat, o: nat, top: nat)
    requires top <= o && top <= |lists|
    ensures SeededBits(lists, free, o, top) == {}
  {
  }

  /** With the list of order `o` empty, a block from `o` up is a block from `o + 1` up. */
  lemma HasBlockFromStep(lists: seq<seq<nat>>, o: nat)
    requires o < |lists| && lists[o] == []
    ensures HasBlockFrom(lists, o) <==> HasBlockFrom(lists, o + 1)
  {
    if HasBlockFrom(lists, o) {
      var j, i :| o <= j < |lists| && 0 <= i < |lists[j]| && lists[j][i] >= 0;
      assert j != o;
    }
  }

  /** Lists that hold pages from order `o` up hold a block from `o` up. */
  lemma {:induction false} FreeFromPositive(lists: seq<seq<nat>>, o: nat)
    requires FreeFrom(lists, o) > 0
    ensures HasBlockFrom(lists, o)
    decreases |lists| - o
  {
    if lists[o] != [] {
      assert lists[o][0] >= 0;
    } else {
      FreeFromPositive(lists, o + 1);
    }
  }

  /** Pages inside a free span are in a free block too. */
  lemma InFreeBlockInside(lists: seq<seq<nat>>, p: nat, o: nat, q: nat, o2: nat)
    requires InFreeBlock(lists, q, o2) && o <= o2 && q <= p && p + Pow2(o) <= q + Pow2(o2)
    ensures InFreeBlock(lists, p, o)
  {
    var j, i :| o2 <= j < |lists| && 0 <= i < |lists[j]| && lists[j][i] <= q && q + Pow2(o2) <= lists[j][i] + Pow2(j);
  }

  datatype AllocError = AllocError

  /** The `panic!` of `free_in_region` when the bitmap says the buddy is free but no list holds it. */
  datatype FreeError = BlockNotFound(page: nat)

  /** The first `n` offsets are those of the orders `0..n`. */
  predicate OffsetsUpTo(offsets: seq<nat>, freePages: nat, n: nat) {
    |offsets| == n && forall o :: 0 <= o < n ==> offsets[o] == OffsetOf(freePages, o)
  }

  lemma OffsetsUpToAppend(offsets: seq<nat>, freePages: nat, n: nat)
    requires OffsetsUpTo(offsets, freePages, n)
    ensures OffsetsUpTo(offsets + [OffsetOf(freePages, n)], freePages, n + 1)
  {
  }

  /** `count` empty free lists, with the offsets of their blocks in the bitmap for `freePages` pages. */
  method EmptyHeads(freePages: nat, count: nat) returns (lists: seq<seq<nat>>, offsets: seq<nat>)
    ensures |lists| == count && |offsets| == count
    ensures forall o :: 0 <= o < count ==> lists[o] == [] && offsets[o] == OffsetOf(freePages, o)
  {
    lists, offsets := [], [];
    var offset := 0;
    var remaining := freePages;
    var i := 0;
    while i < count
      invariant i <= count && |lists| == i && |offsets| == i
      invariant forall o :: 0 <= o < i ==> lists[o] == []
      invariant OffsetsUpTo(offsets, freePages, i)
      invariant offset == OffsetOf(freePages, i) && remaining == Shr(freePages, i)
    {
      OffsetsUpToAppend(offsets, freePages, i);
      lists := lists + [[]];
      offsets := offsets + [offset];
      ShrStep(freePages, i);
      remaining := remaining / 2;
      assert OffsetOf(freePages, i + 1) == offset + remaining;
      offset := offset + remaining;
      i := i + 1;
    }
  }

  // ------------------------------------------------------------------ allocation, as a function of the region's fields

  /** The fields of a region, as a value. */
  datatype RegionState = RegionState(meta: Metadata, lists: seq<seq<nat>>, offsets: seq<nat>, bitmap: set<nat>)

  predicate StateWf(s: RegionState) {
    |s.lists| == s.meta.biggestOrder + 1 && |s.offsets| == |s.lists|
  }

  /**
   * What `alloc_in_region` does to a region: `None` for `AllocError`,
   * otherwise the block handed out and the new fields. With a block on the
   * order's list, the front block leaves the list; otherwise a block of the
   * next order is taken, and its upper half is put back as `put_back_block`
   * does.
   */
  function AllocSpec(s: RegionState, order: nat): (r: Option<(nat, RegionState)>)
    requires StateWf(s) && s.meta.freePages == FreeFrom(s.lists, 0)
    ensures r.Some? ==> order <= s.meta.biggestOrder
    ensures r.Some? ==> StateWf(r.value.1) && r.value.1.offsets == s.offsets
    ensures r.Some? ==> r.value.1.meta == s.meta.(freePages := r.value.1.meta.freePages)
    ensures r.Some? ==> r.value.1.meta.freePages == FreeFrom(r.value.1.lists, 0)
    ensures r.Some? ==> r.value.1.meta.freePages + Pow2(order) == s.meta.freePages
    decreases s.meta.biggestOrder + 1 - order
  {
    if order > s.meta.biggestOrder then None
    else if s.lists[order] != [] then
      var b := s.lists[order][0];
      FreeFromRemove(s.lists, order, 0);
      assert s.lists[order][..0] + s.lists[order][1..] == s.lists[order][1..];
      Some((b, TakeFrontState(s, order)))
    else match AllocSpec(s, order + 1)
      case None => None
      case Some((b, s1)) =>
        var upper := b + Pow2(order);
        FreeFromPush(s1.lists, order, upper);
        Some((b, PutBackState(s1, upper, order)))
  }

  /** The fields once the front block of the order's list has left it (its pair bit flips below the biggest order). */
  function TakeFrontState(s: RegionState, order: nat): RegionState
    requires StateWf(s) && order <= s.meta.biggestOrder && s.lists[order] != [] && s.meta.freePages >= Pow2(order)
  {
    s.(lists := s.lists[order := s.lists[order][1..]],
       bitmap := if order < s.meta.biggestOrder then Toggle(s.bitmap, PageBit(s.lists[order][0], order, s.offsets)) else s.bitmap,
       meta := s.meta.(freePages := s.meta.freePages - Pow2(order)))
  }

  /** The fields once `put_back_block` has pushed the block at `page` on its list, flipped its pair bit (at every order) and counted its pages. */
  function PutBackState(s: RegionState, page: nat, order: nat): RegionState
    requires StateWf(s) && order <= s.meta.biggestOrder
  {
    s.(lists := s.lists[order := [page] + s.lists[order]],
       bitmap := Toggle(s.bitmap, PageBit(page, order, s.offsets)),
       meta := s.meta.(freePages := s.meta.freePages + Pow2(order)))
  }

  /** With a block on the order's list, `AllocSpec` takes the front block. */
  lemma AllocSpecFront(s: RegionState, order: nat)
    requires StateWf(s) && s.meta.freePages == FreeFrom(s.lists, 0)
    requires order <= s.meta.biggestOrder && s.lists[order] != []
    ensures s.meta.freePages >= Pow2(order)
    ensures AllocSpec(s, order) == Some((s.lists[order][0], TakeFrontState(s, order)))
  {
    FreeFromRemove(s.lists, order, 0);
  }

  /** With the order's list empty, `AllocSpec` splits the block of the next order and puts the upper half back. */
  lemma AllocSpecSplit(s: RegionState, order: nat, b: nat, s1: RegionState)
    requires StateWf(s) && s.meta.freePages == FreeFrom(s.lists, 0)
    requires order <= s.meta.biggestOrder && s.lists[order] == []
    requires AllocSpec(s, order + 1) == Some((b, s1))
    ensures AllocSpec(s, order) == Some((b, PutBackState(s1, b + Pow2(order), order)))
  {
  }

  /** An outcome of `alloc_in_region` that agrees with `AllocSpec`: the outcome `r` and the new fields `s`. */
  predicate AgreesWithSpec(s0: RegionState, order: nat, r: Result<nat, AllocError>, s: RegionState)
    requires StateCounted(s0)
  {
    && (r.Err? <==> AllocSpec(s0, order).None?)
    && (r.Ok? ==> AllocSpec(s0, order) == Some((r.value, s)))
    && (r.Err? ==> s == s0)
  }

  /** The facts of `AllocSpecFails` and `AllocSpecBlock`, for an outcome that agrees with `AllocSpec`. */
  lemma AllocOutcome(s0: RegionState, order: nat, r: Result<nat, AllocError>, s: RegionState)
    requires StateCounted(s0) && AlignedBlocks(s0.lists) && AgreesWithSpec(s0, order, r, s)
    ensures StateCounted(s) && AlignedBlocks(s.lists) && s.offsets == s0.offsets && s.meta == s0.meta.(freePages := s.meta.freePages)
    ensures r.Err? <==> !HasBlockFrom(s0.lists, order)
    ensures r.Ok? ==> order < |s0.lists| && s.meta.freePages + Pow2(order) == s0.meta.freePages
    ensures r.Ok? ==> r.value % Pow2(order) == 0 && InFreeBlock(s0.lists, r.value, order)
  {
    AllocSpecFails(s0, order);
    AllocSpecBlock(s0, order);
  }

  /** The facts of `AllocSpecLists`, for an outcome that agrees with `AllocSpec`. */
  lemma AllocOutcomeLists(s0: RegionState, order: nat, r: Result<nat, AllocError>, s: RegionState)
    requires StateCounted(s0) && AgreesWithSpec(s0, order, r, s) && r.Ok? && order < |s0.lists|
    ensures s0.lists[order] != [] ==> r.value == s0.lists[order][0] && s.lists == s0.lists[order := s0.lists[order][1..]]
    ensures s0.lists[order] == [] ==> s.lists[order] == [r.value + Pow2(order)]
    ensures forall o :: 0 <= o < order ==> s.lists[o] == s0.lists[o]
  {
    AllocSpecLists(s0, order);
  }

  /** The facts of `AllocSpecDisjoint`, for an outcome that agrees with `AllocSpec`. */
  lemma AllocOutcomeDisjoint(s0: RegionState, order: nat, r: Result<nat, AllocError>, s: RegionState)
    requires StateCounted(s0) && AlignedBlocks(s0.lists) && AgreesWithSpec(s0, order, r, s)
    ensures DisjointBlocks(s0.lists) ==> DisjointBlocks(s.lists) && (r.Ok? ==> !FreeOverlaps(s.lists, r.value, order))
  {
    if DisjointBlocks(s0.lists) {
      AllocSpecDisjoint(s0, order);
    }
  }

  /** The fields of a valid region. */
  predicate StateCounted(s: RegionState) {
    StateWf(s) && s.meta.freePages == FreeFrom(s.lists, 0)
  }

  /** `alloc_in_region` fails exactly when no list of the order or above holds a block. */
  lemma {:induction false} AllocSpecFails(s: RegionState, order: nat)
    requires StateCounted(s)
    ensures AllocSpec(s, order).None? <==> !HasBlockFrom(s.lists, order)
    decreases s.meta.biggestOrder + 1 - order
  {
    if order > s.meta.biggestOrder {
    } else if s.lists[order] != [] {
      assert s.lists[order][0] >= 0;
    } else {
      HasBlockFromStep(s.lists, order);
      AllocSpecFails(s, order + 1);
    }
  }

  /**
   * The block handed out is aligned to its size and lay inside a free
   * block, and the free blocks left stay aligned.
   */
  lemma {:induction false} AllocSpecBlock(s: RegionState, order: nat)
    requires StateCounted(s) && AlignedBlocks(s.lists)
    ensures AllocSpec(s, order).Some? ==>
      var a := AllocSpec(s, order).value;
      a.0 % Pow2(order) == 0 && InFreeBlock(s.lists, a.0, order) && AlignedBlocks(a.1.lists)
    decreases s.meta.biggestOrder + 1 - order
  {
    if order > s.meta.biggestOrder {
    } else if s.lists[order] != [] {
      AllocSpecBlockFront(s, order);
    } else {
      AllocSpecBlock(s, order + 1);
      if AllocSpec(s, order + 1).Some? {
        var a := AllocSpec(s, order + 1).value;
        AllocSpecBlockSplit(s, order, a.0, a.1);
      }
    }
  }

  /** The front block of the order's list is aligned and free, and the blocks left stay aligned. */
  lemma AllocSpecBlockFront(s: RegionState, order: nat)
    requires StateCounted(s) && AlignedBlocks(s.lists) && order <= s.meta.biggestOrder && s.lists[order] != []
    ensures var a := AllocSpec(s, order).value;
      a.0 % Pow2(order) == 0 && InFreeBlock(s.lists, a.0, order) && AlignedBlocks(a.1.lists)
  {
    AllocSpecFront(s, order);
    var b := s.lists[order][0];
    assert s.lists[order][..0] + s.lists[order][1..] == s.lists[order][1..];
    AlignedRemove(s.lists, order, 0);
    assert InFreeBlock(s.lists, b, order) by {
      assert s.lists[order][0] <= b && b + Pow2(order) <= s.lists[order][0] + Pow2(order);
    }
  }

  /** The lower half of an aligned free block of the next order is aligned and free, and its upper half is aligned. */
  lemma AllocSpecBlockSplit(s: RegionState, order: nat, b: nat, s1: RegionState)
    requires StateCounted(s) && order <= s.meta.biggestOrder && s.lists[order] == []
    requires AllocSpec(s, order + 1) == Some((b, s1))
    requires b % Pow2(order + 1) == 0 && InFreeBlock(s.lists, b, order + 1) && AlignedBlocks(s1.lists)
    ensures var a := AllocSpec(s, order).value;
      a.0 % Pow2(order) == 0 && InFreeBlock(s.lists, a.0, order) && AlignedBlocks(a.1.lists)
  {
    AllocSpecSplit(s, order, b, s1);
    InFreeBlockInside(s.lists, b, order, b, order + 1);
    SplitHalves(b, order);
    AlignedPush(s1.lists, order, b + Pow2(order));
  }

  /** The lists of orders below the one asked for are untouched. */
  lemma {:induction false} AllocSpecKeepsBelow(s: RegionState, order: nat, o: nat)
    requires StateCounted(s) && o < order
    ensures AllocSpec(s, order).Some? ==> AllocSpec(s, order).value.1.lists[o] == s.lists[o]
    decreases s.meta.biggestOrder + 1 - order
  {
    if order <= s.meta.biggestOrder && s.lists[order] == [] {
      AllocSpecKeepsBelow(s, order + 1, o);
    }
  }

  /**
   * Which block is handed out: the front of the order's list when it holds
   * one, which then leaves that list and nothing else changes in the lists;
   * otherwise the lower half of a bigger block, whose upper half becomes the
   * only block of the order's list. No list below the order changes.
   */
  lemma AllocSpecLists(s: RegionState, order: nat)
    requires StateCounted(s)
    ensures AllocSpec(s, order).Some? ==>
      var a := AllocSpec(s, order).value;
      && order < |s.lists|
      && (s.lists[order] != [] ==> a.0 == s.lists[order][0] && a.1.lists == s.lists[order := s.lists[order][1..]])
      && (s.lists[order] == [] ==> a.1.lists[order] == [a.0 + Pow2(order)])
      && (forall o :: 0 <= o < order ==> a.1.lists[o] == s.lists[o])
  {
    if AllocSpec(s, order).Some? {
      if s.lists[order] != [] {
        AllocSpecFront(s, order);
      } else {
        AllocSpecUpperHalf(s, order);
      }
      AllocSpecKeepsAllBelow(s, order);
    }
  }

  /** With the order's list empty, the upper half of the split block is the only block of that list. */
  lemma AllocSpecUpperHalf(s: RegionState, order: nat)
    requires StateCounted(s) && AllocSpec(s, order).Some? && s.lists[order] == []
    ensures AllocSpec(s, order).value.1.lists[order] == [AllocSpec(s, order).value.0 + Pow2(order)]
  {
    AllocSpecKeepsBelow(s, order + 1, order);
    var a := AllocSpec(s, order + 1).value;
    AllocSpecSplit(s, order, a.0, a.1);
    var upper := a.0 + Pow2(order);
    assert [upper] + a.1.lists[order] == [upper];
  }

  /** No list below the order changes. */
  lemma AllocSpecKeepsAllBelow(s: RegionState, order: nat)
    requires StateCounted(s) && AllocSpec(s, order).Some?
    ensures forall o :: 0 <= o < order ==> AllocSpec(s, order).value.1.lists[o] == s.lists[o]
  {
    forall o | 0 <= o < order
      ensures AllocSpec(s, order).value.1.lists[o] == s.lists[o]
    {
      AllocSpecKeepsBelow(s, order, o);
    }
  }

  /** The blocks of order `oa` at `a` and of order `ob` at `b` share a page. */
  predicate Overlap(a: nat, oa: nat, b: nat, ob: nat) {
    a < b + Pow2(ob) && b < a + Pow2(oa)
  }

  /** Entries `(j1, i1)` and `(j2, i2)` of the free lists, when both exist and differ, share no page. */
  predicate Apart(lists: seq<seq<nat>>, j1: nat, i1: nat, j2: nat, i2: nat) {
    (j1 < |lists| && i1 < |lists[j1]| && j2 < |lists| && i2 < |lists[j2]| && (j1 != j2 || i1 != i2))
    ==> !Overlap(lists[j1][i1], j1, lists[j2][i2], j2)
  }

  /** No two entries of the free lists share a page. */
  ghost predicate DisjointBlocks(lists: seq<seq<nat>>) {
    forall j1: nat, i1: nat, j2: nat, i2: nat :: Apart(lists, j1, i1, j2, i2)
  }

  /** Entry `(j, i)` of the free lists exists and shares a page with the `2^o` pages from `p`. */
  predicate Hits(lists: seq<seq<nat>>, j: nat, i: nat, p: nat, o: nat) {
    j < |lists| && i < |lists[j]| && Overlap(lists[j][i], j, p, o)
  }

  /** Some entry of the free lists shares a page with the `2^o` pages from `p`. */
  ghost predicate FreeOverlaps(lists: seq<seq<nat>>, p: nat, o: nat) {
    exists j: nat, i: nat :: Hits(lists, j, i, p, o)
  }

  /** Taking the front block off list `o` keeps the lists disjoint, and no block left shares a page with it. */
  lemma PopFrontDisjoint(lists: seq<seq<nat>>, o: nat)
    requires DisjointBlocks(lists) && o < |lists| && lists[o] != []
    ensures DisjointBlocks(lists[o := lists[o][1..]])
    ensures !FreeOverlaps(lists[o := lists[o][1..]], lists[o][0], o)
  {
    var l := lists[o := lists[o][1..]];
    forall j1: nat, i1: nat, j2: nat, i2: nat
      ensures Apart(l, j1, i1, j2, i2)
    {
      assert Apart(lists, j1, if j1 == o then i1 + 1 else i1, j2, if j2 == o then i2 + 1 else i2);
    }
    forall j: nat, i: nat
      ensures !Hits(l, j, i, lists[o][0], o)
    {
      assert Apart(lists, o, 0, j, if j == o then i + 1 else i);
    }
  }

  /** Pushing a block that shares no page with the lists keeps them disjoint. */
  lemma PushFrontDisjoint(lists: seq<seq<nat>>, o: nat, p: nat)
    requires DisjointBlocks(lists) && o < |lists| && !FreeOverlaps(lists, p, o)
    ensures DisjointBlocks(lists[o := [p] + lists[o]])
  {
    var l := lists[o := [p] + lists[o]];
    forall j1: nat, i1: nat, j2: nat, i2: nat
      ensures Apart(l, j1, i1, j2, i2)
    {
      var a1: nat := if j1 == o && i1 > 0 then i1 - 1 else i1;
      var a2: nat := if j2 == o && i2 > 0 then i2 - 1 else i2;
      if j1 == o && i1 == 0 {
        assert !Hits(lists, j2, a2, p, o);
      } else if j2 == o && i2 == 0 {
        assert !Hits(lists, j1, a1, p, o);
      } else {
        assert Apart(lists, j1, a1, j2, a2);
      }
    }
  }

  /** After a push, a block that shares no page with the old lists nor with the pushed block shares none with the new lists. */
  lemma PushFrontNoOverlap(lists: seq<seq<nat>>, o: nat, p: nat, q: nat, oq: nat)
    requires o < |lists| && !FreeOverlaps(lists, q, oq) && !Overlap(p, o, q, oq)
    ensures !FreeOverlaps(lists[o := [p] + lists[o]], q, oq)
  {
    var l := lists[o := [p] + lists[o]];
    forall j: nat, i: nat
      ensures !Hits(l, j, i, q, oq)
    {
      if j != o || i > 0 {
        assert !Hits(lists, j, if j == o then i - 1 else i, q, oq);
      }
    }
  }

  /** A part of a block that shares no page with the lists shares none either. */
  lemma InsideNoOverlap(lists: seq<seq<nat>>, p: nat, o: nat, q: nat, oq: nat)
    requires !FreeOverlaps(lists, q, oq) && q <= p && p + Pow2(o) <= q + Pow2(oq)
    ensures !FreeOverlaps(lists, p, o)
  {
    forall j: nat, i: nat
      ensures !Hits(lists, j, i, p, o)
    {
      assert !Hits(lists, j, i, q, oq);
    }
  }

  /**
   * On disjoint free lists, `alloc_in_region` hands out a block that shares
   * no page with any block still on the lists, and the lists stay disjoint.
   */
  lemma {:induction false} AllocSpecDisjoint(s: RegionState, order: nat)
    requires StateCounted(s) && DisjointBlocks(s.lists)
    ensures AllocSpec(s, order).Some? ==>
      DisjointBlocks(AllocSpec(s, order).value.1.lists) && !FreeOverlaps(AllocSpec(s, order).value.1.lists, AllocSpec(s, order).value.0, order)
    decreases s.meta.biggestOrder + 1 - order
  {
    if order > s.meta.biggestOrder {
    } else if s.lists[order] != [] {
      PopFrontDisjoint(s.lists, order);
    } else {
      AllocSpecDisjoint(s, order + 1);
      if AllocSpec(s, order + 1).Some? {
        var (b, s1) := AllocSpec(s, order + 1).value;
        var upper := b + Pow2(order);
        assert Pow2(order + 1) == 2 * Pow2(order);
        InsideNoOverlap(s1.lists, upper, order, b, order + 1);
        InsideNoOverlap(s1.lists, b, order, b, order + 1);
        PushFrontDisjoint(s1.lists, order, upper);
        PushFrontNoOverlap(s1.lists, order, upper, b, order);
      }
    }
  }

  // ------------------------------------------------------------------ freeing, as a function of the region's fields

  /** The position of the first block at `b` on a list, if any. */
  function IndexOf(l: seq<nat>, b: nat): (r: Option<nat>)
    ensures r.Some? ==> r.value < |l| && l[r.value] == b && forall i :: 0 <= i < r.value ==> l[i] != b
    ensures r.None? <==> b !in l
  {
    if l == [] then None
    else if l[0] == b then Some(0)
    else match IndexOf(l[1..], b)
      case None => None
      case Some(i) => Some(i + 1)
  }

  /** The list without its first block at `b`. */
  function RemoveFirst(l: seq<nat>, b: nat): (r: seq<nat>)
    ensures b in l ==> |r| + 1 == |l| && multiset(r) + multiset{b} == multiset(l)
    ensures b !in l ==> r == l
  {
    match IndexOf(l, b)
    case None => l
    case Some(i) =>
      assert l == l[..i] + [b] + l[i + 1..];
      l[..i] + l[i + 1..]
  }

  /** The start of the order-`o` block holding page `p`: `p` with its low `o` bits cleared. */
  function BlockStart(p: nat, o: nat): nat {
    MulNonNegative(Shr(p, o), Pow2(o));
    Shr(p, o) * Pow2(o)
  }

  /** Clearing the low `a` bits does not change the bits from `n >= a` up. */
  lemma ShrBlockStart(p: nat, a: nat, n: nat)
    requires a <= n
    ensures Shr(BlockStart(p, a), n) == Shr(p, n)
  {
    var A, B := Pow2(a), Pow2(n - a);
    Pow2Add(a, n - a);
    DivUnique(BlockStart(p, a), A, Shr(p, a), 0);
    DivDiv(BlockStart(p, a), A, B);
    DivDiv(p, A, B);
  }

  /** An aligned block starts itself. */
  lemma BlockStartAligned(p: nat, o: nat)
    requires p % Pow2(o) == 0
    ensures BlockStart(p, o) == p
  {
    ExactQuotient(p, Pow2(o));
  }

  /**
   * The bitmap once the pair bits of `page`'s blocks of the orders `a`
   * up to `b - 1` have been flipped, one after the other.
   */
  function ChainBits(bits: set<nat>, page: nat, offsets: seq<nat>, a: nat, b: nat): set<nat>
    requires b <= |offsets|
    decreases b - a
  {
    if a >= b then bits else ChainBits(Toggle(bits, PageBit(page, a, offsets)), page, offsets, a + 1, b)
  }

  /** Two pages in the same blocks from order `a` up flip the same bits. */
  lemma {:induction false} ChainBitsSamePairs(bits: set<nat>, p: nat, q: nat, offsets: seq<nat>, a: nat, b: nat)
    requires b <= |offsets| && forall j :: a < j <= b ==> Shr(p, j) == Shr(q, j)
    ensures ChainBits(bits, p, offsets, a, b) == ChainBits(bits, q, offsets, a, b)
    decreases b - a
  {
    if a < b {
      ChainBitsSamePairs(Toggle(bits, PageBit(p, a, offsets)), p, q, offsets, a + 1, b);
    }
  }

  /** The fields once the buddy, at index `i` of the order's list, has left it with its pages, and the pair bit is flipped. */
  function TakeBuddyState(s: RegionState, order: nat, i: nat, pb: nat): (r: RegionState)
    requires StateCounted(s) && order < |s.lists| && i < |s.lists[order]|
    ensures StateCounted(r) && r.offsets == s.offsets
    ensures r.meta.freePages + Pow2(order) == s.meta.freePages && r.meta == s.meta.(freePages := r.meta.freePages)
  {
    FreeFromRemove(s.lists, order, i);
    s.(lists := s.lists[order := s.lists[order][..i] + s.lists[order][i + 1..]],
       bitmap := Toggle(s.bitmap, pb),
       meta := s.meta.(freePages := s.meta.freePages - Pow2(order)))
  }

  /**
   * What `free_in_region` does to a region, with the buddy the other half
   * of the block's pair: with the pair bit set below the biggest order,
   * the buddy leaves its list, the bit flips and the merged block is freed
   * one order up; otherwise the block is put back. `None` is the panic when
   * the bit is set and the list does not hold the buddy.
   */
  function FreeSpec(s: RegionState, page: nat, order: nat): (r: Option<RegionState>)
    requires StateCounted(s) && order <= s.meta.biggestOrder
    ensures r.Some? ==> StateCounted(r.value) && r.value.offsets == s.offsets
    ensures r.Some? ==> r.value.meta == s.meta.(freePages := s.meta.freePages + Pow2(order))
    decreases s.meta.biggestOrder - order
  {
    var pb := PageBit(page, order, s.offsets);
    if order < s.meta.biggestOrder && pb in s.bitmap then
      var buddy := Buddy(page, order);
      match IndexOf(s.lists[order], buddy)
      case None => None
      case Some(i) => FreeSpec(TakeBuddyState(s, order, i, pb), Min(page, buddy), order + 1)
    else
      FreeFromPush(s.lists, order, page);
      Some(PutBackState(s, page, order))
  }

  /**
   * Freeing the order-`order` block at `page` merged it up to order `top`:
   * at each order below `top` the pair bit was set, once the lower orders'
   * bits had flipped, and the buddy left its list; the merged block was
   * pushed on the list of order `top`, which is the biggest order or one
   * whose pair bit was clear; and every pair bit on the way flipped.
   */
  ghost predicate MergedUpTo(s: RegionState, t: RegionState, page: nat, order: nat, top: nat)
    requires StateWf(s)
  {
    order <= top <= s.meta.biggestOrder && |t.lists| == |s.lists|
    && (forall j :: order <= j < top ==> PageBit(page, j, s.offsets) in ChainBits(s.bitmap, page, s.offsets, order, j))
    && (forall j :: order <= j < top ==> Buddy(BlockStart(page, j), j) in s.lists[j])
    && (top == s.meta.biggestOrder || PageBit(page, top, s.offsets) !in ChainBits(s.bitmap, page, s.offsets, order, top))
    && (forall j :: 0 <= j < |s.lists| && (j < order || top < j) ==> t.lists[j] == s.lists[j])
    && (forall j :: order <= j < top ==> t.lists[j] == RemoveFirst(s.lists[j], Buddy(BlockStart(page, j), j)))
    && t.lists[top] == [BlockStart(page, top)] + s.lists[top]
    && t.bitmap == ChainBits(s.bitmap, page, s.offsets, order, top + 1)
  }

  /**
   * Freeing failed at order `top`: the merge reached it as in `MergedUpTo`,
   * its pair bit was set below the biggest order, and its list did not hold
   * the buddy.
   */
  ghost predicate BuddyMissing(s: RegionState, page: nat, order: nat, top: nat)
    requires StateWf(s)
  {
    order <= top < s.meta.biggestOrder
    && (forall j :: order <= j <= top ==> PageBit(page, j, s.offsets) in ChainBits(s.bitmap, page, s.offsets, order, j))
    && (forall j :: order <= j < top ==> Buddy(BlockStart(page, j), j) in s.lists[j])
    && Buddy(BlockStart(page, top), top) !in s.lists[top]
  }

  /** One merge step: the pages of the merged block share `page`'s blocks from the next order up. */
  lemma MergeStepPages(page: nat, order: nat)
    requires page % Pow2(order) == 0
    ensures Min(page, Buddy(page, order)) % Pow2(order + 1) == 0
    ensures forall j :: order + 1 <= j ==> BlockStart(Min(page, Buddy(page, order)), j) == BlockStart(page, j)
    ensures forall j :: order < j ==> Shr(Min(page, Buddy(page, order)), j) == Shr(page, j)
    ensures BlockStart(page, order) == page
  {
    BuddyFacts(page, order);
    BlockStartAligned(page, order);
    var m := Min(page, Buddy(page, order));
    assert m == BlockStart(page, order + 1);
    forall j | order + 1 <= j
      ensures Shr(m, j) == Shr(page, j)
    {
      ShrBlockStart(page, order + 1, j);
    }
  }

  /** The merge step's facts: the buddy left its list, and the bits from the next order up are `page`'s. */
  lemma TakeBuddyFacts(s: RegionState, page: nat, order: nat, i: nat)
    requires StateCounted(s) && order < s.meta.biggestOrder && page % Pow2(order) == 0
    requires IndexOf(s.lists[order], Buddy(page, order)) == Some(i)
    ensures var s1 := TakeBuddyState(s, order, i, PageBit(page, order, s.offsets));
      && s1.lists[order] == RemoveFirst(s.lists[order], Buddy(page, order))
      && (forall j :: 0 <= j < |s.lists| && j != order ==> s1.lists[j] == s.lists[j])
      && (forall j :: order + 1 <= j <= |s.offsets| ==>
            ChainBits(s1.bitmap, Min(page, Buddy(page, order)), s.offsets, order + 1, j) == ChainBits(s.bitmap, page, s.offsets, order, j))
  {
    var pb := PageBit(page, order, s.offsets);
    var m := Min(page, Buddy(page, order));
    var s1 := TakeBuddyState(s, order, i, pb);
    MergeStepPages(page, order);
    forall j | order + 1 <= j <= |s.offsets|
      ensures ChainBits(s1.bitmap, m, s.offsets, order + 1, j) == ChainBits(s.bitmap, page, s.offsets, order, j)
    {
      ChainBitsSamePairs(s1.bitmap, m, page, s.offsets, order + 1, j);
    }
  }

  /** A merge that reached order `top` from the next order up reached it from this one. */
  lemma MergedLift(s: RegionState, page: nat, order: nat, i: nat, t: RegionState, top: nat)
    requires StateCounted(s) && order < s.meta.biggestOrder && page % Pow2(order) == 0
    requires PageBit(page, order, s.offsets) in s.bitmap
    requires IndexOf(s.lists[order], Buddy(page, order)) == Some(i)
    requires MergedUpTo(TakeBuddyState(s, order, i, PageBit(page, order, s.offsets)), t, Min(page, Buddy(page, order)), order + 1, top)
    ensures MergedUpTo(s, t, page, order, top)
  {
    var pb := PageBit(page, order, s.offsets);
    var m := Min(page, Buddy(page, order));
    var s1 := TakeBuddyState(s, order, i, pb);
    MergeStepPages(page, order);
    TakeBuddyFacts(s, page, order, i);
    assert ChainBits(s.bitmap, page, s.offsets, order, order) == s.bitmap;
    forall j | order <= j < top
      ensures PageBit(page, j, s.offsets) in ChainBits(s.bitmap, page, s.offsets, order, j)
      ensures Buddy(BlockStart(page, j), j) in s.lists[j]
    {
      if j > order {
        assert PageBit(m, j, s.offsets) == PageBit(page, j, s.offsets);
        assert BlockStart(m, j) == BlockStart(page, j);
      }
    }
    assert PageBit(m, top, s.offsets) == PageBit(page, top, s.offsets);
    assert forall j :: order + 1 <= j < top ==> BlockStart(m, j) == BlockStart(page, j);
    assert BlockStart(m, top) == BlockStart(page, top);
  }

  /** A free that failed at order `top` from the next order up failed there from this one. */
  lemma MissingLift(s: RegionState, page: nat, order: nat, i: nat, top: nat)
    requires StateCounted(s) && order < s.meta.biggestOrder && page % Pow2(order) == 0
    requires PageBit(page, order, s.offsets) in s.bitmap
    requires IndexOf(s.lists[order], Buddy(page, order)) == Some(i)
    requires BuddyMissing(TakeBuddyState(s, order, i, PageBit(page, order, s.offsets)), Min(page, Buddy(page, order)), order + 1, top)
    ensures BuddyMissing(s, page, order, top)
  {
    var pb := PageBit(page, order, s.offsets);
    var m := Min(page, Buddy(page, order));
    MergeStepPages(page, order);
    TakeBuddyFacts(s, page, order, i);
    assert ChainBits(s.bitmap, page, s.offsets, order, order) == s.bitmap;
    forall j | order <= j <= top
      ensures PageBit(page, j, s.offsets) in ChainBits(s.bitmap, page, s.offsets, order, j)
      ensures j < top ==> Buddy(BlockStart(page, j), j) in s.lists[j]
    {
      if j > order {
        assert PageBit(m, j, s.offsets) == PageBit(page, j, s.offsets);
        assert BlockStart(m, j) == BlockStart(page, j);
      }
    }
  }

  /**
   * `free_in_region` merges the freed block with its buddy for as long as
   * the pair bit is set, and puts the merged block back where it stops;
   * it fails exactly when a set pair bit names a buddy its list lacks.
   */
  lemma {:induction false} FreeSpecMerges(s: RegionState, page: nat, order: nat)
    requires StateCounted(s) && order <= s.meta.biggestOrder && page % Pow2(order) == 0
    ensures FreeSpec(s, page, order).Some? ==> exists top :: MergedUpTo(s, FreeSpec(s, page, order).value, page, order, top)
    ensures FreeSpec(s, page, order).None? ==> exists top :: BuddyMissing(s, page, order, top)
    decreases s.meta.biggestOrder - order
  {
    var pb := PageBit(page, order, s.offsets);
    BlockStartAligned(page, order);
    assert ChainBits(s.bitmap, page, s.offsets, order, order) == s.bitmap;
    if order < s.meta.biggestOrder && pb in s.bitmap {
      var buddy := Buddy(page, order);
      match IndexOf(s.lists[order], buddy)
      case None =>
        assert BuddyMissing(s, page, order, order);
      case Some(i) =>
        var s1 := TakeBuddyState(s, order, i, pb);
        var m := Min(page, buddy);
        MergeStepPages(page, order);
        FreeSpecMerges(s1, m, order + 1);
        assert FreeSpec(s, page, order) == FreeSpec(s1, m, order + 1);
        if FreeSpec(s1, m, order + 1).Some? {
          var t := FreeSpec(s1, m, order + 1).value;
          var top :| MergedUpTo(s1, t, m, order + 1, top);
          MergedLift(s, page, order, i, t, top);
        } else {
          var top :| BuddyMissing(s1, m, order + 1, top);
          MissingLift(s, page, order, i, top);
        }
    } else {
      assert MergedUpTo(s, PutBackState(s, page, order), page, order, order);
    }
  }

  /** Pushing a block keeps every free page in a free block. */
  lemma PushKeepsFree(lists: seq<seq<nat>>, order: nat, page: nat, p: nat, o: nat)
    requires order < |lists| && InFreeBlock(lists, p, o)
    ensures InFreeBlock(lists[order := [page] + lists[order]], p, o)
  {
    var l1 := lists[order := [page] + lists[order]];
    var j, k :| o <= j < |lists| && 0 <= k < |lists[j]| && lists[j][k] <= p && p + Pow2(o) <= lists[j][k] + Pow2(j);
    if j == order {
      assert l1[j][k + 1] == lists[j][k];
    } else {
      assert l1[j][k] == lists[j][k];
    }
  }

  /** Once a block leaves its list, a free page is still in a free block, or it was in that block. */
  lemma TakeKeepsFree(lists: seq<seq<nat>>, order: nat, i: nat, p: nat, o: nat)
    requires order < |lists| && i < |lists[order]| && InFreeBlock(lists, p, o)
    ensures InFreeBlock(lists[order := lists[order][..i] + lists[order][i + 1..]], p, o)
            || (lists[order][i] <= p && p + Pow2(o) <= lists[order][i] + Pow2(order))
  {
    var l1 := lists[order := lists[order][..i] + lists[order][i + 1..]];
    var j, k :| o <= j < |lists| && 0 <= k < |lists[j]| && lists[j][k] <= p && p + Pow2(o) <= lists[j][k] + Pow2(j);
    if j != order {
      assert l1[j][k] == lists[j][k];
    } else if k < i {
      assert l1[j][k] == lists[j][k];
    } else if k > i {
      assert l1[j][k - 1] == lists[j][k];
    }
  }

  /** A page free before the buddy left its list is inside a free block once the merged block is freed. */
  lemma TakeThenFreeKeepsFree(lists: seq<seq<nat>>, page: nat, order: nat, i: nat, t: seq<seq<nat>>)
    requires order + 1 < |lists| && i < |lists[order]| && page % Pow2(order) == 0 && lists[order][i] == Buddy(page, order)
    requires InFreeBlock(t, Min(page, Buddy(page, order)), order + 1)
    requires forall p, o :: InFreeBlock(lists[order := lists[order][..i] + lists[order][i + 1..]], p, o) ==> InFreeBlock(t, p, o)
    ensures InFreeBlock(t, page, order)
    ensures forall p, o :: InFreeBlock(lists, p, o) ==> InFreeBlock(t, p, o)
  {
    var m := Min(page, Buddy(page, order));
    BuddyFacts(page, order);
    assert Pow2(order + 1) == 2 * Pow2(order);
    InFreeBlockInside(t, page, order, m, order + 1);
    forall p: nat, o: nat | InFreeBlock(lists, p, o)
      ensures InFreeBlock(t, p, o)
    {
      TakeKeepsFree(lists, order, i, p, o);
      if !InFreeBlock(lists[order := lists[order][..i] + lists[order][i + 1..]], p, o) {
        if o > order {
          Pow2Monotone(order + 1, o);
        }
        InFreeBlockInside(t, p, o, m, order + 1);
      }
    }
  }

  /** Putting a block back keeps blocks aligned and every free page free, and frees the block's pages. */
  lemma PutBackKeepsFree(lists: seq<seq<nat>>, page: nat, order: nat)
    requires AlignedBlocks(lists) && order < |lists| && page % Pow2(order) == 0
    ensures AlignedBlocks(lists[order := [page] + lists[order]]) && InFreeBlock(lists[order := [page] + lists[order]], page, order)
    ensures forall p, o :: InFreeBlock(lists, p, o) ==> InFreeBlock(lists[order := [page] + lists[order]], p, o)
  {
    var l1 := lists[order := [page] + lists[order]];
    AlignedPush(lists, order, page);
    assert l1[order][0] == page;
    forall p, o | InFreeBlock(lists, p, o)
      ensures InFreeBlock(l1, p, o)
    {
      PushKeepsFree(lists, order, page, p, o);
    }
  }

  /**
   * Freeing keeps every block aligned, leaves the freed pages in a free
   * block, and keeps every page that was free in a free block: a buddy
   * leaves its list only inside the merged block.
   */
  lemma {:induction false} FreeSpecKeepsFree(s: RegionState, page: nat, order: nat)
    requires StateCounted(s) && AlignedBlocks(s.lists) && order <= s.meta.biggestOrder && page % Pow2(order) == 0
    ensures FreeSpec(s, page, order).Some? ==>
      AlignedBlocks(FreeSpec(s, page, order).value.lists) && InFreeBlock(FreeSpec(s, page, order).value.lists, page, order)
    ensures FreeSpec(s, page, order).Some? ==>
      forall p, o :: InFreeBlock(s.lists, p, o) ==> InFreeBlock(FreeSpec(s, page, order).value.lists, p, o)
    decreases s.meta.biggestOrder - order
  {
    var pb := PageBit(page, order, s.offsets);
    if order < s.meta.biggestOrder && pb in s.bitmap {
      var buddy := Buddy(page, order);
      match IndexOf(s.lists[order], buddy)
      case None =>
      case Some(i) =>
        var s1 := TakeBuddyState(s, order, i, pb);
        var m := Min(page, buddy);
        BuddyFacts(page, order);
        AlignedRemove(s.lists, order, i);
        FreeSpecKeepsFree(s1, m, order + 1);
        assert FreeSpec(s, page, order) == FreeSpec(s1, m, order + 1);
        if FreeSpec(s1, m, order + 1).Some? {
          TakeThenFreeKeepsFree(s.lists, page, order, i, FreeSpec(s1, m, order + 1).value.lists);
        }
    } else {
      PutBackKeepsFree(s.lists, page, order);
    }
  }

  /**
   * The corrected free on the three-page region of `MergeOvercountsFree`:
   * page 0 merges with page 1, and the free-page count is the two pages
   * the lists hold.
   */
  lemma FreeSpecMergeExample()
    ensures FreeSpec(RegionState(Metadata(3, 1, 1, 1, 1), [[1], []], [0, 1], {0}), 0, 0)
            == Some(RegionState(Metadata(3, 1, 2, 1, 1), [[], [0]], [0, 1], {1}))
  {
    var s := RegionState(Metadata(3, 1, 1, 1, 1), [[1], []], [0, 1], {0});
    assert Shr(0, 1) == 0 && Shr(0, 2) == 0 && PageBit(0, 0, s.offsets) == 0;
    assert Pow2(1) == 2 && PairBase(0, 0) == 0 && Buddy(0, 0) == 1;
    assert IndexOf(s.lists[0], 1) == Some(0);
    var s1 := TakeBuddyState(s, 0, 0, 0);
    assert s1 == RegionState(Metadata(3, 1, 0, 1, 1), [[], []], [0, 1], {});
    assert FreeSpec(s, 0, 0) == FreeSpec(s1, 0, 1);
    assert PageBit(0, 1, s1.offsets) == 1 && Toggle({}, 1) == {1};
    assert FreeSpec(s1, 0, 1) == Some(PutBackState(s1, 0, 1));
    assert s1.lists[1] == [] && [0] + s1.lists[1] == [0];
    assert s1.lists[1 := [0]] == [[], [0]];
    assert PutBackState(s1, 0, 1) == RegionState(Metadata(3, 1, 2, 1, 1), [[], [0]], [0, 1], {1});
  }

  /** One memory region: its metadata, its free lists, the list offsets into the bitmap, and the bitmap. */
  class BuddyRegion {
    /** The frame number of the region's first page. */
    const base: nat
    var meta: Metadata
    /** The free blocks of each order, front first, as data-area page indices. */
    var lists: seq<seq<nat>>
    /** `bitmap_offset` of each order's list. */
    var offsets: seq<nat>
    /** The set bits of the bitmap. */
    var bitmap: set<nat>

    /**
     * One list per order up to `biggestOrder`, the free-page count is the
     * pages the lists hold, and every free block is aligned to its size.
     */
    ghost predicate Valid()
      reads this
    {
      meta.totalPages >= 2 && meta.metaPages >= 1
      && Pow2(meta.biggestOrder) <= meta.totalPages - 1 < Pow2(meta.biggestOrder + 1)
      && |lists| == meta.biggestOrder + 1 && |offsets| == |lists|
      && meta.freePages == FreeFrom(lists, 0) && AlignedBlocks(lists)
    }

    /** The region's fields as a value. */
    function State(): (r: RegionState)
      reads this
      ensures Valid() ==> StateCounted(r) && AlignedBlocks(r.lists)
    {
      RegionState(meta, lists, offsets, bitmap)
    }

    /** `Region::contains`: the frame lies in the region's pages, metadata included. */
    predicate Contains(frame: nat)
      reads this
    {
      base <= frame < base + meta.totalPages
    }

    /**
     * `add_region`: the list heads get their bitmap offsets, the bitmap
     * is cleared, and the free pages are cut into blocks, largest first,
     * each starting where the bigger ones end.
     */
    constructor (base: nat, m: Metadata)
      requires MetaWf(m)
      ensures Valid() && this.base == base && meta == m
      ensures forall o :: 0 <= o < |offsets| ==> offsets[o] == OffsetOf(m.freePages, o)
      ensures forall o :: 0 <= o < |lists| ==> |lists[o]| <= 1
      ensures forall o :: 0 <= o < |lists| && lists[o] != [] ==> lists[o][0] == FreeFrom(lists, o + 1)
      ensures bitmap == ToggledFrom(lists, offsets, 0, m.biggestOrder)
      ensures forall o :: 0 <= o < m.biggestOrder && lists[o] != [] ==> PageBit(lists[o][0], o, offsets) == OffsetOf(m.freePages, o + 1)
      ensures m.freePages >= Pow2(m.biggestOrder) ==> bitmap == SeededBits(lists, m.freePages, 0, m.biggestOrder)
    {
      this.base := base;
      meta := m;
      lists := [];
      offsets := [];
      bitmap := {};
      new;
      InitHeads();
      SeedBlocks();
    }

    /** The `for block in region.block_list_uninit()` loop of `add_region`: empty lists and their offsets. */
    method InitHeads()
      requires lists == [] && offsets == []
      modifies this
      ensures meta == old(meta) && bitmap == old(bitmap)
      ensures |lists| == meta.biggestOrder + 1 && |offsets| == |lists|
      ensures forall o :: 0 <= o < |lists| ==> lists[o] == [] && offsets[o] == OffsetOf(meta.freePages, o)
    {
      var heads, offs := EmptyHeads(meta.freePages, meta.biggestOrder + 1);
      lists := heads;
      offsets := offs;
    }

    /** The `while remaining_pages > 0` loop of `add_region`. */
    method SeedBlocks()
      requires MetaWf(meta) && |lists| == meta.biggestOrder + 1 && |offsets| == |lists|
      requires forall o :: 0 <= o < |lists| ==> lists[o] == []
      requires OffsetsUpTo(offsets, meta.freePages, |lists|) && bitmap == {}
      modifies this
      ensures Valid() && meta == old(meta) && offsets == old(offsets)
      ensures forall o :: 0 <= o < |lists| ==> |lists[o]| <= 1
      ensures forall o :: 0 <= o < |lists| && lists[o] != [] ==> lists[o][0] == FreeFrom(lists, o + 1)
      ensures bitmap == ToggledFrom(lists, offsets, 0, meta.biggestOrder)
      ensures forall o :: 0 <= o < meta.biggestOrder && lists[o] != [] ==> PageBit(lists[o][0], o, offsets) == OffsetOf(meta.freePages, o + 1)
      ensures meta.freePages >= Pow2(meta.biggestOrder) ==> bitmap == SeededBits(lists, meta.freePages, 0, meta.biggestOrder)
    {
      var remaining: nat := meta.freePages;
      var current: nat := 0;
      ghost var k: nat := meta.biggestOrder + 1;
      FreeFromSkip(lists, 0, |lists|);
      ToggledSkip(lists, offsets, 0, meta.biggestOrder, meta.biggestOrder);
      while remaining > 0
        invariant meta == old(meta) && offsets == old(offsets) && |lists| == meta.biggestOrder + 1
        invariant current + remaining == meta.freePages && remaining < Pow2(k)
        invariant SeedInv(lists, current, k)
        invariant bitmap == ToggledFrom(lists, offsets, 0, meta.biggestOrder)
        invariant FrontsArePartial(lists, offsets, meta.freePages, meta.biggestOrder)
        decreases remaining
      {
        var order := Log2(remaining);
        Log2Bounds(remaining);
        Pow2Below(order, k);
        ghost var lists0, current0 := lists, current;
        SeedBitmapStep(lists0, offsets, meta.freePages, meta.biggestOrder, order, k, current0, remaining, bitmap);
        lists := lists[order := [current] + lists[order]];
        if order < meta.biggestOrder {
          bitmap := Toggle(bitmap, PageBit(current, order, offsets));
        }
        current := current + Pow2(order);
        remaining := remaining - Pow2(order);
        SeedStep(lists0, current0, k, order, lists, current);
        k := order;
      }
      if meta.freePages >= Pow2(meta.biggestOrder) {
        ToggledDistinct(lists, offsets, meta.freePages, 0, meta.biggestOrder);
      }
    }
  
    /**
     * `put_back_block`: push the block on its list, flip its pair bit (at
     * every order, the biggest included, as the source does), count its
     * pages.
     */
    method PutBackBlock(page: nat, order: nat)
      requires Valid() && order <= meta.biggestOrder && page % Pow2(order) == 0
      modifies this
      ensures Valid() && offsets == old(offsets)
      ensures lists == old(lists)[order := [page] + old(lists)[order]]
      ensures bitmap == Toggle(old(bitmap), PageBit(page, order, old(offsets)))
      ensures meta == old(meta).(freePages := old(meta.freePages) + Pow2(order))
      ensures State() == PutBackState(old(State()), page, order)
    {
      FreeFromPush(lists, order, page);
      AlignedPush(lists, order, page);
      lists := lists[order := [page] + lists[order]];
      bitmap := Toggle(bitmap, PageBit(page, order, offsets));
      meta := meta.(freePages := meta.freePages + Pow2(order));
    }

    /**
     * `alloc_in_region`: take the front block of the order's list, or
     * split a block of the next order and put its upper half back.
     */
    method AllocInRegion(order: nat) returns (r: Result<nat, AllocError>)
      requires Valid()
      modifies this
      ensures Valid() && offsets == old(offsets) && meta == old(meta).(freePages := meta.freePages)
      ensures r.Err? <==> AllocSpec(old(State()), order).None?
      ensures r.Ok? ==> AllocSpec(old(State()), order) == Some((r.value, State()))
      ensures r.Err? <==> !HasBlockFrom(old(lists), order)
      ensures r.Err? ==> lists == old(lists) && meta == old(meta) && bitmap == old(bitmap)
      ensures r.Ok? ==> meta.freePages + Pow2(order) == old(meta.freePages)
      ensures r.Ok? ==> r.value % Pow2(order) == 0 && InFreeBlock(old(lists), r.value, order)
      ensures r.Ok? && old(lists[order]) != [] ==> r.value == old(lists[order][0]) && lists == old(lists)[order := old(lists[order][1..])]
      ensures r.Ok? && old(lists[order]) == [] ==> lists[order] == [r.value + Pow2(order)]
      ensures r.Ok? ==> forall o :: 0 <= o < order ==> lists[o] == old(lists[o])
      ensures DisjointBlocks(old(lists)) ==> DisjointBlocks(lists) && (r.Ok? ==> !FreeOverlaps(lists, r.value, order))
    {
      ghost var s0 := State();
      r := AllocAgreeing(order);
      AllocOutcome(s0, order, r, State());
      if r.Ok? {
        AllocOutcomeLists(s0, order, r, State());
      }
      AllocOutcomeDisjoint(s0, order, r, State());
    }

    /** One round of `alloc_pages`' loop: a region too small for the order is skipped, otherwise `alloc_in_region`. */
    method TryAlloc(order: nat) returns (r: Result<nat, AllocError>)
      requires Valid()
      modifies this
      ensures Valid()
      ensures r.Err? <==> !(Eligible(old(meta), order) && HasBlockFrom(old(lists), order))
      ensures r.Err? ==> State() == old(State())
      ensures r.Ok? ==> AllocSpec(old(State()), order) == Some((r.value, State()))
      ensures r.Ok? ==> r.value % Pow2(order) == 0 && InFreeBlock(old(lists), r.value, order)
      ensures r.Ok? ==> meta.freePages + Pow2(order) == old(meta.freePages) && meta.metaPages == old(meta.metaPages)
    {
      if meta.biggestOrder >= order && meta.freePages >= Pow2(order) {
        r := AllocInRegion(order);
      } else {
        r := Err(AllocError);
      }
    }

    /** The recursion of `alloc_in_region`, stated against `AllocSpec`. */
    method AllocAgreeing(order: nat) returns (r: Result<nat, AllocError>)
      requires Valid()
      modifies this
      ensures Valid() && offsets == old(offsets) && meta == old(meta).(freePages := meta.freePages)
      ensures AgreesWithSpec(old(State()), order, r, State())
      decreases |lists| - order, 1
    {
      ghost var s0 := State();
      if order > meta.biggestOrder {
        r := Err(AllocError);
        assert AgreesWithSpec(s0, order, r, State());
      } else if lists[order] != [] {
        var b := TakeFront(order);
        r := Ok(b);
      } else {
        r := SplitFrom(order);
      }
      AllocOutcome(s0, order, r, State());
    }

    /** The first branch of `alloc_in_region`: the front block of the order's list leaves it. */
    method TakeFront(order: nat) returns (b: nat)
      requires Valid() && order <= meta.biggestOrder && lists[order] != []
      modifies this
      ensures AgreesWithSpec(old(State()), order, Ok(b), State())
    {
      ghost var s0 := State();
      b := lists[order][0];
      lists := lists[order := lists[order][1..]];
      if order < meta.biggestOrder {
        bitmap := Toggle(bitmap, PageBit(b, order, offsets));
      }
      AllocSpecFront(s0, order);
      meta := meta.(freePages := meta.freePages - Pow2(order));
      assert State() == TakeFrontState(s0, order);
    }

    /**
     * The second branch of `alloc_in_region`: a block of the next order is
     * taken and its upper half put back on the order's list.
     */
    method SplitFrom(order: nat) returns (r: Result<nat, AllocError>)
      requires Valid() && order <= meta.biggestOrder && lists[order] == []
      modifies this
      ensures AgreesWithSpec(old(State()), order, r, State())
      decreases |lists| - order, 0
    {
      ghost var s0 := State();
      var big := AllocAgreeing(order + 1);
      if big.Err? {
        r := Err(AllocError);
        assert State() == s0;
      } else {
        ghost var s1 := State();
        AllocSpecBlock(s0, order + 1);
        AllocSpecSplit(s0, order, big.value, s1);
        SplitHalves(big.value, order);
        var upper := big.value + Pow2(order);
        PutBackBlock(upper, order);
        r := Ok(big.value);
      }
    }

    /**
     * `free_in_region`: when the pair bit says the buddy is free, take the
     * buddy off its list and free the merged block one order up; otherwise
     * put the block back. The buddy is the other half of the block's pair,
     * and its pages leave the count as it leaves the list.
     */
    method FreeInRegion(page: nat, order: nat) returns (r: Result<(), FreeError>)
      requires Valid() && order <= meta.biggestOrder && page % Pow2(order) == 0
      modifies this
      ensures Valid() && offsets == old(offsets) && meta == old(meta).(freePages := meta.freePages)
      ensures r.Ok? <==> FreeSpec(old(State()), page, order).Some?
      ensures r.Ok? ==> State() == FreeSpec(old(State()), page, order).value
      ensures r.Ok? ==> meta.freePages == old(meta.freePages) + Pow2(order)
      ensures r.Ok? ==> InFreeBlock(lists, page, order)
      ensures r.Ok? ==> forall p: nat, o: nat :: InFreeBlock(old(lists), p, o) ==> InFreeBlock(lists, p, o)
      decreases meta.biggestOrder - order
    {
      ghost var s0 := State();
      FreeSpecKeepsFree(s0, page, order);
      var pb := PageBit(page, order, offsets);
      if order < meta.biggestOrder && pb in bitmap {
        var buddy := Buddy(page, order);
        var i := 0;
        while i < |lists[order]|
          invariant unchanged(this) && i <= |lists[order]|
          invariant forall j :: 0 <= j < i ==> lists[order][j] != buddy
        {
          if lists[order][i] == buddy {
            assert IndexOf(lists[order], buddy) == Some(i);
            BuddyFacts(page, order);
            FreeFromRemove(lists, order, i);
            AlignedRemove(lists, order, i);
            lists := lists[order := lists[order][..i] + lists[order][i + 1..]];
            bitmap := Toggle(bitmap, pb);
            meta := meta.(freePages := meta.freePages - Pow2(order));
            assert State() == TakeBuddyState(s0, order, i, pb);
            r := FreeInRegion(Min(page, buddy), order + 1);
            return;
          }
          i := i + 1;
        }
        assert IndexOf(lists[order], buddy) == None;
        r := Err(BlockNotFound(page));
      } else {
        PutBackBlock(page, order);
        r := Ok(());
      }
    }
  }

  // ------------------------------------------------------------------ the region list

  /** `alloc_pages_unlocked` tries a region only if it has the order and `2^order` free pages. */
  predicate Eligible(m: Metadata, order: nat) {
    m.biggestOrder >= order && m.freePages >= Pow2(order)
  }

  /** The regions are distinct objects. */
  ghost predicate Distinct(regions: seq<BuddyRegion>) {
    forall i, j :: 0 <= i < j < |regions| ==> regions[i] != regions[j]
  }

  ghost predicate AllValid(regions: seq<BuddyRegion>)
    reads set i | 0 <= i < |regions| :: regions[i]
  {
    forall i :: 0 <= i < |regions| ==> regions[i].Valid()
  }

  /**
   * `alloc_pages_unlocked`: the first region that is eligible and can
   * serve the order does; the frame is the block's first page in that
   * region.
   */
  method AllocPages(regions: seq<BuddyRegion>, order: nat) returns (r: Result<nat, AllocError>, ghost k: nat, ghost page: nat)
    requires Distinct(regions) && AllValid(regions)
    modifies set i | 0 <= i < |regions| :: regions[i]
    ensures AllValid(regions)
    ensures r.Err? <==> forall i :: 0 <= i < |regions| ==> !(Eligible(old(regions[i].meta), order) && HasBlockFrom(old(regions[i].lists), order))
    ensures r.Ok? ==> (k < |regions| && Eligible(old(regions[k].meta), order)
      && (forall i :: 0 <= i < k ==> !(Eligible(old(regions[i].meta), order) && HasBlockFrom(old(regions[i].lists), order)))
      && r.value == regions[k].base + regions[k].meta.metaPages + page
      && page % Pow2(order) == 0 && InFreeBlock(old(regions[k].lists), page, order)
      && regions[k].meta.freePages + Pow2(order) == old(regions[k].meta.freePages))
    ensures r.Ok? ==> k < |regions| && AllocSpec(old(regions[k].State()), order) == Some((page, regions[k].State()))
    ensures r.Err? ==> forall i :: 0 <= i < |regions| ==> regions[i].State() == old(regions[i].State())
    ensures r.Ok? ==> forall i :: 0 <= i < |regions| && i != k ==> regions[i].State() == old(regions[i].State())
  {
    k, page := 0, 0;
    var i := 0;
    while i < |regions|
      invariant i <= |regions| && AllValid(regions)
      invariant forall j :: 0 <= j < i ==> !(Eligible(old(regions[j].meta), order) && HasBlockFrom(old(regions[j].lists), order))
      invariant forall j :: 0 <= j < |regions| ==> regions[j].State() == old(regions[j].State())
    {
      var region := regions[i];
      var a := region.TryAlloc(order);
      if a.Ok? {
        k, page := i, a.value;
        return Ok(region.base + region.meta.metaPages + a.value), k, page;
      }
      i := i + 1;
    }
    return Err(AllocError), k, page;
  }

  /** A fresh three-page region serves a single-page allocation. */
  method FreshRegionAllocates() returns (r: Result<nat, AllocError>)
    ensures r.Ok? && r.value % Pow2(0) == 0
  {
    var region := new BuddyRegion(0, Metadata(3, 1, 2, 1, 1));
    FreeFromPositive(region.lists, 0);
    r := region.AllocInRegion(0);
  }

  /**
   * The panics of `dealloc_pages_unlocked`: no region contains the frame;
   * `assert!(order <= meta.biggest_order)`; the frame lies in the metadata
   * pages, where `... - meta.meta_pages` underflows; or `free_in_region`
   * finds no buddy.
   */
  datatype DeallocError = InvalidAddress | OrderTooBig | MetadataFrame | NotFreed(e: FreeError)

  /**
   * `dealloc_pages_unlocked`: the first region containing the frame frees
   * it. The caller hands back a block aligned to `2^order`, as
   * `alloc_pages` gave it out.
   */
  method DeallocPages(regions: seq<BuddyRegion>, frame: nat, order: nat) returns (r: Result<(), DeallocError>, ghost k: nat, ghost page: nat)
    requires Distinct(regions) && AllValid(regions)
    requires forall i :: 0 <= i < |regions| && regions[i].Contains(frame) && order <= regions[i].meta.biggestOrder
                         && regions[i].base + regions[i].meta.metaPages <= frame
                         ==> (frame - regions[i].base - regions[i].meta.metaPages) % Pow2(order) == 0
    modifies set i | 0 <= i < |regions| :: regions[i]
    ensures AllValid(regions)
    ensures r == Err(InvalidAddress) <==> forall i :: 0 <= i < |regions| ==> !old(regions[i].Contains(frame))
    ensures r != Err(InvalidAddress) ==>
              k < |regions| && old(regions[k].Contains(frame)) && (forall i :: 0 <= i < k ==> !old(regions[i].Contains(frame)))
    ensures r != Err(InvalidAddress) ==> (r == Err(OrderTooBig) <==> order > old(regions[k].meta.biggestOrder))
    ensures r != Err(InvalidAddress) && r != Err(OrderTooBig) ==>
      (r == Err(MetadataFrame) <==> frame < regions[k].base + old(regions[k].meta.metaPages))
    ensures r.Ok? ==> (frame == regions[k].base + regions[k].meta.metaPages + page
      && regions[k].meta.freePages == old(regions[k].meta.freePages) + Pow2(order)
      && InFreeBlock(regions[k].lists, page, order))
    ensures r.Ok? ==> (k < |regions| && order <= old(regions[k].meta.biggestOrder)
      && FreeSpec(old(regions[k].State()), page, order) == Some(regions[k].State()))
    ensures r.Ok? ==> forall p: nat, o: nat :: InFreeBlock(old(regions[k].lists), p, o) ==> InFreeBlock(regions[k].lists, p, o)
    ensures r.Err? && r.error.NotFreed? ==> (k < |regions| && order <= old(regions[k].meta.biggestOrder)
      && FreeSpec(old(regions[k].State()), page, order).None?)
    ensures r == Err(InvalidAddress) || r == Err(OrderTooBig) || r == Err(MetadataFrame) ==>
      forall i :: 0 <= i < |regions| ==> regions[i].State() == old(regions[i].State())
    ensures forall i :: 0 <= i < |regions| && i != k ==> regions[i].State() == old(regions[i].State())
  {
    k, page := 0, 0;
    var i := 0;
    while i < |regions|
      invariant i <= |regions|
      invariant forall j :: 0 <= j < i ==> !old(regions[j].Contains(frame))
      invariant forall j :: 0 <= j < |regions| ==> unchanged(regions[j])
    {
      var region := regions[i];
      if region.Contains(frame) {
        k := i;
        if order > region.meta.biggestOrder {
          return Err(OrderTooBig), k, page;
        }
        if frame < region.base + region.meta.metaPages {
          return Err(MetadataFrame), k, page;
        }
        var p := frame - region.base - region.meta.metaPages;
        k, page := i, p;
        var f := region.FreeInRegion(p, order);
        if f.Err? {
          return Err(NotFreed(f.error)), k, page;
        }
        return Ok(()), k, page;
      }
      i := i + 1;
    }
    return Err(InvalidAddress), k, page;
  }

  // ------------------------------------------------------------------ the free as written

  function AbsDiff(a: nat, b: nat): nat {
    if a >= b then a - b else b - a
  }

  /** The cursor walk of `free_in_region` as written: the first block at distance `d` from `page`. */
  function FindAtDistance(l: seq<nat>, page: nat, d: nat): (r: Option<nat>)
    ensures r.Some? ==> r.value < |l| && AbsDiff(l[r.value], page) == d
    ensures r.Some? ==> forall i :: 0 <= i < r.value ==> AbsDiff(l[i], page) != d
    ensures r.None? ==> forall i :: 0 <= i < |l| ==> AbsDiff(l[i], page) != d
  {
    if l == [] then None
    else if AbsDiff(l[0], page) == d then Some(0)
    else match FindAtDistance(l[1..], page, d)
      case None => None
      case Some(i) => Some(i + 1)
  }

  /**
   * `free_in_region` as written: the cursor takes the first block at
   * distance `PAGE_SIZE << order`, buddy or not, and the free-page count
   * is not lowered for it. `None` is a panic: no block at that distance,
   * or a pair bit whose word lies past the `bitmap_bits.ceil_div(8)`-word
   * slice, read below the biggest order and written by `put_back_block`
   * at it.
   */
  function FreeAsWritten(s: RegionState, page: nat, order: nat): (r: Option<RegionState>)
    requires StateWf(s) && order <= s.meta.biggestOrder
    ensures r.Some? ==> StateWf(r.value)
    ensures r.Some? ==> PageBit(page, order, s.offsets) / WORD_BYTES < SliceWords(s.meta.bitmapBits)
    decreases s.meta.biggestOrder - order
  {
    var pb := PageBit(page, order, s.offsets);
    if pb / WORD_BYTES >= SliceWords(s.meta.bitmapBits) then None
    else if order < s.meta.biggestOrder && pb in s.bitmap then
      match FindAtDistance(s.lists[order], page, Pow2(order))
      case None => None
      case Some(i) =>
        var other := s.lists[order][i];
        var s1 := s.(lists := s.lists[order := s.lists[order][..i] + s.lists[order][i + 1..]], bitmap := Toggle(s.bitmap, pb));
        FreeAsWritten(s1, Min(page, other), order + 1)
    else
      Some(s.(lists := s.lists[order := [page] + s.lists[order]],
              bitmap := Toggle(s.bitmap, pb),
              meta := s.meta.(freePages := s.meta.freePages + Pow2(order))))
  }

  /**
   * A three-page region after `alloc(0)`: page 0 is in use and page 1 is
   * free. Freeing page 0 merges the two, but the free-page count becomes
   * 3 where the lists hold 2 pages.
   */
  lemma MergeOvercountsFree()
    ensures var s := RegionState(Metadata(3, 1, 1, 1, 1), [[1], []], [0, 1], {0});
      var r := FreeAsWritten(s, 0, 0);
      FreeFrom(s.lists, 0) == s.meta.freePages
      && r.Some? && r.value.lists == [[], [0]] && r.value.meta.freePages == 3 && FreeFrom(r.value.lists, 0) == 2
  {
    var s := RegionState(Metadata(3, 1, 1, 1, 1), [[1], []], [0, 1], {0});
    assert Shr(0, 1) == 0 && PageBit(0, 0, s.offsets) == 0;
    assert FindAtDistance(s.lists[0], 0, Pow2(0)) == Some(0);
    var l0 := s.lists[0][..0] + s.lists[0][1..];
    assert |l0| == 0;
    var lists1 := s.lists[0 := l0];
    assert lists1 == [[], []] by {
      assert |lists1| == 2 && lists1[0] == [] && lists1[1] == [];
    }
    var s1 := s.(lists := [[], []], bitmap := {});
    assert Toggle(s.bitmap, 0) == {};
    assert s.(lists := lists1, bitmap := Toggle(s.bitmap, 0)) == s1;
    assert Min(0, s.lists[0][0]) == 0;
    assert FreeAsWritten(s, 0, 0) == FreeAsWritten(s1, 0, 1);
    var lists2 := [[], []][1 := [0] + []];
    assert lists2 == [[], [0]] by {
      assert |lists2| == 2 && lists2[0] == [] && lists2[1] == [0];
    }
    assert FreeFrom([[], [0]], 0) == 2;
  }

  /**
   * A nine-page region with the order-1 blocks at 4 and 0 free and the
   * pair bit of blocks 0 and 2 set. Freeing block 2 merges it with block
   * 4, its neighbour but not its buddy, into a block of order 2 at page 2,
   * which is not aligned to its size.
   */
  lemma MergeWithNeighbourMisaligns()
    ensures var s := RegionState(Metadata(9, 1, 4, 3, 7), [[], [4, 0], [], []], [0, 4, 6, 7], {4, 5});
      var r := FreeAsWritten(s, 2, 1);
      r.Some? && r.value.lists[2] == [2] && r.value.lists[2][0] % Pow2(2) != 0
  {
    assert Pow2(2) == 4 && Pow2(3) == 8;
    assert Shr(2, 2) == 0 && Shr(2, 3) == 0;
  }

  /**
   * An eleven-page region: one metadata page, ten data pages, biggest
   * order 3 and 8 bitmap bits, so the slice is one word.
   */
  lemma ElevenPageMeta(l: Layout)
    requires LayoutWf(l) && l.regionSize <= 2048 && l.blockHeadSize <= 64
    ensures CalculateMetaAsWritten(11, l) == Some(Metadata(11, 1, 10, 3, 8))
    ensures SliceWords(8) == 1
  {
    AlignUpBounds(l.regionSize, WORD_BYTES);
    AlignUpBounds(l.blockHeadSize * 4, WORD_BYTES);
    assert Log2(10) == 3 && EstimateBitmapBits(10) == 8;
  }

  /**
   * The eleven-page region of `ElevenPageMeta`, seeded: the order-3 block
   * at page 0 and the order-1 block at page 8, whose pair bit is 7. Once
   * `alloc_pages(3)` has handed out page 0, freeing it puts it back at the
   * biggest order, where `put_back_block` flips bit 8: word 1, past the
   * one-word slice.
   */
  lemma TopOrderFreeOverruns()
    ensures var s0 := RegionState(Metadata(11, 1, 10, 3, 8), [[], [8], [], [0]], [0, 5, 7, 8], {7});
      var s1 := RegionState(Metadata(11, 1, 2, 3, 8), [[], [8], [], []], [0, 5, 7, 8], {7});
      && (forall o :: 0 <= o < 4 ==> s0.offsets[o] == OffsetOf(10, o))
      && s0.bitmap == ToggledFrom(s0.lists, s0.offsets, 0, 3)
      && AllocSpec(s0, 3) == Some((0, s1))
      && PageBit(0, 3, s1.offsets) / WORD_BYTES == SliceWords(8)
      && FreeAsWritten(s1, 0, 3) == None
  {
    var s0 := RegionState(Metadata(11, 1, 10, 3, 8), [[], [8], [], [0]], [0, 5, 7, 8], {7});
    var s1 := RegionState(Metadata(11, 1, 2, 3, 8), [[], [8], [], []], [0, 5, 7, 8], {7});
    assert forall o :: 0 <= o < 4 ==> s0.offsets[o] == OffsetOf(10, o) by {
      assert OffsetOf(10, 3) == 8;
    }
    assert s0.bitmap == ToggledFrom(s0.lists, s0.offsets, 0, 3) by {
      assert PageBit(8, 1, s0.offsets) == 7;
      assert ToggledFrom(s0.lists, s0.offsets, 2, 3) == {};
    }
    assert AllocSpec(s0, 3) == Some((0, s1)) by {
      assert FreeFrom(s0.lists, 0) == 10 by {
        assert Pow2(1) == 2 && Pow2(3) == 8;
      }
      AllocSpecFront(s0, 3);
      assert s0.lists[3 := s0.lists[3][1..]] == s1.lists;
      assert TakeFrontState(s0, 3) == s1;
    }
    assert FreeAsWritten(s1, 0, 3) == None by {
      assert PageBit(0, 3, s1.offsets) == 8;
    }
  }

  /**
   * A 61-page region: one metadata page, 60 data pages, biggest order 5
   * and 56 bitmap bits, so the slice is seven words. Seeding cuts the
   * pages into blocks of orders 5, 4, 3 and 2; the order-4 block at page
   * 32 is the lower half of a pair that runs past the data area, and
   * `add_region` flips its bit, 56: word 7, past the slice.
   */
  lemma SeedOverrunsSlice(l: Layout)
    requires LayoutWf(l) && l.regionSize <= 2048 && l.blockHeadSize <= 64
    ensures CalculateMetaAsWritten(61, l) == Some(Metadata(61, 1, 60, 5, 56))
    ensures Log2(60) == 5 && Log2(60 - Pow2(5)) == 4
    ensures var offsets := [0, 30, 45, 52, 55, 56];
      && (forall o :: 0 <= o < 6 ==> offsets[o] == OffsetOf(60, o))
      && PageBit(Pow2(5), 4, offsets) == 56 && 56 / WORD_BYTES == SliceWords(56)
  {
    AlignUpBounds(l.regionSize, WORD_BYTES);
    AlignUpBounds(l.blockHeadSize * 6, WORD_BYTES);
    assert Log2(60) == 5 && EstimateBitmapBits(60) == 56;
    assert Pow2(5) == 32 && Log2(28) == 4;
    assert OffsetOf(60, 5) == 56;
  }
}
