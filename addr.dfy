/**
 * Physical and virtual addresses (lib/chos-lib/src/mm/addr.rs): alignment to
 * a page, page numbers, the split of a frame address into page and offset, and
 * the split of a virtual address into the four page-table indices.
 *
 * Addresses are 64-bit words, so the model computes with `bv64` and the
 * source's own masks and shifts; panics of the source (`VAddr::new` on a
 * non-canonical value, `+` overflowing a u64) are the `None` outcome.
 */
module Addr {
  import opened Wrappers
  import Canonical

  type u64 = bv64

  /** The three frame sizes of x86-64 paging, with their page shifts. */
  datatype FrameSize = Size4K | Size2M | Size1G
  {
    function Shift(): bv64 {
      match this
      case Size4K => 12
      case Size2M => 21
      case Size1G => 30
    }

    /** `1 << PAGE_SHIFT`, written out per size (see PageSizeIsShift). */
    function PageSize(): u64 {
      match this
      case Size4K => 0x1000
      case Size2M => 0x20_0000
      case Size1G => 0x4000_0000
    }

    /** Clears the offset bits, keeps the frame bits. */
    function PageMask(): u64 { !(PageSize() - 1) }

    /** `PAGE_SIZE` as an unbounded integer, for frame arithmetic. */
    function Bytes(): nat {
      match this
      case Size4K => 0x1000
      case Size2M => 0x20_0000
      case Size1G => 0x4000_0000
    }
  }

  const DEFAULT: FrameSize := Size4K

  datatype PAddr = PAddr(repr: u64)
  datatype VAddr = VAddr(repr: u64)
  datatype NonCanonicalError = NonCanonicalError

  // ---------------------------------------------------------------- PAddr

  predicate PIsPageAligned(a: PAddr) {
    a.repr & !DEFAULT.PageMask() == 0
  }

  /** `align_upu64(addr, PAGE_SIZE)`; the `+ PAGE_SIZE - 1` overflows for the last partial page. */
  function PAlignPageUp(a: PAddr): (r: Option<PAddr>)
    ensures r.Some? <==> a.repr <= 0xffff_ffff_ffff_f000
  {
    match AlignUp4K(a.repr)
    case None => None
    case Some(x) => Some(PAddr(x))
  }

  /** `addr / PAGE_SIZE * PAGE_SIZE`, written as the equal mask (see AlignDownIsMask): the page start at or below the address. */
  function PAlignPageDown(a: PAddr): (r: PAddr)
    ensures r.repr & 0xfff == 0 && r.repr <= a.repr && a.repr - r.repr < 0x1000
  {
    DefaultMasks();
    MaskedAligned(a.repr);
    PAddr(a.repr & DEFAULT.PageMask())
  }

  /**
   * `page()` of both `PAddr` and `VAddr`: the page number of the address
   * bits, a 52-bit value which, with the 12 offset bits, gives them back.
   */
  function Page(x: u64): (r: u64)
    ensures r < 0x10_0000_0000_0000
    ensures (r << 12) | (x & 0xfff) == x
  {
    x >> 12
  }

  /** `frame_offset`: the frame part, aligned to the frame size, and the offset below it, adding up to the address. */
  function PFrameOffset(a: PAddr, s: FrameSize): (r: (PAddr, u64))
    ensures r.0.repr + r.1 == a.repr && r.1 < s.PageSize()
    ensures r.0.repr & (s.PageSize() - 1) == 0
  {
    var m := s.PageSize() - 1;
    assert m == 0xfff || m == 0x1f_ffff || m == 0x3fff_ffff;
    LowMaskSplit(a.repr, m);
    (PAddr(a.repr & s.PageMask()), a.repr & !s.PageMask())
  }

  // ---------------------------------------------------------------- VAddr

  function VTryNew(addr: u64): (r: Result<VAddr, NonCanonicalError>)
    ensures r.Ok? <==> Canonical.InLowOrHighHalf(addr)
    ensures r.Ok? ==> r.value.repr == addr
  {
    Canonical.IsCanonicalIffHalves(addr);
    if Canonical.IsCanonical(addr) then Ok(VAddr(addr)) else Err(NonCanonicalError)
  }

  /** `VAddr::new`: panics (here `None`) exactly when `try_new` fails. */
  function VNew(addr: u64): (r: Option<VAddr>)
    ensures r.Some? <==> Canonical.InLowOrHighHalf(addr)
    ensures r.Some? ==> r.value.repr == addr
  {
    match VTryNew(addr)
    case Ok(v) => Some(v)
    case Err(_) => None
  }

  function VMakeCanonical(addr: u64): (r: VAddr)
    ensures Canonical.IsCanonical(r.repr)
  {
    Canonical.MakeCanonicalIsCanonical(addr);
    VAddr(Canonical.MakeCanonical(addr))
  }

  predicate VIsPageAligned(a: VAddr) {
    a.repr & !DEFAULT.PageMask() == 0
  }

  /** `align_page_up`: panics (here `None`) when `+ PAGE_SIZE - 1` overflows or the page start is not canonical. */
  function VAlignPageUp(a: VAddr): (r: Option<VAddr>)
    ensures r.Some? ==> Canonical.IsCanonical(r.value.repr)
    ensures r.Some? ==> a.repr <= 0xffff_ffff_ffff_f000
  {
    match AlignUp4K(a.repr)
    case None => None
    case Some(x) => VNew(x)
  }

  /** `VAddr::new(addr / PAGE_SIZE * PAGE_SIZE)`, with the division written as the equal mask. */
  function VAlignPageDown(a: VAddr): (r: Option<VAddr>)
    ensures Canonical.IsCanonical(a.repr) ==> r.Some?
  {
    DefaultMasks();
    AlignDownHalves(a.repr);
    VNew(a.repr & DEFAULT.PageMask())
  }

  /** `frame_offset`: the frame part, aligned to the frame size, and the offset below it, adding up to the address. */
  function VFrameOffset(a: VAddr, s: FrameSize): (r: (VAddr, u64))
    ensures r.0.repr + r.1 == a.repr && r.1 < s.PageSize()
    ensures r.0.repr & (s.PageSize() - 1) == 0
  {
    var m := s.PageSize() - 1;
    assert m == 0xfff || m == 0x1f_ffff || m == 0x3fff_ffff;
    LowMaskSplit(a.repr, m);
    (VAddr(a.repr & s.PageMask()), a.repr & !s.PageMask())
  }

  /** The p4, p3, p2, p1 table indices and the page offset. */
  datatype Split = Split(p4: bv16, p3: bv16, p2: bv16, p1: bv16, off: u64)

  /** `split`: four 9-bit table indices and a 12-bit offset that rebuild the low 48 bits of the address. */
  function VSplit(a: VAddr): (sp: Split)
    ensures sp.p4 < 512 && sp.p3 < 512 && sp.p2 < 512 && sp.p1 < 512 && sp.off < 0x1000
    ensures (sp.p4 as u64 << 39) | (sp.p3 as u64 << 30) | (sp.p2 as u64 << 21) | (sp.p1 as u64 << 12) | sp.off
      == a.repr & 0x0000_ffff_ffff_ffff
  {
    var addr := a.repr;
    Split(((addr & (0x1ff << 39)) >> 39) as bv16,
          ((addr & (0x1ff << 30)) >> 30) as bv16,
          ((addr & (0x1ff << 21)) >> 21) as bv16,
          ((addr & (0x1ff << 12)) >> 12) as bv16,
          addr & 0xfff)
  }

  // ---------------------------------------------------------------- helpers

  /** `align_upu64(v, 0x1000)`, `None` when `v + 0xfff` overflows 64 bits. */
  function AlignUp4K(v: u64): (r: Option<u64>)
    ensures r.Some? <==> v <= 0xffff_ffff_ffff_f000
  {
    if v > 0xffff_ffff_ffff_f000 then None else Some((v + 0xfff) / 0x1000 * 0x1000)
  }

  // ---------------------------------------------------------------- properties

  lemma PageSizeIsShift(s: FrameSize)
    ensures s.PageSize() == 1 << s.Shift()
  {
  }

  lemma DefaultMasks()
    ensures DEFAULT.PageSize() == 0x1000
    ensures !DEFAULT.PageMask() == 0xfff
  {
  }

  /** Aligned means the low 12 bits are zero, i.e. a multiple of the page size. */
  lemma IsPageAlignedIffMultiple(x: u64)
    ensures PIsPageAligned(PAddr(x)) <==> x % 0x1000 == 0
    ensures VIsPageAligned(VAddr(x)) <==> x % 0x1000 == 0
  {
    DefaultMasks();
  }

  /** Rounding down by division is clearing the low 12 bits. */
  lemma AlignDownIsMask(x: u64)
    ensures x / 0x1000 * 0x1000 == x & DEFAULT.PageMask()
  {
    DefaultMasks();
  }

  lemma AlignDownBounds(x: u64)
    ensures var r := PAlignPageDown(PAddr(x)).repr;
      r % 0x1000 == 0 && r <= x && x - r < 0x1000
  {
    DefaultMasks();
    MaskedBounds(x);
  }

  /** Clearing the 12 offset bits gives the page start at or below the word. */
  lemma MaskedAligned(x: u64)
    ensures var r := x & 0xffff_ffff_ffff_f000;
      r & 0xfff == 0 && r <= x && x - r < 0x1000
  {
  }

  /** Clearing the offset bits of a canonical word stays in its half. */
  lemma AlignDownHalves(x: u64)
    ensures var r := x & 0xffff_ffff_ffff_f000;
      r & 0xfff == 0 && r <= x && x - r < 0x1000
    ensures Canonical.InLowOrHighHalf(x) ==> Canonical.InLowOrHighHalf(x & 0xffff_ffff_ffff_f000)
  {
    MaskedAligned(x);
  }

  lemma MaskedBounds(x: u64)
    ensures var r := x & 0xffff_ffff_ffff_f000;
      r % 0x1000 == 0 && r <= x && x - r < 0x1000
  {
  }

  lemma AlignUpBounds(x: u64)
    ensures PAlignPageUp(PAddr(x)).Some? <==> x <= 0xffff_ffff_ffff_f000
    ensures PAlignPageUp(PAddr(x)).Some? ==>
      var r := PAlignPageUp(PAddr(x)).value.repr;
      r % 0x1000 == 0 && x <= r && r - x < 0x1000
  {
  }

  /** Rounding a canonical address down never leaves its half, so it never panics. */
  lemma VAlignDownCanonical(x: u64)
    requires Canonical.IsCanonical(x)
    ensures VAlignPageDown(VAddr(x)) == Some(VAddr(PAlignPageDown(PAddr(x)).repr))
  {
    AlignDownByMask(x);
    AlignedDownNew(x);
  }

  /** Both roundings down clear the 12 offset bits. */
  lemma AlignDownByMask(x: u64)
    ensures PAlignPageDown(PAddr(x)).repr == x & 0xffff_ffff_ffff_f000
    ensures VAlignPageDown(VAddr(x)) == VNew(x & 0xffff_ffff_ffff_f000)
  {
    DefaultMasks();
  }

  lemma AlignedDownNew(x: u64)
    requires Canonical.IsCanonical(x)
    ensures VNew(x & 0xffff_ffff_ffff_f000) == Some(VAddr(x & 0xffff_ffff_ffff_f000))
  {
    AlignDownHalves(x);
  }

  lemma AlignedDownStaysCanonical(x: u64)
    requires Canonical.IsCanonical(x)
    ensures Canonical.IsCanonical(PAlignPageDown(PAddr(x)).repr)
  {
    DefaultMasks();
    MaskKeepsCanonical(x);
  }

  lemma MaskKeepsCanonical(x: u64)
    requires Canonical.IsCanonical(x)
    ensures Canonical.IsCanonical(x & 0xffff_ffff_ffff_f000)
  {
    assert (x & 0xffff_ffff_ffff_f000) & Canonical.CANONICAL_MASK == x & Canonical.CANONICAL_MASK;
  }

  /**
   * The virtual rounding up is the physical one, and panics exactly when
   * that one does or its result is not canonical.
   */
  lemma VAlignUpIsPhysical(x: u64)
    ensures VAlignPageUp(VAddr(x)).None? <==>
      (PAlignPageUp(PAddr(x)).None? || !Canonical.IsCanonical(PAlignPageUp(PAddr(x)).value.repr))
    ensures VAlignPageUp(VAddr(x)).Some? ==> VAlignPageUp(VAddr(x)).value.repr == PAlignPageUp(PAddr(x)).value.repr
    ensures VAlignPageUp(VAddr(x)).Some? ==>
      var r := VAlignPageUp(VAddr(x)).value.repr;
      r % 0x1000 == 0 && x <= r && r - x < 0x1000
  {
    Canonical.IsCanonicalIffHalves((x + 0xfff) / 0x1000 * 0x1000);
    AlignUpBounds(x);
  }

  /** Rounding up just below the hole panics: the result is not canonical. */
  lemma VAlignUpAcrossHole()
    ensures VAlignPageUp(VAddr(0x0000_7fff_ffff_f001)).None?
  {
    Canonical.IsCanonicalIffHalves(0x0000_8000_0000_0000);
  }

  /** The frame part and the offset part add back to the address; the offset is below the page size. */
  lemma FrameOffsetRecompose(x: u64, s: FrameSize)
    ensures PFrameOffset(PAddr(x), s).0.repr + PFrameOffset(PAddr(x), s).1 == x
    ensures PFrameOffset(PAddr(x), s).1 < s.PageSize()
    ensures PFrameOffset(PAddr(x), s).0.repr & (s.PageSize() - 1) == 0
  {
    var m := s.PageSize() - 1;
    assert m == 0xfff || m == 0x1f_ffff || m == 0x3fff_ffff;
    LowMaskSplit(x, m);
  }

  /** Splitting a word by one of the three offset masks. */
  lemma LowMaskSplit(x: u64, m: u64)
    requires m == 0xfff || m == 0x1f_ffff || m == 0x3fff_ffff
    ensures (x & !m) + (x & m) == x
    ensures x & m <= m
    ensures (x & !m) & m == 0
  {
    if m == 0xfff {
    } else if m == 0x1f_ffff {
    } else {
    }
  }

  lemma SplitBounds(x: u64)
    ensures var sp := VSplit(VAddr(x));
      sp.p4 < 512 && sp.p3 < 512 && sp.p2 < 512 && sp.p1 < 512 && sp.off < 0x1000
  {
  }

  /** The indices and offset rebuild the low 48 bits of the address. */
  lemma SplitRecompose(x: u64)
    ensures var sp := VSplit(VAddr(x));
      (sp.p4 as u64 << 39) | (sp.p3 as u64 << 30) | (sp.p2 as u64 << 21) | (sp.p1 as u64 << 12) | sp.off
        == x & 0x0000_ffff_ffff_ffff
  {
  }
}
