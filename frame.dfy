/**
 * Frames and frame ranges (lib/chos-lib/src/mm/mod.rs): a frame is a
 * page-aligned address for one of the x86-64 frame sizes; a range is the
 * half-open interval of frames `[start, end)`. The `frame!` macro generates
 * the same code for physical and virtual frames; the model follows
 * `PFrame`, whose address type accepts any `u64`.
 *
 * Addresses are unbounded integers here; the operations whose `u64`
 * arithmetic could overflow require that it does not.
 */
module Frame {
  import opened Wrappers
  import opened IntOps
  import Addr

  const U64_MAX: nat := 0xffff_ffff_ffff_ffff

  /** `PAGE_SIZE` of the default (4 KiB) frame size, which `page()` always uses. */
  const DEFAULT_PAGE_SIZE: nat := 0x1000

  /** A frame of the size the operations are given. */
  datatype Frame = Frame(addr: nat)

  datatype FrameAlignError = FrameAlignError

  /** `addr` is a whole number of pages of size `s`. */
  ghost predicate IsMultiple(addr: nat, s: Addr.FrameSize) {
    exists k: nat :: addr == k * s.Bytes()
  }

  /** `try_new`: only an address on a frame boundary makes a frame. */
  function TryNew(addr: nat, s: Addr.FrameSize): (r: Result<Frame, FrameAlignError>)
    ensures r.Ok? <==> IsMultiple(addr, s)
    ensures r.Ok? ==> r.value.addr == addr
  {
    MultipleIffModZero(addr, s.Bytes());
    if addr % s.Bytes() == 0 then Ok(Frame(addr)) else Err(FrameAlignError)
  }

  /** `new` panics ("Address is not frame aligned") when `try_new` fails. */
  function New(addr: nat, s: Addr.FrameSize): (r: Frame)
    requires TryNew(addr, s).Ok?
    ensures r.addr == addr && IsMultiple(r.addr, s)
  {
    TryNew(addr, s).value
  }

  /** `new_align_up`: `ceil_div(addr, PAGE_SIZE) * PAGE_SIZE`, the first frame at or above `addr`. */
  function NewAlignUp(addr: nat, s: Addr.FrameSize): (r: Frame)
    requires AlignUp(addr, s.Bytes()) <= U64_MAX
    ensures r.addr % s.Bytes() == 0
    ensures addr <= r.addr < addr + s.Bytes()
  {
    AlignUpBounds(addr, s.Bytes());
    Frame(AlignUp(addr, s.Bytes()))
  }

  /** `new_align_down`: `addr / PAGE_SIZE * PAGE_SIZE`, the frame that holds `addr`. */
  function NewAlignDown(addr: nat, s: Addr.FrameSize): (r: Frame)
    ensures r.addr % s.Bytes() == 0
    ensures r.addr <= addr < r.addr + s.Bytes()
  {
    ModAddMultiple(0, addr / s.Bytes(), s.Bytes());
    Frame(addr / s.Bytes() * s.Bytes())
  }

  /** `add(count)`: `count` frames further, so the range up to it holds `count` frames; the `u64` sum must not overflow. */
  function AddFrames(f: Frame, count: nat, s: Addr.FrameSize): (r: Frame)
    requires f.addr + count * s.Bytes() <= U64_MAX
    ensures f.addr <= r.addr && FrameCount(FrameRange(f, r), s) == count
    ensures f.addr % s.Bytes() == 0 ==> r.addr % s.Bytes() == 0
  {
    ModAddMultiple(f.addr, count, s.Bytes());
    DivUnique(count * s.Bytes(), s.Bytes(), count, 0);
    Frame(f.addr + count * s.Bytes())
  }

  /** `sub(count)`: `count` frames back, so the range from it holds `count` frames; the `u64` difference must not underflow. */
  function SubFrames(f: Frame, count: nat, s: Addr.FrameSize): (r: Frame)
    requires count * s.Bytes() <= f.addr
    ensures r.addr <= f.addr && FrameCount(FrameRange(r, f), s) == count
    ensures f.addr % s.Bytes() == 0 ==> r.addr % s.Bytes() == 0
  {
    ModAddMultiple(f.addr - count * s.Bytes(), count, s.Bytes());
    DivUnique(count * s.Bytes(), s.Bytes(), count, 0);
    Frame(f.addr - count * s.Bytes())
  }

  /** `page()`: the address shifted by the default page shift, whatever the frame size. */
  function Page(f: Frame): nat {
    f.addr / DEFAULT_PAGE_SIZE
  }

  // ------------------------------------------------------------------ ranges

  /** `[start, end)`, with `start <= end` checked by `FrameRange::new`. */
  datatype FrameRange = FrameRange(start: Frame, end: Frame)

  predicate WellFormed(r: FrameRange) {
    r.start.addr <= r.end.addr
  }

  /** The range's frames are all frames of size `s`. */
  predicate FrameAligned(r: FrameRange, s: Addr.FrameSize) {
    r.start.addr % s.Bytes() == 0 && r.end.addr % s.Bytes() == 0
  }

  /** `FrameRange::new` asserts `start <= end`. */
  function RangeNew(start: Frame, end: Frame): (r: FrameRange)
    requires start.addr <= end.addr
    ensures WellFormed(r) && r.start == start && r.end == end
  {
    FrameRange(start, end)
  }

  /** `frame_count`: the whole frames between start and end, all of them when both ends are frame boundaries. */
  function FrameCount(r: FrameRange, s: Addr.FrameSize): (n: nat)
    requires WellFormed(r)
    ensures n * s.Bytes() <= r.end.addr - r.start.addr < n * s.Bytes() + s.Bytes()
    ensures FrameAligned(r, s) ==> r.start.addr + n * s.Bytes() == r.end.addr
  {
    WholeUnits(r.start.addr, r.end.addr, s.Bytes());
    (r.end.addr - r.start.addr) / s.Bytes()
  }

  /** The whole units of `b` between `start` and `end`, all of the distance when both are multiples of `b`. */
  lemma WholeUnits(start: nat, end: nat, b: nat)
    requires 0 < b && start <= end
    ensures (end - start) / b * b <= end - start < (end - start) / b * b + b
    ensures start % b == 0 && end % b == 0 ==> start + (end - start) / b * b == end
  {
    var d := end - start;
    var q, r := d / b, d % b;
    assert d == q * b + r;
    if start % b == 0 && end % b == 0 {
      var k := start / b;
      assert end == r + (k + q) * b by {
        assert start == k * b;
        assert (k + q) * b == k * b + q * b;
      }
      ModAddMultiple(r, k + q, b);
      DivUnique(r, b, 0, r);
      assert r == 0;
      assert start + q * b == end;
    }
  }

  /** `contains`: `rhs` lies within `r`; for a non-empty `rhs`, exactly when every address of `rhs` is in `r`. */
  predicate Contains(r: FrameRange, rhs: FrameRange): (res: bool)
    ensures rhs.start.addr < rhs.end.addr ==> (res <==> forall a :: ContainsAddress(rhs, a) ==> ContainsAddress(r, a))
  {
    var within := r.start.addr <= rhs.start.addr && r.end.addr >= rhs.end.addr;
    if rhs.start.addr < rhs.end.addr && !within then
      OutsideAddress(r, rhs);
      within
    else within
  }

  /** A non-empty range that sticks out of another has an address outside it. */
  lemma OutsideAddress(r: FrameRange, q: FrameRange)
    requires q.start.addr < q.end.addr && !(r.start.addr <= q.start.addr && r.end.addr >= q.end.addr)
    ensures exists a :: ContainsAddress(q, a) && !ContainsAddress(r, a)
  {
    if q.start.addr < r.start.addr {
      assert ContainsAddress(q, q.start.addr) && !ContainsAddress(r, q.start.addr);
    } else {
      var a := q.end.addr - 1;
      assert ContainsAddress(q, a) && !ContainsAddress(r, a);
    }
  }

  /** `contains_address`: the half-open test `start <= a < end`, which only a non-empty range passes. */
  predicate ContainsAddress(r: FrameRange, a: nat): (res: bool)
    ensures res ==> r.start.addr < r.end.addr
  {
    r.start.addr <= a < r.end.addr
  }

  /** `contains_frame`. */
  predicate ContainsFrame(r: FrameRange, f: Frame) {
    ContainsAddress(r, f.addr)
  }

  function Max(a: nat, b: nat): nat { if a >= b then a else b }
  function Min(a: nat, b: nat): nat { if a <= b then a else b }

  /**
   * `intesects` as written: `self.end >= rhs.start && rhs.end <= self.start`.
   * On well-formed ranges it holds only when `rhs` ends at or before `self`
   * starts, so the two ranges it reports share no address.
   */
  predicate IntersectsAsWritten(r: FrameRange, rhs: FrameRange): (res: bool)
    ensures res ==> rhs.end.addr <= r.start.addr
    ensures res && WellFormed(r) && WellFormed(rhs) ==> forall a :: !(ContainsAddress(r, a) && ContainsAddress(rhs, a))
  {
    r.end.addr >= rhs.start.addr && rhs.end.addr <= r.start.addr
  }

  /**
   * `intersection` as written. When `intesects` holds, `FrameRange::new`
   * gets `max(starts) = self.start` and `min(ends) = rhs.end`, and its
   * assertion fails unless `rhs.end == self.start`; callers must avoid that.
   */
  function IntersectionAsWritten(r: FrameRange, rhs: FrameRange): (o: Option<FrameRange>)
    requires WellFormed(r) && WellFormed(rhs)
    requires IntersectsAsWritten(r, rhs) ==> rhs.end.addr == r.start.addr
    ensures o.None? <==> !IntersectsAsWritten(r, rhs)
    ensures o.Some? ==> o.value == FrameRange(r.start, r.start)
  {
    if IntersectsAsWritten(r, rhs) then
      Some(RangeNew(Frame(Max(r.start.addr, rhs.start.addr)), Frame(Min(r.end.addr, rhs.end.addr))))
    else None
  }

  /**
   * The overlap test the name promises: each range starts no later than the
   * other ends, that is the later start is at most the earlier end.
   */
  predicate Intersects(r: FrameRange, rhs: FrameRange): (res: bool)
    ensures WellFormed(r) && WellFormed(rhs) ==> (res <==> Max(r.start.addr, rhs.start.addr) <= Min(r.end.addr, rhs.end.addr))
  {
    r.end.addr >= rhs.start.addr && rhs.end.addr >= r.start.addr
  }

  /** `intersection` with the corrected test: exactly the addresses both ranges contain. */
  function Intersection(r: FrameRange, rhs: FrameRange): (o: Option<FrameRange>)
    requires WellFormed(r) && WellFormed(rhs)
    ensures o.Some? ==> WellFormed(o.value)
    ensures o.Some? ==> forall a :: ContainsAddress(o.value, a) <==> ContainsAddress(r, a) && ContainsAddress(rhs, a)
    ensures o.None? ==> forall a :: !(ContainsAddress(r, a) && ContainsAddress(rhs, a))
  {
    if Intersects(r, rhs) then
      Some(RangeNew(Frame(Max(r.start.addr, rhs.start.addr)), Frame(Min(r.end.addr, rhs.end.addr))))
    else None
  }

  // ------------------------------------------------------------------ errors

  datatype MapError<FE> = AlreadyMapped | FrameAllocError(fe: FE)

  datatype MapElfError<FE> = ElfAlreadyMapped | InvalidAlignment | ElfFrameAllocError(fe: FE)

  datatype UnmapError<FE> = NotMapped | InvalidSize | UnmapFrameAllocError(fe: FE)

  /** `From<MapError> for MapElfError`: each map error keeps its meaning and payload. */
  function MapElfErrorFrom<FE>(e: MapError<FE>): (r: MapElfError<FE>)
    ensures !r.InvalidAlignment?
    ensures r.ElfAlreadyMapped? <==> e.AlreadyMapped?
    ensures r.ElfFrameAllocError? ==> e.FrameAllocError? && r.fe == e.fe
  {
    match e
    case AlreadyMapped => ElfAlreadyMapped
    case FrameAllocError(fe) => ElfFrameAllocError(fe)
  }

  /** `MapFlags` (bit flags of `u32`): the set of flags given. */
  datatype MapFlag = Write | Exec | Global | NoCache | User | ImmAllCpus

  type MapFlags = set<MapFlag>

  // ---------------------------------------------------------------- iteration

  /** A frame range being iterated: `next` advances `start` in place. */
  class RangeIter {
    var start: nat
    var end: nat
    const size: Addr.FrameSize

    constructor (r: FrameRange, s: Addr.FrameSize)
      ensures start == r.start.addr && end == r.end.addr && size == s
    {
      start, end, size := r.start.addr, r.end.addr, s;
    }

    /** `next`: yields `start` and moves it one frame on, until `start` reaches `end`. */
    method Next() returns (f: Option<Frame>)
      modifies this
      ensures end == old(end)
      ensures old(start) < end ==> f == Some(Frame(old(start))) && start == old(start) + size.Bytes()
      ensures old(start) >= end ==> f.None? && start == old(start)
    {
      if start < end {
        f := Some(Frame(start));
        start := start + size.Bytes();
      } else {
        f := None;
      }
    }
  }

  /** Draining a range yields `frame_count` frames, ascending one frame size apart. */
  method Frames(r: FrameRange, s: Addr.FrameSize) returns (frames: seq<Frame>)
    requires WellFormed(r) && FrameAligned(r, s)
    ensures |frames| == FrameCount(r, s)
    ensures forall i :: 0 <= i < |frames| ==> frames[i].addr == r.start.addr + i * s.Bytes()
    ensures forall i :: 0 <= i < |frames| ==> ContainsFrame(r, frames[i])
  {
    var it := new RangeIter(r, s);
    frames := [];
    while true
      invariant it.end == r.end.addr && it.size == s
      invariant it.start == r.start.addr + |frames| * s.Bytes()
      invariant it.start <= r.end.addr && it.start % s.Bytes() == 0
      invariant forall i :: 0 <= i < |frames| ==> frames[i].addr == r.start.addr + i * s.Bytes()
      invariant forall i :: 0 <= i < |frames| ==> ContainsFrame(r, frames[i])
      decreases r.end.addr - it.start
    {
      var f := it.Next();
      if f.None? {
        DivUnique(r.end.addr - r.start.addr, s.Bytes(), |frames|, 0);
        return;
      }
      NextMultiple(f.value.addr, r.end.addr, s.Bytes());
      ModAddMultiple(f.value.addr, 1, s.Bytes());
      frames := frames + [f.value];
    }
  }

  // ---------------------------------------------------------------- properties

  /** `try_new` and `new` accept an address exactly when it is a frame boundary. */
  lemma TryNewIffAligned(addr: nat, s: Addr.FrameSize)
    ensures TryNew(addr, s).Ok? <==> addr % s.Bytes() == 0
  {
    MultipleIffModZero(addr, s.Bytes());
  }

  /** Moving forward then back by the same count returns the same frame, still aligned. */
  lemma AddThenSub(f: Frame, count: nat, s: Addr.FrameSize)
    requires f.addr % s.Bytes() == 0 && f.addr + count * s.Bytes() <= U64_MAX
    ensures AddFrames(f, count, s).addr % s.Bytes() == 0
    ensures SubFrames(AddFrames(f, count, s), count, s) == f
  {
    ModAddMultiple(f.addr, count, s.Bytes());
  }

  /** A range is contained in another exactly when every address of it is, if it is not empty. */
  lemma ContainsIffAddresses(r: FrameRange, q: FrameRange)
    requires WellFormed(r) && q.start.addr < q.end.addr
    ensures Contains(r, q) <==> forall a :: ContainsAddress(q, a) ==> ContainsAddress(r, a)
  {
    if !Contains(r, q) {
      if q.start.addr < r.start.addr {
        assert ContainsAddress(q, q.start.addr);
      } else {
        assert ContainsAddress(q, q.end.addr - 1);
      }
    }
  }

  /** As written, a `Some` answer is always an empty range. */
  lemma IntersectionAsWrittenIsEmpty(r: FrameRange, rhs: FrameRange)
    requires WellFormed(r) && WellFormed(rhs)
    requires IntersectsAsWritten(r, rhs) ==> rhs.end.addr == r.start.addr
    ensures IntersectionAsWritten(r, rhs).Some? ==> forall a :: !ContainsAddress(IntersectionAsWritten(r, rhs).value, a)
  {
  }

  /** As written, `[0, 0x2000)` and `[0x1000, 0x3000)` share the frame at 0x1000 but get `None`. */
  lemma IntersectionAsWrittenMissesOverlap()
    ensures var r, q := FrameRange(Frame(0), Frame(0x2000)), FrameRange(Frame(0x1000), Frame(0x3000));
      ContainsAddress(r, 0x1000) && ContainsAddress(q, 0x1000) && IntersectionAsWritten(r, q).None?
  {
  }

  /** As written, `[0x2000, 0x3000)` against `[0, 0x1000)` passes `intesects` and then `FrameRange::new` panics. */
  lemma IntersectionAsWrittenPanics()
    ensures var r, q := FrameRange(Frame(0x2000), Frame(0x3000)), FrameRange(Frame(0), Frame(0x1000));
      IntersectsAsWritten(r, q) && Max(r.start.addr, q.start.addr) > Min(r.end.addr, q.end.addr)
  {
  }

  /** Intersection is symmetric. */
  lemma IntersectionSymmetric(r: FrameRange, q: FrameRange)
    requires WellFormed(r) && WellFormed(q)
    ensures Intersection(r, q) == Intersection(q, r)
  {
  }

  /** `map_elf` errors converted from map errors are distinct for distinct map errors. */
  lemma MapElfErrorFromInjective<FE>(a: MapError<FE>, b: MapError<FE>)
    ensures MapElfErrorFrom(a) == MapElfErrorFrom(b) ==> a == b
  {
  }
}
