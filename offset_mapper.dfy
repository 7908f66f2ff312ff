/**
 * `OffsetMapper`: the mapper object that owns a PML4 and changes its page
 * tables in place. Each operation is the matching step of module `Mapper`
 * applied to the mapper's tables; the range operations are the loops of
 * `RangeMapper`, proved against the translation of every frame they touch.
 */
module OffsetMapping {
  import opened Wrappers
  import Addr
  import opened Frame
  import opened Mapper

  /** The address of the `m`-th 1 GiB frame after `base`. */
  function FrameAt(base: nat, m: nat): nat {
    base + m * SIZE_1G
  }

  /** Outside the slots `[lo, hi)`, `t` translates every address as `t0` does. */
  ghost predicate AgreeOutside(t: Tables, t0: Tables, lo: nat, hi: nat)
    requires Wf(t) && Wf(t0)
  {
    forall v :: !(lo <= Slot(v) < hi) ==> Translate(t, v) == Translate(t0, v)
  }

  /** The first `m` frames after `vbase` translate to the frames after `pbase`. */
  ghost predicate MappedPrefix(t: Tables, vbase: nat, pbase: nat, m: nat)
    requires Wf(t)
  {
    forall m' :: 0 <= m' < m ==> Translate(t, FrameAt(vbase, m')) == Some(FrameAt(pbase, m'))
  }

  /** The first `m` frames after `vbase` translate to nothing (`mapped == false`) or to something. */
  ghost predicate PrefixMapped(t: Tables, vbase: nat, m: nat, mapped: bool)
    requires Wf(t)
  {
    forall m' :: 0 <= m' < m ==> Translate(t, FrameAt(vbase, m')).Some? == mapped
  }

  /** The `m`-th frame after an aligned base falls `m` slots after it. */
  lemma FrameSlot(vbase: nat, m: nat)
    requires vbase % SIZE_1G == 0 && Slot(vbase) + m < SLOTS
    ensures Slot(FrameAt(vbase, m)) == Slot(vbase) + m
  {
    SlotStep(vbase, m);
  }

  /** The frames after an aligned base fall in successive slots. */
  lemma PrefixSlots(vbase: nat, m: nat)
    requires vbase % SIZE_1G == 0 && Slot(vbase) + m < SLOTS
    ensures Slot(FrameAt(vbase, m)) == Slot(vbase) + m
    ensures forall m' :: 0 <= m' < m ==> Slot(FrameAt(vbase, m')) == Slot(vbase) + m'
  {
    SlotStep(vbase, m);
    forall m' | 0 <= m' < m
      ensures Slot(FrameAt(vbase, m')) == Slot(vbase) + m'
    {
      SlotStep(vbase, m');
    }
  }

  /** A change confined to the slot just past `[lo, hi)` widens the agreement by that slot. */
  lemma AgreeOutsideExtend(t0: Tables, t: Tables, t1: Tables, lo: nat, hi: nat)
    requires Wf(t0) && Wf(t) && Wf(t1)
    requires lo <= hi && AgreeOutside(t, t0, lo, hi) && SameOutsideSlot(t1, t, hi)
    ensures AgreeOutside(t1, t0, lo, hi + 1)
  {
    forall v | !(lo <= Slot(v) < hi + 1)
      ensures Translate(t1, v) == Translate(t0, v)
    {
      assert Slot(v) != hi;
    }
  }

  /** Agreement outside `[lo, hi)` gives agreement outside any wider `[lo, hi2)`. */
  lemma AgreeOutsideWiden(t0: Tables, t: Tables, lo: nat, hi: nat, hi2: nat)
    requires Wf(t0) && Wf(t) && hi <= hi2 && AgreeOutside(t, t0, lo, hi)
    ensures AgreeOutside(t, t0, lo, hi2)
  {
  }

  /** A change confined to slot `Slot(vbase) + m` leaves the first `m` frames alone. */
  lemma PrefixUntouched(t: Tables, t1: Tables, vbase: nat, pbase: nat, m: nat, mapped: bool)
    requires Wf(t) && Wf(t1) && vbase % SIZE_1G == 0 && Slot(vbase) + m < SLOTS
    requires SameOutsideSlot(t1, t, Slot(vbase) + m)
    ensures MappedPrefix(t, vbase, pbase, m) ==> MappedPrefix(t1, vbase, pbase, m)
    ensures PrefixMapped(t, vbase, m, mapped) ==> PrefixMapped(t1, vbase, m, mapped)
  {
    PrefixSlots(vbase, m);
  }

  /** Before the `m`-th frame is touched, it translates as it did at the start. */
  lemma NextUntouched(t0: Tables, t: Tables, vbase: nat, m: nat)
    requires Wf(t0) && Wf(t) && vbase % SIZE_1G == 0 && Slot(vbase) + m < SLOTS
    requires AgreeOutside(t, t0, Slot(vbase), Slot(vbase) + m)
    ensures Translate(t, FrameAt(vbase, m)) == Translate(t0, FrameAt(vbase, m))
  {
    FrameSlot(vbase, m);
  }

  lemma MappedPrefixExtend(t: Tables, vbase: nat, pbase: nat, m: nat)
    requires Wf(t) && MappedPrefix(t, vbase, pbase, m)
    requires Translate(t, FrameAt(vbase, m)) == Some(FrameAt(pbase, m))
    ensures MappedPrefix(t, vbase, pbase, m + 1)
  {
  }

  lemma PrefixMappedExtend(t: Tables, vbase: nat, m: nat, mapped: bool)
    requires Wf(t) && PrefixMapped(t, vbase, m, mapped)
    requires Translate(t, FrameAt(vbase, m)).Some? == mapped
    ensures PrefixMapped(t, vbase, m + 1, mapped)
  {
  }

  /** A successful `map` of the `m`-th frame extends the mapped prefix and keeps the rest. */
  lemma MapRangeStep<FE>(t0: Tables, t: Tables, vbase: nat, pbase: nat, m: nat, flags: MapFlags, alloc: Result<nat, FE>)
    requires Wf(t0) && Wf(t) && vbase % SIZE_1G == 0 && Slot(vbase) + m < SLOTS
    requires AgreeOutside(t, t0, Slot(vbase), Slot(vbase) + m)
    requires MappedPrefix(t, vbase, pbase, m) && PrefixMapped(t0, vbase, m, false)
    ensures AgreeOutside(Map1GStep(t, FrameAt(pbase, m), FrameAt(vbase, m), flags, alloc).state, t0, Slot(vbase), Slot(vbase) + m + 1)
    ensures var o := Map1GStep(t, FrameAt(pbase, m), FrameAt(vbase, m), flags, alloc);
      o.result.Ok? ==> MappedPrefix(o.state, vbase, pbase, m + 1) && PrefixMapped(t0, vbase, m + 1, false)
  {
    var o := Map1GStep(t, FrameAt(pbase, m), FrameAt(vbase, m), flags, alloc);
    Map1GTranslate(t, FrameAt(pbase, m), FrameAt(vbase, m), flags, alloc);
    FrameSlot(vbase, m);
    AgreeOutsideExtend(t0, t, o.state, Slot(vbase), Slot(vbase) + m);
    if o.result.Ok? {
      NextUntouched(t0, t, vbase, m);
      PrefixMappedExtend(t0, vbase, m, false);
      PrefixUntouched(t, o.state, vbase, pbase, m, false);
      MappedPrefixExtend(o.state, vbase, pbase, m);
    }
  }

  /** A successful `unmap` of the `m`-th frame extends the unmapped prefix and keeps the rest. */
  lemma UnmapRangeStep<FE>(t0: Tables, t: Tables, vbase: nat, m: nat, dealloc: Option<FE>)
    requires Wf(t0) && Wf(t) && Counted(t) && vbase % SIZE_1G == 0 && Slot(vbase) + m < SLOTS
    requires AgreeOutside(t, t0, Slot(vbase), Slot(vbase) + m)
    requires PrefixMapped(t, vbase, m, false) && PrefixMapped(t0, vbase, m, true)
    ensures CanUnmap1G(BranchAt(t, P4Index(FrameAt(vbase, m))), P3Index(FrameAt(vbase, m)))
    ensures AgreeOutside(Unmap1GStep(t, FrameAt(vbase, m), dealloc).state, t0, Slot(vbase), Slot(vbase) + m + 1)
    ensures var o := Unmap1GStep(t, FrameAt(vbase, m), dealloc);
      o.result.Ok? ==> PrefixMapped(o.state, vbase, m + 1, false) && PrefixMapped(t0, vbase, m + 1, true)
  {
    Unmap1GTranslate(t, FrameAt(vbase, m), dealloc);
    var o := Unmap1GStep(t, FrameAt(vbase, m), dealloc);
    FrameSlot(vbase, m);
    AgreeOutsideExtend(t0, t, o.state, Slot(vbase), Slot(vbase) + m);
    if o.result.Ok? {
      NextUntouched(t0, t, vbase, m);
      PrefixMappedExtend(t0, vbase, m, true);
      PrefixUntouched(t, o.state, vbase, 0, m, false);
      PrefixMappedExtend(o.state, vbase, m, false);
    }
  }

  class OffsetMapper<FE> {
    /** The page tables reachable from the PML4. */
    var tables: Tables
    /** The table frames handed back to the allocator, in order. */
    var freed: seq<nat>

    /** The tables are well formed and every child count matches its table. */
    ghost predicate Valid()
      reads this
    {
      Wf(tables) && Counted(tables)
    }

    /** `OffsetMapper::new` over an existing PML4. */
    constructor (t: Tables)
      requires Wf(t) && Counted(t)
      ensures Valid() && tables == t && freed == []
    {
      tables := t;
      freed := [];
    }

    /** `map` for a 1 GiB page. */
    method Map1G(pframe: nat, vframe: nat, flags: MapFlags, alloc: Result<nat, FE>)
      returns (r: Result<Flush, MapError<FE>>)
      requires Valid()
      modifies this
      ensures Valid()
      ensures var o := Map1GStep(old(tables), pframe, vframe, flags, alloc);
        tables == o.state && r == o.result && freed == old(freed) + o.freed
    {
      Map1GKeepsCounted(tables, pframe, vframe, flags, alloc);
      var o := Map1GStep(tables, pframe, vframe, flags, alloc);
      tables, r, freed := o.state, o.result, freed + o.freed;
    }

    /** `map` for a 2 MiB page, with the page-directory-pointer count raised when its table is allocated. */
    method Map2M(pframe: nat, vframe: nat, flags: MapFlags, first: Result<nat, FE>, second: Result<nat, FE>)
      returns (r: Result<Flush, MapError<FE>>)
      requires Valid()
      modifies this
      ensures Valid()
      ensures var o := Map2MStep(old(tables), pframe, vframe, flags, first, second, false);
        tables == o.state && r == o.result && freed == old(freed) + o.freed
    {
      Map2MKeepsCounted(tables, pframe, vframe, flags, first, second);
      var o := Map2MStep(tables, pframe, vframe, flags, first, second, false);
      tables, r, freed := o.state, o.result, freed + o.freed;
    }

    /** `unmap` for a 1 GiB page; the matching counts rule out the underflow. */
    method Unmap1G(vframe: nat, dealloc: Option<FE>) returns (r: Result<Flush, UnmapError<FE>>)
      requires Valid()
      modifies this
      ensures Valid()
      ensures CanUnmap1G(BranchAt(old(tables), P4Index(vframe)), P3Index(vframe))
      ensures var o := Unmap1GStep(old(tables), vframe, dealloc);
        tables == o.state && r == o.result && freed == old(freed) + o.freed
    {
      Unmap1GKeepsCounted(tables, vframe, dealloc);
      var o := Unmap1GStep(tables, vframe, dealloc);
      tables, r, freed := o.state, o.result, freed + o.freed;
    }

    /**
     * `map_range` for 1 GiB pages: each frame of `prange` is mapped at the
     * same offset from `vbase`, stopping at the first error; `allocs[m]` is
     * the allocator's answer should the `m`-th mapping need a table. On
     * success every frame translates to its page, each was unmapped
     * before, no table was handed back, and the flush is `None`. Slots the
     * range does not reach keep their translation either way.
     */
    method MapRange1G(prange: FrameRange, vbase: nat, flags: MapFlags, allocs: seq<Result<nat, FE>>)
      returns (r: Result<Flush, MapError<FE>>)
      requires Valid()
      requires WellFormed(prange) && FrameAligned(prange, Addr.Size1G) && vbase % SIZE_1G == 0
      requires |allocs| == FrameCount(prange, Addr.Size1G) && Slot(vbase) + |allocs| <= SLOTS
      modifies this
      ensures Valid()
      ensures r.Ok? ==> r.value == FlushNone && freed == old(freed)
      ensures r.Ok? ==> forall m :: 0 <= m < |allocs| ==>
        Translate(tables, FrameAt(vbase, m)) == Some(FrameAt(prange.start.addr, m))
      ensures r.Ok? ==> forall m :: 0 <= m < |allocs| ==> old(Translate(tables, FrameAt(vbase, m))).None?
      ensures forall v :: !(Slot(vbase) <= Slot(v) < Slot(vbase) + |allocs|) ==>
        Translate(tables, v) == old(Translate(tables, v))
    {
      ghost var t0 := tables;
      var m := 0;
      while m < |allocs|
        invariant 0 <= m <= |allocs|
        invariant Valid() && freed == old(freed)
        invariant AgreeOutside(tables, t0, Slot(vbase), Slot(vbase) + m)
        invariant MappedPrefix(tables, vbase, prange.start.addr, m) && PrefixMapped(t0, vbase, m, false)
      {
        MapRangeStep(t0, tables, vbase, prange.start.addr, m, flags, allocs[m]);
        var res := Map1G(FrameAt(prange.start.addr, m), FrameAt(vbase, m), flags, allocs[m]);
        if res.Err? {
          AgreeOutsideWiden(t0, tables, Slot(vbase), Slot(vbase) + m + 1, Slot(vbase) + |allocs|);
          return Err(res.error);
        }
        m := m + 1;
      }
      r := Ok(FlushNone);
    }

    /**
     * `unmap_range` for 1 GiB pages: each frame of `vrange` is unmapped,
     * stopping at the first error; `deallocs[m]` is the allocator's answer
     * should the `m`-th unmapping release a table. On success every frame
     * was mapped before and is unmapped now, and the flush is `All` past
     * `FLUSH_MAX_INVLPG_FRAMES` frames and the range itself otherwise.
     * Slots the range does not reach keep their translation either way.
     */
    method UnmapRange1G(vrange: FrameRange, deallocs: seq<Option<FE>>)
      returns (r: Result<Flush, UnmapError<FE>>)
      requires Valid()
      requires WellFormed(vrange) && FrameAligned(vrange, Addr.Size1G)
      requires |deallocs| == FrameCount(vrange, Addr.Size1G) && Slot(vrange.start.addr) + |deallocs| <= SLOTS
      modifies this
      ensures Valid()
      ensures r.Ok? ==> r.value == if |deallocs| > FLUSH_MAX_INVLPG_FRAMES then FlushAll else FlushRange(vrange)
      ensures r.Ok? ==> forall m :: 0 <= m < |deallocs| ==> Translate(tables, FrameAt(vrange.start.addr, m)).None?
      ensures r.Ok? ==> forall m :: 0 <= m < |deallocs| ==> old(Translate(tables, FrameAt(vrange.start.addr, m))).Some?
      ensures forall v :: !(Slot(vrange.start.addr) <= Slot(v) < Slot(vrange.start.addr) + |deallocs|) ==>
        Translate(tables, v) == old(Translate(tables, v))
    {
      ghost var t0 := tables;
      var base := vrange.start.addr;
      var m := 0;
      while m < |deallocs|
        invariant 0 <= m <= |deallocs|
        invariant Valid()
        invariant AgreeOutside(tables, t0, Slot(base), Slot(base) + m)
        invariant PrefixMapped(tables, base, m, false) && PrefixMapped(t0, base, m, true)
      {
        UnmapRangeStep(t0, tables, base, m, deallocs[m]);
        var res := Unmap1G(FrameAt(base, m), deallocs[m]);
        if res.Err? {
          AgreeOutsideWiden(t0, tables, Slot(base), Slot(base) + m + 1, Slot(base) + |deallocs|);
          return Err(res.error);
        }
        m := m + 1;
      }
      r := if |deallocs| > FLUSH_MAX_INVLPG_FRAMES then Ok(FlushAll) else Ok(FlushRange(vrange));
    }
  }
}
