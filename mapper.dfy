/**
 * The x86-64 offset page-table mapper (lib/chos-lib/src/arch/x64/mm/mapper.rs):
 * the TLB flush a mapping operation asks for and how two of them merge, the
 * construction and widening of page-table entries, the per-entry count of
 * present entries in the child table, and mapping and unmapping of 1 GiB and
 * 2 MiB pages.
 *
 * The four-level hierarchy is modelled down to the page-directory level as a
 * tree of values: `p4` is the PML4, `p3[i]` the page-directory-pointer table
 * that PML4 entry `i` points to, and `p2[i][j]` the page directory that entry
 * `j` of that table points to. Contents of a table whose parent entry is not
 * present carry no meaning.
 *
 * The frame allocator is a parameter: each operation is given the answer the
 * allocator makes to each request the operation can issue.
 */
module Mapper {
  import opened Wrappers
  import Addr
  import opened Frame
  import opened IntOps

  const FLUSH_MAX_INVLPG_FRAMES: nat := 11
  const ENTRIES: nat := 512
  const SIZE_1G: nat := 0x4000_0000
  const SIZE_2M: nat := 0x20_0000

  // ------------------------------------------------------------------ flushes

  /** `Flush<S>`: reload the whole TLB, `invlpg` each frame of a range, or nothing. */
  datatype Flush = FlushAll | FlushRange(range: FrameRange) | FlushNone

  predicate FlushWf(f: Flush) {
    f.FlushRange? ==> WellFormed(f.range)
  }

  /** The flush invalidates the translation of address `a`. */
  predicate Covers(f: Flush, a: nat) {
    match f
    case FlushAll => true
    case FlushRange(r) => ContainsAddress(r, a)
    case FlushNone => false
  }

  /**
   * `combine` as written: `All` wins, `None` gives the other flush, and two
   * ranges merge through `intersection` as written. `None` stands for the
   * panic of `FrameRange::new` when the second range ends before the first
   * starts. Ranges that pass `intesects` without panicking merely touch,
   * so the merged range is empty and flushes nothing; every other pair of
   * ranges, overlapping ones included, gives `All`.
   */
  function CombineAsWritten(a: Flush, b: Flush, s: Addr.FrameSize): (r: Option<Flush>)
    requires FlushWf(a) && FlushWf(b)
    ensures r.Some? ==> FlushWf(r.value)
    ensures r.None? <==> a.FlushRange? && b.FlushRange? && b.range.end.addr < a.range.start.addr
    ensures a.FlushRange? && b.FlushRange? && r.Some? && r.value.FlushRange? ==>
      FrameCount(r.value.range, s) <= FLUSH_MAX_INVLPG_FRAMES && forall x :: !Covers(r.value, x)
  {
    match (a, b)
    case (FlushAll, _) => Some(FlushAll)
    case (_, FlushAll) => Some(FlushAll)
    case (FlushRange(r1), FlushRange(r2)) =>
      if IntersectsAsWritten(r1, r2) && r2.end.addr < r1.start.addr then None
      else
        (match IntersectionAsWritten(r1, r2)
         case Some(r) => Some(if FrameCount(r, s) <= FLUSH_MAX_INVLPG_FRAMES then FlushRange(r) else FlushAll)
         case None => Some(FlushAll))
    case (FlushNone, f) => Some(f)
    case (f, FlushNone) => Some(f)
  }

  /** The smallest range holding both ranges. */
  function Hull(r1: FrameRange, r2: FrameRange): (h: FrameRange)
    requires WellFormed(r1) && WellFormed(r2)
    ensures WellFormed(h)
    ensures forall x :: ContainsAddress(r1, x) || ContainsAddress(r2, x) ==> ContainsAddress(h, x)
  {
    FrameRange(Frame(Min(r1.start.addr, r2.start.addr)), Frame(Max(r1.end.addr, r2.end.addr)))
  }

  /**
   * `combine` with the merge a TLB flush needs: two ranges merge into the
   * range spanning both when that is at most `FLUSH_MAX_INVLPG_FRAMES`
   * frames, else into `All`. Every address either flush covers stays covered.
   */
  function Combine(a: Flush, b: Flush, s: Addr.FrameSize): (r: Flush)
    requires FlushWf(a) && FlushWf(b)
    ensures FlushWf(r)
    ensures forall x :: Covers(a, x) || Covers(b, x) ==> Covers(r, x)
    ensures a.FlushRange? && b.FlushRange? && r.FlushRange? ==>
      FrameCount(r.range, s) <= FLUSH_MAX_INVLPG_FRAMES
  {
    match (a, b)
    case (FlushAll, _) => FlushAll
    case (_, FlushAll) => FlushAll
    case (FlushRange(r1), FlushRange(r2)) =>
      var h := Hull(r1, r2);
      if FrameCount(h, s) <= FLUSH_MAX_INVLPG_FRAMES then FlushRange(h) else FlushAll
    case (FlushNone, f) => f
    case (f, FlushNone) => f
  }

  /** `All` absorbs any flush and `None` is the identity, on either side. */
  lemma CombineLaws(f: Flush, s: Addr.FrameSize)
    requires FlushWf(f)
    ensures Combine(FlushAll, f, s) == FlushAll && Combine(f, FlushAll, s) == FlushAll
    ensures Combine(FlushNone, f, s) == f && Combine(f, FlushNone, s) == f
    ensures CombineAsWritten(FlushAll, f, s) == Some(FlushAll) && CombineAsWritten(f, FlushAll, s) == Some(FlushAll)
    ensures CombineAsWritten(FlushNone, f, s) == Some(f) && CombineAsWritten(f, FlushNone, s) == Some(f)
  {
  }

  /**
   * Merging the flushes of `[0x1000, 0x2000)` and `[0, 0x1000)` as written
   * passes `intesects` and keeps the empty range `[0x1000, 0x1000)`: neither
   * page is invalidated. The intended merge flushes `[0, 0x2000)`.
   */
  lemma CombineAsWrittenMissesPage()
    ensures var a, b := FlushRange(FrameRange(Frame(0x1000), Frame(0x2000))), FlushRange(FrameRange(Frame(0), Frame(0x1000)));
      && CombineAsWritten(a, b, Addr.Size4K) == Some(FlushRange(FrameRange(Frame(0x1000), Frame(0x1000))))
      && Covers(a, 0x1000) && !Covers(CombineAsWritten(a, b, Addr.Size4K).value, 0x1000)
      && Covers(b, 0) && !Covers(CombineAsWritten(a, b, Addr.Size4K).value, 0)
      && Combine(a, b, Addr.Size4K) == FlushRange(FrameRange(Frame(0), Frame(0x2000)))
  {
    var a, b := FlushRange(FrameRange(Frame(0x1000), Frame(0x2000))), FlushRange(FrameRange(Frame(0), Frame(0x1000)));
    assert FrameCount(FrameRange(Frame(0x1000), Frame(0x1000)), Addr.Size4K) == 0;
    assert FrameCount(FrameRange(Frame(0), Frame(0x2000)), Addr.Size4K) == 2;
  }

  /**
   * As written, merging the flushes of `[0x2000, 0x3000)` and `[0, 0x1000)`
   * panics in `FrameRange::new`, and merging the overlapping `[0, 0x2000)`
   * and `[0x1000, 0x3000)` fails `intesects` and flushes everything.
   */
  lemma CombineAsWrittenPanicsOrFlushesAll()
    ensures CombineAsWritten(FlushRange(FrameRange(Frame(0x2000), Frame(0x3000))), FlushRange(FrameRange(Frame(0), Frame(0x1000))), Addr.Size4K).None?
    ensures CombineAsWritten(FlushRange(FrameRange(Frame(0), Frame(0x2000))), FlushRange(FrameRange(Frame(0x1000), Frame(0x3000))), Addr.Size4K) == Some(FlushAll)
  {
  }

  // ------------------------------------------------------------ page entries

  /**
   * A page-table entry (the `PageEntry` bit field): the hardware bits the
   * mapper uses, the physical address it points to, and the count of present
   * entries in the table below it, which the mapper keeps in OS-available bits.
   */
  datatype PageEntry = PageEntry(
    present: bool, writable: bool, user: bool, writeThrough: bool, noCache: bool,
    accessed: bool, dirty: bool, hugePage: bool, global: bool, noExecute: bool,
    paddr: nat, childAllocCount: nat)

  /** `PageEntry::new()`, all bits clear. */
  function ZeroEntry(): PageEntry {
    PageEntry(false, false, false, false, false, false, false, false, false, false, 0, 0)
  }

  /** The entry grants at least the access `flags` asks for. */
  predicate Permits(e: PageEntry, flags: MapFlags) {
    && (Write in flags ==> e.writable)
    && (Exec in flags ==> !e.noExecute)
    && (Global in flags ==> e.global)
    && (User in flags ==> e.user)
  }

  /**
   * `create_page_entry`: a present entry for `paddr` that grants exactly the
   * access in `flags`; `NOCACHE` sets both cache-disable and write-through.
   */
  function CreatePageEntry(paddr: nat, flags: MapFlags): (e: PageEntry)
    ensures e.present && !e.hugePage && e.paddr == paddr && e.childAllocCount == 0
    ensures !e.accessed && !e.dirty
    ensures e.noExecute <==> Exec !in flags
    ensures e.writable <==> Write in flags
    ensures e.global <==> Global in flags
    ensures e.user <==> User in flags
    ensures e.noCache <==> NoCache in flags
    ensures e.writeThrough <==> NoCache in flags
    ensures Permits(e, flags)
  {
    ZeroEntry().(
      present := true, paddr := paddr,
      noExecute := Exec !in flags, writable := Write in flags, global := Global in flags,
      user := User in flags, noCache := NoCache in flags, writeThrough := NoCache in flags)
  }

  /** A 1 GiB or 2 MiB leaf: `create_page_entry` followed by `set_huge_page(true)`. */
  function HugePageEntry(paddr: nat, flags: MapFlags): (e: PageEntry)
    ensures e.present && e.hugePage && e.paddr == paddr && Permits(e, flags)
  {
    CreatePageEntry(paddr, flags).(hugePage := true)
  }

  /**
   * `update_page_entry` on an existing table entry: it only widens access.
   * It grants what `flags` asks for, never clears writable, global or user,
   * never sets no-execute, and clears cache-disable and write-through unless
   * `NOCACHE` is asked for.
   */
  function UpdatePageEntry(e: PageEntry, flags: MapFlags): (r: PageEntry)
    ensures r.present == e.present && r.hugePage == e.hugePage && r.paddr == e.paddr
    ensures r.childAllocCount == e.childAllocCount && r.accessed == e.accessed && r.dirty == e.dirty
    ensures Permits(r, flags)
    ensures (e.writable ==> r.writable) && (e.global ==> r.global) && (e.user ==> r.user)
    ensures r.noExecute ==> e.noExecute
    ensures NoCache !in flags ==> !r.noCache && !r.writeThrough
    ensures NoCache in flags ==> r.noCache == e.noCache && r.writeThrough == e.writeThrough
  {
    e.(
      noExecute := e.noExecute && Exec !in flags,
      writable := e.writable || Write in flags,
      global := e.global || Global in flags,
      user := e.user || User in flags,
      noCache := e.noCache && NoCache in flags,
      writeThrough := e.writeThrough && NoCache in flags)
  }

  /** Whatever access an entry granted, it still grants after an update. */
  lemma UpdateNeverRevokes(e: PageEntry, flags: MapFlags, g: MapFlags)
    requires Permits(e, g)
    ensures Permits(UpdatePageEntry(e, flags), g)
  {
  }

  /** Updating an entry with the flags it was created with changes nothing. */
  lemma UpdateAfterCreate(paddr: nat, flags: MapFlags)
    ensures UpdatePageEntry(CreatePageEntry(paddr, flags), flags) == CreatePageEntry(paddr, flags)
  {
  }

  /** `inc_child_alloc_count`. */
  function IncChildAllocCount(e: PageEntry): (r: PageEntry)
    ensures r.childAllocCount == e.childAllocCount + 1
    ensures r.(childAllocCount := 0) == e.(childAllocCount := 0)
  {
    e.(childAllocCount := e.childAllocCount + 1)
  }

  /**
   * `dec_child_alloc_count`: the entry with its count lowered, and whether
   * the count reached zero. The count must be positive: the subtraction
   * would underflow otherwise.
   */
  function DecChildAllocCount(e: PageEntry): (r: (PageEntry, bool))
    requires e.childAllocCount > 0
    ensures r.0.childAllocCount + 1 == e.childAllocCount
    ensures r.0.(childAllocCount := 0) == e.(childAllocCount := 0)
    ensures r.1 <==> r.0.childAllocCount == 0
  {
    var n := e.childAllocCount - 1;
    (e.(childAllocCount := n), n == 0)
  }

  /** Decrementing after incrementing gives the entry back; it reports zero iff the count was zero. */
  lemma IncThenDec(e: PageEntry)
    ensures DecChildAllocCount(IncChildAllocCount(e)) == (e, e.childAllocCount == 0)
  {
  }


  // ------------------------------------------------------------------ tables

  function ZeroTable(): seq<PageEntry> {
    seq(ENTRIES, _ => ZeroEntry())
  }

  /** The number of present entries in a table. */
  function PresentCount(t: seq<PageEntry>): nat {
    if |t| == 0 then 0 else (if t[0].present then 1 else 0) + PresentCount(t[1..])
  }

  /** Replacing one entry changes the count by the change in that entry's presence. */
  lemma {:induction false} PresentCountUpdate(t: seq<PageEntry>, j: nat, x: PageEntry)
    requires j < |t|
    ensures PresentCount(t[j := x]) + (if t[j].present then 1 else 0)
      == PresentCount(t) + (if x.present then 1 else 0)
  {
    if j == 0 {
      assert t[j := x][1..] == t[1..];
    } else {
      assert t[j := x][1..] == t[1..][j - 1 := x];
      PresentCountUpdate(t[1..], j - 1, x);
    }
  }

  predicate NonePresent(t: seq<PageEntry>) {
    forall j :: 0 <= j < |t| ==> !t[j].present
  }

  /** A table counts no present entry exactly when it has none. */
  lemma {:induction false} PresentCountZero(t: seq<PageEntry>)
    ensures PresentCount(t) == 0 <==> NonePresent(t)
  {
    if |t| > 0 {
      PresentCountZero(t[1..]);
      assert forall j :: 1 <= j < |t| ==> t[j] == t[1..][j - 1];
    }
  }

  /** A fresh table counts no entry. */
  lemma ZeroTableEmpty()
    ensures PresentCount(ZeroTable()) == 0
  {
    PresentCountZero(ZeroTable());
  }

  /** The index of the PML4 entry for `v`: bits 39..48 (`VAddr::split`). */
  function P4Index(v: nat): nat { (v / 0x80_0000_0000) % ENTRIES }

  /** The index of the page-directory-pointer entry for `v`: bits 30..39. */
  function P3Index(v: nat): nat { (v / SIZE_1G) % ENTRIES }

  /** The index of the page-directory entry for `v`: bits 21..30. */
  function P2Index(v: nat): nat { (v / SIZE_2M) % ENTRIES }

  /** The number of 1 GiB slots in the 48-bit address space. */
  const SLOTS: nat := 0x4_0000

  /** The 1 GiB slot of `v`: bits 30..48, the two indices that select its page-directory-pointer entry. */
  function Slot(v: nat): nat { (v / SIZE_1G) % SLOTS }

  lemma SlotIndices(v: nat)
    ensures Slot(v) == P4Index(v) * ENTRIES + P3Index(v)
  {
    DivDiv(v, SIZE_1G, ENTRIES);
    DivDiv(v / SIZE_1G, ENTRIES, ENTRIES);
  }

  /** Addresses in different 1 GiB slots differ in one of the two upper indices. */
  lemma SlotsApart(v: nat, w: nat)
    requires Slot(v) != Slot(w)
    ensures P4Index(v) != P4Index(w) || P3Index(v) != P3Index(w)
  {
    SlotIndices(v);
    SlotIndices(w);
  }

  /** The slot of the `m`-th 1 GiB frame after the aligned `base`, when the range does not wrap. */
  lemma SlotStep(base: nat, m: nat)
    requires base % SIZE_1G == 0 && Slot(base) + m < SLOTS
    ensures Slot(base + m * SIZE_1G) == Slot(base) + m
  {
    ModAddMultiple(base, m, SIZE_1G);
    var x := base / SIZE_1G;
    ModAddMultiple(x % SLOTS + m, x / SLOTS, SLOTS);
    assert x + m == x % SLOTS + m + (x / SLOTS) * SLOTS;
  }

  /**
   * The hierarchy below one PML4, modelled down to the page-directory level
   * as a tree of values: `p4` is the PML4, `p3[i]` the page-directory-pointer
   * table PML4 entry `i` points to, and `p2[i][j]` the page directory entry
   * `j` of that table points to. A table whose parent entry is not present
   * carries no meaning.
   */
  datatype Tables = Tables(p4: seq<PageEntry>, p3: seq<seq<PageEntry>>, p2: seq<seq<seq<PageEntry>>>)

  /** One PML4 entry and what hangs below it: its page-directory-pointer table and the directories below that. */
  datatype Branch = Branch(entry: PageEntry, table: seq<PageEntry>, dirs: seq<seq<PageEntry>>)

  predicate BranchWf(b: Branch) {
    |b.table| == ENTRIES && |b.dirs| == ENTRIES && forall j :: 0 <= j < ENTRIES ==> |b.dirs[j]| == ENTRIES
  }

  /** Every table of the hierarchy has 512 entries. */
  predicate Wf(t: Tables) {
    && |t.p4| == ENTRIES && |t.p3| == ENTRIES && |t.p2| == ENTRIES
    && forall i :: 0 <= i < ENTRIES ==> BranchWf(Branch(t.p4[i], t.p3[i], t.p2[i]))
  }

  function BranchAt(t: Tables, i: nat): (b: Branch)
    requires Wf(t) && i < ENTRIES
    ensures BranchWf(b)
  {
    Branch(t.p4[i], t.p3[i], t.p2[i])
  }

  /** The hierarchy with the branch at PML4 slot `i` replaced by `b`. */
  function WithBranch(t: Tables, i: nat, b: Branch): Tables
    requires Wf(t) && i < ENTRIES
  {
    Tables(t.p4[i := b.entry], t.p3[i := b.table], t.p2[i := b.dirs])
  }

  /** The hierarchy with every entry clear. */
  function EmptyTables(): (t: Tables)
    ensures Wf(t)
  {
    Tables(ZeroTable(), seq(ENTRIES, _ => ZeroTable()), seq(ENTRIES, _ => seq(ENTRIES, _ => ZeroTable())))
  }

  /** Each present entry of `table` that points to a directory counts the present entries of that directory in `dirs`. */
  predicate CountedDirs(table: seq<PageEntry>, dirs: seq<seq<PageEntry>>)
    requires |table| == ENTRIES && |dirs| == ENTRIES
  {
    forall j :: 0 <= j < ENTRIES && table[j].present && !table[j].hugePage ==> table[j].childAllocCount == PresentCount(dirs[j])
  }

  /**
   * What `child_alloc_count` is for, in one branch: a present PML4 entry
   * counts the present entries of its table, and the table's entries count
   * their directories'. It is what lets `unmap` free a table when its count
   * reaches zero.
   */
  predicate CountedBranch(b: Branch)
    requires BranchWf(b)
  {
    b.entry.present ==> b.entry.childAllocCount == PresentCount(b.table) && CountedDirs(b.table, b.dirs)
  }

  /** Replacing table entry `j` and its directory keeps the table's entries counted when the new entry counts the new directory. */
  lemma CountedDirsUpdate(table: seq<PageEntry>, dirs: seq<seq<PageEntry>>, j: nat, e3: PageEntry, dir: seq<PageEntry>)
    requires |table| == ENTRIES && |dirs| == ENTRIES && j < ENTRIES && CountedDirs(table, dirs)
    requires e3.present && !e3.hugePage ==> e3.childAllocCount == PresentCount(dir)
    ensures CountedDirs(table[j := e3], dirs[j := dir])
  {
  }

  /** An empty table counts trivially. */
  lemma CountedDirsZero(dirs: seq<seq<PageEntry>>)
    requires |dirs| == ENTRIES
    ensures CountedDirs(ZeroTable(), dirs)
  {
  }

  predicate Counted(t: Tables)
    requires Wf(t)
  {
    forall i :: 0 <= i < ENTRIES ==> CountedBranch(BranchAt(t, i))
  }

  /** The walk below one PML4 entry: the 1 GiB leaf at `j`, or the 2 MiB leaf at `j`, `k`. */
  function BranchTranslate(b: Branch, j: nat, k: nat): Option<nat>
    requires BranchWf(b) && j < ENTRIES && k < ENTRIES
  {
    if !b.entry.present || !b.table[j].present then None
    else if b.table[j].hugePage then Some(b.table[j].paddr)
    else if b.dirs[j][k].present && b.dirs[j][k].hugePage then Some(b.dirs[j][k].paddr)
    else None
  }

  /** The two branches walk every slot but `j`, `k` to the same place. */
  predicate WalksAgreeExcept(b1: Branch, b2: Branch, j: nat, k: nat)
    requires BranchWf(b1) && BranchWf(b2)
  {
    forall j', k' :: 0 <= j' < ENTRIES && 0 <= k' < ENTRIES && (j' != j || k' != k) ==>
      BranchTranslate(b1, j', k') == BranchTranslate(b2, j', k')
  }

  /** The two branches walk every slot outside table entry `j` to the same place. */
  predicate WalksAgreeOutside(b1: Branch, b2: Branch, j: nat)
    requires BranchWf(b1) && BranchWf(b2)
  {
    forall j', k :: 0 <= j' < ENTRIES && j' != j && 0 <= k < ENTRIES ==>
      BranchTranslate(b1, j', k) == BranchTranslate(b2, j', k)
  }

  /**
   * The physical page a 1 GiB or 2 MiB mapping gives `v`, found by the walk
   * `paddr_of` makes, or `None` when no such leaf maps it.
   */
  function Translate(t: Tables, v: nat): (r: Option<nat>)
    requires Wf(t)
    ensures var i, j, k := P4Index(v), P3Index(v), P2Index(v);
      r.Some? <==> t.p4[i].present && t.p3[i][j].present && (t.p3[i][j].hugePage || (t.p2[i][j][k].present && t.p2[i][j][k].hugePage))
    ensures var i, j, k := P4Index(v), P3Index(v), P2Index(v);
      r.Some? ==> r == Some(if t.p3[i][j].hugePage then t.p3[i][j].paddr else t.p2[i][j][k].paddr)
  {
    BranchTranslate(BranchAt(t, P4Index(v)), P3Index(v), P2Index(v))
  }

  /** The empty hierarchy keeps every count and maps nothing. */
  lemma EmptyTablesFacts()
    ensures Counted(EmptyTables())
    ensures forall v :: Translate(EmptyTables(), v).None?
  {
  }

  /** Replacing one branch leaves the others, and their translations, alone; the counts still match when the new branch's do. */
  lemma WithBranchFacts(t: Tables, i: nat, b: Branch)
    requires Wf(t) && i < ENTRIES && BranchWf(b)
    ensures Wf(WithBranch(t, i, b)) && BranchAt(WithBranch(t, i, b), i) == b
    ensures b == BranchAt(t, i) ==> WithBranch(t, i, b) == t
    ensures Counted(t) && CountedBranch(b) ==> Counted(WithBranch(t, i, b))
    ensures forall v :: P4Index(v) != i ==> Translate(WithBranch(t, i, b), v) == Translate(t, v)
    ensures forall v :: P4Index(v) == i ==>
      Translate(WithBranch(t, i, b), v) == BranchTranslate(b, P3Index(v), P2Index(v))
  {
    var t' := WithBranch(t, i, b);
    assert forall a :: 0 <= a < ENTRIES && a != i ==> BranchAt(t', a) == BranchAt(t, a);
    if b == BranchAt(t, i) {
      assert t'.p4 == t.p4 && t'.p3 == t.p3 && t'.p2 == t.p2;
    }
  }

  /** A table holding a present entry has a positive count. */
  lemma PresentCountPositive(t: seq<PageEntry>, j: nat)
    requires j < |t| && t[j].present
    ensures PresentCount(t) > 0
  {
    PresentCountZero(t);
  }

  /** The result of an operation: the new state, what the operation returns, and the table frames it handed back to the allocator. */
  datatype Outcome<S, R> = Outcome(state: S, result: R, freed: seq<nat>)

  // ------------------------------------------------------------- 1 GiB pages

  /**
   * `map` for a 1 GiB page, in the branch of its PML4 entry, given the
   * allocator's answer to the one table request it can make. The PML4 entry
   * is created over a fresh table (when absent) or widened by `flags` (when
   * present), and stays so even when the slot `j` turns out to be taken. The
   * leaf goes into the empty slot and the PML4 entry counts it. On an error
   * the allocation guard hands back the table it allocated.
   */
  function Map1GBranch<FE>(b: Branch, j: nat, pframe: nat, flags: MapFlags, alloc: Result<nat, FE>)
    : (o: Outcome<Branch, Result<Flush, MapError<FE>>>)
    requires BranchWf(b) && j < ENTRIES
    ensures BranchWf(o.state)
    ensures o.result == Err(AlreadyMapped) <==> b.entry.present && b.table[j].present
    ensures o.result.Err? && o.result.error.FrameAllocError? <==> !b.entry.present && alloc.Err?
    ensures !b.entry.present && alloc.Err? ==> o == Outcome(b, Err(FrameAllocError(alloc.error)), [])
    ensures o.result.Ok? ==> o.result.value == FlushAll && o.freed == []
    ensures o.result.Ok? ==> o.state.entry.present && o.state.table[j] == HugePageEntry(pframe, flags)
  {
    if !b.entry.present && alloc.Err? then Outcome(b, Err(FrameAllocError(alloc.error)), [])
    else
      var e4 := if b.entry.present then UpdatePageEntry(b.entry, flags) else CreatePageEntry(alloc.value, flags);
      var table := if b.entry.present then b.table else ZeroTable();
      // A fresh table has no present entry, so only an existing table can hold the slot.
      if b.entry.present && table[j].present then
        Outcome(Branch(e4, table, b.dirs), Err(AlreadyMapped), [])
      else
        Outcome(Branch(IncChildAllocCount(e4), table[j := HugePageEntry(pframe, flags)], b.dirs), Ok(FlushAll), [])
  }

  lemma Map1GBranchCounted<FE>(b: Branch, j: nat, pframe: nat, flags: MapFlags, alloc: Result<nat, FE>)
    requires BranchWf(b) && j < ENTRIES && CountedBranch(b)
    ensures CountedBranch(Map1GBranch(b, j, pframe, flags, alloc).state)
  {
    var leaf := HugePageEntry(pframe, flags);
    if b.entry.present {
      PresentCountUpdate(b.table, j, leaf);
      CountedDirsUpdate(b.table, b.dirs, j, leaf, b.dirs[j]);
    } else if alloc.Ok? {
      ZeroTableEmpty();
      PresentCountUpdate(ZeroTable(), j, leaf);
      CountedDirsZero(b.dirs);
      CountedDirsUpdate(ZeroTable(), b.dirs, j, leaf, b.dirs[j]);
    }
  }

  lemma Map1GBranchTranslate<FE>(b: Branch, j: nat, pframe: nat, flags: MapFlags, alloc: Result<nat, FE>)
    requires BranchWf(b) && j < ENTRIES
    ensures WalksAgreeOutside(Map1GBranch(b, j, pframe, flags, alloc).state, b, j)
    ensures Map1GBranch(b, j, pframe, flags, alloc).result.Ok? ==> forall k :: 0 <= k < ENTRIES ==> BranchTranslate(b, j, k).None?
  {
  }

  /** `map` for a 1 GiB page at `vframe`: the branch of its PML4 entry is the only one that changes. */
  function Map1GStep<FE>(t: Tables, pframe: nat, vframe: nat, flags: MapFlags, alloc: Result<nat, FE>)
    : (o: Outcome<Tables, Result<Flush, MapError<FE>>>)
    requires Wf(t)
    ensures Wf(o.state)
    ensures var i, j := P4Index(vframe), P3Index(vframe);
      && (o.result == Err(AlreadyMapped) <==> t.p4[i].present && t.p3[i][j].present)
      && (o.result.Err? && o.result.error.FrameAllocError? <==> !t.p4[i].present && alloc.Err?)
      && (!t.p4[i].present && alloc.Err? ==> o == Outcome(t, Err(FrameAllocError(alloc.error)), []))
    ensures o.result.Ok? ==> o.result.value == FlushAll && o.freed == []
    ensures o.result.Ok? ==> Translate(o.state, vframe) == Some(pframe)
  {
    var i := P4Index(vframe);
    var ob := Map1GBranch(BranchAt(t, i), P3Index(vframe), pframe, flags, alloc);
    WithBranchFacts(t, i, ob.state);
    Outcome(WithBranch(t, i, ob.state), ob.result, ob.freed)
  }

  /** `t1` translates every address outside slot `s` as `t` does. */
  ghost predicate SameOutsideSlot(t1: Tables, t: Tables, s: nat)
    requires Wf(t1) && Wf(t)
  {
    forall v :: Slot(v) != s ==> Translate(t1, v) == Translate(t, v)
  }

  /** Mapping a 1 GiB page keeps every count matching. */
  lemma Map1GKeepsCounted<FE>(t: Tables, pframe: nat, vframe: nat, flags: MapFlags, alloc: Result<nat, FE>)
    requires Wf(t) && Counted(t)
    ensures Counted(Map1GStep(t, pframe, vframe, flags, alloc).state)
  {
    var i := P4Index(vframe);
    var b := BranchAt(t, i);
    Map1GBranchCounted(b, P3Index(vframe), pframe, flags, alloc);
    WithBranchFacts(t, i, Map1GBranch(b, P3Index(vframe), pframe, flags, alloc).state);
  }

  /** Mapping a 1 GiB page changes the translation of no address outside its slot, and succeeds only where nothing was mapped. */
  lemma Map1GTranslate<FE>(t: Tables, pframe: nat, vframe: nat, flags: MapFlags, alloc: Result<nat, FE>)
    requires Wf(t)
    ensures SameOutsideSlot(Map1GStep(t, pframe, vframe, flags, alloc).state, t, Slot(vframe))
    ensures Map1GStep(t, pframe, vframe, flags, alloc).result.Ok? ==> Translate(t, vframe).None?
  {
    var i, j := P4Index(vframe), P3Index(vframe);
    var b := BranchAt(t, i);
    Map1GBranchTranslate(b, j, pframe, flags, alloc);
    WithBranchFacts(t, i, Map1GBranch(b, j, pframe, flags, alloc).state);
    forall v | Slot(v) != Slot(vframe)
      ensures Translate(Map1GStep(t, pframe, vframe, flags, alloc).state, v) == Translate(t, v)
    {
      SlotsApart(v, vframe);
    }
  }

  /**
   * Whether `unmap` of the 1 GiB page at slot `j` of the branch can decrement
   * the PML4 entry's count without underflow: the count is positive whenever
   * the walk reaches a 1 GiB leaf.
   */
  predicate CanUnmap1G(b: Branch, j: nat)
    requires BranchWf(b) && j < ENTRIES
  {
    b.entry.present && b.table[j].present && b.table[j].hugePage ==> b.entry.childAllocCount > 0
  }

  /** Matching counts rule out the underflow. */
  lemma CountedCanUnmap1G(t: Tables, vframe: nat)
    requires Wf(t) && Counted(t)
    ensures CanUnmap1G(BranchAt(t, P4Index(vframe)), P3Index(vframe))
  {
    var b, j := BranchAt(t, P4Index(vframe)), P3Index(vframe);
    if b.entry.present && b.table[j].present {
      PresentCountPositive(b.table, j);
    }
  }

  /**
   * `unmap` for the 1 GiB page at `vframe`, in the branch of its PML4 entry,
   * given the allocator's answer to the release of the table (`None` when it
   * succeeds). It fails with `NotMapped` when the walk finds no entry and
   * `InvalidSize` when the entry points to a directory. Otherwise it clears
   * the leaf and decrements the PML4 entry; when the count reaches zero it
   * hands the table back and clears the PML4 entry, unless the release fails,
   * which leaves the entry pointing to the emptied table.
   */
  function Unmap1GBranch<FE>(b: Branch, j: nat, vframe: nat, dealloc: Option<FE>)
    : (o: Outcome<Branch, Result<Flush, UnmapError<FE>>>)
    requires BranchWf(b) && j < ENTRIES && CanUnmap1G(b, j)
    ensures BranchWf(o.state)
    ensures o.result == Err(NotMapped) <==> !b.entry.present || !b.table[j].present
    ensures o.result == Err(InvalidSize) <==> b.entry.present && b.table[j].present && !b.table[j].hugePage
    ensures o.result == Err(NotMapped) || o.result == Err(InvalidSize) ==> o.state == b && o.freed == []
    ensures o.freed != [] ==> o.freed == [b.entry.paddr] && !o.state.entry.present
    ensures o.result.Ok? ==> forall a: nat :: Covers(o.result.value, a) <==> vframe <= a < vframe + SIZE_1G
    ensures o.result == Err(NotMapped) || o.result == Err(InvalidSize) || !o.state.entry.present || !o.state.table[j].present
  {
    if !b.entry.present || !b.table[j].present then Outcome(b, Err(NotMapped), [])
    else if !b.table[j].hugePage then Outcome(b, Err(InvalidSize), [])
    else
      var table := b.table[j := ZeroEntry()];
      var dec := DecChildAllocCount(b.entry);
      var flush := FlushRange(FrameRange(Frame(vframe), Frame(vframe + SIZE_1G)));
      if !dec.1 then Outcome(Branch(dec.0, table, b.dirs), Ok(flush), [])
      else if dealloc.Some? then Outcome(Branch(dec.0, table, b.dirs), Err(UnmapFrameAllocError(dealloc.value)), [])
      else Outcome(Branch(ZeroEntry(), table, b.dirs), Ok(flush), [b.entry.paddr])
  }

  lemma Unmap1GBranchCounted<FE>(b: Branch, j: nat, vframe: nat, dealloc: Option<FE>)
    requires BranchWf(b) && j < ENTRIES && CountedBranch(b)
    ensures CanUnmap1G(b, j)
    ensures var o := Unmap1GBranch(b, j, vframe, dealloc);
      && CountedBranch(o.state)
      && (o.freed != [] ==> NonePresent(b.table[j := ZeroEntry()]))
  {
    if b.entry.present && b.table[j].present {
      PresentCountPositive(b.table, j);
      PresentCountUpdate(b.table, j, ZeroEntry());
      PresentCountZero(b.table[j := ZeroEntry()]);
    }
  }

  lemma Unmap1GBranchTranslate<FE>(b: Branch, j: nat, vframe: nat, dealloc: Option<FE>)
    requires BranchWf(b) && j < ENTRIES && CountedBranch(b)
    ensures CanUnmap1G(b, j)
    ensures WalksAgreeOutside(Unmap1GBranch(b, j, vframe, dealloc).state, b, j)
    ensures Unmap1GBranch(b, j, vframe, dealloc).result.Ok? ==> forall k :: 0 <= k < ENTRIES ==> BranchTranslate(b, j, k).Some?
  {
    Unmap1GBranchCounted(b, j, vframe, dealloc);
    var o := Unmap1GBranch(b, j, vframe, dealloc);
    forall j', k | 0 <= j' < ENTRIES && j' != j && 0 <= k < ENTRIES
      ensures BranchTranslate(o.state, j', k) == BranchTranslate(b, j', k)
    {
      assert o.state.table[j'] == b.table[j'] && o.state.dirs == b.dirs;
      if o.freed != [] {
        assert !b.table[j := ZeroEntry()][j'].present;
      }
    }
  }

  /** `unmap` for a 1 GiB page at `vframe`: the branch of its PML4 entry is the only one that changes. */
  function Unmap1GStep<FE>(t: Tables, vframe: nat, dealloc: Option<FE>): (o: Outcome<Tables, Result<Flush, UnmapError<FE>>>)
    requires Wf(t) && CanUnmap1G(BranchAt(t, P4Index(vframe)), P3Index(vframe))
    ensures Wf(o.state)
    ensures var i, j := P4Index(vframe), P3Index(vframe);
      && (o.result == Err(NotMapped) <==> !t.p4[i].present || !t.p3[i][j].present)
      && (o.result == Err(InvalidSize) <==> t.p4[i].present && t.p3[i][j].present && !t.p3[i][j].hugePage)
      && (o.result == Err(NotMapped) || o.result == Err(InvalidSize) ==> o.state == t && o.freed == [])
      && (o.freed != [] ==> o.freed == [t.p4[i].paddr] && !o.state.p4[i].present)
    ensures o.result.Ok? ==> forall a: nat :: Covers(o.result.value, a) <==> vframe <= a < vframe + SIZE_1G
    ensures o.result == Err(NotMapped) || o.result == Err(InvalidSize) || Translate(o.state, vframe).None?
  {
    var i := P4Index(vframe);
    var ob := Unmap1GBranch(BranchAt(t, i), P3Index(vframe), vframe, dealloc);
    WithBranchFacts(t, i, ob.state);
    Outcome(WithBranch(t, i, ob.state), ob.result, ob.freed)
  }

  /**
   * Unmapping a 1 GiB page keeps every count matching, and the table it hands
   * back held no entry besides the removed leaf.
   */
  lemma Unmap1GKeepsCounted<FE>(t: Tables, vframe: nat, dealloc: Option<FE>)
    requires Wf(t) && Counted(t)
    ensures CanUnmap1G(BranchAt(t, P4Index(vframe)), P3Index(vframe))
    ensures var o := Unmap1GStep(t, vframe, dealloc);
      && Counted(o.state)
      && (o.freed != [] ==> NonePresent(t.p3[P4Index(vframe)][P3Index(vframe) := ZeroEntry()]))
  {
    var i := P4Index(vframe);
    var b := BranchAt(t, i);
    Unmap1GBranchCounted(b, P3Index(vframe), vframe, dealloc);
    WithBranchFacts(t, i, Unmap1GBranch(b, P3Index(vframe), vframe, dealloc).state);
  }

  /** Unmapping a 1 GiB page, under matching counts, changes the translation of no address outside its slot, and succeeds only where a 1 GiB page was mapped. */
  lemma Unmap1GTranslate<FE>(t: Tables, vframe: nat, dealloc: Option<FE>)
    requires Wf(t) && Counted(t)
    ensures CanUnmap1G(BranchAt(t, P4Index(vframe)), P3Index(vframe))
    ensures SameOutsideSlot(Unmap1GStep(t, vframe, dealloc).state, t, Slot(vframe))
    ensures Unmap1GStep(t, vframe, dealloc).result.Ok? ==> Translate(t, vframe).Some?
  {
    var i, j := P4Index(vframe), P3Index(vframe);
    var b := BranchAt(t, i);
    Unmap1GBranchTranslate(b, j, vframe, dealloc);
    WithBranchFacts(t, i, Unmap1GBranch(b, j, vframe, dealloc).state);
    forall v | Slot(v) != Slot(vframe)
      ensures Translate(Unmap1GStep(t, vframe, dealloc).state, v) == Translate(t, v)
    {
      SlotsApart(v, vframe);
    }
  }

  // ------------------------------------------------------------- 2 MiB pages

  /** How many tables `map` of a 2 MiB page at slot `j` of the branch must allocate: a page-directory-pointer table and a directory, a directory, or none. */
  function TablesNeeded2M(b: Branch, j: nat): nat
    requires BranchWf(b) && j < ENTRIES
  {
    if !b.entry.present then 2 else if !b.table[j].present then 1 else 0
  }

  /**
   * `map` for a 2 MiB page at slot `j`, `k` of the branch of its PML4 entry,
   * given the allocator's answers to the (at most two) table requests it
   * makes, in order. The PML4 entry and the page-directory-pointer entry are
   * each created over a fresh table or widened by `flags`, and stay so on
   * every later error; on an error the allocation guard hands back the tables
   * it allocated, even one the PML4 entry now points to. The leaf goes into
   * the empty directory slot and the page-directory-pointer entry counts it.
   *
   * The PML4 entry's count goes up when its table gained an entry, that is
   * when a directory was allocated, and a present 1 GiB leaf in slot `j`
   * means the slot is already mapped. As written (`asWritten`), the count
   * goes up when the page-directory-pointer table itself was allocated
   * instead, and a 1 GiB leaf is taken for a directory: its frame is written
   * into, the map succeeds, and the slot still translates through the leaf.
   */
  function Map2MBranch<FE>(b: Branch, j: nat, k: nat, pframe: nat, flags: MapFlags,
                           first: Result<nat, FE>, second: Result<nat, FE>, asWritten: bool)
    : (o: Outcome<Branch, Result<Flush, MapError<FE>>>)
    requires BranchWf(b) && j < ENTRIES && k < ENTRIES
    ensures BranchWf(o.state)
    ensures var n := TablesNeeded2M(b, j);
      && (o.result == Err(AlreadyMapped) <==> n == 0 && (b.dirs[j][k].present || (!asWritten && b.table[j].hugePage)))
      && (o.result.Err? && o.result.error.FrameAllocError? <==> (n >= 1 && first.Err?) || (n == 2 && first.Ok? && second.Err?))
      && (o.freed == if n == 2 && first.Ok? && second.Err? then [first.value] else [])
      && (o.result.Ok? && !(asWritten && n == 0 && b.table[j].hugePage) ==> BranchTranslate(o.state, j, k) == Some(pframe))
      && (o.result.Ok? && asWritten && n == 0 && b.table[j].hugePage ==> BranchTranslate(o.state, j, k) == BranchTranslate(b, j, k))
    ensures o.result.Ok? ==> o.result.value == FlushAll
  {
    if !b.entry.present && first.Err? then Outcome(b, Err(FrameAllocError(first.error)), [])
    else
      var tableAlloc := !b.entry.present;
      var e4 := if tableAlloc then CreatePageEntry(first.value, flags) else UpdatePageEntry(b.entry, flags);
      var table := if tableAlloc then ZeroTable() else b.table;
      var answer := if tableAlloc then second else first;
      var handedBack := if tableAlloc then [first.value] else [];
      if !table[j].present && answer.Err? then
        Outcome(Branch(e4, table, b.dirs), Err(FrameAllocError(answer.error)), handedBack)
      else if !asWritten && table[j].present && table[j].hugePage then
        Outcome(Branch(e4, table, b.dirs), Err(AlreadyMapped), handedBack)
      else
        var dirAlloc := !table[j].present;
        var e3 := if dirAlloc then CreatePageEntry(answer.value, flags) else UpdatePageEntry(table[j], flags);
        var dir := if dirAlloc then ZeroTable() else b.dirs[j];
        // A fresh directory has no present entry, so only an existing one can hold the slot.
        if !dirAlloc && dir[k].present then
          Outcome(Branch(e4, table[j := e3], b.dirs[j := dir]), Err(AlreadyMapped), [])
        else
          var countUp := if asWritten then tableAlloc else dirAlloc;
          Outcome(Branch(if countUp then IncChildAllocCount(e4) else e4,
                         table[j := IncChildAllocCount(e3)],
                         b.dirs[j := dir[k := HugePageEntry(pframe, flags)]]),
                  Ok(FlushAll), [])
  }

  /** Mapping a 2 MiB page keeps every count matching in its branch. */
  lemma Map2MBranchCounted<FE>(b: Branch, j: nat, k: nat, pframe: nat, flags: MapFlags,
                               first: Result<nat, FE>, second: Result<nat, FE>)
    requires BranchWf(b) && j < ENTRIES && k < ENTRIES && CountedBranch(b)
    ensures CountedBranch(Map2MBranch(b, j, k, pframe, flags, first, second, false).state)
  {
    if b.entry.present {
      Map2MBranchCountedPresent(b, j, k, pframe, flags, first, second);
    } else {
      Map2MBranchCountedAbsent(b, j, k, pframe, flags, first, second);
    }
  }

  /** `Map2MBranchCounted` when the PML4 entry is absent. */
  lemma Map2MBranchCountedAbsent<FE>(b: Branch, j: nat, k: nat, pframe: nat, flags: MapFlags,
                                     first: Result<nat, FE>, second: Result<nat, FE>)
    requires BranchWf(b) && j < ENTRIES && k < ENTRIES && !b.entry.present
    ensures CountedBranch(Map2MBranch(b, j, k, pframe, flags, first, second, false).state)
  {
    var o := Map2MBranch(b, j, k, pframe, flags, first, second, false);
    ZeroTableEmpty();
    CountedDirsZero(b.dirs);
    if first.Err? {
      assert o.state == b;
    } else if second.Err? {
      assert o.state == Branch(CreatePageEntry(first.value, flags), ZeroTable(), b.dirs);
    } else {
      var leaf, e3 := HugePageEntry(pframe, flags), CreatePageEntry(second.value, flags);
      PresentCountUpdate(ZeroTable(), j, IncChildAllocCount(e3));
      PresentCountUpdate(ZeroTable(), k, leaf);
      CountedDirsUpdate(ZeroTable(), b.dirs, j, IncChildAllocCount(e3), ZeroTable()[k := leaf]);
      assert o.state == Branch(IncChildAllocCount(CreatePageEntry(first.value, flags)),
                               ZeroTable()[j := IncChildAllocCount(e3)], b.dirs[j := ZeroTable()[k := leaf]]);
    }
  }

  /** `Map2MBranchCounted` when the PML4 entry is present. */
  lemma Map2MBranchCountedPresent<FE>(b: Branch, j: nat, k: nat, pframe: nat, flags: MapFlags,
                                      first: Result<nat, FE>, second: Result<nat, FE>)
    requires BranchWf(b) && j < ENTRIES && k < ENTRIES && CountedBranch(b) && b.entry.present
    ensures CountedBranch(Map2MBranch(b, j, k, pframe, flags, first, second, false).state)
  {
    if !b.table[j].present {
      Map2MBranchCountedNewDir(b, j, k, pframe, flags, first, second);
    } else {
      Map2MBranchCountedOldDir(b, j, k, pframe, flags, first, second);
    }
  }

  /** `Map2MBranchCountedPresent` when the directory table has to be allocated. */
  lemma Map2MBranchCountedNewDir<FE>(b: Branch, j: nat, k: nat, pframe: nat, flags: MapFlags,
                                     first: Result<nat, FE>, second: Result<nat, FE>)
    requires BranchWf(b) && j < ENTRIES && k < ENTRIES && CountedBranch(b) && b.entry.present
    requires !b.table[j].present
    ensures CountedBranch(Map2MBranch(b, j, k, pframe, flags, first, second, false).state)
  {
    if first.Ok? {
      var leaf := HugePageEntry(pframe, flags);
      var e3 := CreatePageEntry(first.value, flags);
      ZeroTableEmpty();
      PresentCountUpdate(b.table, j, IncChildAllocCount(e3));
      PresentCountUpdate(ZeroTable(), k, leaf);
      CountedDirsUpdate(b.table, b.dirs, j, IncChildAllocCount(e3), ZeroTable()[k := leaf]);
    }
  }

  /** `Map2MBranchCountedPresent` when the directory table is there. */
  lemma Map2MBranchCountedOldDir<FE>(b: Branch, j: nat, k: nat, pframe: nat, flags: MapFlags,
                                     first: Result<nat, FE>, second: Result<nat, FE>)
    requires BranchWf(b) && j < ENTRIES && k < ENTRIES && CountedBranch(b) && b.entry.present
    requires b.table[j].present
    ensures CountedBranch(Map2MBranch(b, j, k, pframe, flags, first, second, false).state)
  {
    if b.table[j].hugePage {
      assert Map2MBranch(b, j, k, pframe, flags, first, second, false).state
        == Branch(UpdatePageEntry(b.entry, flags), b.table, b.dirs);
    } else if b.dirs[j][k].present {
      Map2MBranchCountedTaken(b, j, k, pframe, flags, first, second);
    } else {
      Map2MBranchCountedFree(b, j, k, pframe, flags, first, second);
    }
  }

  /** `Map2MBranchCountedOldDir` when the slot is taken: only the entries' flags change. */
  lemma Map2MBranchCountedTaken<FE>(b: Branch, j: nat, k: nat, pframe: nat, flags: MapFlags,
                                    first: Result<nat, FE>, second: Result<nat, FE>)
    requires BranchWf(b) && j < ENTRIES && k < ENTRIES && CountedBranch(b) && b.entry.present
    requires b.table[j].present && !b.table[j].hugePage && b.dirs[j][k].present
    ensures CountedBranch(Map2MBranch(b, j, k, pframe, flags, first, second, false).state)
  {
    var e3 := UpdatePageEntry(b.table[j], flags);
    assert Map2MBranch(b, j, k, pframe, flags, first, second, false).state
      == Branch(UpdatePageEntry(b.entry, flags), b.table[j := e3], b.dirs[j := b.dirs[j]]);
    PresentCountUpdate(b.table, j, e3);
    CountedDirsUpdate(b.table, b.dirs, j, e3, b.dirs[j]);
  }

  /** `Map2MBranchCountedOldDir` when the slot is free: the directory entry counts one more. */
  lemma Map2MBranchCountedFree<FE>(b: Branch, j: nat, k: nat, pframe: nat, flags: MapFlags,
                                   first: Result<nat, FE>, second: Result<nat, FE>)
    requires BranchWf(b) && j < ENTRIES && k < ENTRIES && CountedBranch(b) && b.entry.present
    requires b.table[j].present && !b.table[j].hugePage && !b.dirs[j][k].present
    ensures CountedBranch(Map2MBranch(b, j, k, pframe, flags, first, second, false).state)
  {
    var e3 := IncChildAllocCount(UpdatePageEntry(b.table[j], flags));
    var leaf := HugePageEntry(pframe, flags);
    assert Map2MBranch(b, j, k, pframe, flags, first, second, false).state
      == Branch(UpdatePageEntry(b.entry, flags), b.table[j := e3], b.dirs[j := b.dirs[j][k := leaf]]);
    PresentCountUpdate(b.table, j, e3);
    PresentCountUpdate(b.dirs[j], k, leaf);
    CountedDirsUpdate(b.table, b.dirs, j, e3, b.dirs[j][k := leaf]);
  }

  /** Mapping a 2 MiB page changes, in its branch, the walk of no other slot. */
  lemma Map2MBranchTranslate<FE>(b: Branch, j: nat, k: nat, pframe: nat, flags: MapFlags,
                                 first: Result<nat, FE>, second: Result<nat, FE>, asWritten: bool)
    requires BranchWf(b) && j < ENTRIES && k < ENTRIES
    ensures WalksAgreeExcept(Map2MBranch(b, j, k, pframe, flags, first, second, asWritten).state, b, j, k)
    ensures Map2MBranch(b, j, k, pframe, flags, first, second, asWritten).result.Ok? ==>
      BranchTranslate(b, j, k).None? || (asWritten && b.table[j].hugePage && TablesNeeded2M(b, j) == 0)
  {
    if !b.entry.present {
      Map2MBranchTranslateFresh(b, j, k, pframe, flags, first, second, asWritten);
    } else if !b.table[j].present {
      Map2MBranchTranslateNewDir(b, j, k, pframe, flags, first, second, asWritten);
    } else {
      Map2MBranchTranslateExisting(b, j, k, pframe, flags, first, second, asWritten);
    }
  }

  /** `Map2MBranchTranslate` when the PML4 entry is absent. */
  lemma Map2MBranchTranslateFresh<FE>(b: Branch, j: nat, k: nat, pframe: nat, flags: MapFlags,
                                 first: Result<nat, FE>, second: Result<nat, FE>, asWritten: bool)
    requires BranchWf(b) && j < ENTRIES && k < ENTRIES && !b.entry.present
    ensures WalksAgreeExcept(Map2MBranch(b, j, k, pframe, flags, first, second, asWritten).state, b, j, k)
    ensures Map2MBranch(b, j, k, pframe, flags, first, second, asWritten).result.Ok? ==>
      BranchTranslate(b, j, k).None? || (asWritten && b.table[j].hugePage && TablesNeeded2M(b, j) == 0)
  {
    var o := Map2MBranch(b, j, k, pframe, flags, first, second, asWritten);
    if first.Ok? && second.Ok? {
      var e3 := CreatePageEntry(second.value, flags);
      assert !ZeroTable()[j].present && !ZeroTable()[k].present;
      assert o.state.table == ZeroTable()[j := IncChildAllocCount(e3)];
      assert o.state.dirs == b.dirs[j := ZeroTable()[k := HugePageEntry(pframe, flags)]];
    }
  }

  /** `Map2MBranchTranslate` when the PML4 entry is present and slot `j` of its table is not. */
  lemma Map2MBranchTranslateNewDir<FE>(b: Branch, j: nat, k: nat, pframe: nat, flags: MapFlags,
                                 first: Result<nat, FE>, second: Result<nat, FE>, asWritten: bool)
    requires BranchWf(b) && j < ENTRIES && k < ENTRIES && b.entry.present && !b.table[j].present
    ensures WalksAgreeExcept(Map2MBranch(b, j, k, pframe, flags, first, second, asWritten).state, b, j, k)
    ensures Map2MBranch(b, j, k, pframe, flags, first, second, asWritten).result.Ok? ==>
      BranchTranslate(b, j, k).None? || (asWritten && b.table[j].hugePage && TablesNeeded2M(b, j) == 0)
  {
    var o := Map2MBranch(b, j, k, pframe, flags, first, second, asWritten);
    if first.Ok? {
      var e3 := CreatePageEntry(first.value, flags);
      assert !ZeroTable()[k].present;
      assert o.state.table == b.table[j := IncChildAllocCount(e3)];
      assert o.state.dirs == b.dirs[j := ZeroTable()[k := HugePageEntry(pframe, flags)]];
    }
  }

  /** `Map2MBranchTranslate` when the PML4 entry and slot `j` of its table are both present. */
  lemma Map2MBranchTranslateExisting<FE>(b: Branch, j: nat, k: nat, pframe: nat, flags: MapFlags,
                                 first: Result<nat, FE>, second: Result<nat, FE>, asWritten: bool)
    requires BranchWf(b) && j < ENTRIES && k < ENTRIES && b.entry.present && b.table[j].present
    ensures WalksAgreeExcept(Map2MBranch(b, j, k, pframe, flags, first, second, asWritten).state, b, j, k)
    ensures Map2MBranch(b, j, k, pframe, flags, first, second, asWritten).result.Ok? ==>
      BranchTranslate(b, j, k).None? || (asWritten && b.table[j].hugePage && TablesNeeded2M(b, j) == 0)
  {
    var o := Map2MBranch(b, j, k, pframe, flags, first, second, asWritten);
    var e3 := UpdatePageEntry(b.table[j], flags);
    if !asWritten && b.table[j].hugePage {
      assert o.state == Branch(UpdatePageEntry(b.entry, flags), b.table, b.dirs);
    } else if b.dirs[j][k].present {
      assert o.state == Branch(UpdatePageEntry(b.entry, flags), b.table[j := e3], b.dirs[j := b.dirs[j]]);
    } else {
      assert o.state.table == b.table[j := IncChildAllocCount(e3)];
      assert o.state.dirs == b.dirs[j := b.dirs[j][k := HugePageEntry(pframe, flags)]];
    }
  }

  /** `map` for a 2 MiB page at `vframe`: the branch of its PML4 entry is the only one that changes. */
  function Map2MStep<FE>(t: Tables, pframe: nat, vframe: nat, flags: MapFlags,
                         first: Result<nat, FE>, second: Result<nat, FE>, asWritten: bool)
    : (o: Outcome<Tables, Result<Flush, MapError<FE>>>)
    requires Wf(t)
    ensures Wf(o.state)
    ensures var i, j, k := P4Index(vframe), P3Index(vframe), P2Index(vframe);
      var n := TablesNeeded2M(BranchAt(t, i), j);
      && (o.result == Err(AlreadyMapped) <==> n == 0 && (t.p2[i][j][k].present || (!asWritten && t.p3[i][j].hugePage)))
      && (o.result.Err? && o.result.error.FrameAllocError? <==> (n >= 1 && first.Err?) || (n == 2 && first.Ok? && second.Err?))
      && (o.freed == if n == 2 && first.Ok? && second.Err? then [first.value] else [])
      && (o.result.Ok? && !(asWritten && n == 0 && t.p3[i][j].hugePage) ==> Translate(o.state, vframe) == Some(pframe))
      && (o.result.Ok? && asWritten && n == 0 && t.p3[i][j].hugePage ==> Translate(o.state, vframe) == Translate(t, vframe))
    ensures o.result.Ok? ==> o.result.value == FlushAll
  {
    var i := P4Index(vframe);
    var ob := Map2MBranch(BranchAt(t, i), P3Index(vframe), P2Index(vframe), pframe, flags, first, second, asWritten);
    WithBranchFacts(t, i, ob.state);
    Outcome(WithBranch(t, i, ob.state), ob.result, ob.freed)
  }

  /** Mapping a 2 MiB page, with the corrected count, keeps every count matching. */
  lemma Map2MKeepsCounted<FE>(t: Tables, pframe: nat, vframe: nat, flags: MapFlags,
                              first: Result<nat, FE>, second: Result<nat, FE>)
    requires Wf(t) && Counted(t)
    ensures Counted(Map2MStep(t, pframe, vframe, flags, first, second, false).state)
  {
    var i, j, k := P4Index(vframe), P3Index(vframe), P2Index(vframe);
    var b := BranchAt(t, i);
    Map2MBranchCounted(b, j, k, pframe, flags, first, second);
    WithBranchFacts(t, i, Map2MBranch(b, j, k, pframe, flags, first, second, false).state);
  }

  /**
   * Mapping a 2 MiB page changes the translation of no address outside its
   * 2 MiB slot. It succeeds only where nothing was mapped; as written, also
   * where a 1 GiB page covers the slot and keeps translating it.
   */
  lemma Map2MTranslate<FE>(t: Tables, pframe: nat, vframe: nat, flags: MapFlags,
                           first: Result<nat, FE>, second: Result<nat, FE>, asWritten: bool)
    requires Wf(t)
    ensures forall v :: Slot(v) != Slot(vframe) || P2Index(v) != P2Index(vframe) ==>
      Translate(Map2MStep(t, pframe, vframe, flags, first, second, asWritten).state, v) == Translate(t, v)
    ensures Map2MStep(t, pframe, vframe, flags, first, second, asWritten).result.Ok? ==>
      Translate(t, vframe).None? || (asWritten && Translate(Map2MStep(t, pframe, vframe, flags, first, second, asWritten).state, vframe) == Translate(t, vframe))
  {
    var i, j, k := P4Index(vframe), P3Index(vframe), P2Index(vframe);
    var b := BranchAt(t, i);
    var ob := Map2MBranch(b, j, k, pframe, flags, first, second, asWritten);
    Map2MBranchTranslate(b, j, k, pframe, flags, first, second, asWritten);
    WithBranchFacts(t, i, ob.state);
    forall v | Slot(v) != Slot(vframe) || P2Index(v) != P2Index(vframe)
      ensures Translate(Map2MStep(t, pframe, vframe, flags, first, second, asWritten).state, v) == Translate(t, v)
    {
      if Slot(v) != Slot(vframe) {
        SlotsApart(v, vframe);
      }
    }
  }

  /**
   * The count slip. Take a PML4 entry whose table holds one 1 GiB page (at
   * `v1`) and a 2 MiB page mapped as written at `v2`, in another slot of the
   * same table: no page-directory-pointer table is allocated, so the PML4
   * count stays at one though the table now holds two entries. Unmapping the
   * 1 GiB page then drops the count to zero, hands the table back and clears
   * the PML4 entry: the 2 MiB mapping is lost, and its table released while
   * in use. With the corrected count the 2 MiB page survives.
   */
  lemma Map2MCountSlip<FE>(t: Tables, v1: nat, v2: nat, pframe: nat, flags: MapFlags,
                           first: Result<nat, FE>, second: Result<nat, FE>)
    requires Wf(t) && Counted(t)
    requires P4Index(v1) == P4Index(v2) && P3Index(v1) != P3Index(v2)
    requires var i := P4Index(v1);
      && t.p4[i].present && t.p4[i].childAllocCount == 1
      && t.p3[i][P3Index(v1)].present && t.p3[i][P3Index(v1)].hugePage
      && !t.p3[i][P3Index(v2)].present && first.Ok?
    ensures var t2 := Map2MStep(t, pframe, v2, flags, first, second, true).state;
      && Translate(t2, v2) == Some(pframe)
      && !Counted(t2)
      && CanUnmap1G(BranchAt(t2, P4Index(v1)), P3Index(v1))
      && Unmap1GStep<FE>(t2, v1, None).result.Ok?
      && Unmap1GStep<FE>(t2, v1, None).freed == [t.p4[P4Index(v1)].paddr]
      && Translate(Unmap1GStep<FE>(t2, v1, None).state, v2).None?
  {
    var i, j1, j2 := P4Index(v1), P3Index(v1), P3Index(v2);
    var t2 := Map2MStep(t, pframe, v2, flags, first, second, true).state;
    assert t2.p4[i].childAllocCount == 1;
    assert t2.p3[i][j2].present && t2.p3[i][j1] == t.p3[i][j1];
    PresentCountUpdate(t2.p3[i][j1 := ZeroEntry()], j1, t2.p3[i][j1]);
    assert t2.p3[i][j1 := ZeroEntry()][j1 := t2.p3[i][j1]] == t2.p3[i];
    PresentCountPositive(t2.p3[i][j1 := ZeroEntry()], j2);
    assert !CountedBranch(BranchAt(t2, i));
  }

  /** With the corrected count the same sequence keeps the 2 MiB page. */
  lemma Map2MCountFixed<FE>(t: Tables, v1: nat, v2: nat, pframe: nat, flags: MapFlags,
                            first: Result<nat, FE>, second: Result<nat, FE>)
    requires Wf(t) && Counted(t)
    requires P4Index(v1) == P4Index(v2) && P3Index(v1) != P3Index(v2)
    requires var i := P4Index(v1);
      && t.p4[i].present && t.p3[i][P3Index(v1)].present && t.p3[i][P3Index(v1)].hugePage
      && !t.p3[i][P3Index(v2)].present && first.Ok?
    ensures Map2MStep(t, pframe, v2, flags, first, second, false).result.Ok?
    ensures var fixed := Map2MStep(t, pframe, v2, flags, first, second, false).state;
      && CanUnmap1G(BranchAt(fixed, P4Index(v1)), P3Index(v1))
      && Translate(Unmap1GStep<FE>(fixed, v1, None).state, v2) == Some(pframe)
  {
    var fixed := Map2MStep(t, pframe, v2, flags, first, second, false).state;
    Map2MKeepsCounted(t, pframe, v2, flags, first, second);
    Unmap1GTranslate<FE>(fixed, v1, None);
    SlotIndices(v1);
    SlotIndices(v2);
  }

  /** Mapping a 1 GiB page where the PML4 entry is absent gives a table holding that page alone. */
  lemma Map1GIntoAbsent<FE>(t: Tables, v1: nat, pframe: nat, flags: MapFlags, alloc: Result<nat, FE>)
    requires Wf(t) && Counted(t) && !t.p4[P4Index(v1)].present && alloc.Ok?
    ensures var t1 := Map1GStep(t, pframe, v1, flags, alloc).state;
      && Counted(t1) && t1.p4[P4Index(v1)].present && t1.p4[P4Index(v1)].childAllocCount == 1
      && t1.p3[P4Index(v1)] == ZeroTable()[P3Index(v1) := HugePageEntry(pframe, flags)]
  {
    Map1GKeepsCounted(t, pframe, v1, flags, alloc);
    var t1 := Map1GStep(t, pframe, v1, flags, alloc).state;
    assert t1.p4[P4Index(v1)] == IncChildAllocCount(CreatePageEntry(alloc.value, flags));
  }

  /** Mapping a 1 GiB page at virtual 0 into the empty hierarchy sets up the slip for a 2 MiB page at virtual 1 GiB. */
  lemma Map2MCountSlipExample(t0: Tables)
    requires t0 == EmptyTables()
    ensures var t1 := Map1GStep<()>(t0, SIZE_1G, 0, {}, Ok(0x1000)).state;
      && Counted(t1) && t1.p4[0].present && t1.p4[0].childAllocCount == 1
      && t1.p3[0][0].present && t1.p3[0][0].hugePage && !t1.p3[0][1].present
  {
    IndexExamples();
    EmptyTablesFacts();
    Map1GIntoAbsent<()>(t0, 0, SIZE_1G, {}, Ok(0x1000));
  }

  lemma IndexExamples()
    ensures P4Index(0) == P4Index(SIZE_1G) == 0 && P3Index(0) == 0 && P3Index(SIZE_1G) == 1
  {
  }

  /**
   * The slip on a concrete run: map a 1 GiB page at virtual 0, then a 2 MiB
   * page at virtual 1 GiB, then unmap the 1 GiB page; the 2 MiB page is gone.
   */
  lemma Map2MCountSlipRun(t0: Tables)
    requires t0 == EmptyTables()
    ensures var t1 := Map1GStep<()>(t0, SIZE_1G, 0, {}, Ok(0x1000)).state;
      var t2 := Map2MStep<()>(t1, SIZE_2M, SIZE_1G, {}, Ok(0x2000), Ok(0x3000), true).state;
      && Translate(t2, SIZE_1G) == Some(SIZE_2M)
      && CanUnmap1G(BranchAt(t2, 0), 0)
      && Unmap1GStep<()>(t2, 0, None).freed == [0x1000]
      && Translate(Unmap1GStep<()>(t2, 0, None).state, SIZE_1G).None?
  {
    Map2MCountSlipExample(t0);
    IndexExamples();
    var t1 := Map1GStep<()>(t0, SIZE_1G, 0, {}, Ok(0x1000)).state;
    Map2MCountSlip<()>(t1, 0, SIZE_1G, SIZE_2M, {}, Ok(0x2000), Ok(0x3000));
  }
  /**
   * The corrected 2 MiB map succeeds exactly where nothing translated the
   * page before, and then the page translates to the new frame; where a
   * 1 GiB or 2 MiB page already covers it, the answer is `AlreadyMapped`.
   */
  lemma Map2MOnlyWhereUnmapped<FE>(t: Tables, pframe: nat, vframe: nat, flags: MapFlags,
                                   first: Result<nat, FE>, second: Result<nat, FE>)
    requires Wf(t)
    ensures var o := Map2MStep(t, pframe, vframe, flags, first, second, false);
      && (o.result.Ok? ==> Translate(t, vframe).None? && Translate(o.state, vframe) == Some(pframe))
      && (Translate(t, vframe).Some? ==> o.result == Err(AlreadyMapped))
  {
    Map2MTranslate(t, pframe, vframe, flags, first, second, false);
  }

  /**
   * As written, a 2 MiB map beneath a present 1 GiB page succeeds, though
   * the page keeps translating through the 1 GiB leaf and never reaches the
   * new frame: the leaf's frame was written into as if it were a directory.
   */
  lemma Map2MUnderHugePage<FE>(t: Tables, pframe: nat, vframe: nat, flags: MapFlags,
                               first: Result<nat, FE>, second: Result<nat, FE>)
    requires Wf(t)
    requires var i, j, k := P4Index(vframe), P3Index(vframe), P2Index(vframe);
      && t.p4[i].present && t.p3[i][j].present && t.p3[i][j].hugePage
      && !t.p2[i][j][k].present && t.p3[i][j].paddr != pframe
    ensures var o := Map2MStep(t, pframe, vframe, flags, first, second, true);
      && o.result == Ok(FlushAll)
      && Translate(o.state, vframe) == Translate(t, vframe) == Some(t.p3[P4Index(vframe)][P3Index(vframe)].paddr)
      && Translate(o.state, vframe) != Some(pframe)
    ensures Map2MStep(t, pframe, vframe, flags, first, second, false).result == Err(AlreadyMapped)
  {
  }

  /**
   * The same on a concrete run: map a 1 GiB page at virtual 0, then a 2 MiB
   * page at virtual 0. As written the second map reports success and
   * virtual 0 still translates to the 1 GiB frame; corrected, it reports
   * `AlreadyMapped`.
   */
  lemma Map2MUnderHugePageRun(t0: Tables)
    requires t0 == EmptyTables()
    ensures var t1 := Map1GStep<()>(t0, SIZE_1G, 0, {}, Ok(0x1000)).state;
      && Map2MStep<()>(t1, SIZE_2M, 0, {}, Ok(0x2000), Ok(0x3000), true).result == Ok(FlushAll)
      && Translate(Map2MStep<()>(t1, SIZE_2M, 0, {}, Ok(0x2000), Ok(0x3000), true).state, 0) == Some(SIZE_1G)
      && Map2MStep<()>(t1, SIZE_2M, 0, {}, Ok(0x2000), Ok(0x3000), false).result == Err(AlreadyMapped)
  {
    IndexExamples();
    EmptyTablesFacts();
    assert P2Index(0) == 0;
    var t1 := Map1GStep<()>(t0, SIZE_1G, 0, {}, Ok(0x1000)).state;
    Map1GIntoAbsent<()>(t0, 0, SIZE_1G, {}, Ok(0x1000));
    Map1GTranslate<()>(t0, SIZE_1G, 0, {}, Ok(0x1000));
    Map2MUnderHugePage<()>(t1, SIZE_2M, 0, {}, Ok(0x2000), Ok(0x3000));
  }
}
