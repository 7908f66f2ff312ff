/**
 * The Multiboot2 boot information parser of the boot stage
 * (boot/src/arch/x64/mb.rs): an 8-byte header holding the total size, then
 * tags, each a `u32` type and a `u32` size followed by its payload, each
 * starting on an 8-byte boundary. A memory map tag carries its own parser
 * over fixed-size entries.
 *
 * The boot information is the byte sequence `info`, with the header at
 * offset 0; the boot loader places it on an 8-byte boundary, so aligning an
 * offset is aligning the address. A pointer a tag carries (a command line, a
 * name) is its offset in `info`. A read that would leave `info` is undefined
 * behaviour in the source and the outcome `Err(ReadPastInfo)` here.
 */
module Multiboot {
  import opened Wrappers
  import opened Bytes
  import IntOps

  /** `size_of::<MultibootHeader>()` and `size_of::<TagHeader>()`. */
  const HEADER_SIZE: nat := 8
  const TAG_HEADER_SIZE: nat := 8
  /** Tags start on 8-byte boundaries. */
  const TAG_ALIGN: nat := 8
  /** `size_of::<RSDP1>()`. */
  const RSDP1_SIZE: nat := 20
  /** The bytes of a memory map entry that `next` reads: base, length and type. */
  const ENTRY_READ: nat := 20
  const U32_MODULUS: nat := 0x1_0000_0000
  const U64_MODULUS: nat := 0x1_0000_0000_0000_0000

  /** Why a walk of the boot information goes wrong. */
  datatype MbFault =
    | ReadPastInfo  // a read outside the boot information
    | NoProgress    // a skipped tag of size 0 on a boundary: the source loops forever

  /** `RSDP1`, copied out of the tag. */
  datatype Rsdp1 = Rsdp1(sig: seq<byte>, checksum: byte, oemid: seq<byte>, rev: byte, rsdt: nat)

  /** `MultibootTag`; a memory map carries the fields of its `MemoryMapParser`. */
  datatype Tag =
    | BasicMemory(memLower: nat, memUpper: nat)
    | BiosBootDevice(biosdev: nat, partition: nat, subPartition: nat)
    | BootCommandLine(cmdline: nat)
    | Module(modStart: nat, modEnd: nat, name: nat)
    | MemoryMap(entrySize: nat, start: nat, end: nat)
    | BootLoaderName(name: nat)
    | Rsdp(rsdp: Rsdp1)
    | ImageLoad(base: nat)

  /** The tag type number each variant is read from. */
  function TypeOf(t: Tag): nat {
    match t
    case BootCommandLine(_) => 1
    case BootLoaderName(_) => 2
    case Module(_, _, _) => 3
    case BasicMemory(_, _) => 4
    case BiosBootDevice(_, _, _) => 5
    case MemoryMap(_, _, _) => 6
    case Rsdp(_) => 14
    case ImageLoad(_) => 21
  }

  /** The tag types the parser knows; every other type is skipped. */
  predicate Known(ty: nat) {
    ty == 1 || ty == 2 || ty == 3 || ty == 4 || ty == 5 || ty == 6 || ty == 14 || ty == 21
  }

  /** How many payload bytes the parser reads for a tag of type `ty`. */
  function PayloadRead(ty: nat): nat {
    if ty == 3 || ty == 4 then 8
    else if ty == 5 then 12
    else if ty == 6 || ty == 21 then 4
    else if ty == 14 then RSDP1_SIZE
    else 0
  }

  /** The `total_size` field of the header. */
  function TotalSize(info: seq<byte>): (r: nat)
    requires |info| >= HEADER_SIZE
    ensures r < 0x1_0000_0000 && r % 0x100 == info[0] && r / 0x100_0000 == info[3]
  {
    Le32(info, 0)
  }

  /** The type and the size of the tag at `cur`. */
  function TagType(info: seq<byte>, cur: nat): nat
    requires cur + TAG_HEADER_SIZE <= |info|
  {
    Le32(info, cur)
  }

  function TagSize(info: seq<byte>, cur: nat): nat
    requires cur + TAG_HEADER_SIZE <= |info|
  {
    Le32(info, cur + 4)
  }

  /** `core::ptr::read` of an `RSDP1` at `at`. */
  function ReadRsdp1(info: seq<byte>, at: nat): (r: Rsdp1)
    requires at + RSDP1_SIZE <= |info|
    ensures |r.sig| == 8 && |r.oemid| == 6 && r.rsdt < 0x1_0000_0000
    ensures r.sig + [r.checksum] + r.oemid + [r.rev] == info[at..at + 16]
  {
    Rsdp1(info[at..at + 8], info[at + 8], info[at + 9..at + 15], info[at + 15], Le32(info, at + 16))
  }

  /**
   * The `match entry.ty` of `MultibootParser::next`: the tag at `cur`, read
   * from the payload after its header, or none for a type the parser does
   * not know. The memory sizes of a basic memory tag are turned from KiB
   * into bytes by a `u32` multiplication.
   */
  function TagBody(info: seq<byte>, cur: nat): (r: Result<Option<Tag>, MbFault>)
    requires cur + TAG_HEADER_SIZE <= |info|
    ensures r.Err? <==> cur + TAG_HEADER_SIZE + PayloadRead(TagType(info, cur)) > |info|
    ensures r.Ok? ==> (r.value.None? <==> !Known(TagType(info, cur)))
    ensures r.Ok? && r.value.Some? ==> TypeOf(r.value.value) == TagType(info, cur)
  {
    var ty := TagType(info, cur);
    var data := cur + TAG_HEADER_SIZE;
    if data + PayloadRead(ty) > |info| then Err(ReadPastInfo)
    else if ty == 1 then Ok(Some(BootCommandLine(data)))
    else if ty == 2 then Ok(Some(BootLoaderName(data)))
    else if ty == 3 then Ok(Some(Module(Le32(info, data), Le32(info, data + 4), data + 8)))
    else if ty == 4 then
      Ok(Some(BasicMemory(Le32(info, data) * 1024 % U32_MODULUS, Le32(info, data + 4) * 1024 % U32_MODULUS)))
    else if ty == 5 then Ok(Some(BiosBootDevice(Le32(info, data), Le32(info, data + 4), Le32(info, data + 8))))
    else if ty == 6 then Ok(Some(MemoryMap(Le32(info, data), data + 8, cur + TagSize(info, cur))))
    else if ty == 14 then Ok(Some(Rsdp(ReadRsdp1(info, data))))
    else if ty == 21 then Ok(Some(ImageLoad(Le32(info, data))))
    else Ok(None)
  }

  /** The memory sizes of a basic memory tag are the KiB counts in bytes, below 4 GiB. */
  lemma BasicMemoryInBytes(info: seq<byte>, cur: nat)
    requires cur + TAG_HEADER_SIZE + 8 <= |info| && TagType(info, cur) == 4
    requires Le32(info, cur + 8) < 0x40_0000 && Le32(info, cur + 12) < 0x40_0000
    ensures TagBody(info, cur) == Ok(Some(BasicMemory(Le32(info, cur + 8) * 1024, Le32(info, cur + 12) * 1024)))
  {
  }

  /** `<*const u8>::align_offset(8)`: the distance up to the next 8-byte boundary. */
  function AlignOffset(a: nat): (r: nat)
    ensures r < TAG_ALIGN && (a + r) % TAG_ALIGN == 0
  {
    (TAG_ALIGN - a % TAG_ALIGN) % TAG_ALIGN
  }

  /** Adding the alignment offset is rounding up to the next multiple of 8. */
  lemma AlignOffsetRoundsUp(a: nat)
    ensures a + AlignOffset(a) == IntOps.AlignUp(a, TAG_ALIGN)
  {
    var q := a / 8;
    var r := a % 8;
    if r == 0 {
      IntOps.DivUnique(a + 7, 8, q, 7);
    } else {
      IntOps.DivUnique(a + 7, 8, q + 1, r - 1);
    }
  }

  /** Where the cursor goes after the tag at `cur`: past its size, up to the next boundary. */
  function TagEnd(info: seq<byte>, cur: nat): (r: nat)
    requires cur + TAG_HEADER_SIZE <= |info|
    ensures r % TAG_ALIGN == 0 && cur + TagSize(info, cur) <= r < cur + TagSize(info, cur) + TAG_ALIGN
  {
    var past := cur + TagSize(info, cur);
    past + AlignOffset(past)
  }

  /**
   * What `MultibootParser::next` returns from `cur` and where it leaves the
   * cursor: none at the end, else the first known tag from `cur` on, with
   * the cursor past it; unknown tags are stepped over.
   */
  function NextFrom(info: seq<byte>, cur: nat, end: nat): (r: Result<(Option<Tag>, nat), MbFault>)
    decreases end - cur
    ensures r.Ok? ==> cur <= r.value.1
    ensures r.Ok? && r.value.0.None? ==> end <= r.value.1
    ensures r.Ok? && r.value.0.Some? ==> cur < end && r.value.1 % TAG_ALIGN == 0
  {
    if cur >= end then Ok((None, cur))
    else if cur + TAG_HEADER_SIZE > |info| then Err(ReadPastInfo)
    else match TagBody(info, cur)
      case Err(e) => Err(e)
      case Ok(Some(t)) => Ok((Some(t), TagEnd(info, cur)))
      case Ok(None) =>
        if TagEnd(info, cur) <= cur then Err(NoProgress)
        else NextFrom(info, TagEnd(info, cur), end)
  }

  /** A known tag before the end is returned, and the cursor moves past its size rounded up to 8. */
  lemma NextKnownTag(info: seq<byte>, cur: nat, end: nat)
    requires cur < end && cur + TAG_HEADER_SIZE <= |info| && Known(TagType(info, cur))
    requires cur + TAG_HEADER_SIZE + PayloadRead(TagType(info, cur)) <= |info|
    ensures NextFrom(info, cur, end).Ok? && NextFrom(info, cur, end).value.0.Some?
    ensures TypeOf(NextFrom(info, cur, end).value.0.value) == TagType(info, cur)
    ensures NextFrom(info, cur, end).value.1 == IntOps.AlignUp(cur + TagSize(info, cur), TAG_ALIGN)
  {
    AlignOffsetRoundsUp(cur + TagSize(info, cur));
  }

  /** An unknown tag is skipped: the walk goes on from the next boundary past it. */
  lemma NextSkipsUnknown(info: seq<byte>, cur: nat, end: nat)
    requires cur < end && cur + TAG_HEADER_SIZE <= |info| && !Known(TagType(info, cur))
    requires TagSize(info, cur) > 0
    ensures NextFrom(info, cur, end) == NextFrom(info, IntOps.AlignUp(cur + TagSize(info, cur), TAG_ALIGN), end)
  {
    AlignOffsetRoundsUp(cur + TagSize(info, cur));
  }

  /** An unknown tag of size 0 on a boundary leaves the cursor where it is: the source's loop never ends. */
  lemma ZeroSizeUnknownTagStalls(info: seq<byte>, cur: nat, end: nat)
    requires cur < end && cur + TAG_HEADER_SIZE <= |info| && !Known(TagType(info, cur))
    requires TagSize(info, cur) == 0 && cur % TAG_ALIGN == 0
    ensures TagEnd(info, cur) == cur
    ensures NextFrom(info, cur, end) == Err(NoProgress)
  {
  }

  /** `MultibootParser`: the boot information, the offset of the next tag and the offset of the end. */
  class MultibootParser {
    const info: seq<byte>
    var cur: nat
    const end: nat

    constructor (info: seq<byte>, cur: nat, end: nat)
      ensures this.info == info && this.cur == cur && this.end == end
    {
      this.info := info;
      this.cur := cur;
      this.end := end;
    }

    /**
     * `next`: reads tags until a known one, moving the cursor past each
     * tag's size and then up to the next 8-byte boundary.
     */
    method Next() returns (r: Result<Option<Tag>, MbFault>)
      modifies this
      ensures NextFrom(info, old(cur), end).Err? ==> r == Err(NextFrom(info, old(cur), end).error)
      ensures NextFrom(info, old(cur), end).Ok? ==>
        r == Ok(NextFrom(info, old(cur), end).value.0) && cur == NextFrom(info, old(cur), end).value.1
    {
      ghost var start := cur;
      while cur < end
        invariant NextFrom(info, cur, end) == NextFrom(info, start, end)
        decreases end - cur
      {
        if cur + TAG_HEADER_SIZE > |info| {
          return Err(ReadPastInfo);
        }
        var tag := TagBody(info, cur);
        if tag.Err? {
          return Err(tag.error);
        }
        var next := cur + Le32(info, cur + 4);
        next := next + AlignOffset(next);
        if tag.value.Some? {
          cur := next;
          return Ok(tag.value);
        }
        if next <= cur {
          return Err(NoProgress);
        }
        cur := next;
      }
      return Ok(None);
    }
  }

  /** `parse_mb`: the tags start past the header and end `total_size` bytes after it. */
  method ParseMb(info: seq<byte>) returns (p: MultibootParser)
    requires |info| >= HEADER_SIZE
    ensures fresh(p) && p.info == info && p.cur == HEADER_SIZE && p.end == TotalSize(info)
  {
    var size := Le32(info, 0);
    p := new MultibootParser(info, HEADER_SIZE, size);
  }

  /**
   * A boot information of 32 bytes: a basic memory tag of 640 KiB lower and
   * 64512 KiB upper memory, then the end tag (type 0, size 8). The first tag
   * is returned in bytes, the end tag is skipped and the walk is over.
   */
  lemma BasicMemoryThenEnd(info: seq<byte>)
    requires info == [32, 0, 0, 0, 0, 0, 0, 0,
                      4, 0, 0, 0, 16, 0, 0, 0, 128, 2, 0, 0, 0, 252, 0, 0,
                      0, 0, 0, 0, 8, 0, 0, 0]
    ensures TotalSize(info) == 32
    ensures NextFrom(info, HEADER_SIZE, 32) == Ok((Some(BasicMemory(640 * 1024, 64512 * 1024)), 24))
    ensures NextFrom(info, 24, 32) == Ok((None, 32))
  {
    assert TagType(info, 8) == 4 && TagSize(info, 8) == 16;
    assert Le32(info, 16) == 640 && Le32(info, 20) == 64512;
    BasicMemoryInBytes(info, 8);
    assert TagEnd(info, 8) == 24;
    assert TagType(info, 24) == 0 && TagSize(info, 24) == 8;
    EndTagEndsWalk(info, 24);
  }

  /** An aligned end tag (type 0, size 8) that closes the information is skipped, and the walk is over. */
  lemma EndTagEndsWalk(info: seq<byte>, cur: nat)
    requires cur % TAG_ALIGN == 0 && cur + TAG_HEADER_SIZE <= |info|
    requires TagType(info, cur) == 0 && TagSize(info, cur) == TAG_HEADER_SIZE
    ensures var past: nat := cur + TAG_HEADER_SIZE; NextFrom(info, cur, past) == Ok((None, past))
  {
    assert TagBody(info, cur) == Ok(None);
    assert TagEnd(info, cur) == cur + TAG_HEADER_SIZE;
  }

  // ------------------------------------------------------------------ the memory map

  /** `MemoryEntryType`. */
  datatype MemoryEntryType = Available | Reserved | Acpi | ReserveHibernate | Defective

  /** The type of a memory map entry: types 1, 3, 4 and 5 have their own kind, every other is reserved. */
  function EntryType(ty: nat): (r: MemoryEntryType)
    ensures r == Available <==> ty == 1
    ensures r == Acpi <==> ty == 3
    ensures r == ReserveHibernate <==> ty == 4
    ensures r == Defective <==> ty == 5
    ensures r == Reserved <==> ty != 1 && ty != 3 && ty != 4 && ty != 5
  {
    if ty == 1 then Available
    else if ty == 3 then Acpi
    else if ty == 4 then ReserveHibernate
    else if ty == 5 then Defective
    else Reserved
  }

  /** `MemoryEntry`: the kind and the byte range of a region. */
  datatype MemoryEntry = MemoryEntry(ty: MemoryEntryType, start: nat, end: nat)

  /** The base, the length and the type of the entry at `cur`. */
  function EntryBase(info: seq<byte>, cur: nat): nat
    requires cur + ENTRY_READ <= |info|
  {
    Le64(info, cur)
  }

  function EntryLength(info: seq<byte>, cur: nat): nat
    requires cur + ENTRY_READ <= |info|
  {
    Le64(info, cur + 8)
  }

  /** The entry at `cur`: its range ends `length` bytes past its base, by a `u64` addition. */
  function EntryAt(info: seq<byte>, cur: nat): (r: Result<MemoryEntry, MbFault>)
    ensures r.Err? <==> cur + ENTRY_READ > |info|
    ensures r.Ok? ==> r.value.start < U64_MODULUS && r.value.end < U64_MODULUS
  {
    if cur + ENTRY_READ > |info| then Err(ReadPastInfo)
    else
      var base := EntryBase(info, cur);
      Ok(MemoryEntry(EntryType(Le32(info, cur + 16)), base, (base + EntryLength(info, cur)) % U64_MODULUS))
  }

  /** A region that does not wrap around the address space is exactly `length` bytes long. */
  lemma EntrySpan(info: seq<byte>, cur: nat)
    requires cur + ENTRY_READ <= |info| && EntryBase(info, cur) + EntryLength(info, cur) < U64_MODULUS
    ensures EntryAt(info, cur).Ok?
    ensures EntryAt(info, cur).value.start == EntryBase(info, cur)
    ensures EntryAt(info, cur).value.end - EntryAt(info, cur).value.start == EntryLength(info, cur)
  {
  }

  /** The entries from `cur` to `end`, `entrySize` bytes apart. */
  function EntriesFrom(info: seq<byte>, entrySize: nat, cur: nat, end: nat): (r: Result<seq<MemoryEntry>, MbFault>)
    requires entrySize > 0
    decreases end - cur
  {
    if cur >= end then Ok([])
    else match EntryAt(info, cur)
      case Err(e) => Err(e)
      case Ok(entry) =>
        match EntriesFrom(info, entrySize, cur + entrySize, end)
        case Err(e) => Err(e)
        case Ok(rest) => Ok([entry] + rest)
  }

  /** The entries that are there are `ceil((end - cur) / entrySize)` many, the `i`th at `cur + i * entrySize`. */
  lemma {:induction false} EntriesCount(info: seq<byte>, entrySize: nat, cur: nat, end: nat)
    requires entrySize > 0 && EntriesFrom(info, entrySize, cur, end).Ok?
    ensures cur >= end ==> EntriesFrom(info, entrySize, cur, end).value == []
    ensures cur < end ==> |EntriesFrom(info, entrySize, cur, end).value| == IntOps.CeilDiv(end - cur, entrySize)
    ensures forall i :: 0 <= i < |EntriesFrom(info, entrySize, cur, end).value| ==>
      EntryAt(info, cur + i * entrySize) == Ok(EntriesFrom(info, entrySize, cur, end).value[i])
    decreases end - cur
  {
    if cur < end {
      var es := EntriesFrom(info, entrySize, cur, end).value;
      var rest := EntriesFrom(info, entrySize, cur + entrySize, end).value;
      assert es == [EntryAt(info, cur).value] + rest;
      EntriesCount(info, entrySize, cur + entrySize, end);
      CeilDivStep(end - cur, entrySize);
      forall i | 0 <= i < |es|
        ensures EntryAt(info, cur + i * entrySize) == Ok(es[i])
      {
        if i > 0 {
          assert es[i] == rest[i - 1];
          assert cur + i * entrySize == cur + entrySize + (i - 1) * entrySize by {
            assert i * entrySize == entrySize + (i - 1) * entrySize;
          }
        }
      }
    }
  }

  /** Taking one entry off a non-empty span leaves one entry fewer to cover. */
  lemma CeilDivStep(d: nat, size: nat)
    requires d > 0 && size > 0
    ensures d <= size ==> IntOps.CeilDiv(d, size) == 1
    ensures d > size ==> IntOps.CeilDiv(d, size) == IntOps.CeilDiv(d - size, size) + 1
  {
    if d > size {
      IntOps.DivUnique(d + size - 1, size, IntOps.CeilDiv(d - size, size) + 1, (d - 1) % size);
    } else {
      IntOps.DivUnique(d + size - 1, size, 1, d - 1);
    }
  }

  /** `MemoryMapParser`: the size of an entry, the offset of the next entry and the offset of the end. */
  class MemoryMapParser {
    const info: seq<byte>
    const entrySize: nat
    var cur: nat
    const end: nat

    /** The parser a memory map tag carries: from the first entry to the end of the tag. */
    constructor (info: seq<byte>, t: Tag)
      requires t.MemoryMap?
      ensures this.info == info && entrySize == t.entrySize && cur == t.start && end == t.end
    {
      this.info := info;
      entrySize := t.entrySize;
      cur := t.start;
      end := t.end;
    }

    /** `next`: none from the end on; else the entry at `cur`, moving on by the entry size. */
    method Next() returns (r: Result<Option<MemoryEntry>, MbFault>)
      modifies this
      ensures old(cur) >= end ==> r == Ok(None) && cur == old(cur)
      ensures old(cur) < end && EntryAt(info, old(cur)).Err? ==> r == Err(ReadPastInfo)
      ensures old(cur) < end && EntryAt(info, old(cur)).Ok? ==>
        r == Ok(Some(EntryAt(info, old(cur)).value)) && cur == old(cur) + entrySize
    {
      if cur >= end {
        return Ok(None);
      }
      if cur + ENTRY_READ > |info| {
        return Err(ReadPastInfo);
      }
      var base := Le64(info, cur);
      var length := Le64(info, cur + 8);
      var ty := EntryType(Le32(info, cur + 16));
      cur := cur + entrySize;
      r := Ok(Some(MemoryEntry(ty, base, (base + length) % U64_MODULUS)));
    }

    /** Every entry of the map, in order, by calling `next` until it returns none. */
    method Collect() returns (r: Result<seq<MemoryEntry>, MbFault>)
      requires entrySize > 0
      modifies this
      ensures r == EntriesFrom(info, entrySize, old(cur), end)
    {
      var entries: seq<MemoryEntry> := [];
      ghost var start := cur;
      assert Prepend([], EntriesFrom(info, entrySize, cur, end)) == EntriesFrom(info, entrySize, cur, end) by {
        if EntriesFrom(info, entrySize, cur, end).Ok? {
          assert [] + EntriesFrom(info, entrySize, cur, end).value == EntriesFrom(info, entrySize, cur, end).value;
        }
      }
      while cur < end
        invariant EntriesFrom(info, entrySize, start, end) == Prepend(entries, EntriesFrom(info, entrySize, cur, end))
        decreases end - cur
      {
        ghost var before := cur;
        var e := Next();
        if e.Err? {
          assert EntriesFrom(info, entrySize, before, end).Err?;
          return Err(e.error);
        }
        assert EntriesFrom(info, entrySize, before, end) == Prepend([e.value.value], EntriesFrom(info, entrySize, cur, end));
        PrependTwice(entries, [e.value.value], EntriesFrom(info, entrySize, cur, end));
        entries := entries + [e.value.value];
      }
      assert entries + [] == entries;
      r := Ok(entries);
    }
  }

  /** `entries` before the result, when it is a success. */
  function Prepend(entries: seq<MemoryEntry>, r: Result<seq<MemoryEntry>, MbFault>): Result<seq<MemoryEntry>, MbFault> {
    match r
    case Ok(rest) => Ok(entries + rest)
    case Err(e) => Err(e)
  }

  lemma PrependTwice(a: seq<MemoryEntry>, b: seq<MemoryEntry>, r: Result<seq<MemoryEntry>, MbFault>)
    ensures Prepend(a, Prepend(b, r)) == Prepend(a + b, r)
  {
    if r.Ok? {
      assert a + (b + r.value) == (a + b) + r.value;
    }
  }
}
