/**
 * The ACPI tables read at boot (boot/src/arch/x64/acpi.rs): the checksum of
 * a system description table, the RSDT's list of table addresses and the
 * search for the MADT in it, and the walk over the MADT's variable-length
 * entries.
 *
 * A table is the sequence of its bytes, from its header on. The headers
 * that the RSDT points to are given by a map from their physical address to
 * their 4-byte signature. Multi-byte fields are little-endian. A `panic!`
 * (an `assert!`, a `usize` subtraction that underflows) and a read past the
 * bytes of a table are the outcome `Err(..)`.
 */
module Acpi {
  import opened Wrappers
  import opened Bytes
  import IntOps

  /** `size_of::<SDTHeader>()`, which is also `size_of::<RSDT>()`. */
  const HEADER_SIZE: nat := 36
  /** `size_of::<MADT>()`: the header, `lapic_address` and `flags`. */
  const MADT_SIZE: nat := 44
  /** Offset of `SDTHeader::length`. */
  const LENGTH_AT: nat := 4
  /** Offset of `SDTHeader::checksum`. */
  const CHECKSUM_AT: nat := 9
  /** `MADT::SIGNATURE`. */
  const MADT_SIGNATURE: seq<byte> := [65, 80, 73, 67]

  /** The panics and out-of-table reads of the ACPI code. */
  datatype AcpiPanic = LengthUnderflow | EntriesMisaligned | ReadPastTable

  /** `SDTHeader::length`. */
  function Length(table: seq<byte>): nat
    requires |table| >= LENGTH_AT + 4
  {
    Le32(table, LENGTH_AT)
  }

  // ------------------------------------------------------------------ the checksum

  /** The plain sum of the bytes. */
  function Sum(bytes: seq<byte>): nat {
    if bytes == [] then 0 else Sum(bytes[..|bytes| - 1]) + bytes[|bytes| - 1]
  }

  /**
   * `SDTHeader::is_checksum_valid`: the first `length` bytes of the table,
   * added as wrapping `u8`s, give zero. The table must be readable for
   * `length` bytes.
   */
  method IsChecksumValid(table: seq<byte>) returns (valid: bool)
    requires |table| >= LENGTH_AT + 4 && Length(table) <= |table|
    ensures valid <==> Sum(table[..Length(table)]) % 256 == 0
  {
    var len := Length(table);
    var sum: nat := 0;
    var i := 0;
    while i < len
      invariant i <= len && sum == Sum(table[..i]) % 256
    {
      assert table[..i + 1][..i] == table[..i];
      SumModStep(Sum(table[..i]), table[i]);
      sum := (sum + table[i] as nat) % 256;
      i := i + 1;
    }
    valid := sum == 0;
  }

  /** Reducing the running sum before adding the next byte gives the same remainder. */
  lemma SumModStep(a: nat, b: nat)
    ensures (a % 256 + b) % 256 == (a + b) % 256
  {
    IntOps.ModAddMultiple(a % 256 + b, a / 256, 256);
  }

  lemma SumAppend(a: seq<byte>, b: seq<byte>)
    ensures Sum(a + b) == Sum(a) + Sum(b)
    decreases |b|
  {
    if b == [] {
      assert a + b == a;
    } else {
      assert (a + b)[..|a + b| - 1] == a + b[..|b| - 1];
      SumAppend(a, b[..|b| - 1]);
    }
  }

  /** Replacing one byte changes the sum by the difference. */
  lemma SumUpdate(s: seq<byte>, i: nat, v: byte)
    requires i < |s|
    ensures Sum(s[i := v]) + s[i] == Sum(s) + v
  {
    var t := s[i := v];
    assert s == s[..i] + [s[i]] + s[i + 1..];
    assert t == s[..i] + [v] + s[i + 1..];
    SumAppend(s[..i] + [s[i]], s[i + 1..]);
    SumAppend(s[..i], [s[i]]);
    SumAppend(s[..i] + [v], s[i + 1..]);
    SumAppend(s[..i], [v]);
  }

  /** The checksum byte a table builder writes: what makes the other bytes sum to zero. */
  function ChecksumFor(table: seq<byte>): byte
    requires |table| >= LENGTH_AT + 4 && CHECKSUM_AT < Length(table) <= |table|
  {
    var rest := Sum(table[..Length(table)]) - table[CHECKSUM_AT];
    (256 - rest % 256) % 256
  }

  /** A table whose checksum byte is set by `ChecksumFor` passes the check. */
  lemma ChecksumForIsValid(table: seq<byte>)
    requires |table| >= LENGTH_AT + 4 && CHECKSUM_AT < Length(table) <= |table|
    ensures var fixed := table[CHECKSUM_AT := ChecksumFor(table)];
      Length(fixed) == Length(table) && Sum(fixed[..Length(fixed)]) % 256 == 0
  {
    var len := Length(table);
    var v := ChecksumFor(table);
    var fixed := table[CHECKSUM_AT := v];
    assert Length(fixed) == len;
    assert fixed[..len] == table[..len][CHECKSUM_AT := v];
    assert table[..len][CHECKSUM_AT] == table[CHECKSUM_AT];
    SumUpdate(table[..len], CHECKSUM_AT, v);
    var rest := Sum(table[..len]) - table[CHECKSUM_AT];
    assert Sum(fixed[..len]) == rest + v;
    assert (rest % 256 + v) % 256 == 0;
    assert rest + v == (rest / 256) * 256 + (rest % 256 + v);
  }

  // ------------------------------------------------------------------ the RSDT

  /**
   * `RSDT::sdt_ptr`: the number of 4-byte table addresses after the header;
   * the length minus the header underflows below 36 bytes, and the
   * `assert!` fails unless the rest is a whole number of addresses.
   */
  function SdtCount(rsdt: seq<byte>): (r: Result<nat, AcpiPanic>)
    requires |rsdt| >= LENGTH_AT + 4
    ensures r.Err? <==> Length(rsdt) < HEADER_SIZE || (Length(rsdt) - HEADER_SIZE) % 4 != 0
    ensures r.Ok? ==> HEADER_SIZE + 4 * r.value == Length(rsdt)
  {
    var length := Length(rsdt);
    if length < HEADER_SIZE then Err(LengthUnderflow)
    else
      var byteLen := length - HEADER_SIZE;
      if byteLen % 4 != 0 then Err(EntriesMisaligned) else Ok(byteLen / 4)
  }

  /** The `i`th table address of the RSDT. */
  function SdtAddr(rsdt: seq<byte>, i: nat): nat
    requires HEADER_SIZE + 4 * i + 4 <= |rsdt|
  {
    Le32(rsdt, HEADER_SIZE + 4 * i)
  }

  /** `RSDTIter`: the offset of the next table address and the offset past the last. */
  class RsdtIter {
    const rsdt: seq<byte>
    var cur: nat
    const end: nat

    ghost predicate Valid()
      reads this
    {
      HEADER_SIZE <= cur <= end <= |rsdt| && (cur - HEADER_SIZE) % 4 == 0 && (end - HEADER_SIZE) % 4 == 0
    }

    /** `RSDT::sdts`: from the first address to the end of the table. */
    constructor (table: seq<byte>, count: nat)
      requires HEADER_SIZE + 4 * count <= |table|
      ensures Valid() && rsdt == table && cur == HEADER_SIZE && end == HEADER_SIZE + 4 * count
    {
      rsdt := table;
      cur := HEADER_SIZE;
      end := HEADER_SIZE + 4 * count;
    }

    /** `RSDTIter::next`: the address at `cur`, moving on by four bytes, until `cur` is the end. */
    method Next() returns (r: Option<nat>)
      requires Valid()
      modifies this
      ensures Valid()
      ensures old(cur) == end ==> r == None && cur == end
      ensures old(cur) != end ==> cur == old(cur) + 4 && r == Some(SdtAddr(rsdt, (old(cur) - HEADER_SIZE) / 4))
    {
      if cur != end {
        r := Some(Le32(rsdt, cur));
        cur := cur + 4;
      } else {
        r := None;
      }
    }
  }

  /** The index of the first of the addresses `from..count` whose table has the given signature. */
  function FindSig(rsdt: seq<byte>, sigs: map<nat, seq<byte>>, sig: seq<byte>, from: nat, count: nat): (r: Option<nat>)
    requires HEADER_SIZE + 4 * count <= |rsdt|
    requires forall i :: 0 <= i < count ==> SdtAddr(rsdt, i) in sigs
    ensures r.Some? ==> from <= r.value < count && sigs[SdtAddr(rsdt, r.value)] == sig
    ensures r.Some? ==> forall j :: from <= j < r.value ==> sigs[SdtAddr(rsdt, j)] != sig
    ensures r.None? ==> forall j :: from <= j < count ==> sigs[SdtAddr(rsdt, j)] != sig
    decreases count - from
  {
    if from >= count then None
    else if sigs[SdtAddr(rsdt, from)] == sig then Some(from)
    else FindSig(rsdt, sigs, sig, from + 1, count)
  }

  /** Every table address of a well-formed RSDT names a readable header. */
  predicate HeadersMapped(rsdt: seq<byte>, sigs: map<nat, seq<byte>>)
    requires |rsdt| >= LENGTH_AT + 4
  {
    forall i :: 0 <= i < |rsdt| && HEADER_SIZE + 4 * i + 4 <= Length(rsdt) && HEADER_SIZE + 4 * i + 4 <= |rsdt| ==> SdtAddr(rsdt, i) in sigs
  }

  /**
   * `RSDT::madt`: the address of the first table whose signature is
   * `APIC`, none when there is none; `sdt_ptr`'s panics come first.
   */
  method Madt(rsdt: seq<byte>, sigs: map<nat, seq<byte>>) returns (r: Result<Option<nat>, AcpiPanic>)
    requires |rsdt| >= LENGTH_AT + 4 && Length(rsdt) <= |rsdt| && HeadersMapped(rsdt, sigs)
    ensures SdtCount(rsdt).Err? ==> r == Err(SdtCount(rsdt).error)
    ensures SdtCount(rsdt).Ok? && FindSig(rsdt, sigs, MADT_SIGNATURE, 0, SdtCount(rsdt).value).None? ==> r == Ok(None)
    ensures SdtCount(rsdt).Ok? && FindSig(rsdt, sigs, MADT_SIGNATURE, 0, SdtCount(rsdt).value).Some? ==>
      r == Ok(Some(SdtAddr(rsdt, FindSig(rsdt, sigs, MADT_SIGNATURE, 0, SdtCount(rsdt).value).value)))
  {
    var count := SdtCount(rsdt);
    if count.Err? {
      return Err(count.error);
    }
    var n := count.value;
    var it := new RsdtIter(rsdt, n);
    while true
      invariant it.Valid() && it.rsdt == rsdt && it.end == HEADER_SIZE + 4 * n
      invariant FindSig(rsdt, sigs, MADT_SIGNATURE, (it.cur - HEADER_SIZE) / 4, n)
                == FindSig(rsdt, sigs, MADT_SIGNATURE, 0, n)
      decreases it.end - it.cur
    {
      ghost var k := (it.cur - HEADER_SIZE) / 4;
      var sdt := it.Next();
      if sdt.None? {
        return Ok(None);
      }
      assert (it.cur - HEADER_SIZE) / 4 == k + 1;
      if sigs[sdt.value] == MADT_SIGNATURE {
        return Ok(Some(sdt.value));
      }
    }
  }

  /** The MADT the search returns is a table with the `APIC` signature, and no earlier table has it. */
  lemma MadtIsFirstApic(rsdt: seq<byte>, sigs: map<nat, seq<byte>>, n: nat)
    requires |rsdt| >= LENGTH_AT + 4 && Length(rsdt) <= |rsdt| && HeadersMapped(rsdt, sigs)
    requires SdtCount(rsdt) == Ok(n)
    ensures forall i :: 0 <= i < n ==> SdtAddr(rsdt, i) in sigs
    ensures var r := FindSig(rsdt, sigs, MADT_SIGNATURE, 0, n);
      (r.None? <==> forall j :: 0 <= j < n ==> sigs[SdtAddr(rsdt, j)] != MADT_SIGNATURE)
      && (r.Some? ==> sigs[SdtAddr(rsdt, r.value)] == MADT_SIGNATURE)
  {
    forall i | 0 <= i < n
      ensures SdtAddr(rsdt, i) in sigs
    {
      assert HEADER_SIZE + 4 * i + 4 <= Length(rsdt);
    }
  }

  // ------------------------------------------------------------------ the MADT entries

  /** `MADTEntry`: each variant holds the offset of its entry in the MADT. */
  datatype MadtEntry =
    | Lapic(at: nat)
    | IoApic(at: nat)
    | InterruptSourceOverride(at: nat)
    | Nmi(at: nat)
    | LapicAddressOverride(at: nat)
    | Unknown(at: nat)

  /** The variant for an entry type: 0, 1, 2, 4 and 5 are known, every other type is `Unknown`. */
  function EntryOfType(typ: byte, at: nat): (r: MadtEntry)
    ensures r.at == at
    ensures r.Unknown? <==> typ !in {0, 1, 2, 4, 5}
    ensures r.Lapic? <==> typ == 0
    ensures r.IoApic? <==> typ == 1
    ensures r.InterruptSourceOverride? <==> typ == 2
    ensures r.Nmi? <==> typ == 4
    ensures r.LapicAddressOverride? <==> typ == 5
  {
    match typ
    case 0 => Lapic(at)
    case 1 => IoApic(at)
    case 2 => InterruptSourceOverride(at)
    case 4 => Nmi(at)
    case 5 => LapicAddressOverride(at)
    case _ => Unknown(at)
  }

  /** One step of `MADTIter::next` at `cur`: the entry there and the offset past it (its `len` further on). */
  function EntryStep(madt: seq<byte>, cur: nat): (r: (MadtEntry, nat))
    requires cur + 2 <= |madt|
    ensures r.1 == cur + madt[cur + 1]
  {
    (EntryOfType(madt[cur], cur), cur + madt[cur + 1])
  }

  /**
   * The entries from `cur` reach `end` exactly: each has a non-zero
   * length, lies inside the table, and the next one starts where it ends.
   */
  ghost predicate EntriesWf(madt: seq<byte>, cur: nat, end: nat)
    decreases end - cur
  {
    cur == end
    || (cur < end && cur + 2 <= |madt| && madt[cur + 1] > 0 && EntriesWf(madt, cur + madt[cur + 1], end))
  }

  /** The entries from `cur` to `end` of a well-formed MADT. */
  ghost function EntriesOf(madt: seq<byte>, cur: nat, end: nat): seq<MadtEntry>
    requires EntriesWf(madt, cur, end)
    decreases end - cur
  {
    if cur == end then [] else [EntryStep(madt, cur).0] + EntriesOf(madt, EntryStep(madt, cur).1, end)
  }

  /** `MADTIter`: the offset of the next entry and the offset past the last. */
  class MadtIter {
    const madt: seq<byte>
    var cur: nat
    const end: nat

    /** `MADT::entries`: from the end of the MADT's fixed fields to `length`. */
    constructor (table: seq<byte>)
      requires |table| >= LENGTH_AT + 4 && Length(table) >= MADT_SIZE
      ensures madt == table && cur == MADT_SIZE && end == Length(table)
    {
      madt := table;
      cur := MADT_SIZE;
      end := MADT_SIZE + (Length(table) - MADT_SIZE);
    }

    /**
     * `MADTIter::next`: none when `cur` is the end; else the entry at
     * `cur`, moving on by its length. An entry header past the table's
     * bytes is a read outside the table.
     */
    method Next() returns (r: Result<Option<MadtEntry>, AcpiPanic>)
      modifies this
      ensures old(cur) == end ==> r == Ok(None) && cur == old(cur)
      ensures old(cur) != end && old(cur) + 2 > |madt| ==> r == Err(ReadPastTable) && cur == old(cur)
      ensures old(cur) != end && old(cur) + 2 <= |madt| ==>
        r == Ok(Some(EntryStep(madt, old(cur)).0)) && cur == EntryStep(madt, old(cur)).1
    {
      if cur == end {
        return Ok(None);
      }
      if cur + 2 > |madt| {
        return Err(ReadPastTable);
      }
      var typ := madt[cur];
      var len := madt[cur + 1];
      var entry := EntryOfType(typ, cur);
      cur := cur + len;
      r := Ok(Some(entry));
    }

    /** Iterating a well-formed entry list to the end yields its entries and stops exactly at the end. */
    method Collect() returns (entries: seq<MadtEntry>)
      requires EntriesWf(madt, cur, end)
      modifies this
      ensures cur == end && entries == EntriesOf(madt, old(cur), end)
    {
      entries := [];
      ghost var start := cur;
      while cur != end
        invariant EntriesWf(madt, cur, end)
        invariant entries + EntriesOf(madt, cur, end) == EntriesOf(madt, start, end)
        decreases end - cur
      {
        ghost var before := cur;
        EntriesUnfold(madt, cur, end);
        ghost var step := EntryStep(madt, cur);
        var e := Next();
        assert e == Ok(Some(step.0)) && cur == step.1;
        entries := entries + [e.value.value];
        assert entries + EntriesOf(madt, cur, end) == EntriesOf(madt, start, end);
      }
      var last := Next();
    }
  }

  /** A well-formed entry list that has not ended starts with the entry at `cur`. */
  lemma EntriesUnfold(madt: seq<byte>, cur: nat, end: nat)
    requires EntriesWf(madt, cur, end) && cur != end
    ensures cur + 2 <= |madt| && EntriesWf(madt, EntryStep(madt, cur).1, end)
    ensures EntriesOf(madt, cur, end) == [EntryStep(madt, cur).0] + EntriesOf(madt, EntryStep(madt, cur).1, end)
  {
  }

  /** An entry of length zero does not move the iterator: it is returned again and again and the walk never ends. */
  lemma ZeroLengthEntryStalls(madt: seq<byte>, cur: nat, end: nat)
    requires cur + 2 <= |madt| && madt[cur + 1] == 0 && cur != end
    ensures EntryStep(madt, cur).1 == cur
    ensures !EntriesWf(madt, cur, end)
  {
  }

  /** The two-entry body of a MADT: a local APIC (type 0, length 8), then an NMI source (type 3, length 10). */
  lemma TwoEntries(madt: seq<byte>)
    requires |madt| >= MADT_SIZE + 18
    requires madt[MADT_SIZE] == 0 && madt[MADT_SIZE + 1] == 8
    requires madt[MADT_SIZE + 8] == 3 && madt[MADT_SIZE + 9] == 10
    ensures EntriesWf(madt, MADT_SIZE, MADT_SIZE + 18)
    ensures EntriesOf(madt, MADT_SIZE, MADT_SIZE + 18) == [Lapic(MADT_SIZE), Unknown(MADT_SIZE + 8)]
  {
    assert EntryStep(madt, MADT_SIZE) == (Lapic(MADT_SIZE), MADT_SIZE + 8);
    assert EntryStep(madt, MADT_SIZE + 8) == (Unknown(MADT_SIZE + 8), MADT_SIZE + 18);
    assert EntriesWf(madt, MADT_SIZE + 18, MADT_SIZE + 18);
    assert EntriesWf(madt, MADT_SIZE + 8, MADT_SIZE + 18);
    assert EntriesOf(madt, MADT_SIZE + 8, MADT_SIZE + 18) == [Unknown(MADT_SIZE + 8)] + EntriesOf(madt, MADT_SIZE + 18, MADT_SIZE + 18);
  }
}
