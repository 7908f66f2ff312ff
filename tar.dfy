/**
 * The tar archive walker (lib/chos-lib/src/tar/mod.rs): an archive is a
 * whole number of 512-byte blocks; each entry is a header block followed by
 * its contents, padded to a block boundary, and the walk stops at the end of
 * the bytes or at a header with no name and size zero.
 *
 * The header fields read here follow the ustar layout of
 * lib/chos-lib/src/tar/raw.rs: the name at offset 0 (100 bytes), the size
 * at offset 124 (12 bytes of octal), the signature at offset 257 (6 bytes)
 * and the name prefix at offset 345 (155 bytes).
 */
module Tar {
  import opened Wrappers
  import opened Bytes
  import opened IntOps
  import opened TarUtil

  const BLOCK: nat := 512
  const NAME_AT: nat := 0
  const NAME_LEN: nat := 100
  const SIZE_AT: nat := 124
  const SIZE_LEN: nat := 12
  const SIG_AT: nat := 257
  const SIG_LEN: nat := 6
  const NAME_PRE_AT: nat := 345
  const NAME_PRE_LEN: nat := 155
  /** `b"ustar "`. */
  const USTAR_SIG: seq<byte> := [117, 115, 116, 97, 114, 32]

  datatype InvalidSizeError = InvalidSizeError

  /** `Tar::new`: the bytes are an archive only when they are a whole number of blocks. */
  function New(bytes: seq<byte>): (r: Result<seq<byte>, InvalidSizeError>)
    ensures r.Ok? <==> |bytes| % BLOCK == 0
    ensures r.Ok? ==> r.value == bytes
  {
    if |bytes| % BLOCK == 0 then Ok(bytes) else Err(InvalidSizeError)
  }

  /** A field of the header block at `at`. */
  function Field(bytes: seq<byte>, at: nat, offset: nat, len: nat): (r: seq<byte>)
    requires at + BLOCK <= |bytes| && offset + len <= BLOCK
    ensures |r| == len
  {
    bytes[at + offset..at + offset + len]
  }

  /** The bytes of a field are the block's bytes from the field's offset on. */
  lemma FieldBytes(bytes: seq<byte>, at: nat, offset: nat, len: nat)
    requires at + BLOCK <= |bytes| && offset + len <= BLOCK
    ensures forall i :: 0 <= i < len ==> Field(bytes, at, offset, len)[i] == bytes[at + offset + i]
  {
  }

  /** `FileHeader::is_ustar`. */
  predicate IsUstar(bytes: seq<byte>, at: nat)
    requires at + BLOCK <= |bytes|
  {
    Field(bytes, at, SIG_AT, SIG_LEN) == USTAR_SIG
  }

  /**
   * The first part of `FileHeader::name()` is empty: a ustar header
   * answers with its prefix when that is not empty and with its name
   * otherwise; any other header answers with its name.
   */
  predicate NameEmpty(bytes: seq<byte>, at: nat)
    requires at + BLOCK <= |bytes|
  {
    TrimNulls(Field(bytes, at, NAME_AT, NAME_LEN)) == []
    && (IsUstar(bytes, at) ==> TrimNulls(Field(bytes, at, NAME_PRE_AT, NAME_PRE_LEN)) == [])
  }

  /** `FileHeader::size`: the size field, read as octal up to its first NUL. */
  function HeaderSize(bytes: seq<byte>, at: nat): (r: Result<nat, InvalidOctalError>)
    requires at + BLOCK <= |bytes|
    ensures r.Ok? ==> r.value < Pow8(SIZE_LEN)
  {
    Pow8Monotone(|TrimNulls(Field(bytes, at, SIZE_AT, SIZE_LEN))|, SIZE_LEN);
    Octal(TrimNulls(Field(bytes, at, SIZE_AT, SIZE_LEN)))
  }

  /** An entry: where its header block starts, and its contents. */
  datatype Entry = Entry(header: nat, contents: seq<byte>)

  /**
   * Why a step fails: the size field is not octal (the `expect` on the
   * header panics), or the contents would run past the end of the archive.
   */
  datatype TarError = InvalidHeader | ContentsPastEnd

  /** Where the walk may stand: on a block boundary inside the archive, or at its end. */
  predicate CursorWf(bytes: seq<byte>, cur: nat) {
    |bytes| % BLOCK == 0 && cur % BLOCK == 0 && cur <= |bytes|
  }

  /**
   * One step of the walk from `cur`: what `TarIter::next` returns and where
   * the cursor goes. The walk stays on block boundaries inside the archive,
   * and an entry moves it strictly forward.
   */
  function Step(bytes: seq<byte>, cur: nat): (r: (Result<Option<Entry>, TarError>, nat))
    requires CursorWf(bytes, cur)
    ensures CursorWf(bytes, r.1)
    ensures (r.0.Ok? && r.0.value.Some?) <==> r.1 > cur
  {
    if cur >= |bytes| then (Ok(None), cur)
    else
      NextMultiple(cur, |bytes|, BLOCK);
      var size := HeaderSize(bytes, cur);
      if size.Err? then (Err(InvalidHeader), cur)
      else if size.value == 0 && NameEmpty(bytes, cur) then (Ok(None), cur)
      else if cur + BLOCK + size.value > |bytes| then (Err(ContentsPastEnd), cur)
      else
        FitsAligned(cur, size.value, |bytes|);
        (Ok(Some(Entry(cur, bytes[cur + BLOCK..cur + BLOCK + size.value]))), cur + BLOCK + AlignUp(size.value, BLOCK))
  }

  /** Contents that fit before the end still fit once padded to a block. */
  lemma FitsAligned(cur: nat, size: nat, len: nat)
    requires len % BLOCK == 0 && cur % BLOCK == 0 && cur + BLOCK + size <= len
    ensures cur + BLOCK + AlignUp(size, BLOCK) <= len
    ensures (cur + BLOCK + AlignUp(size, BLOCK)) % BLOCK == 0
  {
    var a := AlignUp(size, BLOCK);
    AlignUpBounds(size, BLOCK);
    var room := len - cur - BLOCK;
    assert room % BLOCK == 0;
    if room < a {
      NextMultiple(room, a, BLOCK);
    }
  }

  /**
   * What an entry is: its header sits at the cursor and its size field
   * reads as the length of its contents, which are the bytes right after
   * the header; the cursor then skips the header and the contents padded
   * to a block.
   */
  lemma StepEntry(bytes: seq<byte>, cur: nat)
    requires CursorWf(bytes, cur)
    requires Step(bytes, cur).0.Ok? && Step(bytes, cur).0.value.Some?
    ensures var e := Step(bytes, cur).0.value.value;
      e.header == cur && cur + BLOCK <= |bytes|
      && HeaderSize(bytes, cur) == Ok(|e.contents|)
      && cur + BLOCK + |e.contents| <= |bytes|
      && e.contents == bytes[cur + BLOCK..cur + BLOCK + |e.contents|]
      && Step(bytes, cur).1 == cur + BLOCK + AlignUp(|e.contents|, BLOCK)
  {
  }

  /**
   * When the walk ends: at the end of the bytes, or at a header whose size
   * is zero and whose name is empty; either way the cursor stays.
   */
  lemma StepEnds(bytes: seq<byte>, cur: nat)
    requires CursorWf(bytes, cur)
    ensures Step(bytes, cur).0 == Ok(None) <==>
      (cur == |bytes| || (NextMultiple(cur, |bytes|, BLOCK); HeaderSize(bytes, cur) == Ok(0) && NameEmpty(bytes, cur)))
    ensures Step(bytes, cur).0 == Ok(None) ==> Step(bytes, cur).1 == cur
  {
  }

  /** `Tar::iter` and `TarIter`: the archive and a cursor into it. */
  class TarIter {
    const bytes: seq<byte>
    var cur: nat

    ghost predicate Valid()
      reads this
    {
      CursorWf(bytes, cur)
    }

    /** `Tar::iter`: a walk from the first block. */
    constructor (tar: seq<byte>)
      requires New(tar).Ok?
      ensures Valid() && bytes == tar && cur == 0
    {
      bytes := tar;
      cur := 0;
    }

    /**
     * `TarIter::next`: past the end there is nothing; otherwise read the
     * header's size, stop at an empty header, and hand out the contents
     * while moving the cursor past them.
     */
    method Next() returns (r: Result<Option<Entry>, TarError>)
      requires Valid()
      modifies this
      ensures Valid() && (r, cur) == Step(bytes, old(cur))
    {
      if cur >= |bytes| {
        return Ok(None);
      }
      NextMultiple(cur, |bytes|, BLOCK);
      var size := ReadAsciiOctalTrim(Field(bytes, cur, SIZE_AT, SIZE_LEN));
      assert size == HeaderSize(bytes, cur);
      if size.Err? {
        return Err(InvalidHeader);
      }
      if size.value == 0 && NameEmpty(bytes, cur) {
        return Ok(None);
      }
      if cur + BLOCK + size.value > |bytes| {
        return Err(ContentsPastEnd);
      }
      var contents := bytes[cur + BLOCK..cur + BLOCK + size.value];
      FitsAligned(cur, size.value, |bytes|);
      assert Step(bytes, cur) == (Ok(Some(Entry(cur, contents))), cur + BLOCK + AlignUp(size.value, BLOCK));
      r := Ok(Some(Entry(cur, contents)));
      cur := cur + BLOCK + AlignUp(size.value, BLOCK);
    }
  }

  // ------------------------------------------------------------------ a one-file archive

  /**
   * A header block as a tar writer makes it for a file named `name` with
   * `size` bytes: the name padded with NULs, the size as 11 octal digits and
   * a NUL, everything else NUL.
   */
  function HeaderBlock(name: seq<byte>, size: nat): (r: seq<byte>)
    requires 0 < |name| <= NAME_LEN && size < Pow8(11)
    ensures |r| == BLOCK
  {
    name + Zeros(NAME_LEN - |name|) + Zeros(SIZE_AT - NAME_LEN) + ToOctal(size, 11) + [0]
    + Zeros(BLOCK - SIZE_AT - SIZE_LEN)
  }

  /** One file and its padding, then the two zero blocks that close an archive. */
  function OneFileArchive(name: seq<byte>, data: seq<byte>): (r: seq<byte>)
    requires 0 < |name| <= NAME_LEN && |data| < Pow8(11)
  {
    AlignUpBounds(|data|, BLOCK);
    HeaderBlock(name, |data|) + data + Zeros(AlignUp(|data|, BLOCK) - |data|) + Zeros(2 * BLOCK)
  }

  /** The fields of the header block read back what was written. */
  lemma HeaderBlockFields(name: seq<byte>, size: nat, rest: seq<byte>)
    requires 0 < |name| <= NAME_LEN && size < Pow8(11)
    requires forall i :: 0 <= i < |name| ==> name[i] != 0
    ensures var bytes := HeaderBlock(name, size) + rest;
      Field(bytes, 0, SIZE_AT, SIZE_LEN) == ToOctal(size, 11) + [0]
      && Field(bytes, 0, NAME_AT, NAME_LEN) == name + Zeros(NAME_LEN - |name|)
      && Field(bytes, 0, SIG_AT, SIG_LEN) == Zeros(SIG_LEN)
  {
    var bytes := HeaderBlock(name, size) + rest;
    var digits := ToOctal(size, 11);
    FieldBytes(bytes, 0, SIZE_AT, SIZE_LEN);
    FieldBytes(bytes, 0, NAME_AT, NAME_LEN);
    FieldBytes(bytes, 0, SIG_AT, SIG_LEN);
    assert forall i :: 0 <= i < SIZE_LEN ==> bytes[SIZE_AT + i] == (digits + [0])[i];
    assert forall i :: 0 <= i < NAME_LEN ==> bytes[i] == (name + Zeros(NAME_LEN - |name|))[i];
    assert forall i :: SIG_AT <= i < SIG_AT + SIG_LEN ==> bytes[i] == 0;
  }

  /** The closing blocks of an archive hold zeros: a header there ends the walk. */
  lemma ZeroHeaderEnds(bytes: seq<byte>, at: nat)
    requires CursorWf(bytes, at) && at + BLOCK <= |bytes|
    requires forall i :: at <= i < at + BLOCK ==> bytes[i] == 0
    ensures Step(bytes, at) == (Ok(None), at)
  {
    FieldBytes(bytes, at, SIZE_AT, SIZE_LEN);
    FieldBytes(bytes, at, NAME_AT, NAME_LEN);
    FieldBytes(bytes, at, SIG_AT, SIG_LEN);
    assert Field(bytes, at, SIZE_AT, SIZE_LEN) == Zeros(SIZE_LEN);
    assert TrimNulls(Zeros(SIZE_LEN)) == [];
    assert Field(bytes, at, NAME_AT, NAME_LEN) == Zeros(NAME_LEN);
    assert TrimNulls(Zeros(NAME_LEN)) == [];
    assert Field(bytes, at, SIG_AT, SIG_LEN) != USTAR_SIG by {
      assert Field(bytes, at, SIG_AT, SIG_LEN)[0] == 0;
    }
  }

  /** The length of a one-file archive, a whole number of blocks. */
  lemma OneFileLength(name: seq<byte>, data: seq<byte>)
    requires 0 < |name| <= NAME_LEN && |data| < Pow8(11)
    ensures AlignUp(|data|, BLOCK) % BLOCK == 0 && |data| <= AlignUp(|data|, BLOCK)
    ensures |OneFileArchive(name, data)| == BLOCK + AlignUp(|data|, BLOCK) + 2 * BLOCK
    ensures CursorWf(OneFileArchive(name, data), 0)
    ensures CursorWf(OneFileArchive(name, data), BLOCK + AlignUp(|data|, BLOCK))
  {
    AlignUpBounds(|data|, BLOCK);
    ModAddMultiple(AlignUp(|data|, BLOCK), 1, BLOCK);
    ModAddMultiple(AlignUp(|data|, BLOCK), 3, BLOCK);
  }

  /** The header of a one-file archive gives the data's length as its size, and a name. */
  lemma OneFileHeader(name: seq<byte>, data: seq<byte>)
    requires 0 < |name| <= NAME_LEN && |data| < Pow8(11)
    requires forall i :: 0 <= i < |name| ==> name[i] != 0
    ensures BLOCK <= |OneFileArchive(name, data)|
    ensures HeaderSize(OneFileArchive(name, data), 0) == Ok(|data|)
    ensures !NameEmpty(OneFileArchive(name, data), 0)
  {
    var bytes := OneFileArchive(name, data);
    var rest := data + Zeros(AlignUp(|data|, BLOCK) - |data|) + Zeros(2 * BLOCK);
    assert bytes == HeaderBlock(name, |data|) + rest;
    HeaderBlockFields(name, |data|, rest);
    TrimNullsOfPadded(ToOctal(|data|, 11), []);
    OctalRoundTrip(|data|, 11);
    assert Field(bytes, 0, NAME_AT, NAME_LEN)[0] == name[0];
  }

  /** The data of a one-file archive follows its header block. */
  lemma OneFileContents(name: seq<byte>, data: seq<byte>)
    requires 0 < |name| <= NAME_LEN && |data| < Pow8(11)
    ensures BLOCK + |data| <= |OneFileArchive(name, data)|
    ensures OneFileArchive(name, data)[BLOCK..BLOCK + |data|] == data
  {
    var bytes := OneFileArchive(name, data);
    var rest := Zeros(AlignUp(|data|, BLOCK) - |data|) + Zeros(2 * BLOCK);
    assert bytes == (HeaderBlock(name, |data|) + data) + rest;
  }

  /** The first step over a one-file archive yields the file and moves past its padded contents. */
  lemma OneFileFirstStep(name: seq<byte>, data: seq<byte>)
    requires 0 < |name| <= NAME_LEN && |data| < Pow8(11)
    requires forall i :: 0 <= i < |name| ==> name[i] != 0
    ensures CursorWf(OneFileArchive(name, data), 0)
    ensures Step(OneFileArchive(name, data), 0) == (Ok(Some(Entry(0, data))), BLOCK + AlignUp(|data|, BLOCK))
  {
    var bytes := OneFileArchive(name, data);
    assert CursorWf(bytes, 0) && BLOCK + |data| <= |bytes| by {
      OneFileLength(name, data);
    }
    assert HeaderSize(bytes, 0) == Ok(|data|) && !NameEmpty(bytes, 0) by {
      OneFileHeader(name, data);
    }
    assert bytes[BLOCK..BLOCK + |data|] == data by {
      OneFileContents(name, data);
    }
    StepYields(bytes, 0, data);
  }

  /** A header with a valid size and a name, followed by that many bytes of contents, yields the contents. */
  lemma StepYields(bytes: seq<byte>, cur: nat, contents: seq<byte>)
    requires CursorWf(bytes, cur) && cur + BLOCK + |contents| <= |bytes|
    requires HeaderSize(bytes, cur) == Ok(|contents|) && !NameEmpty(bytes, cur)
    requires bytes[cur + BLOCK..cur + BLOCK + |contents|] == contents
    ensures Step(bytes, cur) == (Ok(Some(Entry(cur, contents))), cur + BLOCK + AlignUp(|contents|, BLOCK))
  {
  }

  /** The step after the file lands on the closing zero blocks and ends the walk. */
  lemma OneFileSecondStep(name: seq<byte>, data: seq<byte>)
    requires 0 < |name| <= NAME_LEN && |data| < Pow8(11)
    ensures CursorWf(OneFileArchive(name, data), BLOCK + AlignUp(|data|, BLOCK))
    ensures Step(OneFileArchive(name, data), BLOCK + AlignUp(|data|, BLOCK)) == (Ok(None), BLOCK + AlignUp(|data|, BLOCK))
  {
    OneFileLength(name, data);
    var bytes := OneFileArchive(name, data);
    var next := BLOCK + AlignUp(|data|, BLOCK);
    assert forall i :: next <= i < next + BLOCK ==> bytes[i] == 0;
    ZeroHeaderEnds(bytes, next);
  }

  /**
   * Walking a one-file archive gives back the file: the first step yields
   * its contents and moves past them, and the next step ends the walk.
   */
  lemma OneFileRoundTrip(name: seq<byte>, data: seq<byte>)
    requires 0 < |name| <= NAME_LEN && |data| < Pow8(11)
    requires forall i :: 0 <= i < |name| ==> name[i] != 0
    ensures var bytes := OneFileArchive(name, data);
      CursorWf(bytes, 0)
      && Step(bytes, 0) == (Ok(Some(Entry(0, data))), BLOCK + AlignUp(|data|, BLOCK))
      && Step(bytes, BLOCK + AlignUp(|data|, BLOCK)) == (Ok(None), BLOCK + AlignUp(|data|, BLOCK))
  {
    OneFileFirstStep(name, data);
    OneFileSecondStep(name, data);
  }

  // ------------------------------------------------------------------ the step as written

  /**
   * `TarIter::next` as written: no check that the contents end inside the
   * archive. An entry is returned as where its contents start and how long
   * they are; the cursor may move past the end.
   */
  function StepAsWritten(bytes: seq<byte>, cur: nat): (r: (Result<Option<(nat, nat)>, TarError>, nat))
    requires |bytes| % BLOCK == 0 && cur % BLOCK == 0
    ensures r.1 % BLOCK == 0
  {
    if cur >= |bytes| then (Ok(None), cur)
    else
      NextMultiple(cur, |bytes|, BLOCK);
      var size := HeaderSize(bytes, cur);
      if size.Err? then (Err(InvalidHeader), cur)
      else if size.value == 0 && NameEmpty(bytes, cur) then (Ok(None), cur)
      else
        AlignUpBounds(size.value, BLOCK);
        (Ok(Some((cur + BLOCK, size.value))), cur + BLOCK + AlignUp(size.value, BLOCK))
  }

  /**
   * A one-block archive whose only header claims one byte of contents: the
   * walk as written hands out a slice that starts at the end of the
   * archive, where the checked walk reports `ContentsPastEnd`.
   */
  lemma ContentsRunPastEnd()
    ensures var bytes := HeaderBlock([97], 1);
      StepAsWritten(bytes, 0).0 == Ok(Some((BLOCK, 1)))
      && BLOCK + 1 > |bytes|
      && Step(bytes, 0).0 == Err(ContentsPastEnd)
  {
    var bytes := HeaderBlock([97], 1);
    HeaderBlockFields([97], 1, []);
    assert bytes == HeaderBlock([97], 1) + [];
    TrimNullsOfPadded(ToOctal(1, 11), []);
    OctalRoundTrip(1, 11);
    assert HeaderSize(bytes, 0) == Ok(1);
  }
}
