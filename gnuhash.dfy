/**
 * Symbol lookup through an ELF `DT_GNU_HASH` table
 * (lib/chos-elf/src/gnu_hash.rs): the hash of a name, a bloom filter that
 * rejects most absent names, buckets that give the first symbol of each
 * hash class, and a chain of hashes whose low bit marks the last symbol of
 * a class.
 *
 * The symbol table is the sequence of the symbols' names (`None` for a
 * symbol whose name the string table cannot give). Bloom words are `u64`
 * bit-vectors; hashes and chain values are `u32` values held in `nat`.
 * A `panic!` (division by zero, an index out of range) is the outcome
 * `Err(..)`.
 */
module GnuHash {
  import opened Wrappers
  import opened Bytes
  import IntOps

  const U32_MODULUS: nat := 0x1_0000_0000
  /** The initial value of the hash. */
  const SEED: nat := 5381

  // ------------------------------------------------------------------ gnu_hash

  /** The hash: start at 5381, and for each byte multiply by 33 and add the byte, modulo 2^32. */
  function Hash(s: seq<byte>): (r: nat)
    ensures r < U32_MODULUS
  {
    if s == [] then SEED else (Hash(s[..|s| - 1]) * 33 + s[|s| - 1]) % U32_MODULUS
  }

  /** The same polynomial without the reduction. */
  function Poly(s: seq<byte>): nat {
    if s == [] then SEED else Poly(s[..|s| - 1]) * 33 + s[|s| - 1]
  }

  /** `gnu_hash`: `h = (h << 5) + h + b`, each operation wrapping at 32 bits. */
  method GnuHashOf(name: seq<byte>) returns (h: nat)
    ensures h == Hash(name)
  {
    h := SEED;
    var i := 0;
    while i < |name|
      invariant i <= |name| && h == Hash(name[..i])
    {
      var shifted := h * 32 % U32_MODULUS;
      var sum := (shifted + h) % U32_MODULUS;
      WrappingStep(h, name[i]);
      h := (sum + name[i]) % U32_MODULUS;
      assert name[..i + 1][..i] == name[..i];
      i := i + 1;
    }
    assert name[..i] == name;
  }

  /** The three wrapping operations of one round are one multiply-add modulo 2^32. */
  lemma WrappingStep(h: nat, b: byte)
    requires h < U32_MODULUS
    ensures ((h * 32 % U32_MODULUS + h) % U32_MODULUS + b) % U32_MODULUS == (h * 33 + b) % U32_MODULUS
  {
    var m := U32_MODULUS;
    var x := h * 32;
    assert x == (x / m) * m + x % m;
    IntOps.ModAddMultiple(x % m + h, x / m, m);
    assert (x % m + h) % m == (h * 33) % m;
    var y := (h * 33) % m;
    assert h * 33 == ((h * 33) / m) * m + y;
    IntOps.ModAddMultiple(y + b, (h * 33) / m, m);
  }

  /** The wrapping hash is the plain polynomial reduced modulo 2^32. */
  lemma {:induction false} HashIsPolyMod(s: seq<byte>)
    ensures Hash(s) == Poly(s) % U32_MODULUS
  {
    if s != [] {
      var init := s[..|s| - 1];
      var b := s[|s| - 1];
      HashIsPolyMod(init);
      var p := Poly(init);
      var m := U32_MODULUS;
      assert p == (p / m) * m + p % m;
      assert p * 33 + b == (p % m * 33 + b) + (p / m * 33) * m;
      IntOps.ModAddMultiple(p % m * 33 + b, p / m * 33, m);
    }
  }

  /** Hashes of fixed names. */
  lemma HashExamples()
    ensures Hash([]) == 0x1505
    ensures Hash([97]) == 0x2b606
    ensures Hash([112, 114, 105, 110, 116, 102]) == 0x156b2bb8
  {
    assert Hash([112]) == 177685;
    assert Hash([112, 114]) == 5863719 by {
      assert [112, 114][..1] == [112];
    }
    assert Hash([112, 114, 105]) == 193502832 by {
      assert [112, 114, 105][..2] == [112, 114];
    }
    assert Hash([112, 114, 105, 110]) == 2090626270 by {
      assert [112, 114, 105, 110][..3] == [112, 114, 105];
    }
    assert Hash([112, 114, 105, 110, 116]) == 271190290 by {
      assert [112, 114, 105, 110, 116][..4] == [112, 114, 105, 110];
    }
    assert [112, 114, 105, 110, 116, 102][..5] == [112, 114, 105, 110, 116];
  }

  // ------------------------------------------------------------------ the table

  /** The header fields and the three arrays of a `DT_GNU_HASH` section. */
  datatype Table = Table(bloomSize: nat, bloomShift: nat, nbuckets: nat, symoffset: nat,
                         bloom: seq<bv64>, buckets: seq<nat>, chain: seq<nat>)

  /** `GnuHash::new`: the bloom array has `bloom_size` words and the bucket array `nbuckets` entries. */
  predicate TableWf(t: Table) {
    |t.bloom| == t.bloomSize && |t.buckets| == t.nbuckets
  }

  /** The panics of a lookup. */
  datatype LookupPanic = DivisionByZero | ChainOutOfRange | SymbolOutOfRange

  /** `u32::wrapping_shr`: the shift amount is taken modulo 32. */
  function WrappingShr(h: nat, shift: nat): nat {
    h / IntOps.Pow2(shift % 32)
  }

  /** The bloom word for a hash: word `(h / 64) % bloom_size`. */
  function BloomWord(t: Table, h: nat): bv64
    requires TableWf(t) && t.bloomSize > 0
  {
    t.bloom[(h / 64) % t.bloomSize]
  }

  /** `(word & mask) == mask`, the mask having bits `a` and `b` set. */
  predicate BothBits(word: bv64, a: nat, b: nat)
    requires a < 64 && b < 64
  {
    var mask: bv64 := (1 << a) | (1 << b);
    word & mask == mask
  }

  /**
   * The bloom test as written: the two bit numbers are taken modulo
   * `bloom_size` (and then modulo 64 by `wrapping_shl`).
   */
  predicate BloomPassAsWritten(t: Table, h: nat): (r: bool)
    requires TableWf(t) && t.bloomSize > 0
    ensures t.bloomSize % 64 == 0 ==> (r <==> BloomPass(t, h))
    ensures t.bloomSize == 1 ==> (r <==> BothBits(t.bloom[0], 0, 0))
  {
    var a := (h % t.bloomSize) % 64;
    var b := (WrappingShr(h, t.bloomShift) % t.bloomSize) % 64;
    assert t.bloomSize % 64 == 0 ==> a == h % 64 && b == WrappingShr(h, t.bloomShift) % 64 by {
      ModOfMultipleOf64(h, t.bloomSize);
      ModOfMultipleOf64(WrappingShr(h, t.bloomShift), t.bloomSize);
    }
    assert t.bloomSize == 1 ==> a == 0 && b == 0 && BloomWord(t, h) == t.bloom[0];
    BothBits(BloomWord(t, h), a, b)
  }

  /**
   * The bloom test of the `DT_GNU_HASH` format, the bits the link editor
   * sets: the two bit numbers are taken modulo 64, the width of a word.
   */
  predicate BloomPass(t: Table, h: nat)
    requires TableWf(t) && t.bloomSize > 0
  {
    BothBits(BloomWord(t, h), h % 64, WrappingShr(h, t.bloomShift) % 64)
  }

  /** Taking a number modulo a multiple of 64 keeps it modulo 64. */
  lemma ModOfMultipleOf64(h: nat, m: nat)
    ensures m > 0 && m % 64 == 0 ==> (h % m) % 64 == h % 64
  {
    if m > 0 && m % 64 == 0 {
      var k := m / 64;
      assert m == 64 * k;
      IntOps.DivDiv(h, 64, k);
      IntOps.ModAddMultiple(h % 64, (h / 64) % k, 64);
    }
  }

  /** No chain entry from position `lo` up to (not including) `hi` has the end-of-class bit. */
  predicate NoEndMark(chain: seq<nat>, lo: nat, hi: nat) {
    forall i :: lo <= i < hi && i < |chain| ==> chain[i] % 2 == 0
  }

  /** `(a | 1) == (b | 1)`: the hashes agree except for the low bit. */
  predicate SameHash(a: nat, b: nat) {
    a / 2 == b / 2
  }

  /**
   * The chain walk from symbol `symidx`: the first symbol of the run whose
   * name is `name` and whose hash matches, none once a chain entry with the
   * low bit set has been passed.
   */
  function Walk(t: Table, syms: seq<Option<seq<byte>>>, name: seq<byte>, h: nat, symidx: nat): (r: Result<Option<nat>, LookupPanic>)
    requires symidx >= t.symoffset
    ensures r.Ok? && r.value.Some? ==> symidx <= r.value.value < |syms| && syms[r.value.value] == Some(name)
    decreases |t.chain| - (symidx - t.symoffset)
  {
    var i := symidx - t.symoffset;
    if i >= |t.chain| then Err(ChainOutOfRange)
    else if symidx >= |syms| then Err(SymbolOutOfRange)
    else
      var hash := t.chain[i];
      if syms[symidx].Some? && SameHash(h, hash) && name == syms[symidx].value then Ok(Some(symidx))
      else if hash % 2 != 0 then Ok(None)
      else Walk(t, syms, name, h, symidx + 1)
  }

  /** `GnuHash::lookup` with the given bloom test. */
  function LookupWith(t: Table, syms: seq<Option<seq<byte>>>, name: seq<byte>, asWritten: bool): Result<Option<nat>, LookupPanic>
    requires TableWf(t)
  {
    var h := Hash(name);
    if t.bloomSize == 0 then Err(DivisionByZero)
    else if !(if asWritten then BloomPassAsWritten(t, h) else BloomPass(t, h)) then Ok(None)
    else if t.nbuckets == 0 then Err(DivisionByZero)
    else
      var symidx := t.buckets[h % t.nbuckets];
      if symidx < t.symoffset then Ok(None)
      else Walk(t, syms, name, h, symidx)
  }

  /** The lookup as written. */
  function LookupAsWritten(t: Table, syms: seq<Option<seq<byte>>>, name: seq<byte>): (r: Result<Option<nat>, LookupPanic>)
    requires TableWf(t)
    ensures r.Ok? && r.value.Some? ==> r.value.value < |syms| && syms[r.value.value] == Some(name)
    ensures t.bloomSize % 64 == 0 ==> r == LookupSpec(t, syms, name)
    ensures r == LookupSpec(t, syms, name) || r == Ok(None) || LookupSpec(t, syms, name) == Ok(None)
  {
    LookupWith(t, syms, name, true)
  }

  /** The lookup with the bloom test of the format. */
  function LookupSpec(t: Table, syms: seq<Option<seq<byte>>>, name: seq<byte>): Result<Option<nat>, LookupPanic>
    requires TableWf(t)
  {
    LookupWith(t, syms, name, false)
  }

  /**
   * `GnuHash::lookup` (with the bloom test of the format): hash the name,
   * test the bloom filter, take the bucket's first symbol and walk the
   * chain until a match or the end of the class.
   */
  method Lookup(t: Table, syms: seq<Option<seq<byte>>>, name: seq<byte>) returns (r: Result<Option<nat>, LookupPanic>)
    requires TableWf(t)
    ensures r == LookupSpec(t, syms, name)
  {
    var h := GnuHashOf(name);
    if t.bloomSize == 0 {
      return Err(DivisionByZero);
    }
    var word := t.bloom[(h / 64) % t.bloomSize];
    if !BothBits(word, h % 64, WrappingShr(h, t.bloomShift) % 64) {
      return Ok(None);
    }
    if t.nbuckets == 0 {
      return Err(DivisionByZero);
    }
    var symidx := t.buckets[h % t.nbuckets];
    if symidx < t.symoffset {
      return Ok(None);
    }
    while true
      invariant symidx >= t.symoffset
      invariant Walk(t, syms, name, h, symidx) == LookupSpec(t, syms, name)
      decreases |t.chain| - (symidx - t.symoffset)
    {
      if symidx - t.symoffset >= |t.chain| {
        return Err(ChainOutOfRange);
      }
      var hash := t.chain[symidx - t.symoffset];
      if symidx >= |syms| {
        return Err(SymbolOutOfRange);
      }
      if syms[symidx].Some? && h / 2 == hash / 2 && name == syms[symidx].value {
        return Ok(Some(symidx));
      }
      if hash % 2 != 0 {
        return Ok(None);
      }
      symidx := symidx + 1;
    }
  }

  // ------------------------------------------------------------------ properties

  /** A lookup that fails the bloom test or starts below `symoffset` finds nothing. */
  lemma LookupRejects(t: Table, syms: seq<Option<seq<byte>>>, name: seq<byte>)
    requires TableWf(t) && t.bloomSize > 0
    ensures !BloomPass(t, Hash(name)) ==> LookupSpec(t, syms, name) == Ok(None)
    ensures BloomPass(t, Hash(name)) && t.nbuckets > 0 && t.buckets[Hash(name) % t.nbuckets] < t.symoffset
            ==> LookupSpec(t, syms, name) == Ok(None)
  {
  }

  /** A symbol found has the name asked for, and its chain hash matches the name's. */
  lemma LookupSound(t: Table, syms: seq<Option<seq<byte>>>, name: seq<byte>)
    requires TableWf(t)
    requires LookupSpec(t, syms, name).Ok? && LookupSpec(t, syms, name).value.Some?
    ensures var i := LookupSpec(t, syms, name).value.value;
      t.symoffset <= i < |syms| && i - t.symoffset < |t.chain|
      && syms[i] == Some(name) && SameHash(Hash(name), t.chain[i - t.symoffset])
  {
    var h := Hash(name);
    LookupWalks(t, syms, name, h);
    WalkFound(t, syms, name, h, t.buckets[h % t.nbuckets]);
  }

  /** A lookup that finds a symbol is the walk from the bucket of the name's hash. */
  lemma LookupWalks(t: Table, syms: seq<Option<seq<byte>>>, name: seq<byte>, h: nat)
    requires TableWf(t) && h == Hash(name)
    requires LookupSpec(t, syms, name).Ok? && LookupSpec(t, syms, name).value.Some?
    ensures t.nbuckets > 0 && t.buckets[h % t.nbuckets] >= t.symoffset
    ensures LookupSpec(t, syms, name) == Walk(t, syms, name, h, t.buckets[h % t.nbuckets])
  {
  }

  /** A walk that finds symbol `i` passed no end-of-class mark, and `i`'s hash matches. */
  lemma {:induction false} WalkFound(t: Table, syms: seq<Option<seq<byte>>>, name: seq<byte>, h: nat, symidx: nat)
    requires symidx >= t.symoffset
    requires Walk(t, syms, name, h, symidx).Ok? && Walk(t, syms, name, h, symidx).value.Some?
    ensures var i := Walk(t, syms, name, h, symidx).value.value;
      i - t.symoffset < |t.chain| && SameHash(h, t.chain[i - t.symoffset])
      && NoEndMark(t.chain, symidx - t.symoffset, i - t.symoffset)
    decreases |t.chain| - (symidx - t.symoffset)
  {
    var i := symidx - t.symoffset;
    var hash := t.chain[i];
    if !(syms[symidx].Some? && SameHash(h, hash) && name == syms[symidx].value) {
      assert hash % 2 == 0;
      WalkFound(t, syms, name, h, symidx + 1);
    }
  }

  /**
   * A table as the link editor builds it: every symbol from `symoffset` on
   * has a name, a chain hash that matches it, the bloom bits of its hash set,
   * and its bucket starts at or before it with no end-of-class mark between
   * the bucket's start and the symbol.
   */
  predicate WellBuilt(t: Table, syms: seq<Option<seq<byte>>>) {
    TableWf(t) && t.bloomSize > 0 && t.nbuckets > 0
    && |syms| == t.symoffset + |t.chain|
    && forall j :: t.symoffset <= j < |syms| ==> SymbolIndexed(t, syms, j)
  }

  /** What the link editor writes for symbol `j`. */
  predicate SymbolIndexed(t: Table, syms: seq<Option<seq<byte>>>, j: nat)
    requires TableWf(t) && t.bloomSize > 0 && t.nbuckets > 0
    requires t.symoffset <= j < |syms| == t.symoffset + |t.chain|
  {
    syms[j].Some?
    && var h := Hash(syms[j].value);
    SameHash(h, t.chain[j - t.symoffset])
    && BloomPass(t, h)
    && var start := t.buckets[h % t.nbuckets];
    t.symoffset <= start <= j
    && NoEndMark(t.chain, start - t.symoffset, j - t.symoffset)
  }

  /** A walk from before symbol `j`, with no end-of-class mark before it, finds a symbol with the name. */
  lemma {:induction false} WalkReaches(t: Table, syms: seq<Option<seq<byte>>>, name: seq<byte>, h: nat, s: nat, j: nat)
    requires t.symoffset <= s <= j < |syms| == t.symoffset + |t.chain|
    requires syms[j] == Some(name) && SameHash(h, t.chain[j - t.symoffset])
    requires NoEndMark(t.chain, s - t.symoffset, j - t.symoffset)
    ensures Walk(t, syms, name, h, s).Ok? && Walk(t, syms, name, h, s).value.Some?
    decreases j - s
  {
    if s < j {
      var hash := t.chain[s - t.symoffset];
      if !(syms[s].Some? && SameHash(h, hash) && name == syms[s].value) {
        WalkReaches(t, syms, name, h, s + 1, j);
      }
    }
  }

  /** In a table the link editor built, every symbol's name is found, and the symbol found has that name. */
  lemma LookupComplete(t: Table, syms: seq<Option<seq<byte>>>, j: nat)
    requires WellBuilt(t, syms) && t.symoffset <= j < |syms|
    ensures syms[j].Some?
    ensures var r := LookupSpec(t, syms, syms[j].value);
      r.Ok? && r.value.Some? && syms[r.value.value] == syms[j]
  {
    assert SymbolIndexed(t, syms, j);
    var name := syms[j].value;
    var h := Hash(name);
    WalkReaches(t, syms, name, h, t.buckets[h % t.nbuckets], j);
  }

  // ------------------------------------------------------------------ the bloom test as written

  /**
   * A one-word bloom filter with shift 6 holding the symbol `a` (hash
   * 0x2b606): the link editor sets bits 6 and 24.
   */
  function OneSymbolTable(): Table {
    Table(1, 6, 1, 1, [(1 << 6) | (1 << 24)], [1], [0x2b607])
  }

  /**
   * With a bloom filter of one word, the test as written checks bit 0 for
   * every name: the symbol `a`, present in the table, is reported absent,
   * while the format's test finds it.
   */
  lemma BloomAsWrittenMissesSymbol()
    ensures WellBuilt(OneSymbolTable(), [None, Some([97])])
    ensures LookupAsWritten(OneSymbolTable(), [None, Some([97])], [97]) == Ok(None)
    ensures LookupSpec(OneSymbolTable(), [None, Some([97])], [97]) == Ok(Some(1))
  {
    var t := OneSymbolTable();
    var syms: seq<Option<seq<byte>>> := [None, Some([97])];
    HashExamples();
    OneSymbolBloom();
    assert SymbolIndexed(t, syms, 1);
  }

  /** The bit numbers of the hash of `a` in a one-word filter with shift 6. */
  lemma BloomBitNumbers()
    ensures 6 % 32 == 6 && 0x2b606 / 64 == 2776 && 0x2b606 % 64 == 6 && 2776 % 64 == 24
  {
  }

  /** The word of the one-word filter has bits 6 and 24 set and bit 0 clear. */
  lemma OneSymbolWord()
    ensures BothBits(OneSymbolTable().bloom[0], 6, 24) && !BothBits(OneSymbolTable().bloom[0], 0, 0)
  {
    var word: bv64 := (1 << 6) | (1 << 24);
    assert OneSymbolTable().bloom[0] == word;
    assert BothBits(word, 6, 24);
    assert !BothBits(word, 0, 0);
  }

  /** The hash of `a` passes the format's bloom test of the one-word table and fails the test as written. */
  lemma OneSymbolBloom()
    ensures BloomPass(OneSymbolTable(), 0x2b606) && !BloomPassAsWritten(OneSymbolTable(), 0x2b606)
  {
    var t, h := OneSymbolTable(), 0x2b606;
    assert BloomWord(t, h) == t.bloom[0];
    assert WrappingShr(h, 6) == 2776 by {
      assert IntOps.Pow2(6) == 64;
      BloomBitNumbers();
      assert WrappingShr(h, 6) == h / IntOps.Pow2(6 % 32);
    }
    assert h % 64 == 6 && 2776 % 64 == 24 by {
      BloomBitNumbers();
    }
    OneSymbolWord();
  }
}
