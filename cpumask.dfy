/**
 * CPU masks (lib/chos-lib/src/cpumask.rs): a 64-bit word whose bit `n` says
 * that CPU `n` belongs to the mask, the set operations on it, and the
 * iterator that yields the member CPUs by clearing the lowest set bit.
 *
 * The operators `&`, `|`, `-` and their assigning forms `&=`, `|=`, `-=`
 * (lines 47-84) call `intersection`, `union` and `difference`, so they are
 * covered by the same members.
 */
module Cpumask {
  import opened Wrappers
  import opened IntOps
  import opened Bits

  const CPU_BITS: nat := 64

  /** The word the mask wraps; `raw < 2^64` is kept by every operation. */
  datatype Cpumask = Cpumask(raw: nat)

  predicate IsWord(x: nat) {
    x < Pow2(CPU_BITS)
  }

  /** The CPUs in a mask word: the positions of its set bits. */
  function CpuSet(raw: nat): set<nat> {
    set i: nat | i < CPU_BITS && Bit(raw, i)
  }

  function FromRaw(raw: nat): Cpumask {
    Cpumask(raw)
  }

  /** `empty`: no bit set. */
  function Empty(): (r: Cpumask)
    ensures IsWord(r.raw) && forall i: nat :: !Bit(r.raw, i)
  {
    NoBits();
    Cpumask(0)
  }

  /** `cpu(n)`: `1 << n`, the word with bit `n` alone; a shift by 64 or more overflows, so `n < 64` is required. */
  function Cpu(n: nat): (r: Cpumask)
    requires n < CPU_BITS
    ensures IsWord(r.raw) && forall j: nat :: Bit(r.raw, j) <==> j == n
  {
    OneBit(n);
    Cpumask(Shl(1, n))
  }

  /** `difference`: a bit of `a` that is not a bit of `b`; within the word of `a`. */
  function Difference(a: Cpumask, b: Cpumask): (r: Cpumask)
    ensures forall i: nat :: Bit(r.raw, i) == (Bit(a.raw, i) && !Bit(b.raw, i))
    ensures IsWord(a.raw) ==> IsWord(r.raw)
  {
    AndNotBits(a.raw, b.raw);
    AndBound(a.raw, b.raw);
    Cpumask(AndNot(a.raw, b.raw))
  }

  /** `union`: a bit of either; two words give a word. */
  function Union(a: Cpumask, b: Cpumask): (r: Cpumask)
    ensures forall i: nat :: Bit(r.raw, i) == (Bit(a.raw, i) || Bit(b.raw, i))
    ensures IsWord(a.raw) && IsWord(b.raw) ==> IsWord(r.raw)
  {
    OrBits(a.raw, b.raw);
    if IsWord(a.raw) && IsWord(b.raw) then
      OrBound(a.raw, b.raw, CPU_BITS);
      Cpumask(Or(a.raw, b.raw))
    else Cpumask(Or(a.raw, b.raw))
  }

  /** `intersection`: a bit of both; within the word of `a`. */
  function Intersection(a: Cpumask, b: Cpumask): (r: Cpumask)
    ensures forall i: nat :: Bit(r.raw, i) == (Bit(a.raw, i) && Bit(b.raw, i))
    ensures IsWord(a.raw) ==> IsWord(r.raw)
  {
    AndBits(a.raw, b.raw);
    AndBound(a.raw, b.raw);
    Cpumask(And(a.raw, b.raw))
  }

  // ---------------------------------------------------------------- bitwise facts, for every bit

  lemma NoBits()
    ensures forall i: nat :: !Bit(0, i)
  {
    forall i: nat
      ensures !Bit(0, i)
    {
      ZeroHasNoBits(i);
    }
  }

  lemma OneBit(n: nat)
    requires n < CPU_BITS
    ensures IsWord(Shl(1, n)) && forall j: nat :: Bit(Shl(1, n), j) <==> j == n
  {
    ShlIsMul(1, n);
    Pow2Monotone(n + 1, CPU_BITS);
    forall j: nat
      ensures Bit(Shl(1, n), j) <==> j == n
    {
      SingleBit(n, j);
    }
  }

  lemma OrBits(x: nat, y: nat)
    ensures forall i: nat :: Bit(Or(x, y), i) == (Bit(x, i) || Bit(y, i))
  {
    forall i: nat
      ensures Bit(Or(x, y), i) == (Bit(x, i) || Bit(y, i))
    {
      BitOr(x, y, i);
    }
  }

  lemma AndBits(x: nat, y: nat)
    ensures forall i: nat :: Bit(And(x, y), i) == (Bit(x, i) && Bit(y, i))
  {
    forall i: nat
      ensures Bit(And(x, y), i) == (Bit(x, i) && Bit(y, i))
    {
      BitAnd(x, y, i);
    }
  }

  lemma AndNotBits(x: nat, y: nat)
    ensures forall i: nat :: Bit(AndNot(x, y), i) == (Bit(x, i) && !Bit(y, i))
  {
    forall i: nat
      ensures Bit(AndNot(x, y), i) == (Bit(x, i) && !Bit(y, i))
    {
      BitAndNot(x, y, i);
    }
  }

  // ---------------------------------------------------------------- properties

  lemma EmptyHasNoCpus()
    ensures CpuSet(Empty().raw) == {}
  {
  }

  /** `cpu(n)` has bit `n` set and no other bit, so its CPU set is `{n}`. */
  lemma CpuIsSingleton(n: nat)
    requires n < CPU_BITS
    ensures IsWord(Cpu(n).raw)
    ensures forall j: nat :: Bit(Cpu(n).raw, j) <==> j == n
    ensures CpuSet(Cpu(n).raw) == {n}
  {
  }

  /** `union` is bitwise or: the CPU set of the result is the union of the sets. */
  lemma UnionIsSetUnion(a: Cpumask, b: Cpumask)
    requires IsWord(a.raw) && IsWord(b.raw)
    ensures IsWord(Union(a, b).raw)
    ensures CpuSet(Union(a, b).raw) == CpuSet(a.raw) + CpuSet(b.raw)
  {
  }

  /** `intersection` is bitwise and: the CPU set of the result is the intersection. */
  lemma IntersectionIsSetIntersection(a: Cpumask, b: Cpumask)
    requires IsWord(a.raw)
    ensures IsWord(Intersection(a, b).raw)
    ensures CpuSet(Intersection(a, b).raw) == CpuSet(a.raw) * CpuSet(b.raw)
  {
  }

  /** `difference` is and-not: the CPU set of the result is the set difference. */
  lemma DifferenceIsSetDifference(a: Cpumask, b: Cpumask)
    requires IsWord(a.raw)
    ensures IsWord(Difference(a, b).raw)
    ensures CpuSet(Difference(a, b).raw) == CpuSet(a.raw) - CpuSet(b.raw)
  {
  }

  /** A mask word is empty exactly when its CPU set is. */
  lemma ZeroIffNoCpus(raw: nat)
    requires IsWord(raw)
    ensures raw == 0 <==> CpuSet(raw) == {}
  {
    if raw == 0 {
      EmptyHasNoCpus();
    } else {
      var t := TrailingZeros(raw);
      TrailingZerosLowest(raw);
      HighBitIff(raw, CPU_BITS, t);
      assert t in CpuSet(raw);
    }
  }

  /** Clearing the lowest set bit removes the lowest CPU from the set. */
  lemma ClearLowest(raw: nat)
    requires IsWord(raw) && raw != 0
    ensures TrailingZeros(raw) in CpuSet(raw)
    ensures forall j :: j in CpuSet(raw) ==> TrailingZeros(raw) <= j
    ensures IsWord(AndNot(raw, Shl(1, TrailingZeros(raw))))
    ensures CpuSet(AndNot(raw, Shl(1, TrailingZeros(raw)))) == CpuSet(raw) - {TrailingZeros(raw)}
  {
    var t := TrailingZeros(raw);
    TrailingZerosLowest(raw);
    HighBitIff(raw, CPU_BITS, t);
    var cleared := AndNot(raw, Shl(1, t));
    AndBound(raw, Shl(1, t));
    ShlIsMul(1, t);
    forall i: nat | i < CPU_BITS
      ensures Bit(cleared, i) == (Bit(raw, i) && i != t)
    {
      BitAndNot(raw, Shl(1, t), i);
      SingleBit(t, i);
    }
  }

  /** `CpumaskIter`: the bits not yet yielded. */
  class CpumaskIter {
    var bits: nat

    /** `Cpumask::iter`. */
    constructor (m: Cpumask)
      ensures bits == m.raw
    {
      bits := m.raw;
    }

    /**
     * `next`: `None` once no bit is left; otherwise yields the lowest set bit
     * and clears it.
     */
    method Next() returns (r: Option<nat>)
      requires IsWord(bits)
      modifies this
      ensures IsWord(bits)
      ensures r.None? <==> old(bits) == 0
      ensures r.None? ==> bits == old(bits)
      ensures r.Some? ==> r.value == TrailingZeros(old(bits)) && r.value < CPU_BITS
      ensures r.Some? ==> bits == AndNot(old(bits), Shl(1, r.value))
      ensures r.Some? ==> r.value in CpuSet(old(bits))
      ensures r.Some? ==> forall j :: j in CpuSet(old(bits)) ==> r.value <= j
      ensures r.Some? ==> CpuSet(bits) == CpuSet(old(bits)) - {r.value}
    {
      if bits != 0 {
        var bit := TrailingZeros(bits);
        ClearLowest(bits);
        bits := AndNot(bits, Shl(1, bit));
        r := Some(bit);
      } else {
        r := None;
      }
    }
  }

  predicate Increasing(s: seq<nat>) {
    forall i, j :: 0 <= i < j < |s| ==> s[i] < s[j]
  }

  /** `cpus` lists, in order, the CPUs of `all` that lie below every CPU of `rest`. */
  ghost predicate ListedBelow(all: set<nat>, cpus: seq<nat>, rest: set<nat>) {
    && Increasing(cpus)
    && (forall c :: c in all <==> c in cpus || c in rest)
    && (forall c, d :: c in cpus && d in rest ==> c < d)
  }

  /** Moving the lowest CPU of `rest` to the end of the list keeps `ListedBelow`. */
  lemma ListLowest(all: set<nat>, cpus: seq<nat>, rest: set<nat>, v: nat)
    requires ListedBelow(all, cpus, rest)
    requires v in rest && forall d :: d in rest ==> v <= d
    ensures ListedBelow(all, cpus + [v], rest - {v})
  {
    var cs := cpus + [v];
    forall i, j | 0 <= i < j < |cs|
      ensures cs[i] < cs[j]
    {
      assert cs[i] == cpus[i] && cpus[i] in cpus;
      if j < |cpus| {
        assert cs[j] == cpus[j];
      }
    }
  }

  /**
   * The CPU list the `Debug` implementation prints by draining `iter()`:
   * every CPU of the mask exactly once, in increasing order.
   */
  method ListCpus(m: Cpumask) returns (cpus: seq<nat>)
    requires IsWord(m.raw)
    ensures Increasing(cpus)
    ensures forall c :: c in cpus <==> c in CpuSet(m.raw)
  {
    var it := new CpumaskIter(m);
    cpus := [];
    while true
      invariant IsWord(it.bits)
      invariant ListedBelow(CpuSet(m.raw), cpus, CpuSet(it.bits))
      decreases |CpuSet(it.bits)|
    {
      ghost var before := CpuSet(it.bits);
      var r := it.Next();
      if r.None? {
        ZeroIffNoCpus(it.bits);
        return;
      }
      ListLowest(CpuSet(m.raw), cpus, before, r.value);
      cpus := cpus + [r.value];
    }
  }
}
