/**
 * Strided slices (lib/chos-lib/src/stride.rs): `len` elements starting at
 * address `ptr`, `stride` bytes apart. An element is named by its address.
 * A `panic!` (an index out of range, a range whose start lies past its
 * end) is the outcome `Err(..)`.
 */
module Stride {
  import opened Wrappers

  /** `StrideSlice` (and `StrideSliceMut`, which has the same layout and operations). */
  datatype StrideSlice = StrideSlice(ptr: nat, len: nat, stride: nat)

  /** `ptr_offset`: the address of element `offset`. */
  function PtrOffset(s: StrideSlice, offset: nat): nat {
    s.ptr + offset * s.stride
  }

  /** The bounds of a `RangeBounds<usize>`. */
  datatype Bound = Included(idx: nat) | Excluded(idx: nat) | Unbounded

  /** The panics of the strided slices. */
  datatype StridePanic = IndexOutOfRange | RangeStartPastEnd

  function Min(a: nat, b: nat): nat {
    if a <= b then a else b
  }

  /** The first index of a range, clamped to the length. */
  function StartIndex(s: StrideSlice, start: Bound): (r: nat)
    ensures r <= s.len
  {
    match start
    case Included(idx) => Min(idx, s.len)
    case Excluded(idx) => Min(idx + 1, s.len)
    case Unbounded => 0
  }

  /** The index one past the last of a range, clamped to the length. */
  function EndIndex(s: StrideSlice, end: Bound): (r: nat)
    ensures r <= s.len
  {
    match end
    case Included(idx) => Min(idx + 1, s.len)
    case Excluded(idx) => Min(idx, s.len)
    case Unbounded => s.len
  }

  /**
   * `ptr_range`: the addresses of the clamped start and end, and the number
   * of elements between them; `end - start` underflows, a panic, when the
   * clamped start lies past the clamped end.
   */
  function PtrRange(s: StrideSlice, start: Bound, end: Bound): (r: Result<(nat, nat, nat), StridePanic>)
    ensures r.Err? <==> StartIndex(s, start) > EndIndex(s, end)
    ensures r.Ok? ==> r.value.2 == EndIndex(s, end) - StartIndex(s, start) <= s.len
    ensures r.Ok? ==> r.value.0 == PtrOffset(s, StartIndex(s, start)) && r.value.1 == PtrOffset(s, EndIndex(s, end))
  {
    var lo := StartIndex(s, start);
    var hi := EndIndex(s, end);
    if lo > hi then Err(RangeStartPastEnd)
    else Ok((PtrOffset(s, lo), PtrOffset(s, hi), hi - lo))
  }

  /** `subslice`: the elements of the range, with the same stride. */
  function Subslice(s: StrideSlice, start: Bound, end: Bound): (r: Result<StrideSlice, StridePanic>)
    ensures r.Err? <==> StartIndex(s, start) > EndIndex(s, end)
    ensures r.Ok? ==> r.value.len == EndIndex(s, end) - StartIndex(s, start) <= s.len && r.value.stride == s.stride
  {
    match PtrRange(s, start, end)
    case Err(e) => Err(e)
    case Ok((p, _, len)) => Ok(StrideSlice(p, len, s.stride))
  }

  /** Element `i` of a subslice is element `start + i` of the slice. */
  lemma SubsliceElements(s: StrideSlice, start: Bound, end: Bound, i: nat)
    requires Subslice(s, start, end).Ok? && i < Subslice(s, start, end).value.len
    ensures StartIndex(s, start) + i < s.len
    ensures PtrOffset(Subslice(s, start, end).value, i) == PtrOffset(s, StartIndex(s, start) + i)
  {
    var lo := StartIndex(s, start);
    assert PtrOffset(s, lo) + i * s.stride == s.ptr + (lo + i) * s.stride;
  }

  /** A range inside the slice is taken as it is: `lo..hi` and `lo..=hi - 1` are elements `lo` to `hi - 1`. */
  lemma RangeInside(s: StrideSlice, lo: nat, hi: nat)
    requires lo <= hi <= s.len
    ensures StartIndex(s, Included(lo)) == lo && EndIndex(s, Excluded(hi)) == hi
    ensures hi > 0 ==> EndIndex(s, Included(hi - 1)) == hi
    ensures lo > 0 ==> StartIndex(s, Excluded(lo - 1)) == lo
    ensures PtrRange(s, Included(lo), Excluded(hi)) == Ok((PtrOffset(s, lo), PtrOffset(s, hi), hi - lo))
  {
  }

  /** A range running past the slice is cut at its end. */
  lemma RangeClamped(s: StrideSlice, lo: nat, hi: nat)
    requires s.len <= hi
    ensures EndIndex(s, Excluded(hi)) == s.len && EndIndex(s, Included(hi)) == s.len
    ensures s.len <= lo ==> Subslice(s, Included(lo), Excluded(hi)) == Ok(StrideSlice(PtrOffset(s, s.len), 0, s.stride))
  {
  }

  /** A subslice of the whole range is the slice itself. */
  lemma SubsliceFull(s: StrideSlice)
    ensures Subslice(s, Unbounded, Unbounded) == Ok(s)
  {
  }

  /** Taking `a..b` of `lo..hi` is taking `lo + a..lo + b` of the slice, when both ranges lie inside. */
  lemma SubsliceOfSubslice(s: StrideSlice, lo: nat, hi: nat, a: nat, b: nat)
    requires lo <= hi <= s.len && a <= b <= hi - lo
    ensures Subslice(s, Included(lo), Excluded(hi)).Ok?
    ensures Subslice(Subslice(s, Included(lo), Excluded(hi)).value, Included(a), Excluded(b))
            == Subslice(s, Included(lo + a), Excluded(lo + b))
  {
    var t := Subslice(s, Included(lo), Excluded(hi)).value;
    assert PtrOffset(t, a) == PtrOffset(s, lo + a) by {
      assert t.ptr + a * s.stride == s.ptr + (lo + a) * s.stride;
    }
  }

  /** `Index::index`: the address of element `index`; a panic when it is not below the length. */
  function Index(s: StrideSlice, index: nat): (r: Result<nat, StridePanic>)
    ensures r.Err? <==> index >= s.len
    ensures r.Ok? ==> r.value == PtrOffset(s, index)
  {
    if index < s.len then Ok(PtrOffset(s, index)) else Err(IndexOutOfRange)
  }

  /** Distinct indices name distinct elements when the stride is not zero. */
  lemma IndexInjective(s: StrideSlice, i: nat, j: nat)
    requires s.stride > 0 && Index(s, i).Ok? && Index(s, j).Ok? && i != j
    ensures Index(s, i).value != Index(s, j).value
  {
    if i < j {
      assert (j - i) * s.stride > 0;
      assert j * s.stride == i * s.stride + (j - i) * s.stride;
    } else {
      assert (i - j) * s.stride > 0;
      assert i * s.stride == j * s.stride + (i - j) * s.stride;
    }
  }

  // ------------------------------------------------------------------ the iterator

  /** `StrideSliceIter`: the address of the next element and the address past the last. */
  class StrideSliceIter {
    var cur: nat
    const end: nat
    const stride: nat

    /** `iter`: from the first element to `ptr_offset(len)`. */
    constructor (s: StrideSlice)
      ensures cur == s.ptr && end == PtrOffset(s, s.len) && stride == s.stride
    {
      cur := s.ptr;
      end := PtrOffset(s, s.len);
      stride := s.stride;
    }

    /** `next`: the current element while it lies before the end, moving on by the stride. */
    method Next() returns (r: Option<nat>)
      modifies this
      ensures old(cur) < end ==> r == Some(old(cur)) && cur == old(cur) + stride
      ensures old(cur) >= end ==> r == None && cur == old(cur)
    {
      if cur < end {
        r := Some(cur);
        cur := cur + stride;
      } else {
        r := None;
      }
    }
  }

  /**
   * Iterating a slice to the end: with a non-zero stride the elements
   * `0..len` in order; with a zero stride nothing, since the end address
   * is then the start address.
   */
  method IterAll(s: StrideSlice) returns (items: seq<nat>)
    ensures s.stride > 0 ==> |items| == s.len && forall i :: 0 <= i < s.len ==> items[i] == PtrOffset(s, i)
    ensures s.stride == 0 ==> items == []
  {
    var it := new StrideSliceIter(s);
    items := [];
    var k := 0;
    while true
      invariant k <= s.len && |items| == k && it.cur == PtrOffset(s, k)
      invariant it.end == PtrOffset(s, s.len) && it.stride == s.stride
      invariant forall i :: 0 <= i < k ==> items[i] == PtrOffset(s, i)
      invariant s.stride == 0 ==> k == 0
      decreases s.len - k
    {
      if k < s.len && s.stride > 0 {
        assert it.cur < it.end by {
          assert s.len * s.stride == k * s.stride + (s.len - k) * s.stride;
        }
      } else {
        assert it.cur >= it.end by {
          assert s.stride == 0 || k == s.len;
        }
      }
      var x := it.Next();
      if x.None? {
        break;
      }
      items := items + [x.value];
      k := k + 1;
    }
  }
}
