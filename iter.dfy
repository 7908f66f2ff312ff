/**
 * `IteratorExt::min_max` (lib/chos-lib/src/iter.rs): over an iterator of
 * pairs, the least first component and the greatest second component. The
 * iterator is the sequence of its items; the two orders are those of `int`.
 */
module Iter {
  import opened Wrappers

  /**
   * `min_max`: none for an empty iterator; else the first item, with its
   * first component lowered and its second raised by each later item.
   */
  method MinMax(items: seq<(int, int)>) returns (r: Option<(int, int)>)
    ensures r.None? <==> items == []
    ensures r.Some? ==> forall i :: 0 <= i < |items| ==> r.value.0 <= items[i].0 && items[i].1 <= r.value.1
    ensures r.Some? ==> exists i :: 0 <= i < |items| && items[i].0 == r.value.0
    ensures r.Some? ==> exists i :: 0 <= i < |items| && items[i].1 == r.value.1
  {
    if items == [] {
      return None;
    }
    var mm := items[0];
    ghost var lo, hi := 0, 0;
    var k := 1;
    while k < |items|
      invariant 1 <= k <= |items|
      invariant forall i :: 0 <= i < k ==> mm.0 <= items[i].0 && items[i].1 <= mm.1
      invariant 0 <= lo < k && items[lo].0 == mm.0
      invariant 0 <= hi < k && items[hi].1 == mm.1
    {
      var (a, b) := items[k];
      if a < mm.0 {
        mm := (a, mm.1);
        lo := k;
      }
      if b > mm.1 {
        mm := (mm.0, b);
        hi := k;
      }
      k := k + 1;
    }
    r := Some(mm);
  }

  /** A single item is its own minimum and maximum. */
  method MinMaxSingle(a: int, b: int) returns (r: Option<(int, int)>)
    ensures r == Some((a, b))
  {
    r := MinMax([(a, b)]);
  }

  /** The two components are taken independently: they may come from different items. */
  method MinMaxMixes() returns (r: Option<(int, int)>)
    ensures r == Some((1, 9))
  {
    var items := [(3, 9), (1, 2), (5, 4)];
    r := MinMax(items);
    assert forall i :: 0 <= i < |items| ==> 1 <= items[i].0 && items[i].1 <= 9;
    assert r.value.0 <= items[1].0 && items[0].1 <= r.value.1;
  }
}
