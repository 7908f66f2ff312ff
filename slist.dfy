/**
 * `SList`: an intrusive singly linked list. Every element carries a `Link`
 * with a single `next` cell and the list keeps the head. Elements are named
 * by their address (a `nat`); the link cells are the map `links`, and the
 * ghost sequence `order` is the list from the head.
 *
 * In the source a link is "unlinked" when its `next` cell is null, which is
 * also what the tail of a list holds. The list below gives the unlinked
 * state its own value, `Unlinked`, apart from `Linked(None)` at the tail;
 * the source's two-state cell is modelled as written by
 * `PushFrontAsWritten`.
 */
module IntrusiveSList {
  import opened Wrappers
  import IntrusiveList

  /** A link cell: not in any list, or in one with the next element (none at the tail). */
  datatype SLink = Unlinked | Linked(next: Option<nat>)

  /** `Link::is_unlinked`. */
  predicate IsUnlinked(l: SLink) {
    l.Unlinked?
  }

  /** The link cells spell out `order`: distinct elements, each linked to the one after it. */
  ghost predicate Chain(links: map<nat, SLink>, order: seq<nat>) {
    IntrusiveList.Distinct(order)
    && forall k :: 0 <= k < |order| ==> order[k] in links && links[order[k]] == Linked(IntrusiveList.At(order, k + 1))
  }

  /** An element whose cell is unlinked is not in the chain. */
  lemma UnlinkedNotInChain(links: map<nat, SLink>, order: seq<nat>, x: nat)
    requires Chain(links, order) && x in links && IsUnlinked(links[x])
    ensures x !in order
  {
    forall k | 0 <= k < |order|
      ensures order[k] != x
    {
      assert links[order[k]].Linked?;
    }
  }

  /** Linking an unlinked `x` in front of a chain gives a chain one longer. */
  lemma ChainPush(links: map<nat, SLink>, order: seq<nat>, x: nat)
    requires Chain(links, order) && x in links && IsUnlinked(links[x])
    ensures Chain(links[x := Linked(IntrusiveList.At(order, 0))], [x] + order)
  {
    UnlinkedNotInChain(links, order, x);
    var links1 := links[x := Linked(IntrusiveList.At(order, 0))];
    var order1 := [x] + order;
    forall i, j | 0 <= i < j < |order1|
      ensures order1[i] != order1[j]
    {
      if i > 0 {
        IntrusiveList.ConsShift(x, order, i);
      }
      IntrusiveList.ConsShift(x, order, j);
    }
    forall k | 0 <= k < |order1|
      ensures order1[k] in links1 && links1[order1[k]] == Linked(IntrusiveList.At(order1, k + 1))
    {
      if k > 0 {
        assert order1[k] == order[k - 1] != x;
        assert links1[order1[k]] == links[order[k - 1]];
        assert IntrusiveList.At(order1, k + 1) == IntrusiveList.At(order, k);
      }
    }
  }

  /** Unlinking the head of a chain leaves the rest a chain, the head's cell naming the second element. */
  lemma ChainPop(links: map<nat, SLink>, order: seq<nat>)
    requires Chain(links, order) && order != []
    ensures links[order[0]] == Linked(IntrusiveList.At(order, 1))
    ensures Chain(links[order[0] := Unlinked], order[1..])
  {
    var links1 := links[order[0] := Unlinked];
    var order1 := order[1..];
    forall k | 0 <= k < |order1|
      ensures order1[k] in links1 && links1[order1[k]] == Linked(IntrusiveList.At(order1, k + 1))
    {
      assert order1[k] == order[k + 1] != order[0];
      assert IntrusiveList.At(order1, k + 1) == IntrusiveList.At(order, k + 2);
    }
  }

  /**
   * `Cursor::move_next`: from a valid cursor, step to the next element when
   * the cell names one, else to null; a null cursor stays null.
   */
  function MoveNext(links: map<nat, SLink>, cur: Option<nat>): (r: Option<nat>)
    requires cur.Some? ==> cur.value in links
    ensures cur.None? ==> r.None?
  {
    if cur.None? then None
    else match links[cur.value]
      case Linked(Some(n)) => Some(n)
      case _ => None
  }

  /** A cursor at position `k` of a chain moves to position `k + 1`, or to null past the tail. */
  lemma MoveNextFollows(links: map<nat, SLink>, order: seq<nat>, k: nat)
    requires Chain(links, order) && k < |order|
    ensures order[k] in links && MoveNext(links, Some(order[k])) == IntrusiveList.At(order, k + 1)
  {
    assert links[order[k]] == Linked(IntrusiveList.At(order, k + 1));
  }

  class SList {
    /** The first element, `None` for null. */
    var head: Option<nat>
    /** The link cells of the elements. */
    var links: map<nat, SLink>
    /** The elements from the head on. */
    ghost var order: seq<nat>

    ghost predicate Valid()
      reads this
    {
      Chain(links, order) && head == IntrusiveList.At(order, 0)
    }

    /** `SList::new`: an empty list over the given cells. */
    constructor (cells: map<nat, SLink>)
      ensures Valid() && order == [] && links == cells
    {
      head := None;
      links := cells;
      order := [];
    }

    /** `push_front`: the element must be unlinked; it takes the old head as its `next` and becomes the head. */
    method PushFront(x: nat)
      requires Valid() && x in links && IsUnlinked(links[x])
      modifies this
      ensures Valid() && order == [x] + old(order) && head == Some(x)
      ensures links == old(links)[x := Linked(old(head))]
    {
      ChainPush(links, order, x);
      links := links[x := Linked(head)];
      head := Some(x);
      order := [x] + order;
    }

    /** `pop_front`: none on an empty list, else the head, whose cell becomes unlinked. */
    method PopFront() returns (r: Option<nat>)
      requires Valid()
      modifies this
      ensures Valid() && r == IntrusiveList.At(old(order), 0)
      ensures r.None? ==> order == old(order) && links == old(links)
      ensures r.Some? ==> order == old(order)[1..] && links == old(links)[r.value := Unlinked]
    {
      if head.None? {
        return None;
      }
      var x := head.value;
      ChainPop(links, order);
      head := links[x].next;
      links := links[x := Unlinked];
      order := order[1..];
      r := Some(x);
    }

    /** `iter`: a cursor from the head, reading the element and then moving on, until it is null. */
    method Iter() returns (visited: seq<nat>)
      requires Valid()
      ensures visited == order
    {
      var cur := head;
      visited := [];
      ghost var i := 0;
      while cur.Some?
        invariant i <= |order| && visited == order[..i]
        invariant cur == IntrusiveList.At(order, i)
        decreases |order| - i
      {
        MoveNextFollows(links, order, i);
        visited := visited + [cur.value];
        cur := MoveNext(links, cur);
        i := i + 1;
      }
    }
  }

  /** Three elements pushed as 0, 1, 2 are visited as 2, 1, 0. */
  method PushThreeIter() returns (visited: seq<nat>)
    ensures visited == [2, 1, 0]
  {
    var list := new SList(map[0 := Unlinked, 1 := Unlinked, 2 := Unlinked]);
    list.PushFront(0);
    list.PushFront(1);
    list.PushFront(2);
    visited := list.Iter();
  }

  /** Two elements pushed as 0, 1 pop as 1, 0, and then the list is empty. */
  method PopLifo() returns (popped: seq<Option<nat>>)
    ensures popped == [Some(1), Some(0), None]
  {
    var list := new SList(map[0 := Unlinked, 1 := Unlinked]);
    list.PushFront(0);
    list.PushFront(1);
    assert list.order == [1, 0];
    var a := list.PopFront();
    assert list.order == [0];
    var b := list.PopFront();
    var c := list.PopFront();
    popped := [a, b, c];
  }

  /** After one push the element no longer reads as unlinked, so a second push is refused. */
  method SecondPushRefused() returns (unlinked: bool)
    ensures !unlinked
  {
    var list := new SList(map[0 := Unlinked]);
    list.PushFront(0);
    unlinked := IsUnlinked(list.links[0]);
  }

  // ------------------------------------------------------------------ the push as written

  /**
   * `push_front` as written: the cell is the raw `next` pointer, `None` for
   * null, and `is_unlinked` tests for null, which the tail of a list
   * also holds.
   */
  function PushFrontAsWritten(head: Option<nat>, next: map<nat, Option<nat>>, x: nat): (r: (Option<nat>, map<nat, Option<nat>>))
    requires x in next && next[x].None?
    ensures r.0 == Some(x) && r.1.Keys == next.Keys && r.1[x] == head
  {
    (Some(x), next[x := head])
  }

  /**
   * Pushing the only element of a list a second time passes the
   * `is_unlinked` assertion and points the element at itself: the walk
   * from the head never reaches null.
   */
  lemma TailRelinkCycles()
    ensures var (h1, n1) := PushFrontAsWritten(None, map[0 := None], 0);
      n1[0].None?
      && var (h2, n2) := PushFrontAsWritten(h1, n1, 0);
      h2 == Some(0) && n2[0] == Some(0)
  {
  }
}
