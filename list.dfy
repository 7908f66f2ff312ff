/**
 * `HList`: an intrusive doubly linked list. Every element carries an
 * `AtomicLink` with a `next` and a `prev` cell; the list itself only keeps
 * the head. Elements are named by their address (a `nat`), and the link
 * cells of the elements are the map `links`, rewritten cell by cell as
 * the source rewrites them through its pointers. The ghost sequence
 * `order` is the list from the head, and `Chain` says the link cells
 * spell it out.
 */
module IntrusiveList {
  import opened Wrappers

  /**
   * The `next` cell of a link: the dangling marker of an unlinked link,
   * null at the end of a list, or the next element.
   */
  datatype Next = Unlinked | End | To(node: nat)

  datatype Link = Link(next: Next, prev: Option<nat>)

  /** `AtomicLink::new`. */
  const NEW_LINK: Link := Link(Unlinked, None)

  /** `is_linked`: the `next` cell is not the dangling marker. */
  predicate IsLinked(l: Link) {
    l.next != Unlinked
  }

  /**
   * `acquire`: on an unlinked link, `next` is swapped from the marker to
   * null and the acquire succeeds; on a linked one it fails and nothing
   * changes.
   */
  function Acquire(l: Link): (r: (Link, bool))
    ensures r.1 <==> !IsLinked(l)
    ensures r.1 ==> IsLinked(r.0) && r.0.next == End && r.0.prev == l.prev
    ensures !r.1 ==> r.0 == l
  {
    if l.next == Unlinked then (l.(next := End), true) else (l, false)
  }

  /** `release` (and `force_unlink`): `next` becomes the marker; `prev` is left as it is. */
  function Release(l: Link): (r: Link)
    ensures !IsLinked(r) && r.prev == l.prev
  {
    l.(next := Unlinked)
  }

  /** A released link can be acquired again, and an acquired one cannot be acquired twice. */
  lemma AcquireRelease(l: Link)
    ensures Acquire(Release(l)).1
    ensures Acquire(l).1 ==> !Acquire(Acquire(l).0).1
    ensures Release(Acquire(l).0) == Release(l)
  {
  }

  /** `get_next` on a linked cell, as the cursor reads it. */
  function NextNode(n: Next): (r: Option<nat>)
    requires n != Unlinked
    ensures r.Some? <==> n.To?
  {
    if n.To? then Some(n.node) else None
  }

  /** The `next` cell of position `k` in a list: the following element, or null at the end. */
  function NextIn(order: seq<nat>, k: nat): Next {
    if k + 1 < |order| then To(order[k + 1]) else End
  }

  /** The `prev` cell of position `k` in a list: the preceding element, or none at the head. */
  function PrevIn(order: seq<nat>, k: nat): Option<nat> {
    if 0 < k <= |order| then Some(order[k - 1]) else None
  }

  /** The element at position `i`, or none past the end. */
  function At(order: seq<nat>, i: nat): (r: Option<nat>)
    ensures r.Some? <==> i < |order|
    ensures r.Some? ==> r.value == order[i]
  {
    if i < |order| then Some(order[i]) else None
  }

  /** No element occurs twice. */
  ghost predicate Distinct(order: seq<nat>) {
    forall i, j :: 0 <= i < j < |order| ==> order[i] != order[j]
  }

  /** The link cells spell out `order`: distinct elements, `next` forward, `prev` backward. */
  ghost predicate Chain(links: map<nat, Link>, order: seq<nat>) {
    Distinct(order)
    && (forall k :: 0 <= k < |order| ==> order[k] in links)
    && (forall k :: 0 <= k < |order| ==> links[order[k]].next == NextIn(order, k))
    && (forall k :: 0 <= k < |order| ==> links[order[k]].prev == PrevIn(order, k))
  }

  /** Elements of a chain are linked. */
  lemma ChainLinked(links: map<nat, Link>, order: seq<nat>, x: nat)
    requires Chain(links, order) && x in order
    ensures x in links && IsLinked(links[x])
  {
    var k :| 0 <= k < |order| && order[k] == x;
  }

  /** The position of an element of a list. */
  function IndexOf(s: seq<nat>, x: nat): (k: nat)
    requires x in s
    ensures k < |s| && s[k] == x
  {
    if s[0] == x then 0 else 1 + IndexOf(s[1..], x)
  }

  /**
   * `insert_before(before, node)`: `node` points forward at `before` and
   * back at `before`'s predecessor, that predecessor points forward at
   * `node`, and `before` points back at `node`.
   */
  function LinkedBefore(links: map<nat, Link>, before: nat, node: nat): map<nat, Link>
    requires before in links && node in links
    requires links[before].prev.Some? ==> links[before].prev.value in links
  {
    var p := links[before].prev;
    var l1 := links[node := links[node].(next := To(before), prev := p)];
    var l2 := if p.Some? then l1[p.value := l1[p.value].(next := To(node))] else l1;
    l2[before := l2[before].(prev := Some(node))]
  }

  /**
   * The raw `unlink` of `x`: the predecessor skips forward over `x`, the
   * successor skips back over it, and `x` ends with null cells, released.
   */
  function UnlinkedFrom(links: map<nat, Link>, x: nat): map<nat, Link>
    requires x in links
  {
    var l := links[x];
    var l1 := if l.prev.Some? && l.prev.value in links then links[l.prev.value := links[l.prev.value].(next := l.next)] else links;
    var l2 := if l.next.To? && l.next.node in l1 then l1[l.next.node := l1[l.next.node].(prev := l.prev)] else l1;
    l2[x := Release(Link(End, None))]
  }

  /** Positions after the new front element are the old positions, one further on. */
  lemma ConsShift(x: nat, order: seq<nat>, k: nat)
    requires 1 <= k <= |order|
    ensures ([x] + order)[k] == order[k - 1]
    ensures NextIn([x] + order, k) == NextIn(order, k - 1)
    ensures k >= 2 ==> PrevIn([x] + order, k) == PrevIn(order, k - 1)
  {
  }

  /** Pushing an unlinked element, with no predecessor, before the head extends the chain at the front. */
  lemma ChainPushFront(links: map<nat, Link>, order: seq<nat>, x: nat)
    requires Chain(links, order) && x in links && x !in order && links[x] == Link(End, None)
    ensures var links1 := if order == [] then links else LinkedBefore(links, order[0], x);
      Chain(links1, [x] + order) && SameOutside(links1, links, [x] + order)
  {
    var order1 := [x] + order;
    if order == [] {
      assert NextIn(order1, 0) == End && PrevIn(order1, 0) == None;
    } else {
      var h := order[0];
      assert links[h].prev == PrevIn(order, 0) == None;
      var links1 := LinkedBefore(links, h, x);
      assert links1 == links[x := Link(To(h), None)][h := links[h].(prev := Some(x))];
      forall i, j | 0 <= i < j < |order1|
        ensures order1[i] != order1[j]
      {
        if i > 0 {
          ConsShift(x, order, i);
        }
        ConsShift(x, order, j);
      }
      forall k | 0 <= k < |order1|
        ensures order1[k] in links1
        ensures links1[order1[k]].next == NextIn(order1, k)
        ensures links1[order1[k]].prev == PrevIn(order1, k)
      {
        if k > 0 {
          ConsShift(x, order, k);
        }
        if k > 1 {
          assert order1[k] == order[k - 1] != h;
        }
      }
    }
  }

  /**
   * The list without position `k`: position `i` of it is position `j` of
   * the list, and its cells are those of position `j`, except that the
   * neighbours of `k` now point at each other.
   */
  lemma RemoveShift(order: seq<nat>, k: nat, i: nat)
    requires k < |order| && i + 1 < |order|
    ensures var j := if i < k then i else i + 1;
      var order1 := order[..k] + order[k + 1..];
      |order1| == |order| - 1
      && order1[i] == order[j]
      && NextIn(order1, i) == (if j + 1 == k then NextIn(order, k) else NextIn(order, j))
      && PrevIn(order1, i) == (if j == k + 1 then PrevIn(order, k) else PrevIn(order, j))
  {
    var order1 := order[..k] + order[k + 1..];
    if i + 1 < |order1| {
      assert order1[i + 1] == if i + 1 < k then order[i + 1] else order[i + 2];
    }
    if i > 0 {
      assert order1[i - 1] == if i - 1 < k then order[i - 1] else order[i];
    }
  }

  /** The cells of the elements other than `order[k]` after unlinking it. */
  lemma RemoveCell(links: map<nat, Link>, order: seq<nat>, k: nat, j: nat)
    requires Chain(links, order) && k < |order| && j < |order| && j != k
    ensures var links1 := UnlinkedFrom(links, order[k]);
      order[j] in links1
      && links1[order[j]].next == (if j + 1 == k then NextIn(order, k) else NextIn(order, j))
      && links1[order[j]].prev == (if j == k + 1 then PrevIn(order, k) else PrevIn(order, j))
  {
    var x, y := order[k], order[j];
    assert links[x].next == NextIn(order, k) && links[x].prev == PrevIn(order, k);
    assert y != x && y in links;
    if k > 0 && k + 1 < |order| {
      assert order[k + 1] != order[k - 1];
    }
    assert links[x].prev == Some(y) <==> j + 1 == k;
    assert links[x].next == To(y) <==> j == k + 1;
    UnlinkedCell(links, x, y);
  }

  /** Unlinking `x` rewrites only the cells of its neighbours that point at it. */
  lemma UnlinkedCell(links: map<nat, Link>, x: nat, y: nat)
    requires x in links && y in links && y != x
    requires links[x].prev.Some? && links[x].next.To? ==> links[x].prev.value != links[x].next.node
    ensures y in UnlinkedFrom(links, x)
    ensures UnlinkedFrom(links, x)[y].next == if links[x].prev == Some(y) then links[x].next else links[y].next
    ensures UnlinkedFrom(links, x)[y].prev == if links[x].next == To(y) then links[x].prev else links[y].prev
  {
  }

  /** Unlinking the element at position `k` takes it out of the chain and keeps the rest in order. */
  lemma ChainRemove(links: map<nat, Link>, order: seq<nat>, k: nat)
    requires Chain(links, order) && k < |order|
    ensures var links1 := UnlinkedFrom(links, order[k]);
      Chain(links1, order[..k] + order[k + 1..])
      && SameOutside(links1, links, order)
      && order[k] in links1 && links1[order[k]] == NEW_LINK
  {
    var x := order[k];
    var links1 := UnlinkedFrom(links, x);
    var order1 := order[..k] + order[k + 1..];
    forall i, i' | 0 <= i < i' < |order1|
      ensures order1[i] != order1[i']
    {
      RemoveShift(order, k, i);
      RemoveShift(order, k, i');
    }
    forall i | 0 <= i < |order1|
      ensures order1[i] in links1
      ensures links1[order1[i]].next == NextIn(order1, i)
      ensures links1[order1[i]].prev == PrevIn(order1, i)
    {
      RemoveShift(order, k, i);
      RemoveCell(links, order, k, if i < k then i else i + 1);
    }
    assert links[x].next == NextIn(order, k) && links[x].prev == PrevIn(order, k);
    if k > 0 && k + 1 < |order| {
      assert order[k + 1] != order[k - 1];
    }
    forall y | y in links && y !in order
      ensures links1[y] == links[y]
    {
      assert y != x;
      UnlinkedCell(links, x, y);
    }
  }

  /** Elements outside `order0` keep their cells. */
  ghost predicate SameOutside(links: map<nat, Link>, links0: map<nat, Link>, order0: seq<nat>) {
    links.Keys == links0.Keys && forall y :: y in links0 && y !in order0 ==> links[y] == links0[y]
  }

  /** Every element of `s` has an unlinked cell. */
  ghost predicate AllUnlinked(links: map<nat, Link>, s: seq<nat>) {
    forall z :: z in s ==> z in links && !IsLinked(links[z])
  }

  /** One pop of `clear`: the popped head joins the unlinked elements, and the rest stays as it was. */
  lemma ClearStep(links0: map<nat, Link>, order0: seq<nat>, links: map<nat, Link>, links1: map<nat, Link>, gone: seq<nat>, order: seq<nat>)
    requires Distinct(order0) && order0 == gone + order && order != []
    requires AllUnlinked(links, gone) && SameOutside(links, links0, order0)
    requires SameOutside(links1, links, order) && order[0] in links1 && links1[order[0]] == NEW_LINK
    ensures AllUnlinked(links1, gone + [order[0]]) && SameOutside(links1, links0, order0)
  {
    DisjointParts(gone, order);
    forall y | y in links0 && y !in order0
      ensures links1[y] == links0[y]
    {
      assert y !in order by {
        forall j | 0 <= j < |order|
          ensures order[j] != y
        {
          assert order0[|gone| + j] == order[j];
        }
      }
    }
  }

  /** Moving the first element of the rest onto the popped prefix keeps the whole. */
  lemma PopShift(order0: seq<nat>, gone: seq<nat>, order: seq<nat>, order1: seq<nat>)
    requires order0 == gone + order && order != [] && order1 == order[1..]
    ensures order0 == (gone + [order[0]]) + order1
  {
    assert order == [order[0]] + order1;
  }

  /** The two parts of a duplicate-free sequence share no element. */
  lemma DisjointParts(a: seq<nat>, b: seq<nat>)
    requires Distinct(a + b)
    ensures forall z :: z in a ==> z !in b
  {
    forall i, j | 0 <= i < |a| && 0 <= j < |b|
      ensures a[i] != b[j]
    {
      assert (a + b)[i] == a[i] && (a + b)[|a| + j] == b[j];
    }
  }

  /** Following `next` from position `k` of a chain reaches position `k + 1`, or the end. */
  lemma ChainNext(links: map<nat, Link>, order: seq<nat>, k: nat)
    requires Chain(links, order) && k < |order|
    ensures links[order[k]].next != Unlinked
    ensures NextNode(links[order[k]].next) == At(order, k + 1)
  {
    assert links[order[k]].next == NextIn(order, k);
  }

  class HList {
    /** The first element, `None` for an empty list. */
    var head: Option<nat>
    /** The link cells of the elements. */
    var links: map<nat, Link>
    /** The elements from the head on. */
    ghost var order: seq<nat>

    ghost predicate Valid()
      reads this
    {
      Chain(links, order) && head == (if order == [] then None else Some(order[0]))
    }

    /** `HList::new`: an empty list over elements with the given links. */
    constructor (cells: map<nat, Link>)
      ensures Valid() && order == [] && links == cells
    {
      head := None;
      links := cells;
      order := [];
    }

    /** `insert_before`, one cell at a time. */
    method InsertBefore(before: nat, node: nat)
      requires before in links && node in links
      requires links[before].prev.Some? ==> links[before].prev.value in links
      modifies this
      ensures links == LinkedBefore(old(links), before, node)
      ensures head == old(head) && order == old(order)
    {
      var p := links[before].prev;
      links := links[node := links[node].(next := To(before))];
      links := links[node := links[node].(prev := p)];
      if p.Some? {
        links := links[p.value := links[p.value].(next := To(node))];
      }
      links := links[before := links[before].(prev := Some(node))];
    }

    /**
     * `try_push_front`: an element already linked comes back in the error
     * and nothing changes; otherwise it becomes the head. The new head's
     * `prev` cell is cleared, which the source leaves to the release of
     * the link.
     */
    method TryPushFront(x: nat) returns (r: Result<(), nat>)
      requires Valid() && x in links
      modifies this
      ensures Valid()
      ensures r.Err? <==> IsLinked(old(links[x]))
      ensures r.Err? ==> r.error == x && links == old(links) && order == old(order)
      ensures r.Ok? ==> order == [x] + old(order)
      ensures links.Keys == old(links.Keys) && IsLinked(links[x])
      ensures SameOutside(links, old(links), [x] + old(order))
    {
      if x in order {
        ChainLinked(links, order, x);
      }
      var (l, ok) := Acquire(links[x]);
      if !ok {
        return Err(x);
      }
      links := links[x := l.(prev := None)];
      ChainPushFront(links, order, x);
      if head.Some? {
        InsertBefore(head.value, x);
      }
      head := Some(x);
      order := [x] + order;
      ChainLinked(links, order, x);
      r := Ok(());
    }

    /** `push_front`: `try_push_front` whose failure panics, so the element must be unlinked. */
    method PushFront(x: nat)
      requires Valid() && x in links && !IsLinked(links[x])
      modifies this
      ensures Valid()
      ensures order == [x] + old(order) && IsLinked(links[x])
      ensures SameOutside(links, old(links), [x] + old(order))
    {
      var r := TryPushFront(x);
    }

    /** The raw `unlink` of `RawCursor`, one cell at a time. */
    method RawUnlink(x: nat)
      requires x in links
      requires links[x].prev.Some? ==> links[x].prev.value in links
      requires links[x].next.To? ==> links[x].next.node in links
      modifies this
      ensures links == UnlinkedFrom(old(links), x)
      ensures head == old(head) && order == old(order)
    {
      var l := links[x];
      if l.prev.Some? {
        links := links[l.prev.value := links[l.prev.value].(next := l.next)];
      }
      if l.next.To? {
        links := links[l.next.node := links[l.next.node].(prev := l.prev)];
      }
      links := links[x := links[x].(next := End)];
      links := links[x := links[x].(prev := None)];
      links := links[x := Release(links[x])];
    }

    /** `HListCursorMut::unlink`: `mark_unlink` moves the head past `x`, then the raw unlink. */
    method Unlink(x: nat) returns (y: nat)
      requires Valid() && x in order
      modifies this
      ensures Valid() && y == x && links == UnlinkedFrom(old(links), x)
      ensures var k := IndexOf(old(order), x); order == old(order)[..k] + old(order)[k + 1..]
      ensures SameOutside(links, old(links), old(order)) && x in links && links[x] == NEW_LINK
    {
      ghost var k := IndexOf(order, x);
      ChainRemove(links, order, k);
      ChainNext(links, order, k);
      assert links[x].prev == PrevIn(order, k);
      if head == Some(x) {
        head := NextNode(links[x].next);
      }
      RawUnlink(x);
      order := order[..k] + order[k + 1..];
      y := x;
    }

    /** `pop_front`: `None` on an empty list, else the head, unlinked. */
    method PopFront() returns (r: Option<nat>)
      requires Valid()
      modifies this
      ensures Valid()
      ensures r.None? <==> old(order) == []
      ensures SameOutside(links, old(links), old(order))
      ensures r.None? ==> links == old(links) && order == old(order)
      ensures r.Some? ==> r.value == old(order)[0] && order == old(order)[1..] && links[r.value] == NEW_LINK
    {
      if head.None? {
        return None;
      }
      var x := Unlink(head.value);
      r := Some(x);
    }

    /** One round of `clear`: pop the head; `gone` collects what was popped so far. */
    method ClearRound(ghost links0: map<nat, Link>, ghost order0: seq<nat>, ghost gone: seq<nat>) returns (finished: bool, ghost gone1: seq<nat>)
      requires Valid() && Distinct(order0) && order0 == gone + order
      requires AllUnlinked(links, gone) && SameOutside(links, links0, order0)
      modifies this
      ensures Valid() && order0 == gone1 + order
      ensures AllUnlinked(links, gone1) && SameOutside(links, links0, order0)
      ensures finished <==> old(order) == []
      ensures finished ==> order == []
      ensures !finished ==> |order| < old(|order|)
    {
      ghost var links', order' := links, order;
      var r := PopFront();
      if r.None? {
        return true, gone;
      }
      ClearStep(links0, order0, links', links, gone, order');
      PopShift(order0, gone, order', order);
      finished, gone1 := false, gone + [r.value];
    }

    /** `clear`: pop until empty; every element that was in the list ends unlinked. */
    method Clear()
      requires Valid()
      modifies this
      ensures Valid() && order == []
      ensures AllUnlinked(links, old(order)) && SameOutside(links, old(links), old(order))
    {
      ghost var gone: seq<nat> := [];
      var finished := false;
      while !finished
        invariant Valid() && old(order) == gone + order
        invariant AllUnlinked(links, gone) && SameOutside(links, old(links), old(order))
        invariant finished ==> order == []
        decreases |order|, !finished
      {
        finished, gone := ClearRound(old(links), old(order), gone);
      }
      assert gone == old(order);
    }

    /** `fast_clear`: the list forgets its elements, which stay linked. */
    method FastClear()
      requires Valid()
      modifies this
      ensures Valid() && order == [] && links == old(links)
    {
      head := None;
      order := [];
    }

    /** `force_unlink` on an element that is not in this list. */
    method ForceUnlink(x: nat)
      requires Valid() && x in links && x !in order
      modifies this
      ensures Valid() && order == old(order)
      ensures links == old(links)[x := Release(old(links[x]))]
    {
      links := links[x := Release(links[x])];
    }

    /** `iter`: the elements visited from the head along `next`. */
    method Iter() returns (visited: seq<nat>)
      requires Valid()
      ensures visited == order
    {
      var cur := head;
      visited := [];
      ghost var i := 0;
      while cur.Some?
        invariant i <= |order| && visited == order[..i]
        invariant cur == At(order, i)
        decreases |order| - i
      {
        ChainNext(links, order, i);
        visited := visited + [cur.value];
        cur := NextNode(links[cur.value].next);
        i := i + 1;
      }
    }
  }

  /** Three elements pushed in the order 0, 1, 2 are visited as 2, 1, 0. */
  method PushThree() returns (visited: seq<nat>)
    ensures visited == [2, 1, 0]
  {
    var list := new HList(map[0 := NEW_LINK, 1 := NEW_LINK, 2 := NEW_LINK]);
    list.PushFront(0);
    list.PushFront(1);
    list.PushFront(2);
    visited := list.Iter();
  }

  /** A list of the elements 0 and 1, pushed in that order. */
  method PushZeroOne() returns (list: HList)
    ensures fresh(list) && list.Valid() && list.order == [1, 0]
  {
    list := new HList(map[0 := NEW_LINK, 1 := NEW_LINK]);
    list.PushFront(0);
    list.PushFront(1);
  }

  /** Two elements pushed in the order 0, 1 pop as 1, 0, and then the list is empty. */
  method PopTwo() returns (popped: seq<Option<nat>>)
    ensures popped == [Some(1), Some(0), None]
  {
    var list := PushZeroOne();
    var a := list.PopFront();
    var b, c := PopLastTwice(list);
    popped := [a, b, c];
  }

  /** Popping a list of the element 0 twice: the element, then nothing. */
  method PopLastTwice(list: HList) returns (b: Option<nat>, c: Option<nat>)
    requires list.Valid() && list.order == [0]
    modifies list
    ensures b == Some(0) && c == None
  {
    b := list.PopFront();
    c := list.PopFront();
  }

  /** Pushing the same element twice fails the second time. */
  method PushTwice() returns (first: Result<(), nat>, second: Result<(), nat>)
    ensures first.Ok? && second == Err(0)
  {
    var list := new HList(map[0 := NEW_LINK]);
    first := list.TryPushFront(0);
    second := list.TryPushFront(0);
  }

  /** Unlinking the middle element of 2, 1, 0 leaves 2, 0. */
  method UnlinkMiddle() returns (visited: seq<nat>)
    ensures visited == [2, 0]
  {
    var list := PushTwoOneZero();
    var _ := list.Unlink(1);
    assert IndexOf([2, 1, 0], 1) == 1;
    assert list.order == [2, 0];
    visited := list.Iter();
  }

  /** Pushing 0, 1 and 2 in turn onto an empty list gives the list 2, 1, 0. */
  method PushTwoOneZero() returns (list: HList)
    ensures fresh(list) && list.Valid() && list.order == [2, 1, 0]
  {
    list := new HList(map[0 := NEW_LINK, 1 := NEW_LINK, 2 := NEW_LINK]);
    list.PushFront(0);
    assert list.links[1] == NEW_LINK;
    list.PushFront(1);
    assert list.order == [1, 0] && list.links[2] == NEW_LINK;
    list.PushFront(2);
  }

  // ------------------------------------------------------------------ the push as written

  /**
   * `try_push_front` as written, on the head and the link cells: the
   * acquired link keeps whatever `prev` it had, and `insert_before`
   * copies the head's `prev` into it and writes through it.
   */
  function TryPushFrontAsWritten(head: Option<nat>, links: map<nat, Link>, x: nat): (r: (Option<nat>, map<nat, Link>, bool))
    requires x in links
    requires forall y :: y in links && links[y].prev.Some? ==> links[y].prev.value in links
    ensures r.2 <==> !IsLinked(links[x])
    ensures !r.2 ==> r.0 == head && r.1 == links
    ensures r.2 ==> r.0 == Some(x) && x in r.1 && IsLinked(r.1[x]) && r.1.Keys == links.Keys
    ensures r.2 && (head.None? || head.value !in links) ==> r.1[x].prev == links[x].prev
  {
    var (l, ok) := Acquire(links[x]);
    if !ok then (head, links, false)
    else
      var links1 := links[x := l];
      if head.Some? && head.value in links1 then (Some(x), LinkedBefore(links1, head.value, x), true)
      else (Some(x), links1, true)
  }

  /**
   * After `fast_clear` of the list 2, 1, 0 and `force_unlink` of its
   * elements, element 1 still points back at 2. Pushing 1 and then 0 onto
   * an empty list as written makes 0 point back at 2 and writes 2's
   * `next`: element 2, in no list, reads as linked and cannot be pushed.
   */
  lemma StalePrevLinksStranger()
    ensures var links := map[0 := Link(Unlinked, Some(1)), 1 := Link(Unlinked, Some(2)), 2 := Link(Unlinked, None)];
      var (h1, l1, ok1) := TryPushFrontAsWritten(None, links, 1);
      var (h2, l2, ok2) := TryPushFrontAsWritten(h1, l1, 0);
      ok1 && ok2 && h2 == Some(0) && l2[0].prev == Some(2)
      && IsLinked(l2[2]) && !TryPushFrontAsWritten(h2, l2, 2).2
  {
  }

  /** The same pushes on the list object, which clears the new head's `prev`, leave 2 unlinked. */
  method StalePrevCleared() returns (linked2: bool, pushed2: bool)
    ensures !linked2 && pushed2
  {
    var list := new HList(map[0 := Link(Unlinked, Some(1)), 1 := Link(Unlinked, Some(2)), 2 := Link(Unlinked, None)]);
    list.PushFront(1);
    list.PushFront(0);
    linked2 := IsLinked(list.links[2]);
    var r := list.TryPushFront(2);
    pushed2 := r.Ok?;
  }
}
