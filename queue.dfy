/**
 * `RingQueueData` over its buffer: a fixed array of slots, a read head, a
 * write head and a count. A slot is `Some(v)` when it holds an initialised
 * value and `None` when it is uninitialised. Each operation is stated as a
 * step on the value `Ring` (heads, count and the slot contents), the class
 * `RingQueue` performs the same step in place, and the lemmas relate every
 * step to the sequence of queued items, oldest first.
 */
module RingQueue {
  import opened Wrappers

  /** The heads, the count and the slots of a ring queue. */
  datatype Ring<T> = Ring(readHead: nat, writeHead: nat, count: nat, slots: seq<Option<T>>)

  /** `inc_read_head` / `inc_write_head`: one past `h`, back to 0 at the end of the buffer. */
  function IncHead(h: nat, len: nat): (r: nat)
    ensures h < len ==> r < len
    ensures h + 1 < len ==> r == h + 1
    ensures h + 1 == len ==> r == 0
  {
    if h + 1 >= len then 0 else h + 1
  }

  /** The slot `n` places after slot 0 of a buffer of `len` slots, for `n` below `2 * len`. */
  function Wrap(n: nat, len: nat): nat {
    if n < len then n else n - len
  }

  /** The slot of the `i`-th queued item, `i` places after the read head. */
  function Slot<T>(q: Ring<T>, i: nat): nat {
    Wrap(q.readHead + i, |q.slots|)
  }

  /**
   * The heads lie in the buffer, the count fits it, the write head is
   * `count` slots after the read head, and the `count` slots from the read
   * head on hold values.
   */
  ghost predicate Inv<T>(q: Ring<T>) {
    var len := |q.slots|;
    q.count <= len
    && (len == 0 ==> q.readHead == 0 && q.writeHead == 0)
    && (len > 0 ==> q.readHead < len && q.writeHead == Wrap(q.readHead + q.count, len))
    && forall i :: 0 <= i < q.count ==> q.slots[Slot(q, i)].Some?
  }

  /** The queued items, oldest first. */
  ghost function Items<T>(q: Ring<T>): (r: seq<T>)
    requires Inv(q)
    ensures |r| == q.count
  {
    seq(q.count, i requires 0 <= i < q.count => q.slots[Slot(q, i)].value)
  }

  /** `RingQueueData::new` over a buffer of uninitialised slots. */
  function Empty<T>(slots: seq<Option<T>>): (q: Ring<T>)
    ensures Inv(q) && Items(q) == []
  {
    Ring(0, 0, 0, slots)
  }

  /**
   * `try_enqueue`: when a slot is free, the value goes to the write head
   * and the write head moves on; on a full queue the value comes back in
   * the error and nothing changes.
   */
  function TryEnqueueStep<T>(q: Ring<T>, x: T): (Ring<T>, Result<(), T>)
    requires Inv(q)
  {
    if q.count < |q.slots| then
      (q.(slots := q.slots[q.writeHead := Some(x)],
          writeHead := IncHead(q.writeHead, |q.slots|),
          count := q.count + 1), Ok(()))
    else
      (q, Err(x))
  }

  /**
   * `dequeue`: when the queue holds a value, the slot at the read head is
   * taken (left uninitialised) and the read head moves on.
   */
  function DequeueStep<T>(q: Ring<T>): (Ring<T>, Option<T>)
    requires Inv(q)
  {
    if q.count > 0 then
      (q.(slots := q.slots[q.readHead := None],
          readHead := IncHead(q.readHead, |q.slots|),
          count := q.count - 1), q.slots[q.readHead])
    else
      (q, None)
  }

  /**
   * `enqueue_replace` as written: the value goes to the write head, but
   * the non-full path moves the read head instead of the write head, and
   * the full path moves the read head twice and the write head not at all.
   */
  function EnqueueReplaceAsWritten<T>(q: Ring<T>, x: T): (Ring<T>, Option<T>)
    requires Inv(q) && |q.slots| > 0
  {
    var len := |q.slots|;
    if q.count < len then
      (q.(slots := q.slots[q.writeHead := Some(x)],
          readHead := IncHead(q.readHead, len),
          count := q.count + 1), None)
    else
      (q.(slots := q.slots[q.writeHead := Some(x)],
          readHead := IncHead(IncHead(q.readHead, len), len)), q.slots[q.writeHead])
  }

  /**
   * `enqueue_replace` as intended: on a queue with a free slot it is
   * `try_enqueue`; on a full queue the oldest value, at the write head
   * which then equals the read head, is replaced and returned, and both
   * heads move on.
   */
  function EnqueueReplaceStep<T>(q: Ring<T>, x: T): (Ring<T>, Option<T>)
    requires Inv(q) && |q.slots| > 0
  {
    var len := |q.slots|;
    if q.count < len then
      (q.(slots := q.slots[q.writeHead := Some(x)],
          writeHead := IncHead(q.writeHead, len),
          count := q.count + 1), None)
    else
      (q.(slots := q.slots[q.writeHead := Some(x)],
          writeHead := IncHead(q.writeHead, len),
          readHead := IncHead(q.readHead, len)), q.slots[q.writeHead])
  }

  // ------------------------------------------------------------------ slot arithmetic

  /** Distinct positions below the buffer length are distinct slots. */
  lemma SlotInjective<T>(q: Ring<T>, i: nat, j: nat)
    requires q.readHead < |q.slots| && i < |q.slots| && j < |q.slots| && i != j
    ensures Slot(q, i) != Slot(q, j)
  {
  }

  /** Moving the read head on by one shifts every position by one. */
  lemma SlotShift<T>(q: Ring<T>, q1: Ring<T>, i: nat)
    requires q.readHead < |q.slots| && |q1.slots| == |q.slots| && i + 1 < |q.slots|
    requires q1.readHead == IncHead(q.readHead, |q.slots|)
    ensures Slot(q1, i) == Slot(q, i + 1)
  {
  }

  // ------------------------------------------------------------------ the steps against the items

  /**
   * `try_enqueue` succeeds exactly when the count is below the buffer
   * length; it then appends the value, and otherwise returns it with the
   * queue unchanged.
   */
  lemma TryEnqueueAppends<T>(q: Ring<T>, x: T)
    requires Inv(q)
    ensures var (q1, r) := TryEnqueueStep(q, x);
      Inv(q1) && |q1.slots| == |q.slots|
      && (r.Ok? <==> q.count < |q.slots|)
      && (r.Ok? ==> Items(q1) == Items(q) + [x])
      && (r.Err? ==> q1 == q && r.error == x)
  {
    var (q1, r) := TryEnqueueStep(q, x);
    if r.Ok? {
      assert q.writeHead == Slot(q, q.count);
      forall i | 0 <= i < q.count
        ensures Slot(q1, i) == Slot(q, i) != q.writeHead
      {
        SlotInjective(q, i, q.count);
      }
      assert Inv(q1);
      assert Items(q1) == Items(q) + [x];
    }
  }

  /**
   * `dequeue` returns `None` exactly on an empty queue; otherwise it
   * returns the oldest item and leaves the rest, in order.
   */
  lemma DequeueTakesOldest<T>(q: Ring<T>)
    requires Inv(q)
    ensures var (q1, r) := DequeueStep(q);
      Inv(q1) && |q1.slots| == |q.slots|
      && (r.None? <==> q.count == 0)
      && (r.Some? ==> r.value == Items(q)[0] && Items(q1) == Items(q)[1..])
      && (r.None? ==> q1 == q)
  {
    var (q1, r) := DequeueStep(q);
    if q.count > 0 {
      assert Slot(q, 0) == q.readHead;
      forall i | 0 <= i < q1.count
        ensures Slot(q1, i) == Slot(q, i + 1) != q.readHead
      {
        SlotShift(q, q1, i);
        SlotInjective(q, 0, i + 1);
      }
      assert Inv(q1);
      assert Items(q1) == Items(q)[1..];
    }
  }

  /**
   * `enqueue_replace`, as intended, always appends the value; on a full
   * queue it drops the oldest item and returns it, and otherwise it returns
   * `None`.
   */
  lemma EnqueueReplaceAppends<T>(q: Ring<T>, x: T)
    requires Inv(q) && |q.slots| > 0
    ensures var (q1, r) := EnqueueReplaceStep(q, x);
      Inv(q1) && |q1.slots| == |q.slots|
      && (r.None? <==> q.count < |q.slots|)
      && (r.Some? ==> r.value == Items(q)[0] && Items(q1) == Items(q)[1..] + [x])
      && (r.None? ==> Items(q1) == Items(q) + [x])
  {
    var (q1, r) := EnqueueReplaceStep(q, x);
    var len := |q.slots|;
    if q.count < len {
      TryEnqueueAppends(q, x);
      assert q1 == TryEnqueueStep(q, x).0;
    } else {
      assert q.writeHead == q.readHead == Slot(q, 0);
      forall i | 0 <= i < len
        ensures Slot(q1, i) == if i + 1 < len then Slot(q, i + 1) else q.readHead
      {
        if i + 1 < len {
          SlotShift(q, q1, i);
          SlotInjective(q, 0, i + 1);
        }
      }
      assert Inv(q1);
      assert Items(q1) == Items(q)[1..] + [x];
    }
  }

  /**
   * What `enqueue_replace` as written does: the value lands at the write
   * head, which never moves; with room left it returns nothing and counts
   * one more, on a full queue it returns the overwritten value and keeps
   * the count.
   */
  lemma EnqueueReplaceAsWrittenEffect<T>(q: Ring<T>, x: T)
    requires Inv(q) && |q.slots| > 0
    ensures var r := EnqueueReplaceAsWritten(q, x);
      r.0.writeHead == q.writeHead && r.0.slots == q.slots[q.writeHead := Some(x)]
    ensures var r := EnqueueReplaceAsWritten(q, x);
      q.count < |q.slots| ==> r.1.None? && r.0.count == q.count + 1
    ensures var r := EnqueueReplaceAsWritten(q, x);
      q.count == |q.slots| ==> r.1 == q.slots[q.writeHead] && r.0.count == q.count
  {
  }

  /**
   * As written, `enqueue_replace` on an empty queue of two slots puts the
   * value in slot 0 but moves the read head to slot 1: the queue counts one
   * item, its heads no longer agree with the count, and the next `dequeue`
   * reads the uninitialised slot 1 instead of the value.
   */
  lemma EnqueueReplaceAsWrittenLosesValue(x: int)
    ensures var q1 := EnqueueReplaceAsWritten(Empty([None, None]), x).0;
      q1.count == 1 && q1.slots[0] == Some(x) && !Inv(q1)
      && q1.readHead == 1 && q1.slots[q1.readHead] == None
  {
    var q1 := EnqueueReplaceAsWritten(Empty([None, None]), x).0;
    assert Slot(q1, 0) == 1;
  }

  /**
   * `enqueue_replace` as written on a full three-slot queue holding 1, 2, 3:
   * it returns 1 and writes 4 over it, but moves the read head two slots
   * on and the write head not at all. The heads no longer agree with the
   * count, and the next read takes 3, skipping 2. As intended, the queue
   * becomes 2, 3, 4.
   */
  lemma EnqueueReplaceAsWrittenSkipsItem()
    ensures var q := Ring(0, 0, 3, [Some(1), Some(2), Some(3)]);
      var (q1, r) := EnqueueReplaceAsWritten(q, 4);
      Inv(q) && Items(q) == [1, 2, 3]
      && r == Some(1) && q1.count == 3 && q1.readHead == 2 && q1.writeHead == 0 && !Inv(q1)
      && q1.slots[q1.readHead] == Some(3)
      && EnqueueReplaceStep(q, 4).1 == Some(1) && Items(EnqueueReplaceStep(q, 4).0) == [2, 3, 4]
  {
    var q := Ring(0, 0, 3, [Some(1), Some(2), Some(3)]);
    assert Slot(q, 1) == 1 && Slot(q, 2) == 2;
    assert Items(q) == [1, 2, 3];
    EnqueueReplaceAppends(q, 4);
  }

  /** The same call, as intended, queues the value and the next `dequeue` returns it. */
  lemma EnqueueReplaceThenDequeue(x: int)
    ensures var q1 := EnqueueReplaceStep(Empty([None, None]), x).0;
      Inv(q1) && DequeueStep(q1).1 == Some(x)
  {
    var q0: Ring<int> := Empty([None, None]);
    EnqueueReplaceAppends(q0, x);
    var q1 := EnqueueReplaceStep(q0, x).0;
    DequeueTakesOldest(q1);
  }

  // ------------------------------------------------------------------ the queue object

  /** A ring queue over a buffer it owns, changed in place. */
  class RingQueue<T> {
    /** The buffer: `Some(v)` for an initialised slot. */
    const buf: array<Option<T>>
    var readHead: nat
    var writeHead: nat
    var count: nat

    /** The queue as a value. */
    function State(): Ring<T>
      reads this, buf
    {
      Ring(readHead, writeHead, count, buf[..])
    }

    ghost predicate Valid()
      reads this, buf
    {
      Inv(State())
    }

    /** `SliceRingQueue::new`: an empty queue over the given slots. */
    constructor (b: array<Option<T>>)
      ensures Valid() && buf == b && State() == Empty(b[..]) && Items(State()) == []
    {
      buf := b;
      readHead, writeHead, count := 0, 0, 0;
    }

    /** `inc_write_head`. */
    method IncWriteHead()
      modifies this
      ensures writeHead == IncHead(old(writeHead), buf.Length)
      ensures readHead == old(readHead) && count == old(count)
    {
      writeHead := writeHead + 1;
      if writeHead >= buf.Length {
        writeHead := 0;
      }
    }

    /** `inc_read_head`. */
    method IncReadHead()
      modifies this
      ensures readHead == IncHead(old(readHead), buf.Length)
      ensures writeHead == old(writeHead) && count == old(count)
    {
      readHead := readHead + 1;
      if readHead >= buf.Length {
        readHead := 0;
      }
    }

    /** `try_enqueue`: the value is appended, or returned when the queue is full. */
    method TryEnqueue(x: T) returns (r: Result<(), T>)
      requires Valid()
      modifies this, buf
      ensures Valid()
      ensures (State(), r) == TryEnqueueStep(old(State()), x)
      ensures r.Ok? ==> Items(State()) == Items(old(State())) + [x]
    {
      TryEnqueueAppends(State(), x);
      if count < buf.Length {
        buf[writeHead] := Some(x);
        IncWriteHead();
        count := count + 1;
        r := Ok(());
      } else {
        r := Err(x);
      }
    }

    /** `enqueue`: `try_enqueue` whose failure panics, so the queue must not be full. */
    method Enqueue(x: T)
      requires Valid() && count < buf.Length
      modifies this, buf
      ensures Valid()
      ensures Items(State()) == Items(old(State())) + [x]
    {
      var r := TryEnqueue(x);
    }

    /** `dequeue`: the oldest item, or `None` on an empty queue. */
    method Dequeue() returns (r: Option<T>)
      requires Valid()
      modifies this, buf
      ensures Valid()
      ensures (State(), r) == DequeueStep(old(State()))
      ensures r.Some? ==> r.value == Items(old(State()))[0] && Items(State()) == Items(old(State()))[1..]
    {
      DequeueTakesOldest(State());
      if count > 0 {
        r := buf[readHead];
        buf[readHead] := None;
        IncReadHead();
        count := count - 1;
      } else {
        r := None;
      }
    }

    /** `enqueue_replace`, with the heads moved as intended. */
    method EnqueueReplace(x: T) returns (r: Option<T>)
      requires Valid() && buf.Length > 0
      modifies this, buf
      ensures Valid()
      ensures (State(), r) == EnqueueReplaceStep(old(State()), x)
    {
      EnqueueReplaceAppends(State(), x);
      if count < buf.Length {
        buf[writeHead] := Some(x);
        IncWriteHead();
        count := count + 1;
        r := None;
      } else {
        r := buf[writeHead];
        buf[writeHead] := Some(x);
        IncWriteHead();
        IncReadHead();
      }
    }
  }
}
