/**
 * The kernel timer (kernel/src/timer.rs): a global tick counter, instants
 * measured in ticks, and a heap of pending timers that the main CPU's tick
 * interrupt drains.
 *
 * `TICKS_HZ` comes from the build configuration, which is not part of this
 * model: every operation takes the tick length in nanoseconds,
 * `NS_PER_TICKS`, as a parameter, and `NsPerTick` states how it follows
 * from the frequency. Timers are named by a `nat` (the `Arc<Timer>` they
 * share with their `Delay`), and wakers by a `nat` naming the task woken.
 */
module Timer {
  import opened Wrappers
  import opened IntOps
  import Duration

  const U64_MODULUS: nat := 0x1_0000_0000_0000_0000
  const U64_MAX: nat := 0xffff_ffff_ffff_ffff
  const NS_PER_SEC: nat := 1_000_000_000

  /** `NS_PER_TICKS = 1_000_000_000 / TICKS_HZ`: the whole number of nanoseconds per tick, rounded down. */
  function NsPerTick(ticksHz: nat): (r: nat)
    requires 1 <= ticksHz <= NS_PER_SEC
    ensures r >= 1
    ensures r * ticksHz <= NS_PER_SEC < (r + 1) * ticksHz
  {
    var r := NS_PER_SEC / ticksHz;
    assert NS_PER_SEC == r * ticksHz + NS_PER_SEC % ticksHz;
    r
  }

  /**
   * `duration_to_ticks`: the duration in nanoseconds, cut to a `u64` by the
   * `as` cast, divided by the tick length and rounded up.
   */
  function DurationToTicks(d: Duration.Duration64, nsPerTick: nat): (r: nat)
    requires Duration.Valid(d) && nsPerTick >= 1
    ensures r <= U64_MAX
  {
    var nanos := Duration.TotalNanos(d) % U64_MODULUS;
    CeilDivBelow(nanos, nsPerTick);
    CeilDiv(nanos, nsPerTick)
  }

  lemma CeilDivBelow(a: nat, b: nat)
    requires b >= 1
    ensures CeilDiv(a, b) <= a
  {
    CeilDivIsLeastCover(a, b);
    var q := CeilDiv(a, b);
    if q > 0 {
      MulNonNegative(q - 1, b - 1);
      assert (q - 1) * b == (q - 1) * (b - 1) + (q - 1);
    }
  }

  /**
   * The tick count covers the duration and is the least that does: for a
   * duration below 2^64 nanoseconds, `r` ticks last at least the duration
   * and `r - 1` ticks fall short of it.
   */
  lemma DurationToTicksIsCeiling(d: Duration.Duration64, nsPerTick: nat)
    requires Duration.Valid(d) && nsPerTick >= 1
    requires Duration.TotalNanos(d) < U64_MODULUS
    ensures DurationToTicks(d, nsPerTick) * nsPerTick >= Duration.TotalNanos(d)
    ensures DurationToTicks(d, nsPerTick) == 0 || (DurationToTicks(d, nsPerTick) - 1) * nsPerTick < Duration.TotalNanos(d)
  {
    CeilDivIsLeastCover(Duration.TotalNanos(d), nsPerTick);
  }

  /** A whole number of ticks converts back to exactly that many ticks. */
  lemma DurationToTicksOfWholeTicks(d: Duration.Duration64, nsPerTick: nat, n: nat)
    requires Duration.Valid(d) && nsPerTick >= 1
    requires Duration.TotalNanos(d) == n * nsPerTick < U64_MODULUS
    ensures DurationToTicks(d, nsPerTick) == n
  {
    AlignUpOfMultiple(n, nsPerTick);
    assert CeilDiv(n * nsPerTick, nsPerTick) * nsPerTick == n * nsPerTick;
    MulCancel(CeilDiv(n * nsPerTick, nsPerTick), n, nsPerTick);
  }

  lemma MulCancel(a: nat, b: nat, c: nat)
    requires c >= 1 && a * c == b * c
    ensures a == b
  {
    DivUnique(a * c, c, a, 0);
    DivUnique(b * c, c, b, 0);
  }

  /**
   * The `as u64` cast: a duration of exactly 2^64 nanoseconds (about 584
   * years) is cut to zero and converts to no ticks at all.
   */
  lemma LongDurationTruncates(nsPerTick: nat)
    requires nsPerTick >= 1
    ensures var d := Duration.Duration64(18_446_744_073, 709_551_616);
      Duration.Valid(d) && Duration.TotalNanos(d) == U64_MODULUS && DurationToTicks(d, nsPerTick) == 0
  {
    var d := Duration.Duration64(18_446_744_073, 709_551_616);
    assert Duration.TotalNanos(d) % U64_MODULUS == 0;
  }

  // ------------------------------------------------------------------ instants

  /** `Instant`: a point in time as a tick count in a `u64`. */
  datatype Instant = Instant(ticks: nat)

  predicate InstantWf(i: Instant) {
    i.ticks <= U64_MAX
  }

  /**
   * `Instant + Duration`: the instant moved on by the duration's ticks. A
   * sum past `u64::MAX` overflows, which is a panic in a checked build; it
   * is `None` here.
   */
  function Add(i: Instant, d: Duration.Duration64, nsPerTick: nat): (r: Option<Instant>)
    requires InstantWf(i) && Duration.Valid(d) && nsPerTick >= 1
    ensures r.Some? <==> i.ticks + DurationToTicks(d, nsPerTick) <= U64_MAX
    ensures r.Some? ==> InstantWf(r.value) && r.value.ticks - i.ticks == DurationToTicks(d, nsPerTick)
  {
    var t := i.ticks + DurationToTicks(d, nsPerTick);
    if t <= U64_MAX then Some(Instant(t)) else None
  }

  /** `Duration + Instant`, which adds in the other order. */
  function AddToInstant(d: Duration.Duration64, i: Instant, nsPerTick: nat): (r: Option<Instant>)
    requires InstantWf(i) && Duration.Valid(d) && nsPerTick >= 1
    ensures r == Add(i, d, nsPerTick)
  {
    var t := DurationToTicks(d, nsPerTick) + i.ticks;
    if t <= U64_MAX then Some(Instant(t)) else None
  }

  /** `Instant - Duration`: the instant moved back; a result below zero underflows (`None`). */
  function Sub(i: Instant, d: Duration.Duration64, nsPerTick: nat): (r: Option<Instant>)
    requires InstantWf(i) && Duration.Valid(d) && nsPerTick >= 1
    ensures r.Some? <==> DurationToTicks(d, nsPerTick) <= i.ticks
    ensures r.Some? ==> InstantWf(r.value) && r.value.ticks + DurationToTicks(d, nsPerTick) == i.ticks
  {
    var n := DurationToTicks(d, nsPerTick);
    if n <= i.ticks then Some(Instant(i.ticks - n)) else None
  }

  /**
   * `Duration - Instant`: the duration's ticks less the instant's, again an
   * `Instant`; a result below zero underflows (`None`).
   */
  function SubFromDuration(d: Duration.Duration64, i: Instant, nsPerTick: nat): (r: Option<Instant>)
    requires InstantWf(i) && Duration.Valid(d) && nsPerTick >= 1
    ensures r.Some? <==> i.ticks <= DurationToTicks(d, nsPerTick)
    ensures r.Some? ==> InstantWf(r.value) && r.value.ticks + i.ticks == DurationToTicks(d, nsPerTick)
  {
    var n := DurationToTicks(d, nsPerTick);
    if i.ticks <= n then Some(Instant(n - i.ticks)) else None
  }

  /** Adding a duration and subtracting it again gives back the instant, and the other way round. */
  lemma AddSubRoundTrip(i: Instant, d: Duration.Duration64, nsPerTick: nat)
    requires InstantWf(i) && Duration.Valid(d) && nsPerTick >= 1
    ensures Add(i, d, nsPerTick).Some? ==> Sub(Add(i, d, nsPerTick).value, d, nsPerTick) == Some(i)
    ensures Sub(i, d, nsPerTick).Some? ==> Add(Sub(i, d, nsPerTick).value, d, nsPerTick) == Some(i)
  {
  }

  /**
   * The deadline `now + d` is no earlier than the duration asks: the ticks
   * between the two instants last at least `d`, for any duration below 2^64
   * nanoseconds.
   */
  lemma AddWaitsAtLeast(i: Instant, d: Duration.Duration64, nsPerTick: nat)
    requires InstantWf(i) && Duration.Valid(d) && nsPerTick >= 1
    requires Duration.TotalNanos(d) < U64_MODULUS
    requires Add(i, d, nsPerTick).Some?
    ensures (Add(i, d, nsPerTick).value.ticks - i.ticks) * nsPerTick >= Duration.TotalNanos(d)
  {
    DurationToTicksIsCeiling(d, nsPerTick);
  }

  // ------------------------------------------------------------------ the heap order

  datatype Ordering = Less | Equal | Greater

  function Cmp(a: nat, b: nat): (r: Ordering)
    ensures r == Less <==> a < b
    ensures r == Greater <==> a > b
  {
    if a < b then Less else if a == b then Equal else Greater
  }

  function Reverse(o: Ordering): (r: Ordering)
    ensures r == Less <==> o == Greater
    ensures r == Greater <==> o == Less
  {
    match o
    case Less => Greater
    case Equal => Equal
    case Greater => Less
  }

  /** `TimerCmp::cmp`: timers compare by deadline, reversed. */
  function TimerCmp(deadlineA: nat, deadlineB: nat): (r: Ordering)
  {
    Reverse(Cmp(deadlineA, deadlineB))
  }

  /**
   * The reversal: a timer is greater than another exactly when its deadline
   * is earlier, so the greatest timer, the top of the max-heap, is one with
   * the earliest deadline.
   */
  lemma TimerCmpReverses(deadlines: seq<nat>, top: nat)
    requires top < |deadlines|
    ensures (forall j :: 0 <= j < |deadlines| ==> TimerCmp(deadlines[top], deadlines[j]) != Less)
      <==> (forall j :: 0 <= j < |deadlines| ==> deadlines[top] <= deadlines[j])
  {
    assert forall a: nat, b: nat :: TimerCmp(a, b) == Greater <==> a < b;
    assert forall a: nat, b: nat :: TimerCmp(a, b) == Less <==> a > b;
  }

  // ------------------------------------------------------------------ the pending timers

  /** The heap holds its timers in pop order: by deadline, earliest first. */
  ghost predicate Sorted(heap: seq<nat>, deadline: map<nat, nat>)
  {
    (forall i :: 0 <= i < |heap| ==> heap[i] in deadline)
    && forall i, j :: 0 <= i < j < |heap| ==> deadline[heap[i]] <= deadline[heap[j]]
  }

  ghost predicate Distinct(s: seq<nat>) {
    forall i, j :: 0 <= i < j < |s| ==> s[i] != s[j]
  }

  /**
   * How many timers at the front of the heap are due at tick `t`; the one
   * after them, if any, is not.
   */
  function DueCount(heap: seq<nat>, deadline: map<nat, nat>, t: nat): (n: nat)
    requires forall i :: 0 <= i < |heap| ==> heap[i] in deadline
    ensures n <= |heap|
    ensures forall i :: 0 <= i < n ==> deadline[heap[i]] <= t
    ensures n < |heap| ==> deadline[heap[n]] > t
  {
    if heap == [] || deadline[heap[0]] > t then 0
    else 1 + DueCount(heap[1..], deadline, t)
  }

  /** In a sorted heap the due timers are exactly those whose deadline has passed. */
  lemma DueCountSplits(heap: seq<nat>, deadline: map<nat, nat>, t: nat)
    requires Sorted(heap, deadline)
    ensures forall i :: 0 <= i < |heap| ==> (i < DueCount(heap, deadline, t) <==> deadline[heap[i]] <= t)
  {
    var n := DueCount(heap, deadline, t);
    forall i | n <= i < |heap|
      ensures deadline[heap[i]] > t
    {
      assert deadline[heap[n]] <= deadline[heap[i]];
    }
  }

  /**
   * Where the model files a pushed timer with deadline `d`: after every
   * timer due no later and before every timer due later. The heap is kept
   * as a sequence sorted by deadline; among equal deadlines the order is
   * the model's choice, since `BinaryHeap` promises none.
   */
  function PushPos(heap: seq<nat>, deadline: map<nat, nat>, d: nat): (p: nat)
    requires Sorted(heap, deadline)
    ensures p <= |heap|
    ensures forall i :: 0 <= i < p ==> deadline[heap[i]] <= d
    ensures forall i :: p <= i < |heap| ==> deadline[heap[i]] > d
  {
    DueCountSplits(heap, deadline, d);
    DueCount(heap, deadline, d)
  }

  /** The wakers of `ids`, in order, skipping timers that have none. */
  function WakersOf(waker: map<nat, Option<nat>>, ids: seq<nat>): (r: seq<nat>)
    requires forall i :: 0 <= i < |ids| ==> ids[i] in waker
    ensures |r| <= |ids|
  {
    if ids == [] then []
    else
      var last := ids[|ids| - 1];
      WakersOf(waker, ids[..|ids| - 1]) + (if waker[last].Some? then [waker[last].value] else [])
  }

  /**
   * What the timer state keeps: every timer has its data, the names handed
   * out are below `nextTimer`, the heap holds distinct timers in pop order,
   * and a timer still in the heap has not fired.
   */
  ghost predicate Wf(nsPerTick: nat, heap: seq<nat>, deadline: map<nat, nat>, ready: map<nat, bool>,
                     waker: map<nat, Option<nat>>, nextTimer: nat)
  {
    nsPerTick >= 1
    && ready.Keys == deadline.Keys && waker.Keys == deadline.Keys
    && (forall id :: id in deadline ==> id < nextTimer)
    && Sorted(heap, deadline) && Distinct(heap)
    && (forall i :: 0 <= i < |heap| ==> !ready[heap[i]])
  }

  /** `delay_until`'s push keeps the state well formed and adds the new timer to the heap. */
  lemma PushWf(nsPerTick: nat, heap: seq<nat>, deadline: map<nat, nat>, ready: map<nat, bool>,
               waker: map<nat, Option<nat>>, nextTimer: nat, d: nat, p: nat)
    requires Wf(nsPerTick, heap, deadline, ready, waker, nextTimer)
    requires p <= |heap|
    requires forall i :: 0 <= i < p ==> deadline[heap[i]] <= d
    requires forall i :: p <= i < |heap| ==> deadline[heap[i]] > d
    ensures nextTimer !in deadline
    ensures Wf(nsPerTick, heap[..p] + [nextTimer] + heap[p..], deadline[nextTimer := d],
               ready[nextTimer := false], waker[nextTimer := None], nextTimer + 1)
    ensures multiset(heap[..p] + [nextTimer] + heap[p..]) == multiset(heap) + multiset{nextTimer}
  {
    PushKeepsOrder(heap, deadline, nextTimer, d, p);
    PushNotReady(heap, ready, nextTimer, p);
    PushMultiset(heap, nextTimer, p);
  }

  lemma PushMultiset(heap: seq<nat>, x: nat, p: nat)
    requires p <= |heap|
    ensures multiset(heap[..p] + [x] + heap[p..]) == multiset(heap) + multiset{x}
  {
    assert heap == heap[..p] + heap[p..];
  }

  lemma PushNotReady(heap: seq<nat>, ready: map<nat, bool>, x: nat, p: nat)
    requires p <= |heap|
    requires forall i :: 0 <= i < |heap| ==> heap[i] in ready && !ready[heap[i]]
    ensures forall i :: 0 <= i < |heap[..p] + [x] + heap[p..]| ==> !ready[x := false][(heap[..p] + [x] + heap[p..])[i]]
  {
    var h := heap[..p] + [x] + heap[p..];
    forall i | 0 <= i < |h|
      ensures !ready[x := false][h[i]]
    {
      if i < p {
        assert h[i] == heap[i];
      } else if i > p {
        assert h[i] == heap[i - 1];
      }
    }
  }

  /** `Poll<()>`. */
  datatype PollState = Ready | Pending

  /**
   * The timer state: `TICKS`, the heap `TIMERS`, and the `TimerData` of every
   * timer created so far (its deadline, its `ready` flag and its waker).
   */
  class Timers {
    /** `NS_PER_TICKS`. */
    const nsPerTick: nat
    /** `TICKS`. */
    var ticks: nat
    /** `TIMERS`, as the timers in the order the heap pops them. */
    var heap: seq<nat>
    var deadline: map<nat, nat>
    var ready: map<nat, bool>
    var waker: map<nat, Option<nat>>
    /** The name the next `Arc::new(Timer { .. })` gets. */
    var nextTimer: nat

    ghost predicate Valid()
      reads this
    {
      Wf(nsPerTick, heap, deadline, ready, waker, nextTimer)
    }

    /** `init_timer`: an empty heap; `TICKS` starts at zero. */
    constructor (nsPerTick: nat)
      requires nsPerTick >= 1
      ensures Valid() && this.nsPerTick == nsPerTick
      ensures ticks == 0 && heap == [] && deadline == map[] && nextTimer == 0
    {
      this.nsPerTick := nsPerTick;
      ticks := 0;
      heap := [];
      deadline := map[];
      ready := map[];
      waker := map[];
      nextTimer := 0;
    }

    /** `Instant::now`. */
    function Now(): (r: Instant)
      reads this
      ensures r.ticks == ticks
    {
      Instant(ticks)
    }

    /**
     * `delay_until`: a new timer, not ready and with no waker, pushed on the
     * heap; the `Delay` returned names it.
     */
    method DelayUntil(at: Instant) returns (timer: nat)
      requires Valid()
      modifies this
      ensures Valid() && timer == old(nextTimer) && timer !in old(deadline) && nextTimer == old(nextTimer) + 1
      ensures deadline == old(deadline)[timer := at.ticks]
      ensures ready == old(ready)[timer := false] && waker == old(waker)[timer := None]
      ensures heap == old(heap)[..PushPos(old(heap), old(deadline), at.ticks)] + [timer]
                      + old(heap)[PushPos(old(heap), old(deadline), at.ticks)..]
      ensures multiset(heap) == multiset(old(heap)) + multiset{timer}
      ensures ticks == old(ticks)
    {
      timer := nextTimer;
      var p := PushPos(heap, deadline, at.ticks);
      PushWf(nsPerTick, heap, deadline, ready, waker, nextTimer, at.ticks, p);
      nextTimer := nextTimer + 1;
      heap := heap[..p] + [timer] + heap[p..];
      deadline := deadline[timer := at.ticks];
      ready := ready[timer := false];
      waker := waker[timer := None];
    }

    /**
     * `delay`: a timer due `d` after now. `None` when the deadline
     * overflows a `u64`, where the source panics.
     */
    method Delay(d: Duration.Duration64) returns (timer: Option<nat>)
      requires Valid() && Duration.Valid(d) && ticks <= U64_MAX
      modifies this
      ensures Valid() && ticks == old(ticks)
      ensures timer.None? <==> Add(Instant(old(ticks)), d, nsPerTick).None?
      ensures timer.None? ==> heap == old(heap) && deadline == old(deadline)
      ensures timer.Some? ==> (timer.value !in old(deadline)
        && deadline == old(deadline)[timer.value := Add(Instant(old(ticks)), d, nsPerTick).value.ticks]
        && multiset(heap) == multiset(old(heap)) + multiset{timer.value})
    {
      var at := Add(Now(), d, nsPerTick);
      if at.None? {
        return None;
      }
      var t := DelayUntil(at.value);
      timer := Some(t);
    }

    /**
     * `Delay::poll`: ready once the timer has fired; otherwise it keeps the
     * polling task's waker, replacing any earlier one.
     */
    method Poll(timer: nat, cx: nat) returns (r: PollState)
      requires Valid() && timer in deadline
      modifies this
      ensures ticks == old(ticks) && heap == old(heap) && deadline == old(deadline) && ready == old(ready)
      ensures Valid()
      ensures r == Ready <==> ready[timer]
      ensures r == Ready ==> waker == old(waker)
      ensures r == Pending ==> waker == old(waker)[timer := Some(cx)]
    {
      if ready[timer] {
        r := Ready;
      } else {
        waker := waker[timer := Some(cx)];
        r := Pending;
      }
    }

    /**
     * `on_tick_main_cpu`: advance `TICKS` by one, then pop every timer whose
     * deadline has come, mark it ready and wake its waker (in pop order,
     * returned as `woken`). The timers left are all due later.
     */
    method OnTickMainCpu() returns (woken: seq<nat>)
      requires Valid()
      modifies this
      ensures deadline == old(deadline) && nextTimer == old(nextTimer)
      ensures Valid() && ticks == old(ticks) + 1
      ensures var n := DueCount(old(heap), deadline, ticks);
        heap == old(heap)[n..]
        && (forall i :: 0 <= i < |old(heap)| ==> (i < n <==> deadline[old(heap)[i]] <= ticks))
        && woken == WakersOf(old(waker), old(heap)[..n])
        && (forall i :: 0 <= i < n ==> ready[old(heap)[i]] && waker[old(heap)[i]].None?)
        && ready.Keys == old(ready).Keys && waker.Keys == old(waker).Keys
        && forall id :: id in ready && id !in old(heap)[..n] ==> ready[id] == old(ready)[id] && waker[id] == old(waker)[id]
    {
      var t := ticks + 1;
      ticks := t;
      heap, ready, waker, woken := DrainDue(nsPerTick, nextTimer, deadline, t, heap, ready, waker);
    }
  }

  /**
   * The loop of `on_tick_main_cpu`: while the heap's top is due at tick
   * `t`, pop it, mark it ready and take and wake its waker. The timers
   * popped are the `n` at the front, exactly those due; they end up ready
   * with no waker, their wakers are woken in order, and every timer not
   * popped keeps its flag and waker.
   */
  method DrainDue(nsPerTick: nat, nextTimer: nat, deadline: map<nat, nat>, t: nat,
                  heap: seq<nat>, ready: map<nat, bool>, waker: map<nat, Option<nat>>)
    returns (heap1: seq<nat>, ready1: map<nat, bool>, waker1: map<nat, Option<nat>>, woken: seq<nat>)
    requires Wf(nsPerTick, heap, deadline, ready, waker, nextTimer)
    ensures Wf(nsPerTick, heap1, deadline, ready1, waker1, nextTimer)
    ensures var n := DueCount(heap, deadline, t);
      heap1 == heap[n..]
      && (forall i :: 0 <= i < |heap| ==> (i < n <==> deadline[heap[i]] <= t))
      && woken == WakersOf(waker, heap[..n])
      && (forall i :: 0 <= i < n ==> ready1[heap[i]] && waker1[heap[i]].None?)
      && ready1.Keys == ready.Keys && waker1.Keys == waker.Keys
      && forall id :: id in ready1 && id !in heap[..n] ==> ready1[id] == ready[id] && waker1[id] == waker[id]
  {
    heap1, ready1, waker1, woken := heap, ready, waker, [];
    ghost var n := 0;
    assert heap[..0] == [];
    while heap1 != []
      invariant Wf(nsPerTick, heap1, deadline, ready1, waker1, nextTimer)
      invariant TickInv(heap, ready, waker, deadline, t, n, heap1, ready1, waker1, woken)
      decreases |heap1|
    {
      var tim := heap1[0];
      if t >= deadline[tim] {
        ghost var (heap0, ready0, waker0, woken0) := (heap1, ready1, waker1, woken);
        heap1 := heap1[1..];
        ready1 := ready1[tim := true];
        if waker1[tim].Some? {
          woken := woken + [waker1[tim].value];
        }
        waker1 := waker1[tim := None];
        TickStep(nsPerTick, nextTimer, heap, ready, waker, deadline, t, n,
                 heap0, ready0, waker0, woken0, heap1, ready1, waker1, woken);
        n := n + 1;
      } else {
        break;
      }
    }
    DueCountIs(heap, deadline, t, n);
    DueCountSplits(heap, deadline, t);
  }

  /**
   * The tick's loop after popping the first `n` timers of `heap0`: they
   * were due, are ready and have no waker left, their wakers were woken in
   * order, and every other timer is as before.
   */
  ghost predicate TickInv(heap0: seq<nat>, ready0: map<nat, bool>, waker0: map<nat, Option<nat>>,
                          deadline: map<nat, nat>, t: nat, n: nat,
                          heap: seq<nat>, ready: map<nat, bool>, waker: map<nat, Option<nat>>, woken: seq<nat>)
  {
    ready0.Keys == waker0.Keys
    && (forall i :: 0 <= i < |heap0| ==> heap0[i] in deadline && heap0[i] in ready && heap0[i] in waker0)
    && n <= |heap0| && heap == heap0[n..]
    && (forall i :: 0 <= i < n ==> deadline[heap0[i]] <= t)
    && woken == WakersOf(waker0, heap0[..n])
    && ready.Keys == ready0.Keys && waker.Keys == waker0.Keys
    && (forall i :: 0 <= i < n ==> ready[heap0[i]] && waker[heap0[i]].None?)
    && forall id :: id in ready && id !in heap0[..n] ==> ready[id] == ready0[id] && waker[id] == waker0[id]
  }

  /** Popping the due timer at the front keeps the state well formed and the loop's account one longer. */
  lemma TickStep(nsPerTick: nat, nextTimer: nat, heap0: seq<nat>, ready0: map<nat, bool>, waker0: map<nat, Option<nat>>,
                 deadline: map<nat, nat>, t: nat, n: nat,
                 heap: seq<nat>, ready: map<nat, bool>, waker: map<nat, Option<nat>>, woken: seq<nat>,
                 heap1: seq<nat>, ready1: map<nat, bool>, waker1: map<nat, Option<nat>>, woken1: seq<nat>)
    requires Wf(nsPerTick, heap0, deadline, ready0, waker0, nextTimer)
    requires Wf(nsPerTick, heap, deadline, ready, waker, nextTimer)
    requires TickInv(heap0, ready0, waker0, deadline, t, n, heap, ready, waker, woken)
    requires heap != [] && deadline[heap[0]] <= t
    requires heap1 == heap[1..] && ready1 == ready[heap[0] := true] && waker1 == waker[heap[0] := None]
    requires woken1 == woken + (if waker[heap[0]].Some? then [waker[heap[0]].value] else [])
    ensures Wf(nsPerTick, heap1, deadline, ready1, waker1, nextTimer)
    ensures TickInv(heap0, ready0, waker0, deadline, t, n + 1, heap1, ready1, waker1, woken1)
  {
    PopWf(nsPerTick, nextTimer, deadline, heap, ready, waker);
    PopAccount(heap0, ready0, waker0, deadline, t, n, heap, ready, waker, woken, woken1);
  }

  /** Popping the front timer and marking it ready keeps the state well formed. */
  lemma PopWf(nsPerTick: nat, nextTimer: nat, deadline: map<nat, nat>,
              heap: seq<nat>, ready: map<nat, bool>, waker: map<nat, Option<nat>>)
    requires Wf(nsPerTick, heap, deadline, ready, waker, nextTimer) && heap != []
    ensures Wf(nsPerTick, heap[1..], deadline, ready[heap[0] := true], waker[heap[0] := None], nextTimer)
  {
    var tim := heap[0];
    forall i | 0 <= i < |heap| - 1
      ensures heap[1..][i] != tim
    {
      assert heap[1..][i] == heap[i + 1];
    }
  }

  /** Popping `heap0[n]` extends the loop's account by it. */
  lemma PopAccount(heap0: seq<nat>, ready0: map<nat, bool>, waker0: map<nat, Option<nat>>,
                   deadline: map<nat, nat>, t: nat, n: nat,
                   heap: seq<nat>, ready: map<nat, bool>, waker: map<nat, Option<nat>>, woken: seq<nat>, woken1: seq<nat>)
    requires Distinct(heap0)
    requires TickInv(heap0, ready0, waker0, deadline, t, n, heap, ready, waker, woken)
    requires heap != [] && deadline[heap[0]] <= t
    requires woken1 == woken + (if waker[heap[0]].Some? then [waker[heap[0]].value] else [])
    ensures TickInv(heap0, ready0, waker0, deadline, t, n + 1, heap[1..], ready[heap[0] := true], waker[heap[0] := None], woken1)
  {
    var tim := heap[0];
    assert tim == heap0[n];
    PrefixSnoc(heap0, n);
    assert tim !in heap0[..n] by {
      forall i | 0 <= i < n
        ensures heap0[i] != tim
      {
      }
    }
    assert waker[tim] == waker0[tim];
  }

  /** A prefix one longer is the prefix and the next element. */
  lemma PrefixSnoc(s: seq<nat>, n: nat)
    requires n < |s|
    ensures s[..n + 1] == s[..n] + [s[n]] && s[..n + 1][..n] == s[..n]
  {
  }

  /** The loop stops after the due prefix: when it has popped `n` due timers and the next is not due, or none is left, `n` is the count. */
  lemma DueCountIs(heap: seq<nat>, deadline: map<nat, nat>, t: nat, n: nat)
    requires forall i :: 0 <= i < |heap| ==> heap[i] in deadline
    requires n <= |heap|
    requires forall i :: 0 <= i < n ==> deadline[heap[i]] <= t
    requires n < |heap| ==> deadline[heap[n]] > t
    ensures DueCount(heap, deadline, t) == n
    decreases n
  {
    if n > 0 {
      DueCountIs(heap[1..], deadline, t, n - 1);
    }
  }

  /** Filing a timer at `PushPos` keeps the heap in pop order. */
  lemma PushKeepsOrder(heap: seq<nat>, deadline: map<nat, nat>, timer: nat, d: nat, p: nat)
    requires Sorted(heap, deadline) && Distinct(heap) && timer !in deadline
    requires p <= |heap|
    requires forall i :: 0 <= i < p ==> deadline[heap[i]] <= d
    requires forall i :: p <= i < |heap| ==> deadline[heap[i]] > d
    ensures Sorted(heap[..p] + [timer] + heap[p..], deadline[timer := d])
    ensures Distinct(heap[..p] + [timer] + heap[p..])
  {
    var h := heap[..p] + [timer] + heap[p..];
    var dl := deadline[timer := d];
    forall i | 0 <= i < |h|
      ensures h[i] in dl && dl[h[i]] == (if i < p then deadline[heap[i]] else if i == p then d else deadline[heap[i - 1]])
    {
      if i < p {
        assert h[i] == heap[i];
      } else if i > p {
        assert h[i] == heap[i - 1];
      }
    }
    forall i, j | 0 <= i < j < |h|
      ensures h[i] != h[j]
    {
      assert h[i] in deadline || h[i] == timer;
      assert h[j] in deadline || h[j] == timer;
      if i < p && j < p {
        assert h[i] == heap[i] && h[j] == heap[j];
      } else if i < p && j > p {
        assert h[i] == heap[i] && h[j] == heap[j - 1];
      } else if i > p {
        assert h[i] == heap[i - 1] && h[j] == heap[j - 1];
      }
    }
  }

  /** A timer due at tick 1 is filed in front of one due at tick 2, and one due at tick 2 behind one due at tick 1. */
  lemma PushOrdersByDeadline()
    ensures PushPos([0], map[0 := 2], 1) == 0
    ensures PushPos([0], map[0 := 1], 2) == 1
  {
    assert DueCount([0], map[0 := 2], 1) == 0;
    assert DueCount([0], map[0 := 1], 2) == 1;
  }

  /**
   * The heap `[1, 0]` with deadlines 1 and 2, timer 0 polled by task 7: the
   * tick to 1 fires timer 1 alone and wakes nothing.
   */
  method FirstTickFiresEarliest() returns (heap: seq<nat>, woken: seq<nat>)
    ensures heap == [0] && woken == []
  {
    var deadline := map[0 := 2, 1 := 1];
    assert DueCount([1, 0], deadline, 1) == 1;
    var ready, waker;
    heap, ready, waker, woken := DrainDue(1, 2, deadline, 1, [1, 0], map[0 := false, 1 := false], map[0 := Some(7), 1 := None]);
    assert [1, 0][..1] == [1];
  }

  /** The tick to 2 then fires timer 0 and wakes task 7, leaving the heap empty. */
  method SecondTickWakes() returns (heap: seq<nat>, woken: seq<nat>)
    ensures heap == [] && woken == [7]
  {
    var deadline := map[0 := 2, 1 := 1];
    assert DueCount([0], deadline, 2) == 1;
    var ready, waker;
    heap, ready, waker, woken := DrainDue(1, 2, deadline, 2, [0], map[0 := false, 1 := true], map[0 := Some(7), 1 := None]);
    assert [0][..1] == [0];
  }
}
