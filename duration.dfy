/**
 * `Duration64` (lib/chos-lib/src/duration.rs): a span of time kept as whole
 * seconds (`u64`) plus nanoseconds (`u32`, always below one second).
 *
 * The meaning of a duration is its total length in nanoseconds, `TotalNanos`,
 * an unbounded integer; the constructors and the checked arithmetic are
 * stated against it.
 */
module Duration {
  import opened Wrappers
  import opened IntOps

  const NS_PER_SEC: nat := 1_000_000_000
  const U64_MAX: nat := 0xffff_ffff_ffff_ffff

  datatype Duration64 = Duration64(secs: nat, nanos: nat)

  /** What every constructor and operation keeps: `secs` fits a `u64` and `nanos` is below a second. */
  predicate Valid(d: Duration64) {
    d.secs <= U64_MAX && d.nanos < NS_PER_SEC
  }

  /** The length of the duration in nanoseconds. */
  function TotalNanos(d: Duration64): nat {
    d.secs * NS_PER_SEC + d.nanos
  }

  function FromSecs(secs: nat): (r: Duration64)
    requires secs <= U64_MAX
    ensures Valid(r) && TotalNanos(r) == secs * NS_PER_SEC
  {
    Duration64(secs, 0)
  }

  function FromMillis(millis: nat): (r: Duration64)
    requires millis <= U64_MAX
    ensures Valid(r) && TotalNanos(r) == millis * 1_000_000
  {
    Duration64(millis / 1000, (millis % 1000) * 1_000_000)
  }

  function FromMicros(micros: nat): (r: Duration64)
    requires micros <= U64_MAX
    ensures Valid(r) && TotalNanos(r) == micros * 1000
  {
    Duration64(micros / 1_000_000, (micros % 1_000_000) * 1000)
  }

  function FromNanos(nanos: nat): (r: Duration64)
    requires nanos <= U64_MAX
    ensures Valid(r) && TotalNanos(r) == nanos
  {
    Duration64(nanos / NS_PER_SEC, nanos % NS_PER_SEC)
  }

  /**
   * `as_nanos`: `secs * 1_000_000_000 + nanos` in `u64`. The multiplication
   * overflows for durations longer than about 584 years, so the caller must
   * keep the total within a `u64`.
   */
  function AsNanos(d: Duration64): (r: nat)
    requires Valid(d) && TotalNanos(d) <= U64_MAX
    ensures r <= U64_MAX
  {
    d.secs * NS_PER_SEC + d.nanos
  }

  /** `as_secs`: the whole seconds in `d`. */
  function AsSecs(d: Duration64): (r: nat)
    ensures Valid(d) ==> r * NS_PER_SEC <= TotalNanos(d) < (r + 1) * NS_PER_SEC
  {
    d.secs
  }

  /** `as_millis` as written: `secs * 1_000_000 + nanos / 1_000`, which counts microseconds. */
  function AsMillisAsWritten(d: Duration64): (r: nat)
    ensures Valid(d) ==> r == AsMicros(d)
  {
    d.secs * 1_000_000 + d.nanos / 1_000
  }

  /** `as_micros` as written: `secs * 1_000 + nanos / 1_000_000`, which counts milliseconds. */
  function AsMicrosAsWritten(d: Duration64): (r: nat)
    ensures Valid(d) ==> r == AsMillis(d)
  {
    d.secs * 1_000 + d.nanos / 1_000_000
  }

  /** The whole milliseconds in `d`, what `as_millis` is named for. */
  function AsMillis(d: Duration64): (r: nat)
    requires Valid(d)
    ensures r * 1_000_000 <= TotalNanos(d) < (r + 1) * 1_000_000
  {
    d.secs * 1_000 + d.nanos / 1_000_000
  }

  /** The whole microseconds in `d`, what `as_micros` is named for. */
  function AsMicros(d: Duration64): (r: nat)
    requires Valid(d)
    ensures r * 1_000 <= TotalNanos(d) < (r + 1) * 1_000
  {
    d.secs * 1_000_000 + d.nanos / 1_000
  }

  /** `checked_add`: `None` exactly when the seconds, with the carry, overflow a `u64`. */
  function CheckedAdd(a: Duration64, b: Duration64): (r: Option<Duration64>)
    requires Valid(a) && Valid(b)
    ensures r.Some? ==> Valid(r.value) && TotalNanos(r.value) == TotalNanos(a) + TotalNanos(b)
    ensures r.None? <==> TotalNanos(a) + TotalNanos(b) > U64_MAX * NS_PER_SEC + (NS_PER_SEC - 1)
  {
    if a.secs + b.secs > U64_MAX then None
    else
      var secs := a.secs + b.secs;
      var nanos := a.nanos + b.nanos;
      if nanos >= NS_PER_SEC then
        if secs + 1 > U64_MAX then None
        else Some(Duration64(secs + 1, nanos - NS_PER_SEC))
      else Some(Duration64(secs, nanos))
  }

  /** `checked_sub`: `None` exactly when `b` is longer than `a`; otherwise borrows a second when needed. */
  function CheckedSub(a: Duration64, b: Duration64): (r: Option<Duration64>)
    requires Valid(a) && Valid(b)
    ensures r.Some? ==> Valid(r.value) && TotalNanos(r.value) == TotalNanos(a) - TotalNanos(b)
    ensures r.None? <==> TotalNanos(a) < TotalNanos(b)
  {
    if a.secs < b.secs then None
    else
      var secs := a.secs - b.secs;
      if a.nanos >= b.nanos then Some(Duration64(secs, a.nanos - b.nanos))
      else if secs < 1 then None
      else Some(Duration64(secs - 1, a.nanos + NS_PER_SEC - b.nanos))
  }

  /** `+` panics ("Duration overflow") exactly when `checked_add` is `None`. */
  function Add(a: Duration64, b: Duration64): (r: Duration64)
    requires Valid(a) && Valid(b) && CheckedAdd(a, b).Some?
    ensures Valid(r) && TotalNanos(r) == TotalNanos(a) + TotalNanos(b)
  {
    CheckedAdd(a, b).value
  }

  /** `-` panics ("Duration overflow") exactly when `checked_sub` is `None`. */
  function Sub(a: Duration64, b: Duration64): (r: Duration64)
    requires Valid(a) && Valid(b) && CheckedSub(a, b).Some?
    ensures Valid(r) && TotalNanos(r) == TotalNanos(a) - TotalNanos(b)
  {
    CheckedSub(a, b).value
  }

  /** The derived `Ord`: seconds first, then nanoseconds. */
  predicate Less(a: Duration64, b: Duration64) {
    a.secs < b.secs || (a.secs == b.secs && a.nanos < b.nanos)
  }

  // ---------------------------------------------------------------- properties

  /** A valid duration is determined by its length. */
  lemma TotalNanosInjective(a: Duration64, b: Duration64)
    requires Valid(a) && Valid(b) && TotalNanos(a) == TotalNanos(b)
    ensures a == b
  {
    DivUnique(TotalNanos(a), NS_PER_SEC, a.secs, a.nanos);
    DivUnique(TotalNanos(b), NS_PER_SEC, b.secs, b.nanos);
  }

  /** `as_nanos(from_nanos(n)) == n`, and `from_nanos(as_nanos(d)) == d`. */
  lemma NanosRoundTrip(n: nat, d: Duration64)
    requires n <= U64_MAX
    requires Valid(d) && TotalNanos(d) <= U64_MAX
    ensures AsNanos(FromNanos(n)) == n
    ensures FromNanos(AsNanos(d)) == d
  {
    TotalNanosInjective(FromNanos(AsNanos(d)), d);
  }

  /** The derived order on valid durations is the order of their lengths. */
  lemma LessIsShorter(a: Duration64, b: Duration64)
    requires Valid(a) && Valid(b)
    ensures Less(a, b) <==> TotalNanos(a) < TotalNanos(b)
  {
    if a.secs < b.secs {
      assert TotalNanos(a) < (a.secs + 1) * NS_PER_SEC <= TotalNanos(b);
    } else if a.secs > b.secs {
      assert TotalNanos(b) < (b.secs + 1) * NS_PER_SEC <= TotalNanos(a);
    }
  }

  /** Subtracting what was added gives the original duration back. */
  lemma AddThenSub(a: Duration64, b: Duration64)
    requires Valid(a) && Valid(b) && CheckedAdd(a, b).Some?
    ensures CheckedSub(Add(a, b), b) == Some(a)
  {
    var s := CheckedSub(Add(a, b), b);
    TotalNanosInjective(s.value, a);
  }

  /** As written, `as_millis` of one second is 1_000_000 and `as_micros` is 1_000: the two are swapped. */
  lemma AsMillisMicrosSwapped()
    ensures AsMillisAsWritten(FromSecs(1)) == 1_000_000 != 1_000
    ensures AsMicrosAsWritten(FromSecs(1)) == 1_000 != 1_000_000
    ensures AsMillisAsWritten(FromMillis(1)) == 1_000
  {
  }

  /** The corrected conversions invert the matching constructors. */
  lemma MillisMicrosRoundTrip(m: nat)
    requires m <= U64_MAX
    ensures AsMillis(FromMillis(m)) == m
    ensures AsMicros(FromMicros(m)) == m
  {
  }

  /** The unit tests of duration.rs (lines 94-142). */
  lemma DurationExamples()
    ensures FromSecs(1) == Duration64(1, 0)
    ensures FromMillis(1100) == Duration64(1, 100_000_000)
    ensures FromMicros(1_100_000) == Duration64(1, 100_000_000)
    ensures FromNanos(1_100_000_000) == Duration64(1, 100_000_000)
  {
  }

  /** Sums and differences that carry into or borrow from the seconds. */
  lemma DurationArithmeticExamples()
    ensures Add(FromSecs(1), FromNanos(1)) == Duration64(1, 1)
    ensures Add(FromMillis(550), FromMillis(550)) == Duration64(1, 100_000_000)
    ensures Sub(FromNanos(100), FromNanos(1)) == Duration64(0, 99)
    ensures Sub(FromSecs(2), FromNanos(1)) == Duration64(1, 999_999_999)
  {
    assert FromNanos(1) == Duration64(0, 1) && FromNanos(100) == Duration64(0, 100);
    assert FromMillis(550) == Duration64(0, 550_000_000);
    assert CheckedAdd(Duration64(1, 0), Duration64(0, 1)) == Some(Duration64(1, 1));
    assert CheckedAdd(Duration64(0, 550_000_000), Duration64(0, 550_000_000)) == Some(Duration64(1, 100_000_000));
    assert CheckedSub(Duration64(0, 100), Duration64(0, 1)) == Some(Duration64(0, 99));
    assert CheckedSub(Duration64(2, 0), Duration64(0, 1)) == Some(Duration64(1, 999_999_999));
  }
}
