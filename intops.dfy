/**
 * Integer helpers the modelled code relies on: ceiling division
 * (lib/chos-lib/src/int.rs), alignment up to a multiple, powers of two and the
 * integer base-2 logarithm. Values are unbounded; callers bound them where the
 * source's width matters.
 */
module IntOps {
  function Pow2(n: nat): (r: nat)
    ensures r >= 1
  {
    if n == 0 then 1 else 2 * Pow2(n - 1)
  }

  /** `ceil_div`: `(a + b - 1) / b`. */
  function CeilDiv(a: nat, b: nat): (q: nat)
    requires b > 0
  {
    (a + b - 1) / b
  }

  /** The quotient is the least multiple count that covers `a`. */
  lemma CeilDivIsLeastCover(a: nat, b: nat)
    requires b > 0
    ensures CeilDiv(a, b) * b >= a
    ensures CeilDiv(a, b) == 0 || (CeilDiv(a, b) - 1) * b < a
  {
    var q := CeilDiv(a, b);
    var r := (a + b - 1) % b;
    assert a + b - 1 == q * b + r;
  }

  function AlignUp(a: nat, b: nat): (r: nat)
    requires b > 0
  {
    CeilDiv(a, b) * b
  }

  lemma AlignUpBounds(a: nat, b: nat)
    requires b > 0
    ensures AlignUp(a, b) % b == 0
    ensures a <= AlignUp(a, b) < a + b
  {
    var q := CeilDiv(a, b);
    CeilDivIsLeastCover(a, b);
    ModAddMultiple(0, q, b);
    if q > 0 {
      assert (q - 1) * b == q * b - b;
    }
  }

  lemma AlignUpOfMultiple(k: nat, b: nat)
    requires b > 0
    ensures AlignUp(k * b, b) == k * b
  {
    DivUnique(k * b + b - 1, b, k, b - 1);
  }

  /** Dividing twice is dividing by the product. */
  lemma DivDiv(x: nat, a: nat, b: nat)
    requires a > 0 && b > 0
    ensures x / a / b == x / (a * b)
    ensures x % (a * b) == (x / a) % b * a + x % a
  {
    var y := x / a;
    var q, r2, r1 := y / b, y % b, x % a;
    assert x == y * a + r1;
    assert y == q * b + r2;
    NestedRemainder(q, r2, r1, a, b);
    DivUnique(x, a * b, q, r2 * a + r1);
  }

  /** `(q * b + r2) * a + r1` is `q * (a * b)` plus a remainder below `a * b`. */
  lemma NestedRemainder(q: nat, r2: nat, r1: nat, a: nat, b: nat)
    requires r2 < b && r1 < a
    ensures (q * b + r2) * a + r1 == q * (a * b) + (r2 * a + r1)
    ensures r2 * a + r1 < a * b
  {
    MulMonotone(r2, b - 1, a);
    assert (b - 1) * a == a * b - a;
  }

  /** The remainder by `a * b`, divided by `a`, is the quotient by `a` reduced mod `b`. */
  lemma ModDiv(x: nat, a: nat, b: nat)
    requires a > 0 && b > 0
    ensures (x % (a * b)) / a == (x / a) % b
  {
    DivDiv(x, a, b);
    DivUnique(x % (a * b), a, (x / a) % b, x % a);
  }

  lemma MulMonotone(a: nat, b: nat, c: nat)
    requires a <= b
    ensures a * c <= b * c
  {
    MulNonNegative(b - a, c);
    assert b * c - a * c == (b - a) * c;
  }

  /** Adding whole multiples of `b` leaves the remainder by `b` unchanged. */
  lemma ModAddMultiple(a: nat, n: nat, b: nat)
    requires b > 0
    ensures (a + n * b) % b == a % b
    ensures (a + n * b) / b == a / b + n
  {
    DivUnique(a + n * b, b, a / b + n, a % b);
  }

  /** Between two distinct multiples of `b` there is room for a whole `b`. */
  lemma NextMultiple(a: nat, c: nat, b: nat)
    requires b > 0 && a % b == 0 && c % b == 0 && a < c
    ensures a + b <= c
  {
    var qa, qc := a / b, c / b;
    assert a == qa * b && c == qc * b;
    if qc <= qa {
      MulMonotone(qc, qa, b);
    }
    MulMonotone(qa + 1, qc, b);
  }

  /** A multiple of `b` in the divisibility sense is one with remainder zero. */
  lemma MultipleIffModZero(a: nat, b: nat)
    requires b > 0
    ensures (exists k: nat :: a == k * b) <==> a % b == 0
  {
    if a % b == 0 {
      assert a == (a / b) * b;
    }
    forall k: nat | a == k * b
      ensures a % b == 0
    {
      DivUnique(a, b, k, 0);
    }
  }

  /** Euclidean division is determined by any quotient and remainder pair. */
  lemma DivUnique(n: nat, b: nat, q: nat, r: nat)
    requires b > 0 && r < b && n == q * b + r
    ensures n / b == q && n % b == r
  {
    var d := n / b - q;
    assert b * d == r - n % b;
    MulWithinOneIsZero(b, d);
  }

  lemma MulWithinOneIsZero(b: nat, d: int)
    requires b > 0 && -(b as int) < b * d < b
    ensures d == 0
  {
    MulAwayFromZero(b, d);
  }

  lemma MulAwayFromZero(b: nat, d: int)
    ensures d >= 1 ==> b * d >= b
    ensures d <= -1 ==> b * d <= -(b as int)
  {
    if d >= 1 {
      var e: nat := d - 1;
      MulNonNegative(b, e);
      assert b * d == b * e + b;
    } else if d <= -1 {
      var e: nat := -d - 1;
      MulNonNegative(b, e);
      assert b * d == -(b * e) - b;
    }
  }

  lemma {:induction false} MulNonNegative(a: nat, b: nat)
    ensures a * b >= 0
    decreases b
  {
    if b > 0 {
      MulNonNegative(a, b - 1);
      assert a * b == a * (b - 1) + a;
    }
  }

  /** `log2u64`: the position of the highest set bit. */
  function Log2(n: nat): (r: nat)
    requires n >= 1
    decreases n
  {
    if n == 1 then 0 else 1 + Log2(n / 2)
  }

  lemma {:induction false} Log2Bounds(n: nat)
    requires n >= 1
    ensures Pow2(Log2(n)) <= n < Pow2(Log2(n) + 1)
    decreases n
  {
    if n > 1 {
      Log2Bounds(n / 2);
    }
  }

  lemma {:induction false} Log2OfPow2(k: nat)
    ensures Log2(Pow2(k)) == k
  {
    if k > 0 {
      Log2OfPow2(k - 1);
      assert Pow2(k) / 2 == Pow2(k - 1);
    }
  }

  lemma {:induction false} Pow2Add(a: nat, b: nat)
    ensures Pow2(a + b) == Pow2(a) * Pow2(b)
    decreases a
  {
    if a > 0 {
      Pow2Add(a - 1, b);
    }
  }

  lemma {:induction false} Pow2Monotone(a: nat, b: nat)
    requires a <= b
    ensures Pow2(a) <= Pow2(b)
    decreases b - a
  {
    if a < b {
      Pow2Monotone(a + 1, b);
    }
  }
}
