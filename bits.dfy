/**
 * Shifts and masks on unsigned words whose shift amount is a variable.
 *
 * A word is a natural number. `Shr(x, n)` is `x >> n`, `Shl(x, n)` is
 * `x << n` before any truncation, `Low(x, n)` is `x & ((1 << n) - 1)`, and
 * `Concat(hi, lo, n)` is `(hi << n) | lo` for an `lo` narrower than `n` bits.
 * `Or`, `And` and `AndNot` are `|`, `&` and `& !`. Each is defined one bit
 * at a time, so that the facts below are proved by induction on the bit
 * position.
 */
module Bits {
  import opened IntOps

  function Shr(x: nat, n: nat): nat {
    if n == 0 then x else Shr(x / 2, n - 1)
  }

  function Shl(x: nat, n: nat): nat {
    if n == 0 then x else 2 * Shl(x, n - 1)
  }

  function Low(x: nat, n: nat): nat {
    if n == 0 then 0 else x % 2 + 2 * Low(x / 2, n - 1)
  }

  function Concat(hi: nat, lo: nat, n: nat): nat {
    Shl(hi, n) + lo
  }

  /** Bit `i` of `x`: `(x >> i) & 1 == 1`. */
  predicate Bit(x: nat, i: nat) {
    Shr(x, i) % 2 == 1
  }

  function Or(a: nat, b: nat): nat
    decreases a + b
  {
    if a == 0 && b == 0 then 0
    else (if a % 2 == 1 || b % 2 == 1 then 1 else 0) + 2 * Or(a / 2, b / 2)
  }

  function And(a: nat, b: nat): nat
    decreases a
  {
    if a == 0 then 0
    else (if a % 2 == 1 && b % 2 == 1 then 1 else 0) + 2 * And(a / 2, b / 2)
  }

  function AndNot(a: nat, b: nat): nat
    decreases a
  {
    if a == 0 then 0
    else (if a % 2 == 1 && b % 2 == 0 then 1 else 0) + 2 * AndNot(a / 2, b / 2)
  }

  /** `x.trailing_zeros()` for a non-zero `x`: the position of its lowest set bit. */
  function TrailingZeros(x: nat): nat
    requires x > 0
    decreases x
  {
    if x % 2 == 1 then 0 else 1 + TrailingZeros(x / 2)
  }

  // ------------------------------------------------------------------ lemmas

  lemma {:induction false} ShlIsMul(x: nat, n: nat)
    ensures Shl(x, n) == x * Pow2(n)
  {
    if n > 0 {
      ShlIsMul(x, n - 1);
      assert x * Pow2(n) == 2 * (x * Pow2(n - 1));
    }
  }

  lemma {:induction false} ShrZero(n: nat)
    ensures Shr(0, n) == 0
  {
    if n > 0 {
      ShrZero(n - 1);
    }
  }

  lemma ZeroHasNoBits(i: nat)
    ensures !Bit(0, i)
  {
    ShrZero(i);
  }

  lemma {:induction false} ShrShr(x: nat, a: nat, b: nat)
    ensures Shr(Shr(x, a), b) == Shr(x, a + b)
    decreases a
  {
    if a > 0 {
      ShrShr(x / 2, a - 1, b);
    }
  }

  /** Shifting right by `n` moves bit `n + k` down to bit `k`. */
  lemma BitShr(x: nat, n: nat, k: nat)
    ensures Bit(Shr(x, n), k) == Bit(x, n + k)
  {
    ShrShr(x, n, k);
  }

  /** A value is below `2^n` exactly when shifting it right by `n` leaves nothing. */
  lemma {:induction false} ShrZeroIff(x: nat, n: nat)
    ensures Shr(x, n) == 0 <==> x < Pow2(n)
  {
    if n > 0 {
      ShrZeroIff(x / 2, n - 1);
    }
  }

  lemma {:induction false} LowBound(x: nat, n: nat)
    ensures Low(x, n) < Pow2(n)
  {
    if n > 0 {
      LowBound(x / 2, n - 1);
    }
  }

  /** The mask keeps the bits below `n` and clears the others. */
  lemma {:induction false} BitLow(x: nat, n: nat, i: nat)
    ensures Bit(Low(x, n), i) == (i < n && Bit(x, i))
    decreases n
  {
    if n == 0 {
      ZeroHasNoBits(i);
    } else if i > 0 {
      BitLow(x / 2, n - 1, i - 1);
      assert Low(x, n) / 2 == Low(x / 2, n - 1);
    }
  }

  /** A value narrower than `n` bits is its own low part. */
  lemma {:induction false} LowOfNarrow(x: nat, n: nat)
    requires x < Pow2(n)
    ensures Low(x, n) == x
  {
    if n > 0 {
      LowOfNarrow(x / 2, n - 1);
    }
  }

  /** Shifting `Concat(hi, lo, n)` right by at least `n` drops `lo`. */
  lemma {:induction false} ShrConcat(hi: nat, lo: nat, n: nat, m: nat)
    requires lo < Pow2(n) && n <= m
    ensures Shr(Concat(hi, lo, n), m) == Shr(hi, m - n)
    decreases n
  {
    if n > 0 {
      assert Concat(hi, lo, n) / 2 == Concat(hi, lo / 2, n - 1);
      ShrConcat(hi, lo / 2, n - 1, m - 1);
    }
  }

  /** The low `n` bits of `Concat(hi, lo, n)` are `lo`. */
  lemma {:induction false} LowConcat(hi: nat, lo: nat, n: nat)
    requires lo < Pow2(n)
    ensures Low(Concat(hi, lo, n), n) == lo
    decreases n
  {
    if n > 0 {
      assert Concat(hi, lo, n) / 2 == Concat(hi, lo / 2, n - 1);
      assert Concat(hi, lo, n) % 2 == lo % 2;
      LowConcat(hi, lo / 2, n - 1);
    }
  }

  /** Bits of `Concat(hi, lo, n)`: those of `lo` below `n`, those of `hi` from `n` up. */
  lemma BitConcat(hi: nat, lo: nat, n: nat, i: nat)
    requires lo < Pow2(n)
    ensures Bit(Concat(hi, lo, n), i) == if i < n then Bit(lo, i) else Bit(hi, i - n)
  {
    if i < n {
      BitLow(Concat(hi, lo, n), n, i);
      LowConcat(hi, lo, n);
    } else {
      ShrConcat(hi, lo, n, i);
    }
  }

  /** Shifting left by `n` moves bit `i - n` up to bit `i` and leaves zeros below `n`. */
  lemma BitShl(x: nat, n: nat, i: nat)
    ensures Bit(Shl(x, n), i) == (n <= i && Bit(x, i - n))
  {
    assert Shl(x, n) == Concat(x, 0, n);
    BitConcat(x, 0, n, i);
    ZeroHasNoBits(i);
  }

  /** Any word is its bits from `n` up followed by its low `n` bits. */
  lemma {:induction false} SplitAt(x: nat, n: nat)
    ensures Concat(Shr(x, n), Low(x, n), n) == x
  {
    if n > 0 {
      SplitAt(x / 2, n - 1);
    }
  }

  /** `2^w - 1`, that is `(1 << w) - 1`, has exactly the bits `0..w`. */
  lemma {:induction false} AllOnesBit(w: nat, k: nat)
    ensures Bit(Pow2(w) - 1, k) <==> k < w
    decreases w
  {
    if w == 0 {
      ZeroHasNoBits(k);
    } else if k > 0 {
      AllOnesBit(w - 1, k - 1);
    }
  }

  lemma {:induction false} BitOr(a: nat, b: nat, i: nat)
    ensures Bit(Or(a, b), i) == (Bit(a, i) || Bit(b, i))
    decreases i
  {
    if a == 0 && b == 0 {
      ZeroHasNoBits(i);
    } else if i > 0 {
      BitOr(a / 2, b / 2, i - 1);
    }
  }

  lemma {:induction false} BitAnd(a: nat, b: nat, i: nat)
    ensures Bit(And(a, b), i) == (Bit(a, i) && Bit(b, i))
    decreases i
  {
    if a == 0 {
      ZeroHasNoBits(i);
    } else if i > 0 {
      BitAnd(a / 2, b / 2, i - 1);
    }
  }

  lemma {:induction false} BitAndNot(a: nat, b: nat, i: nat)
    ensures Bit(AndNot(a, b), i) == (Bit(a, i) && !Bit(b, i))
    decreases i
  {
    if a == 0 {
      ZeroHasNoBits(i);
    } else if i > 0 {
      BitAndNot(a / 2, b / 2, i - 1);
    }
  }

  /** `|` of two `n`-bit words is an `n`-bit word. */
  lemma {:induction false} OrBound(a: nat, b: nat, n: nat)
    requires a < Pow2(n) && b < Pow2(n)
    ensures Or(a, b) < Pow2(n)
    decreases n
  {
    if n > 0 && !(a == 0 && b == 0) {
      OrBound(a / 2, b / 2, n - 1);
    }
  }

  /** `&` and `& !` never exceed their left operand. */
  lemma {:induction false} AndBound(a: nat, b: nat)
    ensures And(a, b) <= a && AndNot(a, b) <= a
    decreases a
  {
    if a > 0 {
      AndBound(a / 2, b / 2);
    }
  }

  /** Words with the same bits are equal. */
  lemma {:induction false} BitsDetermine(a: nat, b: nat)
    requires forall i: nat :: Bit(a, i) == Bit(b, i)
    ensures a == b
    decreases a + b
  {
    assert Bit(a, 0) == Bit(b, 0);
    if a != 0 || b != 0 {
      forall i: nat
        ensures Bit(a / 2, i) == Bit(b / 2, i)
      {
        assert Bit(a, i + 1) == Bit(b, i + 1);
      }
      BitsDetermine(a / 2, b / 2);
    }
  }

  /** `1 << n` has bit `n` and no other. */
  lemma SingleBit(n: nat, j: nat)
    ensures Bit(Pow2(n), j) <==> j == n
  {
    ShlIsMul(1, n);
    BitShl(1, n, j);
    if j > n {
      ZeroHasNoBits(j - n - 1);
    }
  }

  /** A word has a bit at or above `n` exactly when it is at least `2^n`. */
  lemma {:induction false} HighBitIff(x: nat, n: nat, i: nat)
    requires Bit(x, i)
    ensures i < n || x >= Pow2(n)
  {
    if i >= n && x < Pow2(n) {
      BitAbove(x, n, i);
    }
  }

  /** A word below `2^n` has no bit at or above `n`. */
  lemma {:induction false} BitAbove(x: nat, n: nat, i: nat)
    requires x < Pow2(n) && n <= i
    ensures !Bit(x, i)
    decreases n
  {
    if n == 0 {
      ZeroHasNoBits(i);
    } else {
      BitAbove(x / 2, n - 1, i - 1);
    }
  }

  /** The lowest set bit of a non-zero word is at `trailing_zeros`. */
  lemma {:induction false} TrailingZerosLowest(x: nat)
    requires x > 0
    ensures Bit(x, TrailingZeros(x))
    ensures forall j: nat :: j < TrailingZeros(x) ==> !Bit(x, j)
    decreases x
  {
    if x % 2 == 0 {
      TrailingZerosLowest(x / 2);
      forall j: nat | j < TrailingZeros(x)
        ensures !Bit(x, j)
      {
        if j > 0 {
          assert Bit(x, j) == Bit(x / 2, j - 1);
        }
      }
    }
  }
}
