/**
 * Go's `int64` arithmetic on Dafny's unbounded integers: the range,
 * two's-complement wrap-around of `+`, and Go's truncating `/`.
 */
module Int64 {

  import opened Numeric

  const MIN64: int := -0x8000_0000_0000_0000
  const MAX64: int :=  0x7fff_ffff_ffff_ffff
  const MOD64: int :=  0x1_0000_0000_0000_0000

  predicate IsInt64(x: int) {
    MIN64 <= x <= MAX64
  }

  /**
   * The int64 that `x` wraps to, as two's-complement addition overflows:
   * shift by 2^64 until the value is in range.
   */
  function Wrap64(x: int): (r: int)
    ensures IsInt64(r)
    ensures IsInt64(x) ==> r == x
    decreases if x < MIN64 then MIN64 - x else if x > MAX64 then x - MAX64 else 0
  {
    if x < MIN64 then Wrap64(x + MOD64)
    else if x > MAX64 then Wrap64(x - MOD64)
    else x
  }

  /** Go's `a + b` on int64: the exact sum, brought back into range by one turn of 2^64 if it overflows. */
  function Add64(a: int, b: int): (s: int)
    requires IsInt64(a) && IsInt64(b)
    ensures IsInt64(s)
  {
    var t := a + b;
    if t > MAX64 then t - MOD64 else if t < MIN64 then t + MOD64 else t
  }

  /** The sum of two int64 values wraps as the exact sum does. */
  lemma Add64IsWrap(a: int, b: int)
    requires IsInt64(a) && IsInt64(b)
    ensures Add64(a, b) == Wrap64(a + b)
  {
  }

  /** Wrapping is reduction modulo 2^64 into the int64 range. */
  lemma {:induction false} WrapIsMod(x: int)
    ensures Wrap64(x) == (x - MIN64) % MOD64 + MIN64
    decreases if x < MIN64 then MIN64 - x else if x > MAX64 then x - MAX64 else 0
  {
    var a := x - MIN64;
    if x < MIN64 {
      WrapIsMod(x + MOD64);
      ModOfShifted(a + MOD64, a / MOD64 + 1, a % MOD64);
    } else if x > MAX64 {
      WrapIsMod(x - MOD64);
      ModOfShifted(a - MOD64, a / MOD64 - 1, a % MOD64);
    } else {
      ModOfShifted(a, 0, a);
    }
  }

  /** `x` and the int64 it wraps to differ by a multiple of 2^64. */
  lemma WrapCongruent(x: int)
    ensures (x - Wrap64(x)) % MOD64 == 0
  {
    var a := x - MIN64;
    WrapIsMod(x);
    ModOfShifted(x - Wrap64(x), a / MOD64, 0);
  }

  /** Wrapping only depends on the value modulo 2^64. */
  lemma WrapShift(x: int, k: int)
    ensures Wrap64(x + k * MOD64) == Wrap64(x)
  {
    WrapIsMod(x);
    WrapIsMod(x + k * MOD64);
    var a := x - MIN64;
    var q, r := a / MOD64, a % MOD64;
    assert a + k * MOD64 == (q + k) * MOD64 + r;
    assert (a + k * MOD64) % MOD64 == r by {
      ModOfShifted(a + k * MOD64, q + k, r);
    }
  }

  lemma ModOfShifted(n: int, q: int, r: int)
    requires 0 <= r < MOD64 && n == q * MOD64 + r
    ensures n % MOD64 == r
  {
  }

  /** Adding to an already wrapped value wraps to the same place as adding first. */
  lemma WrapAdd(x: int, y: int)
    ensures Wrap64(Wrap64(x) + y) == Wrap64(x + y)
  {
    var w := Wrap64(x);
    WrapCongruent(x);
    var k := (x - w) / MOD64;
    assert x - w == k * MOD64;
    WrapShift(w + y, k);
  }

  /** Adding `step` to the wrapped sum `p` of `n - 1` steps wraps to the sum of `n` steps. */
  lemma WrapAddMultiple(x: int, step: int, n: nat, p: int)
    requires n > 0 && p == Wrap64(x + (n - 1) * step)
    ensures Wrap64(p + step) == Wrap64(x + n * step)
  {
    WrapAdd(x + (n - 1) * step, step);
    assert x + (n - 1) * step + step == x + n * step;
  }

  /**
   * Go's `a / b` on int64: the quotient truncated toward zero, except that
   * MinInt64 / -1 overflows back to MinInt64. A zero divisor panics in Go.
   */
  function TruncDiv64(a: int, b: int): (q: int)
    requires IsInt64(a) && IsInt64(b) && b != 0
    ensures IsInt64(q)
  {
    if a == MIN64 && b == -1 then MIN64
    else
      var m := Abs(a) / Abs(b);
      var q := if (a < 0) == (b < 0) then m else -m;
      TruncQuotient(a, b, m, q);
      q
  }

  /**
   * What Go promises of `a / b`: MinInt64 / -1 is MinInt64; otherwise the
   * remainder `a - q*b` is smaller than the divisor in magnitude and is zero
   * or has the sign of the dividend.
   */
  lemma TruncDivSpec(a: int, b: int)
    requires IsInt64(a) && IsInt64(b) && b != 0
    ensures a == MIN64 && b == -1 ==> TruncDiv64(a, b) == MIN64
    ensures !(a == MIN64 && b == -1) ==>
              var r := a - TruncDiv64(a, b) * b;
              Abs(r) < Abs(b) && (r == 0 || (r < 0 <==> a < 0))
  {
    if !(a == MIN64 && b == -1) {
      var m := Abs(a) / Abs(b);
      TruncQuotient(a, b, m, if (a < 0) == (b < 0) then m else -m);
    }
  }

  /** The facts about the truncated quotient `q` of `a` by `b`, from those of `|a| / |b|`. */
  lemma TruncQuotient(a: int, b: int, m: int, q: int)
    requires IsInt64(a) && IsInt64(b) && b != 0 && !(a == MIN64 && b == -1)
    requires m == Abs(a) / Abs(b) && q == (if (a < 0) == (b < 0) then m else -m)
    ensures IsInt64(q)
    ensures var r := a - q * b;
            Abs(r) < Abs(b) && (r == 0 || (r < 0 <==> a < 0))
  {
    var A, B := Abs(a), Abs(b);
    var rem := A % B;
    var p := m * B;
    assert A == p + rem;
    QuotientRange(A, B);
    assert q * b == (if a < 0 then -p else p) by {
      SignedProduct(m, b, q, a < 0);
    }
  }

  lemma SignedProduct(m: int, b: int, q: int, neg: bool)
    requires b != 0 && q == (if neg == (b < 0) then m else -m)
    ensures q * b == (if neg then -(m * Abs(b)) else m * Abs(b))
  {
    if b < 0 {
      assert m * b == -(m * Abs(b));
    }
  }

  lemma QuotientRange(n: nat, d: nat)
    requires d > 0
    ensures n / d <= n
    ensures d >= 2 ==> 2 * (n / d) <= n
  {
    var m := n / d;
    assert n == m * d + n % d;
    MulMonotone(1, d, m);
    if d >= 2 {
      MulMonotone(2, d, m);
    }
  }

  function Abs(x: int): nat {
    if x < 0 then -x else x
  }

  /** For a non-negative dividend and positive divisor Go's quotient is the floor. */
  lemma TruncDivNonNegative(a: int, b: int)
    requires 0 <= a <= MAX64 && 0 < b <= MAX64
    ensures TruncDiv64(a, b) == a / b
  {
    TruncDivSpec(a, b);
  }

  /** Go's quotient of a non-negative `now` by a positive step is `k` exactly on `[k*step, (k+1)*step)`. */
  lemma {:induction false} TruncDivWindow(now: int, step: int, k: int)
    requires 0 <= now <= MAX64 && 0 < step <= MAX64
    ensures TruncDiv64(now, step) == k <==> k * step <= now < (k + 1) * step
  {
    TruncDivNonNegative(now, step);
    var q := now / step;
    assert q * step <= now < (q + 1) * step;
    if k < q {
      assert (k + 1) * step <= q * step by { MulMonotone(k + 1, q, step); }
    } else if k > q {
      assert (q + 1) * step <= k * step by { MulMonotone(q + 1, k, step); }
    }
  }
}
