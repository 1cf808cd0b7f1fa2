/**
 * Exact integer and byte arithmetic used by the passcode generator:
 * powers, the bitwise AND of Go's `&` operator on non-negative values,
 * and big-endian byte encodings (Go's `encoding/binary.BigEndian`).
 */
module Numeric {

  /** An 8-bit byte, as Go's `byte`. */
  type Byte = b: int | 0 <= b < 256

  function Pow(base: nat, e: nat): (r: nat)
    ensures base > 0 ==> r > 0
  {
    if e == 0 then 1 else base * Pow(base, e - 1)
  }

  lemma {:induction false} PowAdd(b: nat, e1: nat, e2: nat)
    ensures Pow(b, e1 + e2) == Pow(b, e1) * Pow(b, e2)
  {
    if e1 > 0 {
      var e := e1 - 1;
      PowAdd(b, e, e2);
      assert Pow(b, e1 + e2) == b * Pow(b, e + e2) by {
        assert e1 + e2 == (e + e2) + 1;
      }
      MulAssoc(b, Pow(b, e), Pow(b, e2));
    }
  }

  lemma MulAssoc(a: int, b: int, c: int)
    ensures a * (b * c) == (a * b) * c
  {
  }

  lemma ShiftSum(a: int, p: int, r: int, l: int)
    ensures (a * p + r) * 256 + l == a * (256 * p) + (r * 256 + l)
  {
  }

  /** 2^31, the modulus of the 31-bit mask `0x7fffffff`. */
  lemma Pow2To31()
    ensures Pow(2, 31) == 0x8000_0000
  {
    assert Pow(2, 8) == 0x100;
    PowAdd(2, 8, 8);
    PowAdd(2, 16, 8);
    PowAdd(2, 24, 7);
    assert Pow(2, 7) == 0x80;
  }

  /** Division with remainder is unique: the quotient and remainder of `n` by `m`. */
  lemma DivModUnique(n: int, m: int, q: int, r: int)
    requires m > 0 && 0 <= r < m && n == q * m + r
    ensures n / m == q && n % m == r
  {
    var q', r' := n / m, n % m;
    assert n == q' * m + r';
    if q' < q {
      assert (q - q') * m == r' - r;
      assert (q - q') * m >= m by { MulMonotone(1, q - q', m); }
    } else if q' > q {
      assert (q' - q) * m == r - r';
      assert (q' - q) * m >= m by { MulMonotone(1, q' - q, m); }
    }
  }

  /** The remainder by `m` leaves a value below `m` alone and repeats every `m`. */
  lemma ModOfSmallAndShift(n: nat, m: nat)
    requires m > 0
    ensures n < m ==> n % m == n
    ensures (n + m) % m == n % m
  {
    if n < m {
      DivModUnique(n, m, 0, n);
    }
    var q := n / m;
    assert n + m == (q + 1) * m + n % m by {
      assert (q + 1) * m == q * m + m;
    }
    DivModUnique(n + m, m, q + 1, n % m);
  }

  lemma MulMonotone(a: int, b: int, m: nat)
    requires a <= b
    ensures a * m <= b * m
  {
  }

  /** Peeling `b` off the low end: `n % (b*c)` is made of `n % b` and `(n / b) % c`. */
  lemma DivModCompose(n: nat, b: nat, c: nat)
    requires b > 0 && c > 0
    ensures n % (b * c) == (n / b) % c * b + n % b
    ensures n / (b * c) == (n / b) / c
  {
    var q, r := n / b, n % b;
    var s, t := q / c, q % c;
    assert t * b + r < b * c by {
      MulMonotone(t, c - 1, b);
    }
    assert n == s * (b * c) + (t * b + r) by {
      calc {
        n;
        q * b + r;
        (s * c + t) * b + r;
        { assert (s * c + t) * b == s * (b * c) + t * b; }
        s * (b * c) + (t * b + r);
      }
    }
    DivModUnique(n, b * c, s, t * b + r);
  }

  // ---------------------------------------------------------------------
  // Bitwise AND on non-negative integers (Go's `&` on unsigned values)
  // ---------------------------------------------------------------------

  /** Bitwise AND of two non-negative integers, bit by bit from the least significant. */
  function And(a: nat, b: nat): (r: nat)
    ensures r <= a && r <= b
  {
    if a == 0 || b == 0 then 0
    else And(a / 2, b / 2) * 2 + (a % 2) * (b % 2)
  }

  /** AND with the mask `2^k - 1` keeps exactly the low `k` bits. */
  lemma {:induction false} AndLowMask(v: nat, k: nat)
    ensures And(v, Pow(2, k) - 1) == v % Pow(2, k)
  {
    if k == 0 {
    } else if v == 0 {
    } else {
      var m := Pow(2, k) - 1;
      assert m / 2 == Pow(2, k - 1) - 1 && m % 2 == 1;
      AndLowMask(v / 2, k - 1);
      DivModCompose(v, 2, Pow(2, k - 1));
    }
  }

  // ---------------------------------------------------------------------
  // Big-endian byte strings
  // ---------------------------------------------------------------------

  /** The unsigned value of `bs` read most significant byte first. */
  function BeValue(bs: seq<Byte>): (r: nat)
    ensures r < Pow(256, |bs|)
  {
    if bs == [] then 0
    else
      var init := bs[..|bs| - 1];
      assert BeValue(init) <= Pow(256, |init|) - 1;
      MulMonotone(BeValue(init), Pow(256, |init|) - 1, 256);
      BeValue(init) * 256 + bs[|bs| - 1]
  }

  /** The `len` low-order bytes of `n`, most significant first. */
  function BeBytes(n: nat, len: nat): (r: seq<Byte>)
    ensures |r| == len
  {
    if len == 0 then [] else BeBytes(n / 256, len - 1) + [n % 256]
  }

  /** Encoding then reading back gives `n` reduced to `len` bytes. */
  lemma {:induction false} BeValueOfBeBytes(n: nat, len: nat)
    ensures BeValue(BeBytes(n, len)) == n % Pow(256, len)
  {
    if len > 0 {
      var bs := BeBytes(n, len);
      assert bs[..len - 1] == BeBytes(n / 256, len - 1);
      BeValueOfBeBytes(n / 256, len - 1);
      DivModCompose(n, 256, Pow(256, len - 1));
    }
  }

  /** Reading then encoding at the same width gives the bytes back. */
  lemma {:induction false} BeBytesOfBeValue(bs: seq<Byte>)
    ensures BeBytes(BeValue(bs), |bs|) == bs
  {
    if bs != [] {
      var init := bs[..|bs| - 1];
      var v := BeValue(bs);
      assert v == BeValue(init) * 256 + bs[|bs| - 1];
      DivModUnique(v, 256, BeValue(init), bs[|bs| - 1]);
      BeBytesOfBeValue(init);
      assert bs == init + [bs[|bs| - 1]];
    }
  }

  /** A four-byte word, as `binary.BigEndian.Uint32` reads it. */
  lemma BeValue4(bs: seq<Byte>)
    requires |bs| == 4
    ensures BeValue(bs) == bs[0] as int * 0x100_0000 + bs[1] as int * 0x1_0000 + bs[2] as int * 0x100 + bs[3]
  {
    assert bs[..1][..0] == [];
    assert BeValue(bs[..1]) == bs[0];
    assert bs[..2][..1] == bs[..1];
    assert BeValue(bs[..2]) == bs[0] as int * 0x100 + bs[1];
    assert bs[..3][..2] == bs[..2];
    assert BeValue(bs[..3]) == bs[0] as int * 0x1_0000 + bs[1] as int * 0x100 + bs[2];
    assert bs[..4][..3] == bs[..3] && bs[..4] == bs;
  }

  /** The value of a byte string whose first byte is `b`, split off from the rest. */
  lemma {:induction false} BeValueFirst(bs: seq<Byte>)
    requires bs != []
    ensures BeValue(bs) == bs[0] * Pow(256, |bs| - 1) + BeValue(bs[1..])
  {
    if |bs| > 1 {
      var init := bs[..|bs| - 1];
      BeValueFirst(init);
      assert init[1..] == bs[1..][..|bs| - 2];
      var p, r, l := Pow(256, |bs| - 2), BeValue(init[1..]), bs[|bs| - 1];
      assert BeValue(bs) == (bs[0] * p + r) * 256 + l;
      assert BeValue(bs[1..]) == r * 256 + l;
      assert Pow(256, |bs| - 1) == 256 * p;
      ShiftSum(bs[0], p, r, l);
    } else {
      assert bs[..0] == [] && bs[1..] == [];
    }
  }
}
