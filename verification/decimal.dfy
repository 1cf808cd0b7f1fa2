/**
 * Decimal rendering of a passcode: Go's `fmt.Sprintf("%0<w>d", n)` for a
 * non-negative `n`, and the decimal value of a digit string as its inverse.
 */
module Decimal {

  import opened Numeric

  predicate IsDigit(c: char) {
    '0' <= c <= '9'
  }

  predicate AllDigits(s: string) {
    forall i :: 0 <= i < |s| ==> IsDigit(s[i])
  }

  function DigitChar(d: nat): (c: char)
    requires d < 10
    ensures IsDigit(c)
  {
    (48 + d) as char
  }

  function DigitValue(c: char): (d: nat)
    requires IsDigit(c)
    ensures d < 10 && DigitChar(d) == c
  {
    c as int - 48
  }

  /** Go's `%d` of a non-negative integer: the shortest decimal numeral, no sign. */
  function Numeral(n: nat): (s: string)
    ensures |s| >= 1 && AllDigits(s)
  {
    if n < 10 then [DigitChar(n)] else Numeral(n / 10) + [DigitChar(n % 10)]
  }

  /** The numeral denotes the number it renders. */
  lemma {:induction false} ValueOfNumeral(n: nat)
    ensures Value(Numeral(n)) == n
  {
    if n >= 10 {
      var s := Numeral(n);
      assert s[..|s| - 1] == Numeral(n / 10);
      ValueOfNumeral(n / 10);
    }
  }

  function Zeros(k: nat): (s: string)
    ensures |s| == k
  {
    if k == 0 then "" else Zeros(k - 1) + "0"
  }

  /** Go's `%0<width>d` of a non-negative integer: its numeral, left-padded with '0' up to `width`. */
  function FormatZeroPadded(n: nat, width: nat): (s: string)
  {
    var d := Numeral(n);
    if |d| >= width then d else Zeros(width - |d|) + d
  }

  /** The number a digit string denotes, most significant digit first. */
  function Value(s: string): (v: nat)
    requires AllDigits(s)
    ensures v < Pow(10, |s|)
  {
    if s == [] then 0
    else
      var init := s[..|s| - 1];
      assert Value(init) <= Pow(10, |init|) - 1;
      MulMonotone(Value(init), Pow(10, |init|) - 1, 10);
      Value(init) * 10 + DigitValue(s[|s| - 1])
  }

  /** The last `w` decimal digits of `n`, leading zeros included. */
  function FixedWidth(n: nat, w: nat): (s: string)
    ensures |s| == w && AllDigits(s)
  {
    if w == 0 then "" else FixedWidth(n / 10, w - 1) + [DigitChar(n % 10)]
  }

  lemma {:induction false} FixedWidthOfZero(w: nat)
    ensures FixedWidth(0, w) == Zeros(w)
  {
    if w > 0 {
      FixedWidthOfZero(w - 1);
    }
  }

  /** Zero-padding to a width the number fits in writes exactly its last `w` digits. */
  lemma {:induction false} FormatIsFixedWidth(n: nat, w: nat)
    requires w >= 1 && n < Pow(10, w)
    ensures FormatZeroPadded(n, w) == FixedWidth(n, w)
  {
    if n < 10 {
      FixedWidthOfZero(w - 1);
    } else {
      assert w >= 2;
      FormatIsFixedWidth(n / 10, w - 1);
      var d := Numeral(n / 10);
      assert Numeral(n) == d + [DigitChar(n % 10)];
      if |d| < w - 1 {
        assert Zeros(w - 1 - |d|) + d + [DigitChar(n % 10)] == Zeros(w - 1 - |d|) + (d + [DigitChar(n % 10)]);
      }
    }
  }

  lemma {:induction false} ValueOfFixedWidth(n: nat, w: nat)
    ensures Value(FixedWidth(n, w)) == n % Pow(10, w)
  {
    if w > 0 {
      var s := FixedWidth(n, w);
      assert s[..w - 1] == FixedWidth(n / 10, w - 1);
      ValueOfFixedWidth(n / 10, w - 1);
      DivModCompose(n, 10, Pow(10, w - 1));
    }
  }

  lemma {:induction false} FixedWidthOfValue(s: string)
    requires AllDigits(s)
    ensures FixedWidth(Value(s), |s|) == s
  {
    if s != [] {
      var init := s[..|s| - 1];
      var v := Value(s);
      DivModUnique(v, 10, Value(init), DigitValue(s[|s| - 1]));
      FixedWidthOfValue(init);
      assert s == init + [s[|s| - 1]];
    }
  }

  /**
   * A code below `10^w` renders as exactly `w` characters, all decimal
   * digits, leading zeros kept, whose value is the code.
   */
  lemma FormatZeroPaddedSpec(n: nat, w: nat)
    requires w >= 1 && n < Pow(10, w)
    ensures |FormatZeroPadded(n, w)| == w
    ensures AllDigits(FormatZeroPadded(n, w))
    ensures Value(FormatZeroPadded(n, w)) == n
  {
    FormatIsFixedWidth(n, w);
    ValueOfFixedWidth(n, w);
    DivModUnique(n, Pow(10, w), 0, n);
  }

  /** Reading a digit string and re-rendering it at its own width gives it back. */
  lemma FormatOfValue(s: string)
    requires AllDigits(s) && |s| >= 1
    ensures FormatZeroPadded(Value(s), |s|) == s
  {
    FormatIsFixedWidth(Value(s), |s|);
    FixedWidthOfValue(s);
  }

  /** The character `k` places from the right of a fixed-width rendering is digit `k` of `n`. */
  lemma {:induction false} FixedWidthDigit(n: nat, w: nat, k: nat)
    requires k < w
    ensures FixedWidth(n, w)[w - 1 - k] == DigitChar(n / Pow(10, k) % 10)
  {
    if k > 0 {
      FixedWidthDigit(n / 10, w - 1, k - 1);
      DivModCompose(n, 10, Pow(10, k - 1));
    }
  }

  /** A small code keeps its leading zeros: 42 at width 6 is "000042". */
  lemma FormatKeepsLeadingZeros()
    ensures FormatZeroPadded(42, 6) == "000042"
  {
    assert Numeral(4) == "4";
    assert Numeral(42) == "42";
  }
}
