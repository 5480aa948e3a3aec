/** Java's bitwise `&` on two's-complement patterns, and what masking with
    low one-bits computes. */
module Bits {
  import opened Numeric

  /** `a & b` for non-negative operands (two's-complement patterns read as
      unsigned numbers): bit by bit, least significant bit first. */
  function BitAnd(a: nat, b: nat): nat
    decreases a
  {
    if a == 0 || b == 0 then 0
    else 2 * BitAnd(a / 2, b / 2) + (a % 2) * (b % 2)
  }

  /** Masking with `n` one-bits keeps the `n` low bits. */
  lemma {:induction false} BitAndLowMask(u: nat, n: nat)
    ensures BitAnd(u, Pow(2, n) - 1) == u % Pow(2, n)
    decreases n
  {
    var m := Pow(2, n);
    if n == 0 {
      assert m == 1;
      ModUnique(u, 1, u, 0);
    } else if u > 0 {
      BitAndLowMask(u / 2, n - 1);
      MaskInduct(u, Pow(2, n - 1), m);
    } else {
      ModUnique(0, m, 0, 0);
    }
  }

  /** One more mask bit keeps one more low bit. */
  lemma MaskInduct(u: nat, k: nat, m: nat)
    requires u > 0 && k > 0 && m == 2 * k
    requires BitAnd(u / 2, k - 1) == u / 2 % k
    ensures BitAnd(u, m - 1) == u % m
  {
    MaskStep(u, k);
    ModStep(u, k);
  }

  lemma MaskStep(u: nat, k: nat)
    requires u > 0 && k > 0
    ensures BitAnd(u, 2 * k - 1) == 2 * BitAnd(u / 2, k - 1) + u % 2
  {
    var mask := 2 * k - 1;
    ModUnique(mask, 2, k - 1, 1);
    DivisionUnique(mask, 2, k - 1, 1);
  }

  lemma ModStep(u: nat, k: nat)
    requires k > 0
    ensures u % (2 * k) == 2 * (u / 2 % k) + u % 2
  {
    var h := u / 2;
    assert u == 2 * h + u % 2;
    assert h == k * (h / k) + h % k;
    assert u == 2 * k * (h / k) + (2 * (h % k) + u % 2);
    ModUnique(u, 2 * k, h / k, 2 * (h % k) + u % 2);
  }

  /** `x & ~(~0 << n)` on the `width`-bit pattern of `x` is `LowBits(x, n)`
      when the mask is no wider than the pattern. */
  lemma LowBitsIsMask(x: int, width: nat, n: nat)
    requires n <= width
    ensures BitAnd(x % Pow(2, width), Pow(2, n) - 1) == LowBits(x, n)
  {
    BitAndLowMask(x % Pow(2, width), n);
    PowSplit(2, n, width - n);
    ModOfMultiple(x, Pow(2, n), Pow(2, width - n));
  }

  /** The widths of Java's `int` and `long`. */
  lemma PowTwoWidths()
    ensures Pow(2, 32) == 0x1_0000_0000
    ensures Pow(2, 64) == 0x1_0000_0000_0000_0000
  {
    PowValues();
    PowSplit(2, 31, 1);
    PowSplit(2, 32, 32);
  }

  lemma {:induction false} PowSplit(base: nat, m: nat, n: nat)
    ensures Pow(base, m + n) == Pow(base, m) * Pow(base, n)
    decreases m
  {
    if m > 0 {
      PowSplit(base, m - 1, n);
      MulAssociates(base, Pow(base, m - 1), Pow(base, n));
    }
  }

  lemma MulAssociates(a: int, b: int, c: int)
    ensures a * (b * c) == (a * b) * c
  {
  }

  lemma ModOfMultiple(x: int, a: nat, b: nat)
    requires a > 0 && b > 0
    ensures x % (a * b) % a == x % a
  {
    var r := x % (a * b);
    var q := x / (a * b);
    assert x == a * (b * q + r / a) + r % a;
    ModUnique(x, a, b * q + r / a, r % a);
  }

  lemma ModUnique(u: int, d: int, q: int, r: int)
    requires d > 0 && 0 <= r < d && u == d * q + r
    ensures u % d == r
  {
    DivisionUnique(u, d, q, r);
  }
}
