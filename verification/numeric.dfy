/** Integer widths, Java's two's-complement views of them, powers, and the
    big-endian byte codec the generator relies on.

    Java values are modelled as unbounded Dafny integers; wherever the Java
    code depends on a fixed width (a signed `byte`, an `int` read from four
    bytes, a `long` written as eight bytes) the conversion is written out. */
module Numeric {

  /** A byte, stored by its unsigned value. Java's signed reading of it is
      `SignedByte`. */
  type byte = b: int | 0 <= b < 256

  const Int32Min: int := -0x8000_0000
  const Int32Max: int := 0x7FFF_FFFF
  const Int64Min: int := -0x8000_0000_0000_0000
  const Int64Max: int := 0x7FFF_FFFF_FFFF_FFFF

  /** Range of a Java `int`. */
  predicate IsInt32(x: int) {
    Int32Min <= x <= Int32Max
  }

  /** Range of a Java `long`. */
  predicate IsInt64(x: int) {
    Int64Min <= x <= Int64Max
  }

  function Pow(base: nat, n: nat): (r: nat)
    ensures base > 0 ==> r > 0
  {
    if n == 0 then 1 else base * Pow(base, n - 1)
  }

  lemma PowValues()
    ensures Pow(2, 4) == 16
    ensures Pow(2, 31) == 0x8000_0000
    ensures Pow(256, 4) == 0x1_0000_0000
    ensures Pow(256, 8) == 0x1_0000_0000_0000_0000
  {
    assert Pow(2, 8) == 0x100;
    assert Pow(2, 16) == 0x1_0000;
    assert Pow(2, 24) == 0x100_0000;
  }

  /** The value Java computes with when it reads byte `b`: bytes are signed. */
  function SignedByte(b: byte): (v: int)
    ensures -128 <= v < 128
    ensures v % 256 == b
  {
    if b < 128 then b else b - 256
  }

  /** Java's `int` reading of a 32-bit pattern `u` (as `ByteBuffer.getInt`
      produces it). */
  function ToInt32(u: nat): (v: int)
    requires u < 0x1_0000_0000
    ensures IsInt32(v)
    ensures v % 0x1_0000_0000 == u
  {
    if u <= Int32Max then u else u - 0x1_0000_0000
  }

  /** Java's `long` reading of a 64-bit pattern `u`. */
  function ToInt64(u: nat): (v: int)
    requires u < 0x1_0000_0000_0000_0000
    ensures IsInt64(v)
    ensures v % 0x1_0000_0000_0000_0000 == u
  {
    if u <= Int64Max then u else u - 0x1_0000_0000_0000_0000
  }

  /** Java's unary minus on an `int`: `-Integer.MIN_VALUE` wraps back to
      `Integer.MIN_VALUE`. */
  function NegateInt32(x: int): (r: int)
    requires IsInt32(x)
    ensures IsInt32(r)
    ensures (r + x) % 0x1_0000_0000 == 0
    ensures x != Int32Min ==> r == -x
  {
    if x == Int32Min then Int32Min else -x
  }

  /** Java's `i++` on an `int`: `Integer.MAX_VALUE + 1` wraps to
      `Integer.MIN_VALUE`. */
  function IncrementInt32(x: int): (r: int)
    requires IsInt32(x)
    ensures IsInt32(r)
    ensures (r - x - 1) % 0x1_0000_0000 == 0
    ensures x != Int32Max ==> r == x + 1
  {
    if x == Int32Max then Int32Min else x + 1
  }

  /** `x & ~(~0 << n)` on a two's-complement `x`: the `n` low bits, which is
      `x` modulo 2^n (Dafny's `%` is Euclidean, so never negative). */
  function LowBits(x: int, n: nat): (r: nat)
    ensures r < Pow(2, n)
  {
    x % Pow(2, n)
  }

  /** The mask `~(~0 << 4)` as a 32-bit Java `int` is 0xF. */
  lemma LowNibbleMask()
    ensures !(!(0 as bv32) << 4) == 0x0F
    ensures (0x0F as bv32) as int + 1 == Pow(2, 4)
  {
    PowValues();
  }

  /** Big-endian unsigned value of a byte sequence, most significant byte
      first. */
  function FromBigEndian(bs: seq<byte>): (v: nat)
    ensures v < Pow(256, |bs|)
    decreases |bs|
  {
    if |bs| == 0 then 0 else FromBigEndian(bs[..|bs| - 1]) * 256 + bs[|bs| - 1]
  }

  /** The `n` big-endian bytes of `u`. */
  function ToBigEndian(u: nat, n: nat): (bs: seq<byte>)
    requires u < Pow(256, n)
    ensures |bs| == n
    ensures FromBigEndian(bs) == u
  {
    if n == 0 then []
    else
      var init := ToBigEndian(u / 256, n - 1);
      var bs := init + [u % 256];
      assert bs[..|bs| - 1] == init;
      bs
  }

  /** The two codecs are inverse in the other direction too. */
  lemma {:induction false} ToBigEndianOfFromBigEndian(bs: seq<byte>)
    ensures ToBigEndian(FromBigEndian(bs), |bs|) == bs
    decreases |bs|
  {
    if |bs| > 0 {
      var init := bs[..|bs| - 1];
      var v := FromBigEndian(bs);
      ToBigEndianOfFromBigEndian(init);
      assert v / 256 == FromBigEndian(init) && v % 256 == bs[|bs| - 1];
      assert ToBigEndian(v, |bs|) == ToBigEndian(FromBigEndian(init), |init|) + [bs[|bs| - 1]];
      assert init + [bs[|bs| - 1]] == bs;
    }
  }

  lemma DivisionUnique(u: int, d: int, q: int, r: int)
    requires d > 0 && 0 <= r < d && u == d * q + r
    ensures u / d == q
  {
    var q' := u / d;
    if q' > q {
      MulAtLeast(d, q' - q);
    } else if q' < q {
      MulAtLeast(d, q - q');
    }
  }

  lemma MulAtLeast(d: int, k: int)
    requires d > 0 && k >= 1
    ensures d * k >= d
  {
  }

  lemma DivDiv256(u: nat, d: nat)
    requires d > 0
    ensures u / 256 / d == u / (256 * d)
  {
    var q := u / 256;
    assert q == d * (q / d) + q % d;
    assert u == 256 * q + u % 256;
    assert u == (256 * d) * (q / d) + (256 * (q % d) + u % 256);
    DivisionUnique(u, 256 * d, q / d, 256 * (q % d) + u % 256);
  }

  /** Byte `k` of the big-endian encoding is digit `n - 1 - k` of `u` in
      base 256. */
  lemma {:induction false} ToBigEndianByte(u: nat, n: nat, k: nat)
    requires u < Pow(256, n) && k < n
    ensures ToBigEndian(u, n)[k] == u / Pow(256, n - 1 - k) % 256
    decreases n
  {
    if k < n - 1 {
      var q, d := u / 256, Pow(256, n - 2 - k);
      QuotientBelow(u, Pow(256, n - 1));
      ToBigEndianByte(q, n - 1, k);
      assert ToBigEndian(u, n)[k] == ToBigEndian(q, n - 1)[k];
      DivDiv256(u, d);
      assert Pow(256, n - 1 - k) == 256 * d;
    }
  }

  lemma QuotientBelow(u: nat, m: nat)
    requires u < 256 * m
    ensures u / 256 < m
  {
  }
}
