/** The test values of Appendix D of RFC 4226: for the secret
    "12345678901234567890" and the counters 0 to 9, the HMAC-SHA-1 values,
    the 31-bit values dynamic truncation extracts from them, and the
    six-digit codes. Stated here about the model's truncation and
    formatting, and about `generate` on any platform whose HMAC yields
    those values. */
module Rfc4226Vectors {
  import opened Numeric
  import opened Results
  import opened Decimal
  import opened HmacAlgorithms
  import opened Collaborators
  import opened HotpGenerator

  /** The appendix's secret: the ASCII bytes of "12345678901234567890". */
  const Secret: seq<byte> := [
    0x31, 0x32, 0x33, 0x34, 0x35, 0x36, 0x37, 0x38, 0x39, 0x30,
    0x31, 0x32, 0x33, 0x34, 0x35, 0x36, 0x37, 0x38, 0x39, 0x30
  ]

  /** One row of the appendix's tables for counter `counter`. */
  datatype Vector = Vector(counter: nat, hmac: seq<byte>, truncated: nat, code: string)

  /** The rows for counters 0 to 9. */
  const Counter0: Vector := Vector(
    0,
    [ 0xCC, 0x93, 0xCF, 0x18, 0x50, 0x8D, 0x94, 0x93, 0x4C, 0x64,
      0xB6, 0x5D, 0x8B, 0xA7, 0x66, 0x7F, 0xB7, 0xCD, 0xE4, 0xB0 ],
    1284755224, "755224")
  const Counter1: Vector := Vector(
    1,
    [ 0x75, 0xA4, 0x8A, 0x19, 0xD4, 0xCB, 0xE1, 0x00, 0x64, 0x4E,
      0x8A, 0xC1, 0x39, 0x7E, 0xEA, 0x74, 0x7A, 0x2D, 0x33, 0xAB ],
    1094287082, "287082")
  const Counter2: Vector := Vector(
    2,
    [ 0x0B, 0xAC, 0xB7, 0xFA, 0x08, 0x2F, 0xEF, 0x30, 0x78, 0x22,
      0x11, 0x93, 0x8B, 0xC1, 0xC5, 0xE7, 0x04, 0x16, 0xFF, 0x44 ],
    137359152, "359152")
  const Counter3: Vector := Vector(
    3,
    [ 0x66, 0xC2, 0x82, 0x27, 0xD0, 0x3A, 0x2D, 0x55, 0x29, 0x26,
      0x2F, 0xF0, 0x16, 0xA1, 0xE6, 0xEF, 0x76, 0x55, 0x7E, 0xCE ],
    1726969429, "969429")
  const Counter4: Vector := Vector(
    4,
    [ 0xA9, 0x04, 0xC9, 0x00, 0xA6, 0x4B, 0x35, 0x90, 0x98, 0x74,
      0xB3, 0x3E, 0x61, 0xC5, 0x93, 0x8A, 0x8E, 0x15, 0xED, 0x1C ],
    1640338314, "338314")
  const Counter5: Vector := Vector(
    5,
    [ 0xA3, 0x7E, 0x78, 0x3D, 0x7B, 0x72, 0x33, 0xC0, 0x83, 0xD4,
      0xF6, 0x29, 0x26, 0xC7, 0xA2, 0x5F, 0x23, 0x8D, 0x03, 0x16 ],
    868254676, "254676")
  const Counter6: Vector := Vector(
    6,
    [ 0xBC, 0x9C, 0xD2, 0x85, 0x61, 0x04, 0x2C, 0x83, 0xF2, 0x19,
      0x32, 0x4D, 0x3C, 0x60, 0x72, 0x56, 0xC0, 0x32, 0x72, 0xAE ],
    1918287922, "287922")
  const Counter7: Vector := Vector(
    7,
    [ 0xA4, 0xFB, 0x96, 0x0C, 0x0B, 0xC0, 0x6E, 0x1E, 0xAB, 0xB8,
      0x04, 0xE5, 0xB3, 0x97, 0xCD, 0xC4, 0xB4, 0x55, 0x96, 0xFA ],
    82162583, "162583")
  const Counter8: Vector := Vector(
    8,
    [ 0x1B, 0x3C, 0x89, 0xF6, 0x5E, 0x6C, 0x9E, 0x88, 0x30, 0x12,
      0x05, 0x28, 0x23, 0x44, 0x3F, 0x04, 0x8B, 0x43, 0x32, 0xDB ],
    673399871, "399871")
  const Counter9: Vector := Vector(
    9,
    [ 0x16, 0x37, 0x40, 0x98, 0x09, 0xA6, 0x79, 0xDC, 0x69, 0x82,
      0x07, 0x31, 0x0C, 0x8C, 0x7F, 0xC0, 0x72, 0x90, 0xD9, 0xE5 ],
    645520489, "520489")

  /** The ten rows, in counter order. */
  const AppendixD: seq<Vector> := [
    Counter0, Counter1, Counter2, Counter3, Counter4,
    Counter5, Counter6, Counter7, Counter8, Counter9
  ]

  // ---------------------------------------------------------------------
  // Reading the tables

  /** Four bytes read most significant first. */
  lemma FourBytes(bs: seq<byte>)
    requires |bs| == 4
    ensures FromBigEndian(bs) == Word(bs[0], bs[1], bs[2], bs[3])
  {
    assert bs[..3][..2] == bs[..2] && bs[..2][..1] == bs[..1] && bs[..1][..0] == [];
    assert FromBigEndian(bs[..1]) == bs[0];
    assert FromBigEndian(bs[..2]) == bs[0] as int * 0x100 + bs[1];
    assert FromBigEndian(bs[..3]) == (bs[0] as int * 0x100 + bs[1]) * 0x100 + bs[2];
  }

  function Word(b0: byte, b1: byte, b2: byte, b3: byte): int {
    ((b0 as int * 0x100 + b1) * 0x100 + b2) * 0x100 + b3
  }

  /** A six-digit code read most significant digit first. */
  lemma SixDigits(s: string)
    requires IsCode(s, 6)
    ensures Value(s) == DigitsValue(s)
  {
    assert s[..5][..4] == s[..4] && s[..4][..3] == s[..3] && s[..3][..2] == s[..2];
    assert s[..2][..1] == s[..1] && s[..1][..0] == [];
    assert Value(s[..1]) == DigitValue(s[0]);
    assert Value(s[..2]) == DigitValue(s[0]) * 10 + DigitValue(s[1]);
    assert Value(s[..3]) == (DigitValue(s[0]) * 10 + DigitValue(s[1])) * 10 + DigitValue(s[2]);
    assert Value(s[..4]) == Value(s[..3]) * 10 + DigitValue(s[3]);
    assert Value(s[..5]) == Value(s[..4]) * 10 + DigitValue(s[4]);
    assert Value(s) == Value(s[..5]) * 10 + DigitValue(s[5]);
  }

  function DigitsValue(s: string): int
    requires IsCode(s, 6)
  {
    ((((DigitValue(s[0]) * 10 + DigitValue(s[1])) * 10 + DigitValue(s[2])) * 10
      + DigitValue(s[3])) * 10 + DigitValue(s[4])) * 10 + DigitValue(s[5])
  }

  /** The truncated value of a row is the 31 low bits of the four bytes at
      the offset its last byte names. */
  predicate TruncationConsistent(v: Vector) {
    && |v.hmac| == 20
    && var o := v.hmac[19] % 16;
    && o + 4 <= 20
    && Word(v.hmac[o], v.hmac[o + 1], v.hmac[o + 2], v.hmac[o + 3]) % 0x8000_0000 == v.truncated
  }

  /** The code of a row is the six digits of its truncated value modulo
      10^6. */
  predicate CodeConsistent(v: Vector) {
    && IsCode(v.code, 6)
    && DigitsValue(v.code) == v.truncated % 1_000_000
  }

  /** A consistent row is what the model's truncation and formatting compute
      from its HMAC value. */
  lemma {:induction false} ConsistentRowHolds(v: Vector)
    requires TruncationConsistent(v) && CodeConsistent(v)
    ensures TruncationInBounds(v.hmac)
    ensures DynamicTruncation(v.hmac) == v.truncated
    ensures CodeFromHash(v.hmac, 6) == v.code
  {
    var o := v.hmac[19] % 16;
    FourBytes(v.hmac[o..o + 4]);
    SixDigits(v.code);
    assert Pow(10, 6) == 1_000_000;
    ValueInjective(CodeFromHash(v.hmac, 6), v.code);
  }

  // ---------------------------------------------------------------------
  // The appendix

  /** Each row, taken alone, is consistent. */
  lemma Truncation0()
    ensures TruncationConsistent(Counter0)
  {
    var h := Counter0.hmac;
    assert h[19] % 16 == 0;
    assert h[0] == 0xCC && h[1] == 0x93 && h[2] == 0xCF && h[3] == 0x18;
    assert Word(0xCC, 0x93, 0xCF, 0x18) == 0xCC93_CF18;
  }

  lemma Code0()
    ensures CodeConsistent(Counter0)
  {
  }

  lemma Truncation1()
    ensures TruncationConsistent(Counter1)
  {
    var h := Counter1.hmac;
    assert h[19] % 16 == 11;
    assert h[11] == 0xC1 && h[12] == 0x39 && h[13] == 0x7E && h[14] == 0xEA;
    assert Word(0xC1, 0x39, 0x7E, 0xEA) == 0xC139_7EEA;
  }

  lemma Code1()
    ensures CodeConsistent(Counter1)
  {
  }

  lemma Truncation2()
    ensures TruncationConsistent(Counter2)
  {
    var h := Counter2.hmac;
    assert h[19] % 16 == 4;
    assert h[4] == 0x08 && h[5] == 0x2F && h[6] == 0xEF && h[7] == 0x30;
    assert Word(0x08, 0x2F, 0xEF, 0x30) == 0x082F_EF30;
  }

  lemma Code2()
    ensures CodeConsistent(Counter2)
  {
  }

  lemma Truncation3()
    ensures TruncationConsistent(Counter3)
  {
    var h := Counter3.hmac;
    assert h[19] % 16 == 14;
    assert h[14] == 0xE6 && h[15] == 0xEF && h[16] == 0x76 && h[17] == 0x55;
    assert Word(0xE6, 0xEF, 0x76, 0x55) == 0xE6EF_7655;
  }

  lemma Code3()
    ensures CodeConsistent(Counter3)
  {
  }

  lemma Truncation4()
    ensures TruncationConsistent(Counter4)
  {
    var h := Counter4.hmac;
    assert h[19] % 16 == 12;
    assert h[12] == 0x61 && h[13] == 0xC5 && h[14] == 0x93 && h[15] == 0x8A;
    assert Word(0x61, 0xC5, 0x93, 0x8A) == 0x61C5_938A;
  }

  lemma Code4()
    ensures CodeConsistent(Counter4)
  {
  }

  lemma Truncation5()
    ensures TruncationConsistent(Counter5)
  {
    var h := Counter5.hmac;
    assert h[19] % 16 == 6;
    assert h[6] == 0x33 && h[7] == 0xC0 && h[8] == 0x83 && h[9] == 0xD4;
    assert Word(0x33, 0xC0, 0x83, 0xD4) == 0x33C0_83D4;
  }

  lemma Code5()
    ensures CodeConsistent(Counter5)
  {
  }

  lemma Truncation6()
    ensures TruncationConsistent(Counter6)
  {
    var h := Counter6.hmac;
    assert h[19] % 16 == 14;
    assert h[14] == 0x72 && h[15] == 0x56 && h[16] == 0xC0 && h[17] == 0x32;
    assert Word(0x72, 0x56, 0xC0, 0x32) == 0x7256_C032;
  }

  lemma Code6()
    ensures CodeConsistent(Counter6)
  {
  }

  lemma Truncation7()
    ensures TruncationConsistent(Counter7)
  {
    var h := Counter7.hmac;
    assert h[19] % 16 == 10;
    assert h[10] == 0x04 && h[11] == 0xE5 && h[12] == 0xB3 && h[13] == 0x97;
    assert Word(0x04, 0xE5, 0xB3, 0x97) == 0x04E5_B397;
  }

  lemma Code7()
    ensures CodeConsistent(Counter7)
  {
  }

  lemma Truncation8()
    ensures TruncationConsistent(Counter8)
  {
    var h := Counter8.hmac;
    assert h[19] % 16 == 11;
    assert h[11] == 0x28 && h[12] == 0x23 && h[13] == 0x44 && h[14] == 0x3F;
    assert Word(0x28, 0x23, 0x44, 0x3F) == 0x2823_443F;
  }

  lemma Code8()
    ensures CodeConsistent(Counter8)
  {
  }

  lemma Truncation9()
    ensures TruncationConsistent(Counter9)
  {
    var h := Counter9.hmac;
    assert h[19] % 16 == 5;
    assert h[5] == 0xA6 && h[6] == 0x79 && h[7] == 0xDC && h[8] == 0x69;
    assert Word(0xA6, 0x79, 0xDC, 0x69) == 0xA679_DC69;
  }

  lemma Code9()
    ensures CodeConsistent(Counter9)
  {
  }

  /** Every row of the appendix agrees with dynamic truncation and with
      `getCodeFromHash` for six digits. */
  lemma AppendixDTruncation(i: nat)
    requires i < |AppendixD|
    ensures AppendixD[i].counter == i
    ensures TruncationInBounds(AppendixD[i].hmac)
    ensures DynamicTruncation(AppendixD[i].hmac) == AppendixD[i].truncated
    ensures CodeFromHash(AppendixD[i].hmac, 6) == AppendixD[i].code
  {
    if i == 0 {
      Truncation0();
      Code0();
    } else if i == 1 {
      Truncation1();
      Code1();
    } else if i == 2 {
      Truncation2();
      Code2();
    } else if i == 3 {
      Truncation3();
      Code3();
    } else if i == 4 {
      Truncation4();
      Code4();
    } else if i == 5 {
      Truncation5();
      Code5();
    } else if i == 6 {
      Truncation6();
      Code6();
    } else if i == 7 {
      Truncation7();
      Code7();
    } else if i == 8 {
      Truncation8();
      Code8();
    } else if i == 9 {
      Truncation9();
      Code9();
    }
    ConsistentRowHolds(AppendixD[i]);
  }

  /** `generate(i)` of a six-digit SHA-1 generator whose secret decodes to
      the appendix's secret yields the appendix's code for counter `i`, on
      any platform whose HMAC-SHA-1 of the counter's eight bytes (big-endian,
      by `LongToBytesIsBigEndian`) is the appendix's value. */
  lemma GenerateAppendixD(g: Generator, p: Platform, i: nat)
    requires i < |AppendixD|
    requires DigestSizes(p)
    requires g.passwordLength == 6 && g.algorithm == SHA1
    requires p.base32Decode(g.secret) == Some(Secret)
    requires p.hmac(SHA1, Secret, LongToBytes(i)) == Digest(AppendixD[i].hmac)
    ensures Generate(g, i, p) == Success(AppendixD[i].code)
  {
    AppendixDTruncation(i);
  }
}
