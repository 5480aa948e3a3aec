/** The counter-based one-time-password generator (RFC 4226): its builder,
    the generation pipeline (secret decoding, counter encoding, HMAC, dynamic
    truncation, zero-padded formatting) and verification over a window of
    counters. */
module HotpGenerator {
  import opened Numeric
  import opened Decimal
  import opened Results
  import opened HmacAlgorithms
  import opened Collaborators
  import opened Bits

  const DefaultPasswordLength: int := 6
  const DefaultAlgorithm: Algorithm := SHA1

  /** `passwordLengthIsValid`: a code has six, seven or eight digits, the
      default among them. */
  predicate PasswordLengthIsValid(n: int): (valid: bool)
    ensures valid <==> n == 6 || n == 7 || n == 8
    ensures n == DefaultPasswordLength ==> valid
  {
    6 <= n <= 8
  }

  /** The lengths a builder or generator can hold. */
  type PasswordLength = n: nat | PasswordLengthIsValid(n) witness 6

  /** The Base32 text of the secret, as bytes; never empty. */
  type Secret = s: seq<byte> | |s| > 0 witness [0x41]

  datatype Builder = Builder(secret: Secret, passwordLength: PasswordLength, algorithm: Algorithm)

  datatype Generator = Generator(secret: Secret, passwordLength: PasswordLength, algorithm: Algorithm)

  // ---------------------------------------------------------------------
  // Builder

  /** `new Builder(secret)`: rejects an empty secret, otherwise starts from
      the defaults. */
  function NewBuilder(secret: seq<byte>): (r: Result<Builder>)
    ensures r.Failure? <==> |secret| == 0
    ensures r.Failure? ==> r.error == IllegalArgument(EmptySecret)
    ensures r.Success? ==> r.value.secret == secret
    ensures r.Success? ==> r.value.passwordLength == DefaultPasswordLength && r.value.algorithm == DefaultAlgorithm
  {
    if |secret| == 0 then Failure(IllegalArgument(EmptySecret))
    else Success(Builder(secret, DefaultPasswordLength, DefaultAlgorithm))
  }

  /** `Builder.withPasswordLength(n)`: accepted exactly for 6..8, and then
      only the length changes. On rejection the caller keeps the builder it
      had, unchanged. */
  function WithPasswordLength(b: Builder, n: int): (r: Result<Builder>)
    ensures r.Success? <==> 6 <= n <= 8
    ensures r.Failure? ==> r.error == IllegalArgument(PasswordLengthOutOfRange)
    ensures r.Success? ==> r.value.passwordLength == n
    ensures r.Success? ==> r.value.secret == b.secret && r.value.algorithm == b.algorithm
  {
    if PasswordLengthIsValid(n) then Success(b.(passwordLength := n))
    else Failure(IllegalArgument(PasswordLengthOutOfRange))
  }

  /** Lengths just outside the range are refused, those inside accepted. */
  lemma PasswordLengthBoundaries(b: Builder)
    ensures WithPasswordLength(b, 5).Failure? && WithPasswordLength(b, 9).Failure?
    ensures WithPasswordLength(b, 6).Success? && WithPasswordLength(b, 7).Success?
    ensures WithPasswordLength(b, 8).Success?
  {
  }

  /** `Builder.withAlgorithm(a)`: any algorithm is accepted; nothing else
      changes. */
  function WithAlgorithm(b: Builder, a: Algorithm): (r: Builder)
    ensures r.algorithm == a
    ensures r.secret == b.secret && r.passwordLength == b.passwordLength
  {
    b.(algorithm := a)
  }

  /** `Builder.build()`: the generator takes the builder's settings. */
  function Build(b: Builder): (g: Generator)
    ensures g.secret == b.secret && g.passwordLength == b.passwordLength && g.algorithm == b.algorithm
  {
    Generator(b.secret, b.passwordLength, b.algorithm)
  }

  /** `withDefaultValues(secret)`. */
  function WithDefaultValues(secret: seq<byte>): (r: Result<Generator>)
    ensures r.Failure? <==> |secret| == 0
    ensures r.Success? ==> r.value.secret == secret
    ensures r.Success? ==> r.value.passwordLength == 6 && r.value.algorithm == SHA1
  {
    var b :- NewBuilder(secret);
    Success(Build(b))
  }

  // ---------------------------------------------------------------------
  // Counter encoding

  /** `ByteBuffer.allocate(8).putLong(v).array()`: the eight big-endian
      bytes of the two's-complement `long`, most significant first. */
  function LongToBytes(v: int): (bs: seq<byte>)
    requires IsInt64(v)
    ensures |bs| == 8
  {
    var u := v % 0x1_0000_0000_0000_0000;
    seq(8, k requires 0 <= k < 8 => Digit256(u, 7 - k))
  }

  /** Digit `j` of `u` in base 256. */
  function Digit256(u: nat, j: nat): byte {
    u / Pow(256, j) % 256
  }

  /** The bytes are the base-256 digits of the 64-bit pattern of `v`. */
  lemma LongToBytesIsBigEndian(v: int)
    requires IsInt64(v)
    ensures v % 0x1_0000_0000_0000_0000 < Pow(256, 8)
    ensures LongToBytes(v) == ToBigEndian(v % 0x1_0000_0000_0000_0000, 8)
  {
    PowValues();
    var u := v % 0x1_0000_0000_0000_0000;
    var bs, digits := LongToBytes(v), ToBigEndian(u, 8);
    forall k | 0 <= k < 8
      ensures bs[k] == digits[k]
    {
      LongToBytesByte(v, k);
    }
  }

  lemma LongToBytesByte(v: int, k: nat)
    requires IsInt64(v) && k < 8
    ensures v % 0x1_0000_0000_0000_0000 < Pow(256, 8)
    ensures LongToBytes(v)[k] == ToBigEndian(v % 0x1_0000_0000_0000_0000, 8)[k]
  {
    PowValues();
    var u := v % 0x1_0000_0000_0000_0000;
    assert LongToBytes(v)[k] == Digit256(u, 7 - k) == u / Pow(256, 7 - k) % 256;
    ToBigEndianByte(u, 8, k);
  }

  /** A non-negative `long` is its own 64-bit pattern. */
  lemma LongToBytesOfNatural(v: int)
    requires 0 <= v <= Int64Max
    ensures v < Pow(256, 8)
    ensures LongToBytes(v) == ToBigEndian(v, 8)
  {
    LongToBytesIsBigEndian(v);
    LongPattern(v);
  }

  /** Reading the eight bytes back as a `long` gives `v` again; for a
      non-negative `v` the unsigned reading already does. */
  lemma LongToBytesRoundTrip(v: int)
    requires IsInt64(v)
    ensures FromBigEndian(LongToBytes(v)) < 0x1_0000_0000_0000_0000
    ensures ToInt64(FromBigEndian(LongToBytes(v))) == v
    ensures v >= 0 ==> FromBigEndian(LongToBytes(v)) == v
  {
    LongToBytesIsBigEndian(v);
    LongPattern(v);
  }

  /** The 64-bit pattern of a `long`: itself when non-negative, otherwise
      shifted up by 2^64. */
  lemma LongPattern(v: int)
    requires IsInt64(v)
    ensures v >= 0 ==> v % 0x1_0000_0000_0000_0000 == v
    ensures v < 0 ==> v % 0x1_0000_0000_0000_0000 == v + 0x1_0000_0000_0000_0000
  {
    if v < 0 {
      DivisionUnique(v, 0x1_0000_0000_0000_0000, -1, v + 0x1_0000_0000_0000_0000);
    }
  }

  // ---------------------------------------------------------------------
  // Dynamic truncation (section 5.3 of RFC 4226)

  /** `lastByte & ~(~0 << 4)` on the sign-extended last byte: whatever the
      sign, the low nibble of the byte. */
  function TruncationOffset(hash: seq<byte>): (offset: nat)
    requires |hash| > 0
    ensures offset < 16
    ensures offset == hash[|hash| - 1] % 16
  {
    PowValues();
    LowBits(SignedByte(hash[|hash| - 1]), 4)
  }

  /** The offset is Java's `lastByte & mask` on the `int` pattern of the
      sign-extended byte, with `mask == ~(~0 << 4) == 0xF`. */
  lemma TruncationOffsetIsMask(hash: seq<byte>)
    requires |hash| > 0
    ensures BitAnd(SignedByte(hash[|hash| - 1]) % 0x1_0000_0000, (!(!(0 as bv32) << 4)) as int) == TruncationOffset(hash)
  {
    PowValues();
    PowTwoWidths();
    LowNibbleMask();
    LowBitsIsMask(SignedByte(hash[|hash| - 1]), 32, 4);
  }

  /** The four bytes read from the offset exist. */
  predicate TruncationInBounds(hash: seq<byte>) {
    |hash| > 0 && TruncationOffset(hash) + 4 <= |hash|
  }

  /** Every hash of at least 19 bytes (all three digests are 20, 32 or 64
      long) can be truncated. */
  lemma DigestsCanBeTruncated(hash: seq<byte>)
    requires |hash| >= 19
    ensures TruncationInBounds(hash)
  {
  }

  /** The RFC's definition: the last 31 bits of the four bytes at offset
      `hash[last] & 0xF`, read most significant first. */
  function DynamicTruncation(hash: seq<byte>): (sbits: nat)
    requires TruncationInBounds(hash)
  {
    var offset := hash[|hash| - 1] % 16;
    FromBigEndian(hash[offset..offset + 4]) % 0x8000_0000
  }

  predicate IsCode(code: string, passwordLength: int) {
    |code| == passwordLength && AllDigits(code)
  }

  /** `ByteBuffer.getInt()` of four big-endian bytes, widened to `long` and
      masked with `0x7FFFFFFF`: whatever the sign of the `int`, the low 31
      bits of the word. */
  function MaskedInt(word: nat): (truncated: nat)
    requires word < Pow(256, 4)
    ensures truncated == word % 0x8000_0000
  {
    PowValues();
    LowBits(ToInt32(word), 31)
  }

  /** `truncatedHash &= 0x7FFFFFFF` on the `long` pattern of the `int` the
      four bytes make. */
  lemma MaskedIntIsMask(word: nat)
    requires word < Pow(256, 4)
    ensures BitAnd(ToInt32(word) % 0x1_0000_0000_0000_0000, 0x7FFF_FFFF) == MaskedInt(word)
  {
    PowValues();
    PowTwoWidths();
    LowBitsIsMask(ToInt32(word), 64, 31);
  }

  /** The last step of `getCodeFromHash`: `binary % 10^digits`, printed
      with `%0<digits>d`. */
  function ReducedCode(binary: nat, digits: nat): (code: string)
    requires 1 <= digits
    ensures IsCode(code, digits)
    ensures Value(code) == binary % Pow(10, digits)
  {
    var modulus := Pow(10, digits);
    var reduced: nat := binary % modulus;
    assert reduced < modulus;
    FormatZeroPadded(reduced, digits)
  }

  /** `getCodeFromHash`: the four bytes at the offset, read as Java does,
      reduced modulo 10^passwordLength and printed zero-padded. */
  function CodeFromHash(hash: seq<byte>, passwordLength: PasswordLength): (code: string)
    requires TruncationInBounds(hash)
    ensures IsCode(code, passwordLength)
    ensures Value(code) == DynamicTruncation(hash) % Pow(10, passwordLength)
  {
    var offset := TruncationOffset(hash);
    var truncatedHash := MaskedInt(FromBigEndian(hash[offset..offset + 4]));
    assert truncatedHash == DynamicTruncation(hash);
    assert PasswordLengthIsValid(passwordLength);
    ReducedCode(truncatedHash, passwordLength)
  }

  // ---------------------------------------------------------------------
  // Generation

  /** HOTP(K, C) of section 5.3 of RFC 4226 for the key the secret decodes
      to and the counter as eight big-endian bytes; `None` when the MAC is
      unavailable. */
  ghost function HotpValue(p: Platform, key: seq<byte>, counter: nat, algorithm: Algorithm, digits: nat): Option<nat>
    requires DigestSizes(p)
    requires counter <= Int64Max
  {
    PowValues();
    match p.hmac(algorithm, key, ToBigEndian(counter, 8))
    case Digest(hash) =>
      assert |hash| == DigestLength(algorithm);
      Some(DynamicTruncation(hash) % Pow(10, digits))
    case _ => None
  }

  /** `generate(counter)`. The counter is checked before anything is
      decoded or hashed; an empty decoded key makes the key specification
      throw `IllegalArgumentException`; a failing MAC is rethrown as
      `IllegalStateException`. */
  function Generate(g: Generator, counter: int, p: Platform): (r: Result<string>)
    requires IsInt64(counter)
    requires DigestSizes(p)
    ensures counter < 0 ==> r == Failure(IllegalArgument(NegativeCounter))
    ensures r.Success? ==> IsCode(r.value, g.passwordLength)
  {
    if counter < 0 then Failure(IllegalArgument(NegativeCounter))
    else match p.base32Decode(g.secret)
      case None => Failure(InvalidEncoding)
      case Some(key) =>
        if |key| == 0 then Failure(IllegalArgument(EmptyKey))
        else match p.hmac(g.algorithm, key, LongToBytes(counter))
          case Digest(hash) =>
            assert |hash| == DigestLength(g.algorithm);
            Success(CodeFromHash(hash, g.passwordLength))
          case _ => Failure(IllegalState)
  }

  /** The failures of `generate` for a non-negative counter, each tied to the
      collaborator that caused it. */
  lemma GenerateFailures(g: Generator, counter: int, p: Platform)
    requires IsInt64(counter) && counter >= 0
    requires DigestSizes(p)
    ensures p.base32Decode(g.secret).None? ==> Generate(g, counter, p) == Failure(InvalidEncoding)
    ensures p.base32Decode(g.secret) == Some([]) ==> Generate(g, counter, p) == Failure(IllegalArgument(EmptyKey))
    ensures Generate(g, counter, p).Success? || Generate(g, counter, p) == Failure(IllegalState) ==>
      p.base32Decode(g.secret).Some? && |p.base32Decode(g.secret).value| > 0
  {
  }

  /** A generated code denotes HOTP(K, C) for the decoded key, and
      generation fails with `IllegalStateException` exactly when the MAC is
      unavailable. */
  lemma GenerateComputesHotp(g: Generator, counter: int, p: Platform)
    requires IsInt64(counter) && counter >= 0
    requires DigestSizes(p)
    requires p.base32Decode(g.secret).Some? && |p.base32Decode(g.secret).value| > 0
    ensures var hotp := HotpValue(p, p.base32Decode(g.secret).value, counter, g.algorithm, g.passwordLength);
      && (Generate(g, counter, p).Success? <==> hotp.Some?)
      && (Generate(g, counter, p).Success? ==> hotp == Some(Value(Generate(g, counter, p).value)))
      && (Generate(g, counter, p).Failure? ==> Generate(g, counter, p).error == IllegalState)
  {
    var key := p.base32Decode(g.secret).value;
    LongToBytesOfNatural(counter);
    var message := ToBigEndian(counter, 8);
    match p.hmac(g.algorithm, key, message)
    case Digest(hash) =>
      assert Generate(g, counter, p) == Success(CodeFromHash(hash, g.passwordLength));
    case _ =>
      assert Generate(g, counter, p) == Failure(IllegalState);
  }

  // ---------------------------------------------------------------------
  // Verification

  /** What generating the code for each counter yields. */
  function Attempts(g: Generator, p: Platform): (attempt: int --> Result<string>)
    requires DigestSizes(p)
    ensures forall n :: IsInt64(n) ==> attempt.requires(n) && attempt(n) == Generate(g, n, p)
  {
    n requires IsInt64(n) => Generate(g, n, p)
  }

  /** The loop of `verify`: the counters `lo`, `lo + 1`, …, `hi` in turn,
      stopping at the first whose code is `code` (true) or whose generation
      throws (the failure propagates). */
  function Scan(attempt: int --> Result<string>, code: string, lo: int, hi: int): (r: Result<bool>)
    requires forall n :: lo <= n <= hi ==> attempt.requires(n)
    ensures lo > hi ==> r == Success(false)
    ensures r == Success(true) ==> exists n :: lo <= n <= hi && attempt(n) == Success(code)
    ensures r.Failure? ==> exists n :: lo <= n <= hi && attempt(n) == Failure(r.error)
    decreases if lo <= hi then hi - lo + 1 else 0
  {
    if lo > hi then Success(false)
    else match attempt(lo)
      case Failure(e) => Failure(e)
      case Success(current) =>
        if code == current then Success(true) else Scan(attempt, code, lo + 1, hi)
  }

  /** Every counter in [lo, n) yields a code, and none of them `code`. */
  ghost predicate AllMiss(attempt: int --> Result<string>, code: string, lo: int, n: int)
    requires forall m :: lo <= m < n ==> attempt.requires(m)
  {
    forall m :: lo <= m < n ==> attempt(m).Success? && attempt(m).value != code
  }

  /** The scan stops at the first counter that either fails or yields
      `code`, and returns that counter's verdict. */
  lemma {:induction false} ScanStopsAtFirstDecisive(attempt: int --> Result<string>, code: string, lo: int, n: int, hi: int)
    requires forall m :: lo <= m <= hi ==> attempt.requires(m)
    requires lo <= n <= hi
    requires AllMiss(attempt, code, lo, n)
    requires attempt(n).Failure? || attempt(n) == Success(code)
    ensures attempt(n).Failure? ==> Scan(attempt, code, lo, hi) == Failure(attempt(n).error)
    ensures attempt(n).Success? ==> Scan(attempt, code, lo, hi) == Success(true)
    decreases n - lo
  {
    if lo < n {
      assert attempt(lo).Success? && attempt(lo).value != code;
      ScanStopsAtFirstDecisive(attempt, code, lo + 1, n, hi);
    }
  }

  /** The scan answers false exactly when every counter yields a code other
      than `code`. */
  lemma {:induction false} ScanFalseIffAllMiss(attempt: int --> Result<string>, code: string, lo: int, hi: int)
    requires forall m :: lo <= m <= hi ==> attempt.requires(m)
    ensures Scan(attempt, code, lo, hi) == Success(false) <==> AllMiss(attempt, code, lo, hi + 1)
    decreases if lo <= hi then hi - lo + 1 else 0
  {
    if lo <= hi {
      var first := attempt(lo);
      if first.Success? && first.value != code {
        ScanFalseIffAllMiss(attempt, code, lo + 1, hi);
        assert AllMiss(attempt, code, lo, hi + 1) <==> AllMiss(attempt, code, lo + 1, hi + 1);
      } else {
        assert !AllMiss(attempt, code, lo, hi + 1);
      }
    }
  }

  /** No counter in [lo, hi] fails. */
  ghost predicate NoFailureIn(attempt: int --> Result<string>, lo: int, hi: int)
    requires forall n :: lo <= n <= hi ==> attempt.requires(n)
  {
    forall m :: lo <= m <= hi ==> attempt(m).Success?
  }

  /** When nothing in the range fails, the scan reports whether some
      counter in it yields `code`. */
  lemma {:induction false} ScanFindsMatch(attempt: int --> Result<string>, code: string, lo: int, hi: int)
    requires forall n :: lo <= n <= hi ==> attempt.requires(n)
    requires NoFailureIn(attempt, lo, hi)
    ensures Scan(attempt, code, lo, hi).Success?
    ensures Scan(attempt, code, lo, hi) == Success(true) <==> exists n :: lo <= n <= hi && attempt(n) == Success(code)
    decreases if lo <= hi then hi - lo + 1 else 0
  {
    if lo <= hi && attempt(lo) != Success(code) {
      assert NoFailureIn(attempt, lo + 1, hi);
      ScanFindsMatch(attempt, code, lo + 1, hi);
      if exists n :: lo <= n <= hi && attempt(n) == Success(code) {
        var n :| lo <= n <= hi && attempt(n) == Success(code);
        assert lo + 1 <= n;
      }
    }
  }

  /** A scan that fails does so at a counter of the range whose generation
      failed with that error, after every earlier counter missed. */
  lemma {:induction false} ScanFailsAtAttempt(attempt: int --> Result<string>, code: string, lo: int, hi: int)
    requires forall n :: lo <= n <= hi ==> attempt.requires(n)
    requires Scan(attempt, code, lo, hi).Failure?
    ensures exists n ::
      && lo <= n <= hi
      && AllMiss(attempt, code, lo, n)
      && attempt(n) == Failure(Scan(attempt, code, lo, hi).error)
    decreases if lo <= hi then hi - lo + 1 else 0
  {
    var e := Scan(attempt, code, lo, hi).error;
    if attempt(lo).Failure? {
      assert AllMiss(attempt, code, lo, lo);
    } else {
      ScanFailsAtAttempt(attempt, code, lo + 1, hi);
      var n :| lo + 1 <= n <= hi && AllMiss(attempt, code, lo + 1, n) && attempt(n) == Failure(e);
      assert AllMiss(attempt, code, lo, n);
    }
  }

  /** The window of counters `verify` may visit stays inside `long`. */
  predicate WindowFits(counter: int, window: int) {
    window < 0 || (IsInt64(counter - window) && IsInt64(counter + window))
  }

  /** The body of `verify(code, counter, delayWindow)` for the code source
      `generate`: a code of the wrong length is refused without generating
      anything; otherwise the counters `counter - delayWindow` to
      `counter + delayWindow` are tried in increasing order. */
  function VerifyWindow(generate: int --> Result<string>, passwordLength: int, code: string, counter: int, window: int): (r: Result<bool>)
    requires IsInt32(window) && WindowFits(counter, window)
    requires forall n :: counter - window <= n <= counter + window ==> generate.requires(n)
    ensures JavaLength(code) != passwordLength ==> r == Success(false)
    ensures window < 0 ==> r == Success(false)
  {
    if JavaLength(code) != passwordLength then Success(false)
    else Scan(generate, code, counter - window, counter + window)
  }

  /** With no failure inside the window, `verify` is true exactly when the
      code has the configured length and some counter within `window` of
      `counter` generates it. */
  lemma VerifyWindowMatches(generate: int --> Result<string>, passwordLength: int, code: string, counter: int, window: int)
    requires IsInt32(window) && WindowFits(counter, window)
    requires forall n :: counter - window <= n <= counter + window ==> generate.requires(n)
    requires NoFailureIn(generate, counter - window, counter + window)
    ensures VerifyWindow(generate, passwordLength, code, counter, window).Success?
    ensures VerifyWindow(generate, passwordLength, code, counter, window) == Success(true) <==>
      JavaLength(code) == passwordLength &&
      exists n :: counter - window <= n <= counter + window && generate(n) == Success(code)
  {
    if JavaLength(code) == passwordLength {
      ScanFindsMatch(generate, code, counter - window, counter + window);
    }
  }

  /** `verify` throws exactly when, for a code of the configured length, the
      generation of some counter of the window throws before any earlier
      counter produced the code; what it throws is that generation's error. */
  lemma VerifyWindowFailure(generate: int --> Result<string>, passwordLength: int, code: string, counter: int, window: int)
    requires IsInt32(window) && WindowFits(counter, window)
    requires forall n :: counter - window <= n <= counter + window ==> generate.requires(n)
    ensures var r := VerifyWindow(generate, passwordLength, code, counter, window);
      r.Failure? ==>
        && JavaLength(code) == passwordLength
        && exists n ::
          && counter - window <= n <= counter + window
          && AllMiss(generate, code, counter - window, n)
          && generate(n) == Failure(r.error)
    ensures forall n ::
      (&& JavaLength(code) == passwordLength
       && counter - window <= n <= counter + window
       && AllMiss(generate, code, counter - window, n)
       && generate(n).Failure?)
      ==> VerifyWindow(generate, passwordLength, code, counter, window) == Failure(generate(n).error)
  {
    var lo, hi := counter - window, counter + window;
    if VerifyWindow(generate, passwordLength, code, counter, window).Failure? {
      ScanFailsAtAttempt(generate, code, lo, hi);
    }
    forall n | JavaLength(code) == passwordLength && lo <= n <= hi && AllMiss(generate, code, lo, n) && generate(n).Failure?
      ensures VerifyWindow(generate, passwordLength, code, counter, window) == Failure(generate(n).error)
    {
      ScanStopsAtFirstDecisive(generate, code, lo, n, hi);
    }
  }

  /** `verify(code, counter, delayWindow)` of this generator: the window loop
      run on `generate`. A failing generation, such as the negative counters
      at the low end of a window around a small counter, propagates. */
  function Verify(g: Generator, p: Platform, code: string, counter: int, window: int): (r: Result<bool>)
    requires IsInt64(counter) && IsInt32(window) && WindowFits(counter, window)
    requires DigestSizes(p)
    ensures JavaLength(code) != g.passwordLength ==> r == Success(false)
    ensures window < 0 ==> r == Success(false)
  {
    VerifyWindow(Attempts(g, p), g.passwordLength, code, counter, window)
  }

  /** The length test counts UTF-16 units: six characters of which the last
      lies beyond the Basic Multilingual Plane make seven, so such a text is
      refused by a six-digit generator without generating anything. */
  lemma VerifyCountsUtf16Units(g: Generator, p: Platform, counter: int, window: int)
    requires IsInt64(counter) && IsInt32(window) && WindowFits(counter, window)
    requires DigestSizes(p)
    requires g.passwordLength == 6
    ensures Verify(g, p, "12345\U{1F600}", counter, window) == Success(false)
  {
    JavaLengthCountsSurrogatePairs();
  }

  /** Generation succeeds throughout [lo, hi]. */
  lemma AttemptsNoFailure(g: Generator, p: Platform, lo: int, hi: int)
    requires DigestSizes(p) && forall n :: lo <= n <= hi ==> IsInt64(n)
    requires forall n :: lo <= n <= hi ==> Generate(g, n, p).Success?
    ensures NoFailureIn(Attempts(g, p), lo, hi)
  {
  }

  /** Some counter of [lo, hi] yields `code`, said of the attempts and of
      `generate` alike. */
  lemma AttemptsMatch(g: Generator, p: Platform, code: string, lo: int, hi: int)
    requires DigestSizes(p) && forall n :: lo <= n <= hi ==> IsInt64(n)
    ensures (exists n :: lo <= n <= hi && Attempts(g, p)(n) == Success(code)) <==>
            (exists n :: lo <= n <= hi && Generate(g, n, p) == Success(code))
  {
    var attempt := Attempts(g, p);
    if exists n :: lo <= n <= hi && attempt(n) == Success(code) {
      var n :| lo <= n <= hi && attempt(n) == Success(code);
      assert Generate(g, n, p) == Success(code);
    }
    if exists n :: lo <= n <= hi && Generate(g, n, p) == Success(code) {
      var n :| lo <= n <= hi && Generate(g, n, p) == Success(code);
      assert attempt(n) == Success(code);
    }
  }

  /** When every counter of the window generates a code, `verify` is true
      exactly when the code has the configured length and one of the
      counters `counter - window` to `counter + window` generates it. */
  lemma VerifyMatches(g: Generator, p: Platform, code: string, counter: int, window: int)
    requires IsInt64(counter) && IsInt32(window) && WindowFits(counter, window)
    requires DigestSizes(p)
    requires forall n :: counter - window <= n <= counter + window ==> Generate(g, n, p).Success?
    ensures Verify(g, p, code, counter, window).Success?
    ensures Verify(g, p, code, counter, window) == Success(true) <==>
      JavaLength(code) == g.passwordLength &&
      exists n :: counter - window <= n <= counter + window && Generate(g, n, p) == Success(code)
  {
    AttemptsNoFailure(g, p, counter - window, counter + window);
    VerifyWindowMatches(Attempts(g, p), g.passwordLength, code, counter, window);
    AttemptsMatch(g, p, code, counter - window, counter + window);
  }

  /** What `verify` throws is what generating the code of one counter of
      the window threw. */
  lemma VerifyFailure(g: Generator, p: Platform, code: string, counter: int, window: int)
    requires IsInt64(counter) && IsInt32(window) && WindowFits(counter, window)
    requires DigestSizes(p)
    ensures var r := Verify(g, p, code, counter, window);
      r.Failure? ==>
        && JavaLength(code) == g.passwordLength
        && exists n :: counter - window <= n <= counter + window && Generate(g, n, p) == Failure(r.error)
  {
    var attempt := Attempts(g, p);
    var r := Verify(g, p, code, counter, window);
    VerifyWindowFailure(attempt, g.passwordLength, code, counter, window);
    if r.Failure? {
      var n :| counter - window <= n <= counter + window && AllMiss(attempt, code, counter - window, n) && attempt(n) == Failure(r.error);
      assert Generate(g, n, p) == Failure(r.error);
    }
  }

  /** `verify(code, counter)`: the window is 0, so the answer is whether
      the code generated for `counter` is `code`. */
  function VerifyAtCounter(g: Generator, p: Platform, code: string, counter: int): (r: Result<bool>)
    requires IsInt64(counter)
    requires DigestSizes(p)
    ensures r == Success(true) <==> Generate(g, counter, p) == Success(code)
    ensures r.Failure? <==> JavaLength(code) == g.passwordLength && Generate(g, counter, p).Failure?
    ensures r.Failure? ==> Generate(g, counter, p) == Failure(r.error)
  {
    var attempt := Attempts(g, p);
    assert attempt(counter) == Generate(g, counter, p);
    assert Scan(attempt, code, counter + 1, counter) == Success(false);
    Verify(g, p, code, counter, 0)
  }

  /** A window reaching below counter 0 makes `verify` fail rather than
      skip the negative counters. */
  lemma VerifyPropagatesNegativeCounter(g: Generator, p: Platform, code: string, counter: int, window: int)
    requires IsInt64(counter) && IsInt32(window) && WindowFits(counter, window)
    requires DigestSizes(p)
    requires JavaLength(code) == g.passwordLength && 0 <= window && counter - window < 0
    ensures Verify(g, p, code, counter, window) == Failure(IllegalArgument(NegativeCounter))
  {
  }

  // ---------------------------------------------------------------------
  // The loop bounds as Java evaluates them

  /** `verify` as written: the first counter offset is `-delayWindow`
      evaluated in `int` arithmetic, which for `Integer.MIN_VALUE` is
      `Integer.MIN_VALUE` again, so that window visits one counter,
      `counter + Integer.MIN_VALUE`. (`Integer.MAX_VALUE` is excluded: there
      `i++` wraps and the loop does not end by its condition.) */
  function VerifyAsWritten(g: Generator, p: Platform, code: string, counter: int, window: int): (r: Result<bool>)
    requires IsInt64(counter) && IsInt32(window) && window != Int32Max
    requires NegateInt32(window) > window || (IsInt64(counter + NegateInt32(window)) && IsInt64(counter + window))
    requires DigestSizes(p)
    ensures JavaLength(code) != g.passwordLength ==> r == Success(false)
    ensures window != Int32Min ==> WindowFits(counter, window) && r == Verify(g, p, code, counter, window)
  {
    if JavaLength(code) != g.passwordLength then Success(false)
    else Scan(Attempts(g, p), code, counter + NegateInt32(window), counter + window)
  }

  /** The loop of `verify` as written, from offset `i` on: `i` is an `int`,
      so `i++` wraps from `Integer.MAX_VALUE` to `Integer.MIN_VALUE`, and
      only the condition `i <= delayWindow` ends the loop. At most `fuel`
      iterations are run; `None` means the loop had not ended by then. */
  function LoopAsWritten(attempt: int --> Result<string>, code: string, counter: int, i: int, window: int, fuel: nat): (r: Option<Result<bool>>)
    requires IsInt32(i) && IsInt32(window)
    requires forall n :: counter + Int32Min <= n <= counter + Int32Max ==> attempt.requires(n)
    ensures i > window ==> r == Some(Success(false))
    ensures r == Some(Success(true)) ==>
      exists n :: counter + Int32Min <= n <= counter + Int32Max && attempt(n) == Success(code)
    ensures r.Some? && r.value.Failure? ==>
      exists n :: counter + Int32Min <= n <= counter + Int32Max && attempt(n) == Failure(r.value.error)
    decreases fuel
  {
    if i > window then Some(Success(false))
    else if fuel == 0 then None
    else match attempt(counter + i)
      case Failure(e) => Some(Failure(e))
      case Success(current) =>
        if code == current then Some(Success(true))
        else LoopAsWritten(attempt, code, counter, IncrementInt32(i), window, fuel - 1)
  }

  /** `verify(code, counter, delayWindow)` exactly as written: the length
      test, then the loop from `-delayWindow` in `int` arithmetic with an
      `int` index, run for at most `fuel` iterations. */
  function VerifyLoopAsWritten(g: Generator, p: Platform, code: string, counter: int, window: int, fuel: nat): (r: Option<Result<bool>>)
    requires IsInt64(counter + Int32Min) && IsInt64(counter + Int32Max) && IsInt32(window)
    requires DigestSizes(p)
    ensures JavaLength(code) != g.passwordLength ==> r == Some(Success(false))
    ensures r == Some(Success(true)) ==>
      exists n :: counter + Int32Min <= n <= counter + Int32Max && Generate(g, n, p) == Success(code)
    ensures r.Some? && r.value.Failure? ==>
      exists n :: counter + Int32Min <= n <= counter + Int32Max && Generate(g, n, p) == Failure(r.value.error)
  {
    if JavaLength(code) != g.passwordLength then Some(Success(false))
    else LoopAsWritten(Attempts(g, p), code, counter, NegateInt32(window), window, fuel)
  }

  /** Offsets `i` to `j` whose codes all miss take `j - i + 1` iterations,
      after which the loop goes on at the `i++` of `j`; with fewer
      iterations left it has not ended. */
  lemma {:induction false} LoopPassesMisses(attempt: int --> Result<string>, code: string, counter: int, i: int, j: int, window: int, fuel: nat)
    requires IsInt32(i) && IsInt32(j) && IsInt32(window) && i <= j <= window
    requires forall n :: counter + Int32Min <= n <= counter + Int32Max ==> attempt.requires(n)
    requires AllMiss(attempt, code, counter + i, counter + j + 1)
    ensures fuel <= j - i ==> LoopAsWritten(attempt, code, counter, i, window, fuel) == None
    ensures fuel > j - i ==>
      LoopAsWritten(attempt, code, counter, i, window, fuel) ==
      LoopAsWritten(attempt, code, counter, IncrementInt32(j), window, fuel - (j - i + 1))
    decreases j - i
  {
    if fuel > 0 {
      assert attempt(counter + i).Success? && attempt(counter + i).value != code;
      if i < j {
        LoopPassesMisses(attempt, code, counter, i + 1, j, window, fuel - 1);
      }
    }
  }

  /** Short of the wrap, the loop as written is the scan of the counters
      `counter + i` to `counter + window`, given one iteration per counter. */
  lemma {:induction false} LoopAsWrittenIsScan(attempt: int --> Result<string>, code: string, counter: int, i: int, window: int, fuel: nat)
    requires IsInt32(i) && IsInt32(window) && window < Int32Max
    requires forall n :: counter + Int32Min <= n <= counter + Int32Max ==> attempt.requires(n)
    requires fuel > window - i
    ensures LoopAsWritten(attempt, code, counter, i, window, fuel) == Some(Scan(attempt, code, counter + i, counter + window))
    decreases if i <= window then window - i + 1 else 0
  {
    if i <= window {
      match attempt(counter + i)
      case Failure(_) =>
      case Success(current) =>
        if code != current {
          LoopAsWrittenIsScan(attempt, code, counter, i + 1, window, fuel - 1);
        }
    }
  }

  /** For every window but `Integer.MAX_VALUE`, `VerifyAsWritten` is what
      the loop as written computes within 2^32 iterations. */
  lemma VerifyAsWrittenIsLoop(g: Generator, p: Platform, code: string, counter: int, window: int)
    requires IsInt64(counter + Int32Min) && IsInt64(counter + Int32Max)
    requires IsInt32(window) && window != Int32Max
    requires DigestSizes(p)
    ensures IsInt64(counter)
    ensures VerifyLoopAsWritten(g, p, code, counter, window, 0x1_0000_0000) == Some(VerifyAsWritten(g, p, code, counter, window))
  {
    if JavaLength(code) == g.passwordLength {
      var attempt, start := Attempts(g, p), NegateInt32(window);
      LoopAsWrittenIsScan(attempt, code, counter, start, window, 0x1_0000_0000);
      assert VerifyLoopAsWritten(g, p, code, counter, window, 0x1_0000_0000) ==
        LoopAsWritten(attempt, code, counter, start, window, 0x1_0000_0000);
      assert VerifyAsWritten(g, p, code, counter, window) == Scan(attempt, code, counter + start, counter + window);
    }
  }

  /** From offset `Integer.MIN_VALUE` with `delayWindow == Integer.MAX_VALUE`,
      when every counter `counter + i` misses, the loop comes back to
      `Integer.MIN_VALUE` every 2^32 iterations and never ends. */
  lemma {:induction false} MaxWindowCycles(attempt: int --> Result<string>, code: string, counter: int, fuel: nat)
    requires forall n :: counter + Int32Min <= n <= counter + Int32Max ==> attempt.requires(n)
    requires AllMiss(attempt, code, counter + Int32Min, counter + Int32Max + 1)
    ensures LoopAsWritten(attempt, code, counter, Int32Min, Int32Max, fuel) == None
    decreases fuel
  {
    LoopPassesMisses(attempt, code, counter, Int32Min, Int32Max, Int32Max, fuel);
    if fuel > Int32Max - Int32Min {
      MaxWindowCycles(attempt, code, counter, fuel - 0x1_0000_0000);
    }
  }

  /** `verify(code, Integer.MAX_VALUE, Integer.MAX_VALUE)` as written, for a
      code of the configured length that no counter from 0 to 2^32 - 2
      generates: after offset `Integer.MAX_VALUE` the `int` `i++` gives
      `Integer.MIN_VALUE`, which still passes `i <= delayWindow`, so the
      next call is `generate(-1)`, which throws. The window of `Verify`
      gives false. */
  lemma MaxWindowWrapsToNegativeCounter(g: Generator, p: Platform, code: string)
    requires DigestSizes(p)
    requires JavaLength(code) == g.passwordLength
    requires forall n :: 0 <= n <= 0xFFFF_FFFE ==> Generate(g, n, p).Success? && Generate(g, n, p).value != code
    ensures IncrementInt32(Int32Max) == Int32Min && Int32Min <= Int32Max
    ensures Int32Max + Int32Min == -1 && Generate(g, -1, p) == Failure(IllegalArgument(NegativeCounter))
    ensures VerifyLoopAsWritten(g, p, code, Int32Max, Int32Max, 0x1_0000_0000) == Some(Failure(IllegalArgument(NegativeCounter)))
    ensures Verify(g, p, code, Int32Max, Int32Max) == Success(false)
  {
    var attempt := Attempts(g, p);
    AttemptsMiss(g, p, code, 0, 0xFFFF_FFFE);
    LoopPassesMisses(attempt, code, Int32Max, -Int32Max, Int32Max, Int32Max, 0x1_0000_0000);
    ScanFalseIffAllMiss(attempt, code, 0, 0xFFFF_FFFE);
  }

  /** `verify(code, counter, Integer.MAX_VALUE)` as written never returns
      for a code of the configured length that no counter of
      `counter + Integer.MIN_VALUE` to `counter + Integer.MAX_VALUE`
      generates (such a counter is at least 2^31, since negative counters
      throw), whatever the number of iterations allowed; `Verify` gives
      false. A code of another length is refused by the length test first. */
  lemma MaxWindowNeverEnds(g: Generator, p: Platform, code: string, counter: int, fuel: nat)
    requires IsInt64(counter + Int32Min) && IsInt64(counter + Int32Max)
    requires DigestSizes(p)
    requires JavaLength(code) == g.passwordLength
    requires forall n :: counter + Int32Min <= n <= counter + Int32Max ==> Generate(g, n, p).Success? && Generate(g, n, p).value != code
    ensures counter >= 0x8000_0000
    ensures VerifyLoopAsWritten(g, p, code, counter, Int32Max, fuel) == None
    ensures Verify(g, p, code, counter, Int32Max) == Success(false)
  {
    var attempt := Attempts(g, p);
    assert Generate(g, counter + Int32Min, p).Success?;
    AttemptsMiss(g, p, code, counter + Int32Min, counter + Int32Max);
    MaxWindowLoopNeverEnds(attempt, code, counter, fuel);
    ScanFalseIffAllMiss(attempt, code, counter - Int32Max, counter + Int32Max);
  }

  /** The loop as written from offset `-Integer.MAX_VALUE` with
      `delayWindow == Integer.MAX_VALUE` does not end when every counter
      `counter + i` misses. */
  lemma MaxWindowLoopNeverEnds(attempt: int --> Result<string>, code: string, counter: int, fuel: nat)
    requires forall n :: counter + Int32Min <= n <= counter + Int32Max ==> attempt.requires(n)
    requires AllMiss(attempt, code, counter + Int32Min, counter + Int32Max + 1)
    ensures LoopAsWritten(attempt, code, counter, NegateInt32(Int32Max), Int32Max, fuel) == None
  {
    LoopPassesMisses(attempt, code, counter, -Int32Max, Int32Max, Int32Max, fuel);
    if fuel > Int32Max - (-Int32Max) {
      MaxWindowCycles(attempt, code, counter, fuel - (Int32Max - (-Int32Max) + 1));
    }
  }

  /** Counters of [lo, hi] whose generated codes all differ from `code` are
      all misses of the attempts. */
  lemma AttemptsMiss(g: Generator, p: Platform, code: string, lo: int, hi: int)
    requires DigestSizes(p) && IsInt64(lo) && IsInt64(hi)
    requires forall n :: lo <= n <= hi ==> Generate(g, n, p).Success? && Generate(g, n, p).value != code
    ensures forall n :: lo <= n <= hi ==> Attempts(g, p).requires(n)
    ensures AllMiss(Attempts(g, p), code, lo, hi + 1)
  {
  }

  /** With `delayWindow == Integer.MIN_VALUE` the code as written accepts the
      code of a counter 2^31 steps back, where a negative window should
      accept nothing. */
  lemma MinWindowAcceptsDistantCode(g: Generator, p: Platform)
    requires DigestSizes(p)
    ensures Generate(g, 0, p).Success? ==>
      && VerifyAsWritten(g, p, Generate(g, 0, p).value, 0x8000_0000, Int32Min) == Success(true)
      && Verify(g, p, Generate(g, 0, p).value, 0x8000_0000, Int32Min) == Success(false)
  {
    if Generate(g, 0, p).Success? {
      var code := Generate(g, 0, p).value;
      assert Scan(Attempts(g, p), code, 0, 0) == Success(true);
    }
  }
}
