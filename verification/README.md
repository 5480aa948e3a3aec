# HOTP generator model

A Dafny model of `HOTPGenerator` from otp-java, the counter-based one-time
password generator of RFC 4226, and proofs about it. It covers five things:

- **The builder.** A non-empty secret, a password length of 6 to 8, and
  defaults of 6 digits and SHA-1.
- **Code generation.** The pipeline is:
  1. the negative-counter check;
  2. Base32 decoding of the secret;
  3. the counter as eight big-endian bytes;
  4. the HMAC;
  5. dynamic truncation (section 5.3 of RFC 4226);
  6. reduction modulo 10^digits and zero-padded formatting.
- **Verification.** A length check, then a scan over the window of
  counters `counter - w` to `counter + w`.
- **Provisioning URIs.** The label and query items `getURI` produces, and
  the generator `fromURI` rebuilds from the query items.
- **RFC 4226 test values.** The intermediate values and codes of
  Appendix D.

Java exceptions are values of `Results.Result`, with an `Error` per
exception and a `Reason` per `IllegalArgumentException` message.

The model does not define the library code the generator calls. These are
functions held in a `Collaborators.Platform` value:

- the Base32 codec;
- the HMAC primitive;
- `new String(bytes, UTF_8)`;
- `String.getBytes()`.

The model assumes only two facts about them:

- `DigestSizes`: a MAC is 20, 32 or 64 bytes long.
- `AsciiTransparent`: both charset conversions leave ASCII unchanged. This assumes an ASCII-compatible default charset such as UTF-8; it does not hold for UTF-16 or EBCDIC.

The Java code relies on fixed-width integers in several places. Each one is
written out:

- signed bytes (`Numeric.SignedByte`);
- `ByteBuffer.getInt` (`Numeric.ToInt32`);
- `-delayWindow` in `int` arithmetic (`Numeric.NegateInt32`);
- `i++` on the `int` loop index (`Numeric.IncrementInt32`, used by `HotpGenerator.LoopAsWritten` and `HotpGenerator.VerifyLoopAsWritten`);
- `long` counters as 64-bit patterns (`HotpGenerator.LongToBytes`).

Modules:

| file | module | contents |
|---|---|---|
| numeric.dfy | Numeric | integer widths, two's-complement readings, powers, big-endian codec |
| bits.dfy | Bits | Java's `&` on two's-complement patterns, and masking with low one-bits |
| results.dfy | Results | `Option`, `Result`, error tags |
| decimal.dfy | Decimal | decimal text: `String.valueOf`, `%0nd` formatting, `Integer.valueOf`; `String.length()` in UTF-16 units |
| hmac_algorithms.dfy | HmacAlgorithms | the algorithm enum, its names, the upper-casing lookup |
| collaborators.dfy | Collaborators | the library calls as a `Platform`, and the facts assumed of them |
| hotp_generator.dfy | HotpGenerator | builder, counter encoding, truncation, `generate`, `verify` |
| provisioning_uri.dfy | ProvisioningUri | `getURI` and `fromURI` at the level of labels and query items |
| rfc4226_vectors.dfy | Rfc4226Vectors | the values of Appendix D of RFC 4226 |

## Model

| member | source | states |
|---|---|---|
| Numeric.SignedByte | src/main/java/com/bastiaanjansen/otp/HOTPGenerator.java:277-278 | Java reads a byte as a value in -128..127 that is congruent to the byte modulo 256 |
| Numeric.ToInt32 | src/main/java/com/bastiaanjansen/otp/HOTPGenerator.java:284-285 | `getInt` of a 32-bit pattern gives an `int` that is congruent to the pattern modulo 2^32 |
| Numeric.ToInt64 | src/main/java/com/bastiaanjansen/otp/HOTPGenerator.java:230-231 | a 64-bit pattern is read as a `long` that is congruent to it modulo 2^64 |
| Numeric.NegateInt32 | src/main/java/com/bastiaanjansen/otp/HOTPGenerator.java:159 | `-delayWindow` is an `int` that is the true negation, except that `Integer.MIN_VALUE` wraps to itself |
| Bits.BitAndLowMask | src/main/java/com/bastiaanjansen/otp/HOTPGenerator.java:265-278 | `u & (2^n - 1)`, with `&` taken bit by bit, is u modulo 2^n |
| Bits.LowBitsIsMask | src/main/java/com/bastiaanjansen/otp/HOTPGenerator.java:278 | masking the `width`-bit two's-complement pattern of any x with n <= width one-bits gives `LowBits(x, n)`, x modulo 2^n |
| Numeric.LowNibbleMask | src/main/java/com/bastiaanjansen/otp/HOTPGenerator.java:265 | `~(~0 << 4)` on a 32-bit `int` is 0xF, which is one less than 2^4 |
| Numeric.ToBigEndian | src/main/java/com/bastiaanjansen/otp/HOTPGenerator.java:231 | encoding a number below 256^n as n big-endian bytes can be read back |
| Numeric.ToBigEndianOfFromBigEndian | src/main/java/com/bastiaanjansen/otp/HOTPGenerator.java:231 | big-endian decoding followed by encoding gives back any byte sequence |
| Numeric.ToBigEndianByte | src/main/java/com/bastiaanjansen/otp/HOTPGenerator.java:231 | byte k of the n-byte encoding is base-256 digit n-1-k of the number |
| Decimal.ValueInjective | src/main/java/com/bastiaanjansen/otp/HOTPGenerator.java:294 | two digit strings of the same length with the same value are equal |
| Decimal.ToDecimal | src/main/java/com/bastiaanjansen/otp/HOTPGenerator.java:124 | the decimal text of v is a non-empty digit string with no leading zero, and it denotes v |
| Decimal.ValueOfZeroPrefixed | src/main/java/com/bastiaanjansen/otp/HOTPGenerator.java:294 | zero-padding on the left keeps a digit string's value |
| Decimal.FormatZeroPadded | src/main/java/com/bastiaanjansen/otp/HOTPGenerator.java:294 | `%0<width>d` gives a digit string that denotes v and is at least width long; it is exactly width long when v < 10^width |
| Decimal.JavaIntToString | src/main/java/com/bastiaanjansen/otp/HOTPGenerator.java:124 | `String.valueOf(int)` starts with `-` exactly for a negative number; the rest is a non-empty digit string without leading zeros that denotes the magnitude |
| Decimal.ParseJavaInt | src/main/java/com/bastiaanjansen/otp/HOTPGenerator.java:78 | `Integer.valueOf` accepts only an optional sign followed by at least one digit, and its result is the signed value of the digits, which fits in an `int` |
| Decimal.ParseJavaIntOfDigits | src/main/java/com/bastiaanjansen/otp/HOTPGenerator.java:78 | every non-empty digit string is read as its value when that fits in an `int`, and refused otherwise |
| Decimal.ParseJavaIntOfSignedDigits | src/main/java/com/bastiaanjansen/otp/HOTPGenerator.java:78 | every `-` or `+` followed by a non-empty digit string is read as the signed value when that fits in an `int`, and refused otherwise |
| Decimal.JavaLength | src/main/java/com/bastiaanjansen/otp/HOTPGenerator.java:157 | `String.length()` counts UTF-16 units: at least one per character, exactly one per character when none lies beyond U+FFFF |
| Decimal.JavaLengthCountsSurrogatePairs | src/main/java/com/bastiaanjansen/otp/HOTPGenerator.java:157 | "12345" followed by U+1F600 is six characters but seven UTF-16 units |
| Decimal.ParseJavaIntOfToString | src/main/java/com/bastiaanjansen/otp/HOTPGenerator.java:124 | `Integer.valueOf(String.valueOf(x))` is x for every `int` |
| HmacAlgorithms.ValueOf | src/main/java/com/bastiaanjansen/otp/HOTPGenerator.java:82 | `valueOf` finds exactly the constant with that exact name, and fails when no constant has it |
| HmacAlgorithms.Name | src/main/java/com/bastiaanjansen/otp/HOTPGenerator.java:204 | a constant's name is at least four characters, all upper-case ASCII letters or digits, so `toUpperCase` leaves it unchanged |
| HmacAlgorithms.ToUpperCase | src/main/java/com/bastiaanjansen/otp/HOTPGenerator.java:81 | upper-casing keeps the length and maps each character on its own; an upper-case letter or digit d appears at a position exactly when the input there is one of d's case variants |
| HmacAlgorithms.UpperCharVariants | src/main/java/com/bastiaanjansen/otp/HOTPGenerator.java:81 | the characters that upper-case to a given letter or digit are exactly its case variants |
| HmacAlgorithms.LookupIgnoresCase | src/main/java/com/bastiaanjansen/otp/HOTPGenerator.java:80-83 | upper-casing and then looking up finds a constant exactly when the name matches it position by position, ignoring case |
| Collaborators.AsciiRoundTrip | src/main/java/com/bastiaanjansen/otp/HOTPGenerator.java:205 | ASCII bytes read as text and written back as bytes are unchanged |
| HotpGenerator.NewBuilder | src/main/java/com/bastiaanjansen/otp/HOTPGenerator.java:318-325 | a new builder fails exactly for an empty secret; otherwise it holds the secret, 6 digits and SHA-1 |
| HotpGenerator.WithPasswordLength | src/main/java/com/bastiaanjansen/otp/HOTPGenerator.java:327-333 | succeeds exactly for 6..8 and then changes only the length; otherwise it fails with the out-of-range error |
| HotpGenerator.PasswordLengthIsValid | src/main/java/com/bastiaanjansen/otp/HOTPGenerator.java:361-363 | the valid lengths are exactly 6, 7 and 8, and the default of 6 is one of them |
| HotpGenerator.PasswordLengthBoundaries | src/main/java/com/bastiaanjansen/otp/HOTPGenerator.java:361-363 | 5 and 9 are refused; 6, 7 and 8 are accepted |
| HotpGenerator.WithAlgorithm | src/main/java/com/bastiaanjansen/otp/HOTPGenerator.java:341-344 | sets the algorithm and changes nothing else |
| HotpGenerator.Build | src/main/java/com/bastiaanjansen/otp/HOTPGenerator.java:351-353 | the generator has the builder's secret, length and algorithm |
| HotpGenerator.WithDefaultValues | src/main/java/com/bastiaanjansen/otp/HOTPGenerator.java:97-99 | fails exactly for an empty secret; otherwise it gives 6 digits and SHA-1 |
| HotpGenerator.LongToBytes | src/main/java/com/bastiaanjansen/otp/HOTPGenerator.java:230-232 | a `long` becomes exactly eight bytes |
| HotpGenerator.LongToBytesIsBigEndian | src/main/java/com/bastiaanjansen/otp/HOTPGenerator.java:230-232 | the eight bytes are the big-endian encoding of the `long`'s 64-bit pattern |
| HotpGenerator.LongPattern | src/main/java/com/bastiaanjansen/otp/HOTPGenerator.java:231 | the 64-bit pattern `putLong` writes is the value itself when non-negative, and the value plus 2^64 otherwise |
| HotpGenerator.LongToBytesOfNatural | src/main/java/com/bastiaanjansen/otp/HOTPGenerator.java:230-232 | a non-negative counter becomes its own eight-byte big-endian encoding |
| HotpGenerator.LongToBytesRoundTrip | src/main/java/com/bastiaanjansen/otp/HOTPGenerator.java:230-232 | reading the eight bytes back as a `long` gives the value; for v >= 0 the unsigned reading already does |
| HotpGenerator.TruncationOffset | src/main/java/com/bastiaanjansen/otp/HOTPGenerator.java:277-278 | the offset is in 0..15 and equals the last byte modulo 16, whatever the byte's sign |
| HotpGenerator.TruncationOffsetIsMask | src/main/java/com/bastiaanjansen/otp/HOTPGenerator.java:265-278 | the offset is `lastByte & ~(~0 << 4)` computed bit by bit on the `int` pattern of the sign-extended byte |
| HotpGenerator.DigestsCanBeTruncated | src/main/java/com/bastiaanjansen/otp/HOTPGenerator.java:277-281 | in any hash of at least 19 bytes, the four bytes read from the offset exist |
| HotpGenerator.MaskedInt | src/main/java/com/bastiaanjansen/otp/HOTPGenerator.java:284-288 | `getInt` widened to `long` and masked with 0x7FFFFFFF is the 32-bit word modulo 2^31 |
| HotpGenerator.MaskedIntIsMask | src/main/java/com/bastiaanjansen/otp/HOTPGenerator.java:284-288 | `MaskedInt` is `& 0x7FFFFFFF` computed bit by bit on the `long` pattern of the `int` that `getInt` returns |
| HotpGenerator.ReducedCode | src/main/java/com/bastiaanjansen/otp/HOTPGenerator.java:291-294 | the code is exactly `digits` digits long and denotes the value modulo 10^digits |
| HotpGenerator.CodeFromHash | src/main/java/com/bastiaanjansen/otp/HOTPGenerator.java:259-295 | the code is passwordLength digits long and denotes RFC 4226's DynamicTruncation of the hash modulo 10^passwordLength |
| HotpGenerator.Generate | src/main/java/com/bastiaanjansen/otp/HOTPGenerator.java:174-190 | a negative counter fails with the invalid-argument error; every generated code is passwordLength digits long |
| HotpGenerator.GenerateFailures | src/main/java/com/bastiaanjansen/otp/HOTPGenerator.java:174-190 | a secret the codec rejects, or one that decodes to an empty key, gives its own error; any other outcome needs a non-empty decoded key |
| HotpGenerator.GenerateComputesHotp | src/main/java/com/bastiaanjansen/otp/HOTPGenerator.java:174-190 | generation succeeds exactly when the HMAC of the key and the counter's big-endian bytes succeeds, and the code then denotes HOTP(K, C) mod 10^digits; otherwise it fails with the illegal-state error |
| HotpGenerator.Scan | src/main/java/com/bastiaanjansen/otp/HOTPGenerator.java:159-162 | an empty range answers false; a true answer comes from a counter of the range that yields the code; a failure is the error of a counter of the range |
| HotpGenerator.ScanStopsAtFirstDecisive | src/main/java/com/bastiaanjansen/otp/HOTPGenerator.java:159-162 | the loop returns at the first counter that fails or matches, with that counter's verdict |
| HotpGenerator.ScanFalseIffAllMiss | src/main/java/com/bastiaanjansen/otp/HOTPGenerator.java:159-164 | the loop answers false exactly when every counter yields a code, and none of them is the candidate |
| HotpGenerator.ScanFindsMatch | src/main/java/com/bastiaanjansen/otp/HOTPGenerator.java:159-164 | with no failing counter, the loop answers true exactly when some counter yields the candidate |
| HotpGenerator.ScanFailsAtAttempt | src/main/java/com/bastiaanjansen/otp/HOTPGenerator.java:159-162 | a failing loop fails with the error of a counter whose predecessors all missed |
| HotpGenerator.VerifyWindow | src/main/java/com/bastiaanjansen/otp/HOTPGenerator.java:156-165 | a code whose UTF-16 length differs from the password length, or a negative window, gives false |
| HotpGenerator.VerifyWindowMatches | src/main/java/com/bastiaanjansen/otp/HOTPGenerator.java:156-165 | with no failure in the window, the result is true exactly when the UTF-16 length matches and some counter in [c-w, c+w] generates the code |
| HotpGenerator.VerifyWindowFailure | src/main/java/com/bastiaanjansen/otp/HOTPGenerator.java:156-165 | verify throws exactly when a counter of the window fails after all earlier counters missed, and it throws that counter's error |
| HotpGenerator.Verify | src/main/java/com/bastiaanjansen/otp/HOTPGenerator.java:156-165 | a code whose UTF-16 length differs from the password length, or a negative window, gives false without generating |
| HotpGenerator.VerifyMatches | src/main/java/com/bastiaanjansen/otp/HOTPGenerator.java:156-165 | when every counter of the window generates, verify is true exactly when the UTF-16 length matches and `generate(c+i)` is the code for some i in [-w, w] |
| HotpGenerator.VerifyFailure | src/main/java/com/bastiaanjansen/otp/HOTPGenerator.java:156-165 | verify's error is the error of `generate` at some counter of the window |
| HotpGenerator.VerifyAtCounter | src/main/java/com/bastiaanjansen/otp/HOTPGenerator.java:144-146 | `verify(code, c)` is true exactly when `generate(c)` is the code, and fails exactly when the UTF-16 length matches and `generate(c)` fails |
| HotpGenerator.VerifyCountsUtf16Units | src/main/java/com/bastiaanjansen/otp/HOTPGenerator.java:157 | a six-character text ending in U+1F600 has length 7, so a six-digit generator refuses it for any counter and window |
| HotpGenerator.VerifyPropagatesNegativeCounter | src/main/java/com/bastiaanjansen/otp/HOTPGenerator.java:159-160 | a window reaching below counter 0 makes verify throw the negative-counter error |
| HotpGenerator.VerifyAsWritten | src/main/java/com/bastiaanjansen/otp/HOTPGenerator.java:156-165 | with the loop bounds in `int` arithmetic, verify agrees with the mathematical window for every window except `Integer.MIN_VALUE` and `Integer.MAX_VALUE` |
| HotpGenerator.MinWindowAcceptsDistantCode | src/main/java/com/bastiaanjansen/otp/HOTPGenerator.java:159 | with window `Integer.MIN_VALUE`, verify as written accepts the code of a counter 2^31 steps back, where a negative window gives false |
| Numeric.IncrementInt32 | src/main/java/com/bastiaanjansen/otp/HOTPGenerator.java:159 | `i++` on an `int` stays an `int`, is `i + 1` modulo 2^32, and is `i + 1` except at `Integer.MAX_VALUE` |
| HotpGenerator.LoopAsWritten | src/main/java/com/bastiaanjansen/otp/HOTPGenerator.java:159-162 | the loop with an `int` index: past the window it answers false; a true answer has some counter `counter + i` (i an `int`) generating the code as witness, and a failure has a counter whose generation failed with that error |
| HotpGenerator.VerifyLoopAsWritten | src/main/java/com/bastiaanjansen/otp/HOTPGenerator.java:156-165 | `verify` as written: a code whose UTF-16 length differs gives false without generating; a true answer or a failure is witnessed by the generation of some counter `counter + i` |
| HotpGenerator.LoopPassesMisses | src/main/java/com/bastiaanjansen/otp/HOTPGenerator.java:159-162 | offsets `i` to `j` that all miss take `j - i + 1` iterations and the loop goes on at the `int` increment of `j`; with fewer iterations it has not ended |
| HotpGenerator.LoopAsWrittenIsScan | src/main/java/com/bastiaanjansen/otp/HOTPGenerator.java:159-162 | short of the wrap, the loop with an `int` index is the scan of the counters `counter + i` to `counter + window` |
| HotpGenerator.VerifyAsWrittenIsLoop | src/main/java/com/bastiaanjansen/otp/HOTPGenerator.java:156-165 | for every window but `Integer.MAX_VALUE`, `VerifyAsWritten` is what `verify` as written, length test and `int`-indexed loop, returns within 2^32 iterations |
| HotpGenerator.MaxWindowWrapsToNegativeCounter | src/main/java/com/bastiaanjansen/otp/HOTPGenerator.java:159-160 | with counter and window `Integer.MAX_VALUE` and a code no counter 0 to 2^32-2 generates, `i++` wraps to `Integer.MIN_VALUE`, which passes the loop test, and the next `generate(-1)` throws, so `verify` as written throws; `Verify` gives false |
| HotpGenerator.MaxWindowCycles | src/main/java/com/bastiaanjansen/otp/HOTPGenerator.java:159 | from offset `Integer.MIN_VALUE` with window `Integer.MAX_VALUE`, a loop whose counters all miss never ends |
| HotpGenerator.MaxWindowLoopNeverEnds | src/main/java/com/bastiaanjansen/otp/HOTPGenerator.java:159 | from offset `-Integer.MAX_VALUE` with window `Integer.MAX_VALUE`, a loop whose counters all miss never ends |
| HotpGenerator.MaxWindowNeverEnds | src/main/java/com/bastiaanjansen/otp/HOTPGenerator.java:156-165 | for a code of the configured length that no counter `c + i` of any `int` i generates, which needs c >= 2^31, `verify(code, c, Integer.MAX_VALUE)` as written never returns; `Verify` gives false |
| ProvisioningUri.Label | src/main/java/com/bastiaanjansen/otp/HOTPGenerator.java:208 | the label is the issuer when the account is empty; otherwise it is the issuer, then `:` at position |issuer|, then the account |
| ProvisioningUri.SplitLabelOfLabel | src/main/java/com/bastiaanjansen/otp/HOTPGenerator.java:208 | splitting at the first colon gives back an issuer that has no colon, and the account |
| ProvisioningUri.BuildUri | src/main/java/com/bastiaanjansen/otp/HOTPGenerator.java:202-211 | the query holds the caller's items plus digits, the algorithm name, the secret as text and the issuer; these four overwrite, everything else is kept |
| ProvisioningUri.GetUri | src/main/java/com/bastiaanjansen/otp/HOTPGenerator.java:122-127 | an `otpauth` URI of type `hotp` whose path is the label of issuer and account, whose items are exactly counter, digits, algorithm, secret and issuer, and whose counter item parses back to the counter |
| ProvisioningUri.GetUriForIssuer | src/main/java/com/bastiaanjansen/otp/HOTPGenerator.java:109-111 | the label is the issuer alone, and it splits back into the issuer and an empty account |
| ProvisioningUri.ApplyOptions | src/main/java/com/bastiaanjansen/otp/HOTPGenerator.java:76-86 | succeeds exactly when digits (if present) parse to 6..8 and the algorithm (if present) names a constant once upper-cased; absent items keep the builder's values |
| ProvisioningUri.FromUri | src/main/java/com/bastiaanjansen/otp/HOTPGenerator.java:67-89 | a missing secret or an empty one fails with its own error; otherwise it succeeds exactly when both options are accepted and every failure is the URI-syntax error carrying the URI text; a generator it returns has the encoded secret, the parsed digits (else 6) and the looked-up algorithm (else SHA-1) |
| ProvisioningUri.FromUriDefaults | src/main/java/com/bastiaanjansen/otp/HOTPGenerator.java:67-89 | without digits or algorithm items the generator has 6 digits and SHA-1 |
| ProvisioningUri.FromUriRejectsBadItems | src/main/java/com/bastiaanjansen/otp/HOTPGenerator.java:76-86 | bad digits and unknown algorithm names all give the same URI-syntax error |
| ProvisioningUri.ValueOfName | src/main/java/com/bastiaanjansen/otp/HOTPGenerator.java:204 | the name `getURI` writes looks the constant up again after upper-casing |
| ProvisioningUri.FromUriOfGetUri | src/main/java/com/bastiaanjansen/otp/HOTPGenerator.java:67-89 | for an ASCII secret, `fromURI` of the items `getURI` writes gives back the same generator |
| Rfc4226Vectors.ConsistentRowHolds | src/main/java/com/bastiaanjansen/otp/HOTPGenerator.java:277-294 | a row whose numbers agree by byte arithmetic is what truncation and formatting compute from its HMAC |
| Rfc4226Vectors.AppendixDTruncation | src/main/java/com/bastiaanjansen/otp/HOTPGenerator.java:259-295 | for each of the ten HMAC-SHA-1 values of RFC 4226 Appendix D, truncation gives the published 31-bit value and `getCodeFromHash` the published six-digit code |
| Rfc4226Vectors.GenerateAppendixD | src/main/java/com/bastiaanjansen/otp/HOTPGenerator.java:174-190 | a six-digit SHA-1 generator for the appendix's secret generates the published code for counters 0 to 9, given that the HMAC yields the appendix's values |

## Left out

- HMAC, Base32 decoding, `new String(…, UTF_8)` and `String.getBytes()` are library code. They are fields of `Collaborators.Platform`. Only the digest sizes and ASCII transparency are assumed of them; the Base32 codec is assumed able to fail.
- The HMAC is assumed to report failure through its outcome: `NoSuchAlgorithmException` and `InvalidKeyException` are both caught and become `IllegalStateException`.
- Building an HMAC key from an empty decoded secret throws `IllegalArgumentException`, which `generate` does not catch. The model returns `IllegalArgument(EmptyKey)`, not a key error, because that is what the code does.
- `getHMACName` of the algorithm enum is not modelled; the HMAC receives the `Algorithm` value itself.
- `URIHelper.createURI`, `URIHelper.queryItems`, percent-encoding, `java.net.URI` and its exceptions are not part of this model. `getURI` is modelled up to the `Uri` value handed to `createURI`, and `fromURI` starting from the query map.
- The query item names `secret`, `digits`, `algorithm`, `issuer` and `counter` are those of the otpauth URI format. `URIHelper` is not part of this model.
- `ProvisioningUri.SplitLabel` reads a label back; nothing in the generator does this. It exists so that the label format has an inverse.
- Decimal.ParseJavaInt: only ASCII digits are accepted; Java also accepts other Unicode decimal digits.
- HmacAlgorithms.ToUpperCase: characters whose upper case is not an ASCII letter are kept unchanged, and expansions such as `ß` to `SS` are not modelled. The locale is ignored. None of these can turn a name into one of the constant names.
- HotpGenerator.ReducedCode: `Math.pow(10, passwordLength)` is a `double`, modelled as the integer power. Both values are exact for 6..8 digits and for values below 2^31.
- HotpGenerator.Verify: requires every counter `counter + i` of the window to fit in a `long`; `long` overflow of `counter + i` is not modelled.
- HotpGenerator.VerifyAsWritten: excludes the window `Integer.MAX_VALUE`. There `i++` wraps past the bound and the loop does not end by its condition; that window is modelled by `HotpGenerator.LoopAsWritten` and recorded under "## Findings".
- HotpGenerator.LoopAsWritten: runs at most `fuel` iterations and answers `None` when the loop has not ended by then. A loop that never ends is stated as `None` for every `fuel`. HotpGenerator.VerifyLoopAsWritten does the same.
- HotpGenerator.VerifyLoopAsWritten: requires every counter `counter + i`, for every `int` i, to fit in a `long`; `long` overflow of `counter + i` is not modelled.
- HotpGenerator.VerifyFailure: states only that the error comes from some counter of the window. The first-failing-counter characterisation, in both directions, is `HotpGenerator.VerifyWindowFailure`, stated for any code source; `Verify` is that loop run on `Attempts`.
- HotpGenerator.VerifyMatches: assumes no counter of the window fails. Failures are covered by `VerifyFailure` and `VerifyPropagatesNegativeCounter`.
- Rfc4226Vectors.GenerateAppendixD: HMAC-SHA-1 itself is not computed. The HMAC values of the appendix are a hypothesis about the platform.
- `verify` propagates the negative-counter failure of `generate` for windows that reach below counter 0, as the code does; it does not skip those counters.
- The getters `getPasswordLength` and `getAlgorithm` are fields of `Generator`. The private constructor copies the builder's settings; this is `HotpGenerator.Build`.
- Builders and generators are immutable values, and concurrency is not modelled. `withPasswordLength` and `withAlgorithm` update the Java builder in place and return it; the model returns the updated builder instead.
- The builder and the generator keep the caller's `secret` array without copying it (lines 322 and 57). A caller that changes the array afterwards changes the generator's secret. In the model the secret is an immutable value.
- ProvisioningUri.BuildUri: the package-private `getURI(type, issuer, account, query)` writes its four items into the caller's map (lines 203-206). The model returns a new map and leaves the argument unchanged. The public `getURI` overloads pass a map of their own, so for them nothing differs.
- Decimal.FormatZeroPadded: assumes the default locale writes ASCII digits. `String.format` takes the zero digit from the default locale, so under a locale with other native digits the code would not consist of `0`..`9`. HotpGenerator.ReducedCode and HotpGenerator.CodeFromHash inherit this assumption.

## Findings

| source | as written | input that shows it | evidently intended | confidence | as-written member | corrected member |
|---|---|---|---|---|---|---|
| src/main/java/com/bastiaanjansen/otp/HOTPGenerator.java:159 | the loop starts at `i = -delayWindow` in `int` arithmetic, and `-Integer.MIN_VALUE` is `Integer.MIN_VALUE` | `verify(generate(0), 2^31, Integer.MIN_VALUE)` tries counter `2^31 + Integer.MIN_VALUE = 0` once and returns true | a negative window accepts nothing, so the answer is false | not executed | HotpGenerator.VerifyAsWritten, HotpGenerator.MinWindowAcceptsDistantCode | HotpGenerator.Verify |
| src/main/java/com/bastiaanjansen/otp/HOTPGenerator.java:159 | `i++` on the `int` index wraps from `Integer.MAX_VALUE` to `Integer.MIN_VALUE`, which still satisfies `i <= delayWindow`, so with `delayWindow == Integer.MAX_VALUE` the loop does not end by its condition | `verify(code, Integer.MAX_VALUE, Integer.MAX_VALUE)` for a code of the configured length that no counter 0 to 2^32-2 generates calls `generate(-1)` and throws `IllegalArgumentException`; for a counter of 2^31 or more and a code of the configured length that no counter of the wrapped range generates, it never returns | the window `Integer.MAX_VALUE` tries the counters `counter - delayWindow` to `counter + delayWindow` once each and returns false | not executed | HotpGenerator.VerifyLoopAsWritten, HotpGenerator.MaxWindowWrapsToNegativeCounter, HotpGenerator.MaxWindowNeverEnds | HotpGenerator.Verify |
