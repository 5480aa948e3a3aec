/** The library code the generator calls and this model does not define:
    the Base32 codec, the HMAC primitive, and the two charset conversions of
    the secret. Each is a function value of a `Platform`; the predicates
    below state the only facts the model relies on. */
module Collaborators {
  import opened Numeric
  import opened Results
  import opened HmacAlgorithms

  /** What `Mac.getInstance(…).init(key).doFinal(message)` yields: a MAC, or
      one of the two checked exceptions `generate` catches. */
  datatype HmacOutcome = Digest(bytes: seq<byte>) | NoSuchAlgorithm | InvalidKey

  datatype Platform = Platform(
    /** Base32 decoding of the secret; `None` where the codec rejects it. */
    base32Decode: seq<byte> -> Option<seq<byte>>,
    /** HMAC of a message under a key with the given hash algorithm. */
    hmac: (Algorithm, seq<byte>, seq<byte>) -> HmacOutcome,
    /** `new String(bytes, UTF_8)`. */
    decodeUtf8: seq<byte> -> string,
    /** `String.getBytes()` in the platform's default charset. */
    encodeDefault: string -> seq<byte>)

  /** A successful MAC is as long as the algorithm's digest. */
  ghost predicate DigestSizes(p: Platform) {
    forall a, key, message ::
      p.hmac(a, key, message).Digest? ==> |p.hmac(a, key, message).bytes| == DigestLength(a)
  }

  predicate IsAsciiBytes(bs: seq<byte>) {
    forall i :: 0 <= i < |bs| ==> bs[i] < 128
  }

  predicate IsAsciiText(t: string) {
    forall i :: 0 <= i < |t| ==> t[i] < 128 as char
  }

  function AsciiText(bs: seq<byte>): (t: string)
    requires IsAsciiBytes(bs)
    ensures |t| == |bs| && IsAsciiText(t)
  {
    seq(|bs|, i requires 0 <= i < |bs| => bs[i] as char)
  }

  function AsciiBytes(t: string): (bs: seq<byte>)
    requires IsAsciiText(t)
    ensures |bs| == |t| && IsAsciiBytes(bs)
  {
    seq(|t|, i requires 0 <= i < |t| => t[i] as int)
  }

  lemma AsciiRoundTrip(bs: seq<byte>)
    requires IsAsciiBytes(bs)
    ensures AsciiBytes(AsciiText(bs)) == bs
  {
  }

  /** Both charset conversions are the identity on ASCII. This holds for
      UTF-8 and for every ASCII-compatible default charset, not for UTF-16
      or EBCDIC, so it is an assumption about the platform. */
  ghost predicate AsciiTransparent(p: Platform) {
    && (forall bs :: IsAsciiBytes(bs) ==> p.decodeUtf8(bs) == AsciiText(bs))
    && (forall t :: IsAsciiText(t) ==> p.encodeDefault(t) == AsciiBytes(t))
  }
}
