/** The closed set of HMAC hash algorithms and the name lookup that
    provisioning URIs go through. */
module HmacAlgorithms {
  import opened Results

  datatype Algorithm = SHA1 | SHA256 | SHA512

  /** The enum constant's name, as `Enum.name()` returns it: upper-case
      letters and digits, so upper-casing leaves it as it is. */
  function Name(a: Algorithm): (name: string)
    ensures 4 <= |name|
    ensures forall i :: 0 <= i < |name| ==> IsUpperOrDigit(name[i])
  {
    match a
    case SHA1 => "SHA1"
    case SHA256 => "SHA256"
    case SHA512 => "SHA512"
  }

  /** `HMACAlgorithm.valueOf(name)`: an exact, case-sensitive match against
      the constant names; `None` where Java throws
      `IllegalArgumentException`. */
  function ValueOf(name: string): (r: Option<Algorithm>)
    ensures r.Some? ==> Name(r.value) == name
    ensures r.None? <==> forall a: Algorithm :: Name(a) != name
  {
    if name == "SHA1" then Some(SHA1)
    else if name == "SHA256" then Some(SHA256)
    else if name == "SHA512" then Some(SHA512)
    else None
  }

  /** Size in bytes of the HMAC output over each hash function: the digest
      sizes of SHA-1, SHA-256 and SHA-512. */
  function DigestLength(a: Algorithm): nat {
    match a
    case SHA1 => 20
    case SHA256 => 32
    case SHA512 => 64
  }

  /** Upper case of one character as `String.toUpperCase` maps it, for the
      characters whose upper case is an ASCII letter: `a`..`z`, the long s
      (U+017F, upper case `S`) and the dotless i (U+0131, upper case `I`).
      Every other character is kept. Java changes some of them, and some
      into several characters (`ß` into `SS`, the ligature `ﬁ` into `FI`),
      which this model does not follow; none of those changes can produce
      `SHA1`, `SHA256` or `SHA512`, so no algorithm lookup can tell the
      difference. */
  function UpperChar(c: char): char {
    if 'a' <= c <= 'z' then (c as int - 32) as char
    else if c == '\U{017F}' then 'S'
    else if c == '\U{0131}' then 'I'
    else c
  }

  /** `String.toUpperCase()` as far as the algorithm lookup can see: an
      upper-case letter or digit appears exactly where the text had one of
      its case variants. */
  function ToUpperCase(s: string): (u: string)
    ensures |u| == |s|
    ensures forall i :: 0 <= i < |s| ==> u[i] == UpperChar(s[i])
    ensures forall i, d :: 0 <= i < |s| && IsUpperOrDigit(d) ==> (u[i] == d <==> s[i] in CaseVariants(d))
  {
    seq(|s|, i requires 0 <= i < |s| => UpperChar(s[i]))
  }

  /** The characters whose upper case is `c`, for an upper-case ASCII
      letter or a digit `c`. */
  function CaseVariants(c: char): set<char> {
    if 'A' <= c <= 'Z' then
      {c, (c as int + 32) as char}
      + (if c == 'S' then {'\U{017F}'} else {})
      + (if c == 'I' then {'\U{0131}'} else {})
    else {c}
  }

  predicate IsUpperOrDigit(c: char) {
    'A' <= c <= 'Z' || '0' <= c <= '9'
  }

  lemma UpperCharVariants(c: char, d: char)
    requires IsUpperOrDigit(d)
    ensures UpperChar(c) == d <==> c in CaseVariants(d)
  {
  }

  /** Upper-casing before the lookup makes it case-insensitive: a name is
      accepted exactly when, position by position, each character is an
      upper- or lower-case form of the constant's. */
  lemma {:induction false} LookupIgnoresCase(s: string, a: Algorithm)
    ensures ValueOf(ToUpperCase(s)) == Some(a) <==>
      |s| == |Name(a)| && forall i :: 0 <= i < |s| ==> s[i] in CaseVariants(Name(a)[i])
  {
    var name := Name(a);
    assert forall i :: 0 <= i < |name| ==> IsUpperOrDigit(name[i]);
    if |s| == |name| {
      forall i | 0 <= i < |s|
        ensures ToUpperCase(s)[i] == name[i] <==> s[i] in CaseVariants(name[i])
      {
        UpperCharVariants(s[i], name[i]);
      }
      if ValueOf(ToUpperCase(s)) == Some(a) {
        assert ToUpperCase(s) == name;
      } else {
        assert ToUpperCase(s) != name;
        var i :| 0 <= i < |s| && ToUpperCase(s)[i] != name[i];
      }
    }
  }
}
