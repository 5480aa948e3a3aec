/** Provisioning URIs of a counter-based generator: the label and query
    items `getURI` hands to the URI helper, and the generator `fromURI`
    rebuilds from the query items the helper reads back. The URI text, its
    percent-encoding and its parsing belong to the helper and are not part
    of this model. */
module ProvisioningUri {
  import opened Numeric
  import opened Results
  import opened Decimal
  import opened HmacAlgorithms
  import opened Collaborators
  import opened HotpGenerator

  const Scheme: string := "otpauth"
  const HotpType: string := "hotp"

  /** Names of the query items. */
  const SecretKey: string := "secret"
  const DigitsKey: string := "digits"
  const AlgorithmKey: string := "algorithm"
  const IssuerKey: string := "issuer"
  const CounterKey: string := "counter"

  /** What `URIHelper.createURI` is given: the scheme, the OTP type (the
      URI's host), the label (its path) and the query items. */
  datatype Uri = Uri(scheme: string, otpType: string, path: string, query: map<string, string>)

  // ---------------------------------------------------------------------
  // Label

  /** The label of the URI: the issuer alone when the account is empty,
      otherwise `issuer:account`. */
  function Label(issuer: string, account: string): (path: string)
    ensures account == [] ==> path == issuer
    ensures account != [] ==> |path| == |issuer| + 1 + |account|
    ensures account != [] ==>
      && path[..|issuer|] == issuer
      && path[|issuer|] == ':'
      && path[|issuer| + 1..] == account
  {
    if account == [] then issuer else issuer + ":" + account
  }

  /** Index of the first `:` in `s`, or `|s|` when there is none. */
  function FirstColon(s: string): (i: nat)
    ensures i <= |s|
    ensures i < |s| ==> s[i] == ':'
    ensures forall j :: 0 <= j < i ==> s[j] != ':'
  {
    if |s| == 0 || s[0] == ':' then 0 else 1 + FirstColon(s[1..])
  }

  /** Reading a label back: what precedes the first `:` is the issuer, what
      follows it the account. */
  function SplitLabel(path: string): (parts: (string, string))
    ensures ':' !in parts.0
    ensures ':' !in path ==> parts == (path, "")
  {
    var i := FirstColon(path);
    if i == |path| then
      assert path[..i] == path;
      (path, "")
    else (path[..i], path[i + 1..])
  }

  /** An issuer without `:` and the account are recovered from the label. */
  lemma {:induction false} SplitLabelOfLabel(issuer: string, account: string)
    requires ':' !in issuer
    ensures SplitLabel(Label(issuer, account)) == (issuer, account)
  {
    if account != [] {
      var path := Label(issuer, account);
      assert path[|issuer|] == ':';
      assert forall j :: 0 <= j < |issuer| ==> path[j] == issuer[j] && path[j] != ':';
      assert path[..|issuer|] == issuer;
      assert path[|issuer| + 1..] == account;
    }
  }

  // ---------------------------------------------------------------------
  // getURI

  /** The package-private `getURI(type, issuer, account, query)`: it puts
      the digits, the algorithm's name, the secret read as UTF-8 text and
      the issuer into the caller's query items, overwriting any item of the
      same name and keeping every other item. */
  function BuildUri(g: Generator, p: Platform, otpType: string, issuer: string, account: string, query: map<string, string>): (uri: Uri)
    ensures uri.scheme == Scheme && uri.otpType == otpType && uri.path == Label(issuer, account)
    ensures uri.query.Keys == query.Keys + {DigitsKey, AlgorithmKey, SecretKey, IssuerKey}
    ensures uri.query[DigitsKey] == JavaIntToString(g.passwordLength)
    ensures uri.query[AlgorithmKey] == Name(g.algorithm)
    ensures uri.query[SecretKey] == p.decodeUtf8(g.secret)
    ensures uri.query[IssuerKey] == issuer
    ensures forall k :: k in query && k !in {DigitsKey, AlgorithmKey, SecretKey, IssuerKey} ==> uri.query[k] == query[k]
  {
    var items := query[DigitsKey := JavaIntToString(g.passwordLength)]
                      [AlgorithmKey := Name(g.algorithm)]
                      [SecretKey := p.decodeUtf8(g.secret)]
                      [IssuerKey := issuer];
    Uri(Scheme, otpType, Label(issuer, account), items)
  }

  /** `getURI(counter, issuer, account)`: a `hotp` URI whose query items
      start with the counter. */
  function GetUri(g: Generator, p: Platform, counter: int, issuer: string, account: string): (uri: Uri)
    requires IsInt32(counter)
    ensures uri.scheme == Scheme && uri.otpType == HotpType
    ensures uri.path == Label(issuer, account)
    ensures uri.query.Keys == {CounterKey, DigitsKey, AlgorithmKey, SecretKey, IssuerKey}
    ensures ParseJavaInt(uri.query[CounterKey]) == Some(counter)
  {
    ParseJavaIntOfToString(counter);
    BuildUri(g, p, HotpType, issuer, account, map[CounterKey := JavaIntToString(counter)])
  }

  /** `getURI(counter, issuer)`: the account is empty, so the label is the
      issuer. */
  function GetUriForIssuer(g: Generator, p: Platform, counter: int, issuer: string): (uri: Uri)
    requires IsInt32(counter)
    ensures uri.path == issuer
    ensures IssuerKey in uri.query && uri.query[IssuerKey] == issuer
    ensures ':' !in issuer ==> SplitLabel(uri.path) == (issuer, "")
  {
    GetUri(g, p, counter, issuer, "")
  }

  // ---------------------------------------------------------------------
  // fromURI

  /** The digits item, if present, is an `int` in 6..8. */
  predicate DigitsAccepted(query: map<string, string>) {
    DigitsKey in query ==>
      && ParseJavaInt(query[DigitsKey]).Some?
      && PasswordLengthIsValid(ParseJavaInt(query[DigitsKey]).value)
  }

  /** The algorithm item, if present, names a constant once upper-cased. */
  predicate AlgorithmAccepted(query: map<string, string>) {
    AlgorithmKey in query ==> ValueOf(ToUpperCase(query[AlgorithmKey])).Some?
  }

  /** The `try` block of `fromURI`: the digits item, when present, is parsed
      and handed to `withPasswordLength`; then the algorithm item, when
      present, is upper-cased and looked up. `None` stands for the
      exception any of these steps throws. */
  function ApplyOptions(b: Builder, query: map<string, string>): (r: Option<Builder>)
    ensures r.Some? <==> DigitsAccepted(query) && AlgorithmAccepted(query)
    ensures r.Some? ==> r.value.secret == b.secret
    ensures r.Some? && DigitsKey in query ==> r.value.passwordLength == ParseJavaInt(query[DigitsKey]).value
    ensures r.Some? && DigitsKey !in query ==> r.value.passwordLength == b.passwordLength
    ensures r.Some? && AlgorithmKey in query ==>
      r.value.algorithm == ValueOf(ToUpperCase(query[AlgorithmKey])).value
    ensures r.Some? && AlgorithmKey !in query ==> r.value.algorithm == b.algorithm
  {
    var withDigits: Option<Builder> :=
      if DigitsKey !in query then Some(b)
      else match ParseJavaInt(query[DigitsKey])
        case None => None
        case Some(n) =>
          match WithPasswordLength(b, n)
          case Failure(_) => None
          case Success(updated) => Some(updated);
    if withDigits.None? then None
    else if AlgorithmKey !in query then Some(withDigits.value)
    else match ValueOf(ToUpperCase(query[AlgorithmKey]))
      case None => None
      case Some(a) => Some(WithAlgorithm(withDigits.value, a))
  }

  /** `fromURI(uri)` on the query items of `uri`, whose text is `uriText`.
      A missing secret and an empty one are reported as they are thrown,
      outside the `try`; every failure inside it becomes one malformed-URI
      error carrying the URI's text. */
  function FromUri(uriText: string, query: map<string, string>, p: Platform): (r: Result<Generator>)
    ensures SecretKey !in query ==> r == Failure(IllegalArgument(MissingSecret))
    ensures SecretKey in query && p.encodeDefault(query[SecretKey]) == [] ==>
      r == Failure(IllegalArgument(EmptySecret))
    ensures SecretKey in query && p.encodeDefault(query[SecretKey]) != [] ==>
      (r.Success? <==> DigitsAccepted(query) && AlgorithmAccepted(query))
    ensures r.Failure? ==> r.error in {IllegalArgument(MissingSecret), IllegalArgument(EmptySecret), UriSyntax(uriText)}
    ensures SecretKey in query && p.encodeDefault(query[SecretKey]) != [] && r.Failure? ==>
      r.error == UriSyntax(uriText)
    ensures r.Success? ==> r.value.secret == p.encodeDefault(query[SecretKey])
    ensures r.Success? && DigitsKey in query ==> ParseJavaInt(query[DigitsKey]) == Some(r.value.passwordLength)
    ensures r.Success? && DigitsKey !in query ==> r.value.passwordLength == DefaultPasswordLength
    ensures r.Success? && AlgorithmKey in query ==> ValueOf(ToUpperCase(query[AlgorithmKey])) == Some(r.value.algorithm)
    ensures r.Success? && AlgorithmKey !in query ==> r.value.algorithm == DefaultAlgorithm
  {
    if SecretKey !in query then Failure(IllegalArgument(MissingSecret))
    else
      var builder :- NewBuilder(p.encodeDefault(query[SecretKey]));
      match ApplyOptions(builder, query)
      case None => Failure(UriSyntax(uriText))
      case Some(configured) => Success(Build(configured))
  }

  /** Absent items keep the builder's defaults. */
  lemma FromUriDefaults(uriText: string, query: map<string, string>, p: Platform)
    requires SecretKey in query && DigitsKey !in query && AlgorithmKey !in query
    requires p.encodeDefault(query[SecretKey]) != []
    ensures FromUri(uriText, query, p).Success?
    ensures FromUri(uriText, query, p).value.passwordLength == DefaultPasswordLength
    ensures FromUri(uriText, query, p).value.algorithm == DefaultAlgorithm
  {
  }

  /** Digits outside 6..8, digits that are not a number, and an algorithm
      name that matches no constant after upper-casing are all reported as
      the same malformed-URI error. */
  lemma FromUriRejectsBadItems(uriText: string, query: map<string, string>, p: Platform)
    requires SecretKey in query && p.encodeDefault(query[SecretKey]) != []
    requires !DigitsAccepted(query) || !AlgorithmAccepted(query)
    ensures FromUri(uriText, query, p) == Failure(UriSyntax(uriText))
  {
  }

  /** The upper-cased name of a constant looks it up. */
  lemma ValueOfName(a: Algorithm)
    ensures ValueOf(ToUpperCase(Name(a))) == Some(a)
  {
    var name := Name(a);
    assert ToUpperCase(name) == name by {
      forall i | 0 <= i < |name|
        ensures ToUpperCase(name)[i] == name[i]
      {
        assert IsUpperOrDigit(name[i]);
      }
    }
  }

  /** Reading back the query items of `getURI` rebuilds the generator, when
      the secret is ASCII text and the charset conversions leave ASCII
      alone. */
  lemma FromUriOfGetUri(g: Generator, p: Platform, counter: int, issuer: string, account: string, uriText: string)
    requires IsInt32(counter)
    requires AsciiTransparent(p) && IsAsciiBytes(g.secret)
    ensures FromUri(uriText, GetUri(g, p, counter, issuer, account).query, p) == Success(g)
  {
    var query := GetUri(g, p, counter, issuer, account).query;
    AsciiRoundTrip(g.secret);
    assert p.encodeDefault(query[SecretKey]) == g.secret;
    ParseJavaIntOfToString(g.passwordLength);
    ValueOfName(g.algorithm);
  }
}
