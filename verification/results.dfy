/** Failure-carrying values that stand in for the exceptions the generator
    throws. */
module Results {

  datatype Option<+T> = None | Some(value: T)

  /** Why an `IllegalArgumentException` was raised. */
  datatype Reason =
    | EmptySecret               // the builder was given an empty secret
    | PasswordLengthOutOfRange  // a password length outside 6..8
    | NegativeCounter           // `generate` was asked for a counter below 0
    | MissingSecret             // a provisioning URI without a `secret` parameter
    | EmptyKey                  // the decoded secret is empty, so no HMAC key can be made from it

  datatype Error =
    | IllegalArgument(reason: Reason)
      /** The Base32 codec rejected the secret. */
    | InvalidEncoding
      /** The HMAC primitive reported a missing algorithm or an unusable key;
          `generate` rethrows both as one `IllegalStateException`. */
    | IllegalState
      /** `URISyntaxException` carrying the text of the offending URI. */
    | UriSyntax(input: string)

  datatype Result<+T> = Success(value: T) | Failure(error: Error) {

    predicate IsFailure() {
      Failure?
    }

    function PropagateFailure<U>(): Result<U>
      requires Failure?
    {
      Failure(error)
    }

    function Extract(): T
      requires Success?
    {
      value
    }
  }
}
