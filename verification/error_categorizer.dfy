/**
 * The mapping from a transport error to the details shown to the user
 * (src/client/errorCategorizer.ts): a code, the original message, a user
 * message and whether a retry may help.
 */
module ErrorCategorizer {
  import opened Common

  /** The two kinds of error `categorize` receives: an Axios error with an optional code, or any other error. */
  datatype TransportError = Axios(code: Option<string>, message: string) | Generic(message: string)

  /** The codes for which a retry may help. */
  const RetryableCodes: set<string> :=
    {"ECONNABORTED", "ENOTFOUND", "EAI_AGAIN", "ECONNREFUSED", "ERR_HTTP_REQUEST_TIMEOUT"}

  /** The codes with a dedicated user message. */
  const KnownCodes: set<string> := RetryableCodes + {"EPROTO", "ERR_TLS_CERT_AUTH_FAILURE"}

  /** `error.code || 'UNKNOWN'`: a missing or empty code is `UNKNOWN`. */
  function CodeOf(code: Option<string>): (r: string)
    ensures r != ""
    ensures code.Some? && code.value != "" ==> r == code.value
  {
    if code.Some? && code.value != "" then code.value else "UNKNOWN"
  }

  /** The branches of the `switch` in `categorizeAxiosError`. */
  datatype Branch = TimedOut | Unresolved | Refused | Tls | ServerTimeout | Unlisted

  /** The branch the `switch` takes for a code. */
  function BranchOf(c: string): Branch {
    if c == "ECONNABORTED" then TimedOut
    else if c == "ENOTFOUND" || c == "EAI_AGAIN" then Unresolved
    else if c == "ECONNREFUSED" then Refused
    else if c == "EPROTO" || c == "ERR_TLS_CERT_AUTH_FAILURE" then Tls
    else if c == "ERR_HTTP_REQUEST_TIMEOUT" then ServerTimeout
    else Unlisted
  }

  /** The branches that mark the error retryable. */
  predicate RetryableBranch(b: Branch) {
    !b.Tls? && !b.Unlisted?
  }

  /** The user message of each branch; only the default one mentions the error's message. */
  function UserMessage(b: Branch, message: string): (r: string)
    ensures b.Unlisted? ==> r == "Error: " + message
  {
    if b.TimedOut? then "Request timed out. Try increasing the timeout value or check network."
    else if b.Unresolved? then "Could not resolve hostname. Check URL and network connection."
    else if b.Refused? then "Connection refused. Is the server running on that address?"
    else if b.Tls? then "SSL/TLS error. Check certificate or disable certificate validation."
    else if b.ServerTimeout? then "Request timeout. Server not responding."
    else "Error: " + message
  }

  /** `categorizeAxiosError` */
  function CategorizeAxios(code: Option<string>, message: string): (r: ErrorDetails)
    ensures r.code == CodeOf(code) && r.message == message
    ensures r.retryable <==> RetryableBranch(BranchOf(CodeOf(code)))
    ensures r.userMessage == UserMessage(BranchOf(CodeOf(code)), message)
  {
    var c := CodeOf(code);
    var branch := BranchOf(c);
    ErrorDetails(c, message, UserMessage(branch, message), RetryableBranch(branch))
  }

  /** The `switch` retries exactly the five transient codes. */
  lemma RetryableIffTransient(c: string)
    ensures RetryableBranch(BranchOf(c)) <==> c in RetryableCodes
  {
  }

  /** The `switch` falls through to its default exactly for codes it does not list. */
  lemma UnlistedIffUnknown(c: string)
    ensures BranchOf(c).Unlisted? <==> c !in KnownCodes
  {
  }

  /** An unlisted code (including `UNKNOWN`) is not retryable and its user message repeats the error's message. */
  lemma UnlistedCode(code: Option<string>, message: string)
    requires CodeOf(code) !in KnownCodes
    ensures !CategorizeAxios(code, message).retryable
    ensures CategorizeAxios(code, message).userMessage == "Error: " + message
  {
    UnlistedIffUnknown(CodeOf(code));
  }

  /** `categorize` */
  function Categorize(error: TransportError): (r: ErrorDetails)
    ensures r.message == error.message
    ensures error.Generic? ==> r == ErrorDetails("UNKNOWN_ERROR", error.message, "An unexpected error occurred", false)
    ensures error.Axios? ==> r.code == CodeOf(error.code)
  {
    if error.Axios? then CategorizeAxios(error.code, error.message)
    else ErrorDetails("UNKNOWN_ERROR", error.message, "An unexpected error occurred", false)
  }

  /** A missing or empty code is not one of the transient codes. */
  lemma TransientCodeIsGiven(code: Option<string>)
    ensures CodeOf(code) in RetryableCodes <==> code.Some? && code.value in RetryableCodes
  {
    assert "UNKNOWN" !in RetryableCodes;
  }

  /** An error is retryable exactly when it came from Axios with one of the five transient codes. */
  lemma RetryableIffTransientAxios(error: TransportError)
    ensures Categorize(error).retryable <==> error.Axios? && error.code.Some? && error.code.value in RetryableCodes
  {
    if error.Axios? {
      RetryableIffTransient(CodeOf(error.code));
      TransientCodeIsGiven(error.code);
    }
  }

  /** The user message of a known code does not depend on the error's message. */
  lemma KnownCodesHaveFixedMessages(code: string, m1: string, m2: string)
    requires code in KnownCodes
    ensures CategorizeAxios(Some(code), m1).userMessage == CategorizeAxios(Some(code), m2).userMessage
  {
  }
}
