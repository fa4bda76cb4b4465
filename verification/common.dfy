/**
 * Shared value types: the failure-compatible wrappers used for the source's
 * `undefined`/`null` results and thrown errors, and the HTTP method and
 * error-details record of src/types/common.ts.
 */
module Common {

  /** `T | undefined` (or `T | null`) in the source. */
  datatype Option<+T> = None | Some(value: T)

  /** A value, or the message of the error the source throws or reports. */
  datatype Result<+T, +E> = Ok(value: T) | Err(error: E)

  /** The seven request methods the parser accepts. */
  datatype Method = Get | Post | Put | Patch | Delete | Head | Options

  /** The method as written in a request line (upper case). */
  function MethodName(m: Method): (r: string)
    ensures |r| >= 3
  {
    match m
    case Get => "GET"
    case Post => "POST"
    case Put => "PUT"
    case Patch => "PATCH"
    case Delete => "DELETE"
    case Head => "HEAD"
    case Options => "OPTIONS"
  }

  /** Membership test against the method set; `s` must already be upper case. */
  function ParseMethod(s: string): (r: Option<Method>)
    ensures r.Some? ==> MethodName(r.value) == s
    ensures forall m :: MethodName(m) == s ==> r == Some(m)
  {
    if s == "GET" then Some(Get)
    else if s == "POST" then Some(Post)
    else if s == "PUT" then Some(Put)
    else if s == "PATCH" then Some(Patch)
    else if s == "DELETE" then Some(Delete)
    else if s == "HEAD" then Some(Head)
    else if s == "OPTIONS" then Some(Options)
    else None
  }

  /** The methods that never carry a request body (METHODS_WITHOUT_BODY). */
  predicate HasNoBody(m: Method) {
    m == Get || m == Head
  }

  /** The categorised form of a transport error. */
  datatype ErrorDetails = ErrorDetails(code: string, message: string, userMessage: string, retryable: bool)
}
