/**
 * The pre-send check of a parsed request (src/parser/requestValidator.ts):
 * header names must be distinct ignoring case, and GET and HEAD must not
 * carry a body.
 */
module RequestValidator {
  import opened Common
  import opened Strings
  import opened Headers
  import opened ParserTypes

  datatype ValidationError = ValidationError(message: string, suggestion: Option<string>)

  const DuplicateHeaders: ValidationError :=
    ValidationError("Duplicate header keys found (headers are case-insensitive)",
                    Some("Remove duplicate headers or combine their values"))

  /** The error for a GET or HEAD request that has a body. */
  function BodyNotAllowed(m: Method): ValidationError {
    ValidationError(MethodName(m) + " requests should not have a body", Some("Remove the request body"))
  }

  /** The header names in lower case, in insertion order. */
  function LowerKeys(h: HeaderMap): (r: seq<string>)
    ensures |r| == |h|
    ensures forall i | 0 <= i < |h| :: r[i] == ToLower(h[i].0)
  {
    seq(|h|, i requires 0 <= i < |h| => ToLower(h[i].0))
  }

  /** `new Set(keys)` */
  function Elements(keys: seq<string>): set<string> {
    set k | k in keys
  }

  /** Two positions of `keys` hold the same text. */
  predicate HasDuplicates(keys: seq<string>) {
    exists i, j | 0 <= i < j < |keys| :: keys[i] == keys[j]
  }

  /**
   * The set of a sequence is never larger than the sequence, and is smaller
   * exactly when some element repeats: the size comparison the source makes
   * is a duplicate test.
   */
  lemma {:induction false} SetSmallerIffDuplicates(keys: seq<string>)
    ensures |Elements(keys)| <= |keys|
    ensures |Elements(keys)| < |keys| <==> HasDuplicates(keys)
    decreases |keys|
  {
    if keys != [] {
      var init := keys[..|keys| - 1];
      var last := keys[|keys| - 1];
      SetSmallerIffDuplicates(init);
      assert Elements(keys) == Elements(init) + {last};
      if last in init {
        var i :| 0 <= i < |init| && init[i] == last;
        assert keys[i] == keys[|keys| - 1];
      } else {
        assert |Elements(keys)| == |Elements(init)| + 1;
        if HasDuplicates(keys) {
          var i, j :| 0 <= i < j < |keys| && keys[i] == keys[j];
          assert keys[j] == init[i];
          assert init[i] == init[j];
        }
      }
    }
  }

  /**
   * `validate`: the duplicate-header error when two header names are equal
   * ignoring case, otherwise the no-body error for a GET or HEAD request
   * with a non-empty body, otherwise none (`null`).
   */
  function Validate(request: ParsedRequest): (r: Option<ValidationError>)
    ensures HasDuplicates(LowerKeys(request.headers)) ==> r == Some(DuplicateHeaders)
    ensures !HasDuplicates(LowerKeys(request.headers)) ==>
      (r.Some? <==> HasNoBody(request.httpMethod) && request.body.Some? && request.body.value != "")
    ensures r.Some? && r.value != DuplicateHeaders ==> r == Some(BodyNotAllowed(request.httpMethod))
  {
    var keys := LowerKeys(request.headers);
    SetSmallerIffDuplicates(keys);
    if |keys| != |Elements(keys)| then Some(DuplicateHeaders)
    else if HasNoBody(request.httpMethod) && request.body.Some? && request.body.value != "" then
      Some(BodyNotAllowed(request.httpMethod))
    else None
  }

  /**
   * Since the names of a header map are already distinct, a duplicate found
   * by the validator is a pair of names that differ only in case.
   */
  lemma DuplicatesDifferOnlyInCase(h: HeaderMap)
    requires HasDuplicates(LowerKeys(h))
    ensures exists i, j | 0 <= i < j < |h| :: h[i].0 != h[j].0 && ToLower(h[i].0) == ToLower(h[j].0)
  {
    var i, j :| 0 <= i < j < |h| && LowerKeys(h)[i] == LowerKeys(h)[j];
    assert h[i].0 != h[j].0;
  }

  /** A request with two names equal ignoring case gets the duplicate error whatever its method and body. */
  lemma DuplicateCheckComesFirst(request: ParsedRequest, i: nat, j: nat)
    requires i < j < |request.headers|
    requires ToLower(request.headers[i].0) == ToLower(request.headers[j].0)
    ensures Validate(request) == Some(DuplicateHeaders)
  {
    assert LowerKeys(request.headers)[i] == LowerKeys(request.headers)[j];
  }
}
