/** The records the request-file parser produces (src/parser/types.ts). */
module ParserTypes {
  import opened Common
  import opened Headers

  /** One request of a `.http` file; `lineNumber` is the 1-based line of its request line. */
  datatype ParsedRequest = ParsedRequest(
    id: string,
    name: Option<string>,
    httpMethod: Method,
    url: string,
    headers: HeaderMap,
    body: Option<string>,
    lineNumber: nat)

  datatype ParseError = ParseError(message: string, lineNumber: nat)

  /** What `parse` returns: the requests found, even when some lines failed. */
  datatype ParseResult = ParseResult(success: bool, requests: seq<ParsedRequest>, errors: seq<ParseError>)
}
