/** The records of src/types/requestChain.ts and the part of an HTTP response that is saved. */
module RequestChain {
  import opened Common
  import opened Headers
  import Json

  /** A named response kept for later requests; `body` is the parsed JSON, or the text when it does not parse. */
  datatype SavedResponse = SavedResponse(name: string, status: nat, headers: HeaderMap, body: Json.Value)

  /** The fields of a received response that saving reads; `body` is the UTF-8 decoded body. */
  datatype HttpResponse = HttpResponse(statusCode: nat, headers: HeaderMap, body: string)
}
