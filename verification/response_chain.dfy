/**
 * The table of named responses kept for request chaining
 * (src/storage/responseChainManager.ts): saving a response under a name
 * replaces any earlier one, and entries can be looked up, listed and cleared.
 */
module ResponseChain {
  import opened Common
  import opened Headers
  import opened Json
  import opened RequestChain

  /**
   * The entry `saveResponse` builds: the name, the status code, a copy of
   * the headers, and the body as its JSON value when the text parses,
   * otherwise the text itself.
   */
  function SavedFrom(name: string, response: HttpResponse, parseJson: string -> Option<Value>): (r: SavedResponse)
    ensures r.name == name && r.status == response.statusCode && r.headers == response.headers
    ensures parseJson(response.body).Some? ==> r.body == parseJson(response.body).value
    ensures parseJson(response.body).None? ==> r.body == Str(response.body)
  {
    var parsed := parseJson(response.body);
    SavedResponse(name, response.statusCode, response.headers, if parsed.Some? then parsed.value else Str(response.body))
  }

  class ResponseTable {
    /** `context.responses`: the saved responses by name. */
    var responses: map<string, SavedResponse>

    /** Every entry is filed under its own name. */
    ghost predicate Valid()
      reads this
    {
      forall n | n in responses :: responses[n].name == n
    }

    /** A fresh table holds nothing (loading from storage is not modelled). */
    constructor ()
      ensures Valid() && responses == map[]
    {
      responses := map[];
    }

    /** `saveResponse`: files the response under `name`, replacing any earlier entry. */
    method SaveResponse(name: string, response: HttpResponse, parseJson: string -> Option<Value>)
      requires Valid()
      modifies this
      ensures Valid()
      ensures responses == old(responses)[name := SavedFrom(name, response, parseJson)]
      ensures GetResponse(name) == Some(SavedFrom(name, response, parseJson))
      ensures forall n | n != name :: GetResponse(n) == old(GetResponse(n))
    {
      var saved := SavedFrom(name, response, parseJson);
      responses := responses[name := saved];
    }

    /** `getResponse`: the entry saved under `name`, if any. */
    function GetResponse(name: string): (r: Option<SavedResponse>)
      reads this
      ensures r.Some? <==> name in responses
      ensures r.Some? ==> r.value == responses[name]
      ensures Valid() && r.Some? ==> r.value.name == name
    {
      if name in responses then Some(responses[name]) else None
    }

    /** `getAllResponses` and `getContext`: the whole table, as a value. */
    function AllResponses(): (r: map<string, SavedResponse>)
      reads this
      ensures forall n :: GetResponse(n) == (if n in r then Some(r[n]) else None)
    {
      responses
    }

    /** `clearAll`: the table is left empty. */
    method ClearAll()
      modifies this
      ensures Valid() && responses == map[]
      ensures forall n :: GetResponse(n).None?
    {
      responses := map[];
    }

    /** `clear`: removes the entry under `name` and reports whether there was one. */
    method Clear(name: string) returns (deleted: bool)
      requires Valid()
      modifies this
      ensures Valid()
      ensures deleted <==> name in old(responses)
      ensures responses == old(responses) - {name}
      ensures GetResponse(name).None?
      ensures forall n | n != name :: GetResponse(n) == old(GetResponse(n))
    {
      deleted := name in responses;
      responses := responses - {name};
    }
  }
}
