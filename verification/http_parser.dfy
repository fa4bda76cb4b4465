/**
 * The `.http` request-file parser (src/parser/httpParser.ts): a line-by-line
 * state machine that collects requests separated by `###`/`---` lines,
 * reporting malformed request and header lines without stopping.
 *
 * The parser's state is specified by a fold over the lines read so far
 * (`ScanLines`); the method `Parse` runs the source's loop and is proved to
 * compute that fold.
 */
module HttpParser {
  import opened Common
  import opened Strings
  import opened Headers
  import opened ParserTypes

  /** A request whose request line has been read (`Partial<ParsedRequest>`). */
  datatype Pending = Pending(name: Option<string>, httpMethod: Method, url: string, headers: HeaderMap, lineNumber: nat)

  /**
   * Where the parser is: between requests, in a request's header block, or
   * in its body. A pending request exists exactly when the parser is not
   * reading a request line.
   */
  datatype Cursor = Idle | InHeaders(req: Pending) | InBody(req: Pending)

  /** The loop state: cursor, the body lines of the pending request, and what has been collected. */
  datatype Scan = Scan(cursor: Cursor, bodyLines: seq<string>, requests: seq<ParsedRequest>, errors: seq<ParseError>)

  /** A line of three or more `#` or three or more `-`, optionally surrounded by whitespace. */
  predicate IsSeparator(line: string) {
    var t := Trim(line);
    |t| >= 3 && (AllChar(t, '#') || AllChar(t, '-'))
  }

  /** Every character of `t` is `c`. */
  predicate AllChar(t: string, c: char) {
    t == [] || (t[0] == c && AllChar(t[1..], c))
  }

  lemma {:induction false} AllCharAt(t: string, c: char, i: nat)
    requires AllChar(t, c) && i < |t|
    ensures t[i] == c
  {
    if i > 0 {
      AllCharAt(t[1..], c, i - 1);
    }
  }

  /** A trimmed line starting with `#` or `//`. */
  predicate IsCommentLine(trimmed: string) {
    StartsWith(trimmed, "#") || StartsWith(trimmed, "//")
  }

  /** A placeholder, a relative path, or whatever the `URL` constructor accepts (`urlParses`). */
  predicate IsValidUrl(url: string, urlParses: string -> bool) {
    Contains(url, "{{") || StartsWith(url, "/") || urlParses(url)
  }

  /** The trimmed request line, cut before its first ` #` (an inline comment). */
  function CleanRequestLine(line: string): string {
    var trimmed := Trim(line);
    match IndexOf(trimmed, " #")
    case None => trimmed
    case Some(k) => Trim(trimmed[..k])
  }

  /**
   * Reads `METHOD URL`; the method is upper-cased before it is checked, and
   * words after the URL are ignored. The line is rejected when it has fewer
   * than two words, an unknown method or an invalid URL.
   */
  function ParseRequestLine(line: string, lineNumber: nat, urlParses: string -> bool): (r: Result<Pending, ParseError>)
    ensures var words := Words(CleanRequestLine(line));
      r.Ok? <==> |words| >= 2 && ParseMethod(ToUpper(words[0])).Some? && IsValidUrl(words[1], urlParses)
    ensures var words := Words(CleanRequestLine(line));
      r.Ok? ==> |words| >= 2 && ParseMethod(ToUpper(words[0])) == Some(r.value.httpMethod) && r.value.url == words[1]
    ensures r.Ok? ==> r.value.lineNumber == lineNumber && r.value.headers == [] && r.value.name.None?
    ensures r.Ok? ==> IsValidUrl(r.value.url, urlParses)
    ensures r.Err? ==> r.error.lineNumber == lineNumber
  {
    var clean := CleanRequestLine(line);
    var parts := Words(clean);
    if |parts| < 2 then
      Err(ParseError("Invalid request line: expected \"METHOD URL\", got \"" + clean + "\"", lineNumber))
    else
      var verb := ToUpper(parts[0]);
      var url := parts[1];
      match ParseMethod(verb)
      case None =>
        Err(ParseError("Invalid HTTP method: \"" + verb + "\". Must be one of: GET, POST, PUT, PATCH, DELETE, HEAD, OPTIONS", lineNumber))
      case Some(m) =>
        if !IsValidUrl(url, urlParses) then
          Err(ParseError("Invalid URL format: \"" + url + "\". Must start with http://, https://, or /", lineNumber))
        else
          Ok(Pending(None, m, url, [], lineNumber))
  }

  /** Splits a header line at its first colon; key and value are trimmed and the key must not be empty. */
  function ParseHeader(line: string, lineNumber: nat): (r: Result<(string, string), ParseError>)
    ensures r.Ok? <==> IndexOf(line, ":").Some? && Trim(line[..IndexOf(line, ":").value]) != []
    ensures r.Ok? ==> var c := IndexOf(line, ":").value;
      r.value == (Trim(line[..c]), Trim(line[c + 1..])) && forall i | 0 <= i < c :: line[i] != ':'
    ensures r.Ok? ==> Contains(line, ":") && r.value.0 != []
    ensures r.Ok? ==> forall i | 0 <= i < |r.value.0| :: r.value.0[i] != ':'
    ensures !Contains(line, ":") ==> r.Err?
    ensures r.Err? ==> r.error.lineNumber == lineNumber
  {
    match IndexOf(line, ":")
    case None =>
      Err(ParseError("Invalid header format at line " + NatToString(lineNumber) + ": missing colon. Expected \"Key: Value\"", lineNumber))
    case Some(c) =>
      var key := Trim(line[..c]);
      var value := Trim(line[c + 1..]);
      if key == [] then
        Err(ParseError("Invalid header at line " + NatToString(lineNumber) + ": empty header name", lineNumber))
      else
        assert forall i | 0 <= i < c :: line[i] != ':' by {
          IndexOfFirst(line, ":");
          forall i | 0 <= i < c
            ensures line[i] != ':'
          {
            assert !OccursAt(line, ":", i);
            assert line[i..i + 1] == [line[i]];
          }
        }
        assert forall i | 0 <= i < |key| :: key[i] != ':' by {
          var a := TrimOffset(line[..c]);
          assert key == line[..c][a..TrimLimit(line[..c])];
          forall i | 0 <= i < |key|
            ensures key[i] != ':'
          {
            assert key[i] == line[a + i];
          }
        }
        Ok((key, value))
  }

  /** The identifier of the leftmost `@name` followed by whitespace and a word, if it starts at `p`. */
  function NameAt(t: string, p: nat): Option<string>
    requires p <= |t|
  {
    if !OccursAt(t, "@name", p) then None
    else
      var q := SkipSpaces(t, p + 5);
      var e := SkipWord(t, q);
      if q == p + 5 || e == q then None else Some(t[q..e])
  }

  function NameFrom(t: string, p: nat): Option<string>
    requires p <= |t|
    decreases |t| - p
  {
    if p == |t| then None
    else
      match NameAt(t, p)
      case Some(n) => Some(n)
      case None => NameFrom(t, p + 1)
  }

  /** The first match of `@name\s+([a-zA-Z0-9_]+)` in a line, as its captured name. */
  function NameAnnotation(t: string): Option<string> {
    NameFrom(t, 0)
  }

  /**
   * What one trimmed line says while searching upwards for a name: stop
   * (`Some`) with the name found or none, or keep looking (`None`).
   */
  function NameVerdict(line: string): Option<Option<string>>
  {
    if line == [] || IsSeparator(line) then Some(None)
    else if IsCommentLine(line) && NameAnnotation(line).Some? then Some(NameAnnotation(line))
    else None
  }

  /** What one line says while searching upwards: the verdict on its trimmed text. */
  function LineVerdict(line: string): Option<Option<string>> {
    NameVerdict(Trim(line))
  }

  /**
   * Searching upwards from the line above index `i`: the first line whose
   * verdict stops the search decides the result.
   */
  function SearchUp(lines: seq<string>, i: nat, verdict: string -> Option<Option<string>>): Option<string>
    requires i <= |lines|
    decreases i
  {
    if i == 0 then None
    else
      match verdict(lines[i - 1])
      case Some(found) => found
      case None => SearchUp(lines, i - 1, verdict)
  }

  /**
   * The `@name` of a request whose request line has index `i`, read from the
   * comment lines directly above it: the nearest annotated comment, searching
   * upwards until a blank or separator line.
   */
  function NameAbove(lines: seq<string>, i: nat): (r: Option<string>)
    requires i <= |lines|
    ensures r.Some? ==> exists k | 0 <= k < i :: AnnotatedAt(lines, k, r.value)
  {
    SearchUpFound(lines, i);
    SearchUp(lines, i, LineVerdict)
  }

  /** Line `k` is a comment line whose `@name` annotation gives `name`. */
  predicate AnnotatedAt(lines: seq<string>, k: nat, name: string)
    requires k < |lines|
  {
    var t := Trim(lines[k]);
    IsCommentLine(t) && NameAnnotation(t) == Some(name)
  }

  /** A name the upward search returns comes from an annotated comment line above its start. */
  lemma {:induction false} SearchUpFound(lines: seq<string>, i: nat)
    requires i <= |lines|
    ensures var r := SearchUp(lines, i, LineVerdict);
      r.Some? ==> exists k | 0 <= k < i :: AnnotatedAt(lines, k, r.value)
    decreases i
  {
    if i > 0 {
      var v := LineVerdict(lines[i - 1]);
      if v.Some? {
        if v.value.Some? {
          assert AnnotatedAt(lines, i - 1, v.value.value);
        }
      } else {
        SearchUpFound(lines, i - 1);
      }
    }
  }

  /** `extractRequestName`: walks upwards from the line above index `current`. */
  method ExtractRequestName(lines: seq<string>, current: nat) returns (name: Option<string>)
    requires current <= |lines|
    ensures name == NameAbove(lines, current)
  {
    var i := current;
    while i > 0
      invariant 0 <= i <= current
      invariant NameAbove(lines, i) == NameAbove(lines, current)
      decreases i
    {
      var line := Trim(lines[i - 1]);
      if line == [] || IsSeparator(line) {
        return None;
      }
      if IsCommentLine(line) {
        var found := NameAnnotation(line);
        if found.Some? {
          return found;
        }
      }
      i := i - 1;
    }
    return None;
  }

  /** The body lines without their trailing blank lines. */
  function TrimTrailingBlank(lines: seq<string>): (r: seq<string>)
    ensures |r| <= |lines| && r == lines[..|r|]
    ensures r != [] ==> Trim(r[|r| - 1]) != []
    ensures forall i | |r| <= i < |lines| :: Trim(lines[i]) == []
    decreases |lines|
  {
    if lines != [] && Trim(lines[|lines| - 1]) == [] then
      var init := lines[..|lines| - 1];
      var r := TrimTrailingBlank(init);
      assert forall i | |r| <= i < |init| :: lines[i] == init[i];
      r
    else lines
  }

  /** The body a request gets from its body lines: none if they are all blank. */
  function BodyOf(lines: seq<string>): Option<string> {
    var kept := TrimTrailingBlank(lines);
    if kept == [] then None else Some(Join(kept, "\n"))
  }

  /** A body, when present, is the kept lines joined by line feeds and is never blank. */
  lemma BodyOfNotBlank(lines: seq<string>)
    ensures BodyOf(lines).Some? <==> exists i | 0 <= i < |lines| :: Trim(lines[i]) != []
    ensures BodyOf(lines).Some? ==> !IsBlank(BodyOf(lines).value)
  {
    var kept := TrimTrailingBlank(lines);
    if kept != [] {
      var last := kept[|kept| - 1];
      assert lines[|kept| - 1] == last;
      TrimEmptyIffBlank(last);
      JoinLastNotBlank(kept, "\n");
    }
  }

  function Finalized(p: Pending, bodyLines: seq<string>): ParsedRequest {
    ParsedRequest("", p.name, p.httpMethod, p.url, p.headers, BodyOf(bodyLines), p.lineNumber)
  }

  /** `finalizeRequest`: pops trailing blank lines, then joins what is left into the body. */
  method FinalizeRequest(p: Pending, bodyLines: seq<string>) returns (r: ParsedRequest)
    ensures r == Finalized(p, bodyLines)
  {
    var lines := bodyLines;
    var body: Option<string> := None;
    if |lines| > 0 {
      while |lines| > 0 && Trim(lines[|lines| - 1]) == []
        invariant TrimTrailingBlank(lines) == TrimTrailingBlank(bodyLines)
        decreases |lines|
      {
        lines := lines[..|lines| - 1];
      }
      if |lines| > 0 {
        body := Some(Join(lines, "\n"));
      }
    }
    r := ParsedRequest("", p.name, p.httpMethod, p.url, p.headers, body, p.lineNumber);
  }

  /** The state after a failing line: its error is added after the others, and nothing else changes. */
  function Failed(s: Scan, e: ParseError): (r: Scan)
    ensures |r.errors| == |s.errors| + 1 && r.errors[..|s.errors|] == s.errors && r.errors[|s.errors|] == e
    ensures r.cursor == s.cursor && r.bodyLines == s.bodyLines && r.requests == s.requests
  {
    s.(errors := s.errors + [e])
  }

  /** The state after a separator closes the pending request: it is collected after the others, and the cursor is idle. */
  function Collect(s: Scan, done: ParsedRequest): (r: Scan)
    ensures |r.requests| == |s.requests| + 1 && r.requests[..|s.requests|] == s.requests && r.requests[|s.requests|] == done
    ensures r.cursor == Idle && r.bodyLines == [] && r.errors == s.errors
  {
    Scan(Idle, [], s.requests + [done], s.errors)
  }

  /** A request line between requests: it starts a request, named from the lines above, or adds its error. */
  function RequestLineStep(s: Scan, above: seq<string>, line: string, urlParses: string -> bool): (r: Scan)
    ensures |s.errors| <= |r.errors| <= |s.errors| + 1 && r.errors[..|s.errors|] == s.errors
    ensures |r.errors| > |s.errors| ==> r.errors[|s.errors|].lineNumber == |above| + 1
    ensures r.requests == s.requests
  {
    match ParseRequestLine(line, |above| + 1, urlParses)
    case Err(e) => Failed(s, e)
    case Ok(p) => s.(cursor := InHeaders(p.(name := NameAbove(above, |above|))), bodyLines := [])
  }

  /** A header line of the pending request `req`: it sets the header, or adds its error. */
  function HeaderLineStep(s: Scan, req: Pending, line: string, lineNumber: nat): (r: Scan)
    ensures |s.errors| <= |r.errors| <= |s.errors| + 1 && r.errors[..|s.errors|] == s.errors
    ensures |r.errors| > |s.errors| ==> r.errors[|s.errors|].lineNumber == lineNumber
    ensures r.requests == s.requests
  {
    match ParseHeader(line, lineNumber)
    case Err(e) => Failed(s, e)
    case Ok(kv) => s.(cursor := InHeaders(req.(headers := Set(req.headers, kv.0, kv.1))))
  }

  /** The effect of one line; `above` holds the lines before it. */
  function Step(s: Scan, above: seq<string>, line: string, urlParses: string -> bool): (r: Scan)
    ensures |s.errors| <= |r.errors| <= |s.errors| + 1 && r.errors[..|s.errors|] == s.errors
    ensures |r.errors| > |s.errors| ==> r.errors[|s.errors|].lineNumber == |above| + 1
    ensures |s.requests| <= |r.requests| <= |s.requests| + 1 && r.requests[..|s.requests|] == s.requests
    ensures |r.requests| > |s.requests| ==> IsSeparator(line)
  {
    var lineNumber := |above| + 1;
    var trimmed := Trim(line);
    if IsSeparator(line) then
      if s.cursor.Idle? then s
      else Collect(s, Finalized(s.cursor.req, s.bodyLines))
    else
      match s.cursor
      case Idle =>
        if IsCommentLine(trimmed) || trimmed == [] then s
        else
          RequestLineStep(s, above, line, urlParses)
      case InHeaders(req) =>
        if IsCommentLine(trimmed) then s
        else if trimmed == [] then
          if HasNoBody(req.httpMethod) then s else s.(cursor := InBody(req))
        else
          HeaderLineStep(s, req, line, lineNumber)
      case InBody(_) =>
        s.(bodyLines := s.bodyLines + [line])
  }

  /** The loop state after reading `lines`. */
  function ScanLines(lines: seq<string>, urlParses: string -> bool): Scan
    decreases |lines|
  {
    if lines == [] then Scan(Idle, [], [], [])
    else
      var above := lines[..|lines| - 1];
      Step(ScanLines(above, urlParses), above, lines[|lines| - 1], urlParses)
  }

  /** The requests at the end of input, the pending one finalized. */
  function Collected(s: Scan): seq<ParsedRequest> {
    if s.cursor.Idle? then s.requests else s.requests + [Finalized(s.cursor.req, s.bodyLines)]
  }

  /** `req-1`, `req-2`, ... */
  function RequestId(k: nat): string {
    "req-" + NatToString(k + 1)
  }

  function WithIds(rs: seq<ParsedRequest>): seq<ParsedRequest> {
    seq(|rs|, k requires 0 <= k < |rs| => rs[k].(id := RequestId(k)))
  }

  /** What `parse` returns for a file of these lines. */
  function ParseLines(lines: seq<string>, urlParses: string -> bool): ParseResult {
    var s := ScanLines(lines, urlParses);
    ParseResult(|s.errors| == 0, WithIds(Collected(s)), s.errors)
  }

  function ParseDocument(content: string, urlParses: string -> bool): ParseResult {
    ParseLines(SplitLines(content), urlParses)
  }

  /** The body of `parse`'s loop: processes line `i` (line number `i + 1`). */
  method ReadLine(lines: seq<string>, i: nat, urlParses: string -> bool,
                  cursor0: Cursor, bodyLines0: seq<string>, requests0: seq<ParsedRequest>, errors0: seq<ParseError>)
    returns (cursor: Cursor, bodyLines: seq<string>, requests: seq<ParsedRequest>, errors: seq<ParseError>)
    requires i < |lines|
    ensures Scan(cursor, bodyLines, requests, errors)
         == Step(Scan(cursor0, bodyLines0, requests0, errors0), lines[..i], lines[i], urlParses)
  {
    cursor, bodyLines, requests, errors := cursor0, bodyLines0, requests0, errors0;
    var line := lines[i];
    var lineNumber := i + 1;
    ghost var above := lines[..i];
    assert |above| + 1 == lineNumber;
    if IsSeparator(line) {
      if !cursor.Idle? {
        var done := FinalizeRequest(cursor.req, bodyLines);
        requests := requests + [done];
        bodyLines := [];
      }
      cursor := Idle;
      return;
    }
    var trimmed := Trim(line);
    match cursor
    case Idle =>
      if !IsCommentLine(trimmed) && trimmed != [] {
        var result := ParseRequestLine(line, lineNumber, urlParses);
        if result.Err? {
          errors := errors + [result.error];
        } else {
          var name := ExtractRequestName(lines, i);
          NameAbovePrefix(lines, i, i);
          assert name == NameAbove(above, |above|);
          cursor := InHeaders(result.value.(name := name));
          bodyLines := [];
        }
      }
    case InHeaders(req) =>
      if !IsCommentLine(trimmed) {
        if trimmed == [] {
          if !HasNoBody(req.httpMethod) {
            cursor := InBody(req);
          }
        } else {
          var header := ParseHeader(line, lineNumber);
          if header.Err? {
            errors := errors + [header.error];
          } else {
            cursor := InHeaders(req.(headers := Set(req.headers, header.value.0, header.value.1)));
          }
        }
      }
    case InBody(_) =>
      bodyLines := bodyLines + [line];
  }

  /** One more line extends the fold by one step. */
  lemma ScanLinesSnoc(lines: seq<string>, i: nat, urlParses: string -> bool)
    requires i < |lines|
    ensures ScanLines(lines[..i + 1], urlParses) == Step(ScanLines(lines[..i], urlParses), lines[..i], lines[i], urlParses)
  {
    assert lines[..i + 1][..i] == lines[..i];
    assert lines[..i + 1][i] == lines[i];
  }

  /** The `forEach` that numbers the requests in order. */
  method AssignIds(collected: seq<ParsedRequest>) returns (requests: seq<ParsedRequest>)
    ensures requests == WithIds(collected)
  {
    requests := collected;
    var k := 0;
    while k < |requests|
      invariant k <= |requests| == |collected|
      invariant forall j | 0 <= j < k :: requests[j] == collected[j].(id := RequestId(j))
      invariant forall j | k <= j < |requests| :: requests[j] == collected[j]
    {
      requests := requests[k := requests[k].(id := RequestId(k))];
      k := k + 1;
    }
  }

  /** `parse`: the source's loop over the lines of `content`. */
  method Parse(content: string, urlParses: string -> bool) returns (r: ParseResult)
    ensures r == ParseDocument(content, urlParses)
  {
    var lines := SplitLines(content);
    var cursor: Cursor := Idle;
    var bodyLines: seq<string> := [];
    var requests: seq<ParsedRequest> := [];
    var errors: seq<ParseError> := [];
    var i := 0;
    while i < |lines|
      invariant i <= |lines|
      invariant Scan(cursor, bodyLines, requests, errors) == ScanLines(lines[..i], urlParses)
    {
      ScanLinesSnoc(lines, i, urlParses);
      cursor, bodyLines, requests, errors := ReadLine(lines, i, urlParses, cursor, bodyLines, requests, errors);
      i := i + 1;
    }
    assert lines[..i] == lines;
    if !cursor.Idle? {
      var done := FinalizeRequest(cursor.req, bodyLines);
      requests := requests + [done];
    }
    requests := AssignIds(requests);
    r := ParseResult(|errors| == 0, requests, errors);
  }

  // ---------------------------------------------------------------------
  // Properties of the parser

  /** A file made only of separator lines has no requests and no errors. */
  lemma {:induction false} SeparatorsOnly(lines: seq<string>, urlParses: string -> bool)
    requires forall i | 0 <= i < |lines| :: IsSeparator(lines[i])
    ensures ScanLines(lines, urlParses) == Scan(Idle, [], [], [])
    ensures ParseLines(lines, urlParses) == ParseResult(true, [], [])
    decreases |lines|
  {
    if lines != [] {
      SeparatorsOnly(lines[..|lines| - 1], urlParses);
    }
  }

  /** A body-less method never gets a body, and a body is never blank. */
  predicate BodyRule(r: ParsedRequest) {
    (HasNoBody(r.httpMethod) ==> r.body.None?) && (r.body.Some? ==> !IsBlank(r.body.value))
  }

  /** Line `lineNumber` of `lines` is a request line giving method `m` and URL `url`. */
  predicate ReadFrom(lines: seq<string>, lineNumber: nat, m: Method, url: string, urlParses: string -> bool) {
    && 1 <= lineNumber <= |lines|
    && var r := ParseRequestLine(lines[lineNumber - 1], lineNumber, urlParses);
       r.Ok? && r.value.httpMethod == m && r.value.url == url
  }

  /** Every request satisfies the body rule and comes from its request line. */
  ghost predicate RequestsRead(rs: seq<ParsedRequest>, lines: seq<string>, urlParses: string -> bool) {
    forall k | 0 <= k < |rs| ::
      BodyRule(rs[k]) && ReadFrom(lines, rs[k].lineNumber, rs[k].httpMethod, rs[k].url, urlParses)
  }

  /** Requests appear in the order of their request lines. */
  ghost predicate InLineOrder(rs: seq<ParsedRequest>) {
    forall j, k | 0 <= j < k < |rs| :: rs[j].lineNumber < rs[k].lineNumber
  }

  /** Errors carry line numbers within the first `n` lines, in increasing order. */
  ghost predicate ErrorsInOrder(es: seq<ParseError>, n: nat) {
    && (forall k | 0 <= k < |es| :: 1 <= es[k].lineNumber <= n)
    && (forall j, k | 0 <= j < k < |es| :: es[j].lineNumber < es[k].lineNumber)
  }

  /** The pending request comes from its request line, after every collected request. */
  ghost predicate PendingRead(s: Scan, lines: seq<string>, urlParses: string -> bool) {
    !s.cursor.Idle? ==>
      && ReadFrom(lines, s.cursor.req.lineNumber, s.cursor.req.httpMethod, s.cursor.req.url, urlParses)
      && forall k | 0 <= k < |s.requests| :: s.requests[k].lineNumber < s.cursor.req.lineNumber
  }

  /** Body lines are only gathered in a body, and only methods that allow one reach a body. */
  ghost predicate BodyState(s: Scan) {
    && (s.bodyLines != [] ==> s.cursor.InBody?)
    && (s.cursor.InBody? ==> !HasNoBody(s.cursor.req.httpMethod))
  }

  /** What holds of the loop state after any prefix of the file. */
  ghost predicate ScanInvariant(s: Scan, lines: seq<string>, urlParses: string -> bool) {
    && RequestsRead(s.requests, lines, urlParses)
    && InLineOrder(s.requests)
    && PendingRead(s, lines, urlParses)
    && BodyState(s)
    && ErrorsInOrder(s.errors, |lines|)
  }

  lemma ReadFromExtends(lines: seq<string>, line: string, lineNumber: nat, m: Method, url: string, urlParses: string -> bool)
    requires ReadFrom(lines, lineNumber, m, url, urlParses)
    ensures ReadFrom(lines + [line], lineNumber, m, url, urlParses)
  {
    assert (lines + [line])[lineNumber - 1] == lines[lineNumber - 1];
  }

  lemma RequestsReadExtends(rs: seq<ParsedRequest>, lines: seq<string>, line: string, urlParses: string -> bool)
    requires RequestsRead(rs, lines, urlParses)
    ensures RequestsRead(rs, lines + [line], urlParses)
  {
    forall k | 0 <= k < |rs|
      ensures ReadFrom(lines + [line], rs[k].lineNumber, rs[k].httpMethod, rs[k].url, urlParses)
    {
      ReadFromExtends(lines, line, rs[k].lineNumber, rs[k].httpMethod, rs[k].url, urlParses);
    }
  }

  /** Finalizing the pending request keeps the body rule. */
  lemma FinalizedBodyRule(p: Pending, bodyLines: seq<string>)
    requires bodyLines != [] ==> !HasNoBody(p.httpMethod)
    ensures BodyRule(Finalized(p, bodyLines))
  {
    BodyOfNotBlank(bodyLines);
  }

  /** Collecting the pending request keeps every property of the collected requests. */
  lemma CollectedKeepsRequests(s: Scan, lines: seq<string>, urlParses: string -> bool)
    requires ScanInvariant(s, lines, urlParses)
    ensures RequestsRead(Collected(s), lines, urlParses) && InLineOrder(Collected(s))
  {
    if !s.cursor.Idle? {
      var p := s.cursor.req;
      var r := Finalized(p, s.bodyLines);
      FinalizedBodyRule(p, s.bodyLines);
      assert r.lineNumber == p.lineNumber && r.httpMethod == p.httpMethod && r.url == p.url;
      RequestsReadSnoc(s.requests, r, lines, urlParses);
      InLineOrderSnoc(s.requests, r);
    }
  }

  lemma RequestsReadSnoc(rs: seq<ParsedRequest>, r: ParsedRequest, lines: seq<string>, urlParses: string -> bool)
    requires RequestsRead(rs, lines, urlParses)
    requires BodyRule(r) && ReadFrom(lines, r.lineNumber, r.httpMethod, r.url, urlParses)
    ensures RequestsRead(rs + [r], lines, urlParses)
  {
    var rs' := rs + [r];
    forall k | 0 <= k < |rs'|
      ensures BodyRule(rs'[k]) && ReadFrom(lines, rs'[k].lineNumber, rs'[k].httpMethod, rs'[k].url, urlParses)
    {
      if k < |rs| {
        assert rs'[k] == rs[k];
      }
    }
  }

  lemma InLineOrderSnoc(rs: seq<ParsedRequest>, r: ParsedRequest)
    requires InLineOrder(rs) && forall k | 0 <= k < |rs| :: rs[k].lineNumber < r.lineNumber
    ensures InLineOrder(rs + [r])
  {
  }

  lemma ErrorsWiden(es: seq<ParseError>, n: nat)
    requires ErrorsInOrder(es, n)
    ensures ErrorsInOrder(es, n + 1)
  {
  }

  /** A separator line collects the pending request. */
  lemma SeparatorKeepsInvariant(s: Scan, above: seq<string>, line: string, urlParses: string -> bool)
    requires ScanInvariant(s, above, urlParses) && IsSeparator(line)
    ensures ScanInvariant(Step(s, above, line, urlParses), above + [line], urlParses)
  {
    var lines := above + [line];
    RequestsReadExtends(s.requests, above, line, urlParses);
    ErrorsWiden(s.errors, |above|);
    if s.cursor.Idle? {
      assert Step(s, above, line, urlParses) == s;
    } else {
      var p := s.cursor.req;
      ReadFromExtends(above, line, p.lineNumber, p.httpMethod, p.url, urlParses);
      FinalizedBodyRule(p, s.bodyLines);
      var r := Finalized(p, s.bodyLines);
      RequestsReadSnoc(s.requests, r, lines, urlParses);
      InLineOrderSnoc(s.requests, r);
      var t := Scan(Idle, [], s.requests + [r], s.errors);
      assert Step(s, above, line, urlParses) == t;
      assert PendingRead(t, lines, urlParses) && BodyState(t);
    }
  }

  /** Reporting an error for the next line keeps the invariant. */
  lemma ErrorKeepsInvariant(s: Scan, above: seq<string>, line: string, e: ParseError, urlParses: string -> bool)
    requires ScanInvariant(s, above, urlParses) && e.lineNumber == |above| + 1
    ensures ScanInvariant(s.(errors := s.errors + [e]), above + [line], urlParses)
  {
    RequestsReadExtends(s.requests, above, line, urlParses);
    if !s.cursor.Idle? {
      var p := s.cursor.req;
      ReadFromExtends(above, line, p.lineNumber, p.httpMethod, p.url, urlParses);
    }
  }

  /** A line that changes nothing keeps the invariant. */
  lemma SkipKeepsInvariant(s: Scan, above: seq<string>, line: string, urlParses: string -> bool)
    requires ScanInvariant(s, above, urlParses)
    ensures ScanInvariant(s, above + [line], urlParses)
  {
    RequestsReadExtends(s.requests, above, line, urlParses);
    ErrorsWiden(s.errors, |above|);
    if !s.cursor.Idle? {
      var p := s.cursor.req;
      ReadFromExtends(above, line, p.lineNumber, p.httpMethod, p.url, urlParses);
    }
  }

  /** Starting a request at the next line keeps the invariant. */
  lemma StartKeepsInvariant(s: Scan, above: seq<string>, line: string, p: Pending, urlParses: string -> bool)
    requires ScanInvariant(s, above, urlParses) && s.cursor.Idle?
    requires p.lineNumber == |above| + 1
    requires ReadFrom(above + [line], p.lineNumber, p.httpMethod, p.url, urlParses)
    ensures ScanInvariant(s.(cursor := InHeaders(p), bodyLines := []), above + [line], urlParses)
  {
    RequestsReadExtends(s.requests, above, line, urlParses);
    ErrorsWiden(s.errors, |above|);
  }

  /** Changing the pending request's headers, state or body lines keeps the invariant. */
  lemma PendingKeepsInvariant(s: Scan, t: Scan, above: seq<string>, line: string, urlParses: string -> bool)
    requires ScanInvariant(s, above, urlParses) && !s.cursor.Idle? && !t.cursor.Idle?
    requires t.requests == s.requests && t.errors == s.errors
    requires t.cursor.req.lineNumber == s.cursor.req.lineNumber
    requires t.cursor.req.httpMethod == s.cursor.req.httpMethod && t.cursor.req.url == s.cursor.req.url
    requires BodyState(t)
    ensures ScanInvariant(t, above + [line], urlParses)
  {
    SkipKeepsInvariant(s, above, line, urlParses);
  }

  /** A request line is read from the line it stands on. */
  lemma RequestLineReadFrom(above: seq<string>, line: string, urlParses: string -> bool)
    requires ParseRequestLine(line, |above| + 1, urlParses).Ok?
    ensures var p := ParseRequestLine(line, |above| + 1, urlParses).value;
      ReadFrom(above + [line], p.lineNumber, p.httpMethod, p.url, urlParses)
  {
    assert (above + [line])[|above|] == line;
  }

  /** Between requests, a line either is skipped, adds an error, or starts a request. */
  lemma IdleLineKeepsInvariant(s: Scan, above: seq<string>, line: string, urlParses: string -> bool)
    requires ScanInvariant(s, above, urlParses) && !IsSeparator(line) && s.cursor.Idle?
    ensures ScanInvariant(Step(s, above, line, urlParses), above + [line], urlParses)
  {
    var trimmed := Trim(line);
    if IsCommentLine(trimmed) || trimmed == [] {
      SkipKeepsInvariant(s, above, line, urlParses);
    } else {
      var r := ParseRequestLine(line, |above| + 1, urlParses);
      if r.Err? {
        ErrorKeepsInvariant(s, above, line, r.error, urlParses);
      } else {
        RequestLineReadFrom(above, line, urlParses);
        StartKeepsInvariant(s, above, line, r.value.(name := NameAbove(above, |above|)), urlParses);
      }
    }
  }

  /** Inside a request, a line changes only its headers, its state or its body lines, or adds an error. */
  lemma PendingLineKeepsInvariant(s: Scan, above: seq<string>, line: string, urlParses: string -> bool)
    requires ScanInvariant(s, above, urlParses) && !IsSeparator(line) && !s.cursor.Idle?
    ensures ScanInvariant(Step(s, above, line, urlParses), above + [line], urlParses)
  {
    var t := Step(s, above, line, urlParses);
    var trimmed := Trim(line);
    if s.cursor.InHeaders? && !IsCommentLine(trimmed) && trimmed != [] && ParseHeader(line, |above| + 1).Err? {
      ErrorKeepsInvariant(s, above, line, ParseHeader(line, |above| + 1).error, urlParses);
    } else {
      PendingKeepsInvariant(s, t, above, line, urlParses);
    }
  }

  lemma StepKeepsInvariant(s: Scan, above: seq<string>, line: string, urlParses: string -> bool)
    requires ScanInvariant(s, above, urlParses)
    ensures ScanInvariant(Step(s, above, line, urlParses), above + [line], urlParses)
  {
    if IsSeparator(line) {
      SeparatorKeepsInvariant(s, above, line, urlParses);
    } else if s.cursor.Idle? {
      IdleLineKeepsInvariant(s, above, line, urlParses);
    } else {
      PendingLineKeepsInvariant(s, above, line, urlParses);
    }
  }

  /** One more line keeps the invariant of the fold. */
  lemma ScanNext(lines: seq<string>, i: nat, urlParses: string -> bool)
    requires i < |lines| && ScanInvariant(ScanLines(lines[..i], urlParses), lines[..i], urlParses)
    ensures ScanInvariant(ScanLines(lines[..i + 1], urlParses), lines[..i + 1], urlParses)
  {
    var above := lines[..i];
    ScanLinesSnoc(lines, i, urlParses);
    assert lines[..i + 1] == above + [lines[i]];
    StepKeepsInvariant(ScanLines(above, urlParses), above, lines[i], urlParses);
  }

  lemma {:induction false} ScanPrefixInvariant(lines: seq<string>, n: nat, urlParses: string -> bool)
    requires n <= |lines|
    ensures ScanInvariant(ScanLines(lines[..n], urlParses), lines[..n], urlParses)
  {
    if n == 0 {
      assert lines[..0] == [];
    } else {
      ScanPrefixInvariant(lines, n - 1, urlParses);
      ScanNext(lines, n - 1, urlParses);
    }
  }

  lemma ScanKeepsInvariant(lines: seq<string>, urlParses: string -> bool)
    ensures ScanInvariant(ScanLines(lines, urlParses), lines, urlParses)
  {
    ScanPrefixInvariant(lines, |lines|, urlParses);
    assert lines[..|lines|] == lines;
  }

  /**
   * What `parse` guarantees: requests are numbered `req-1`, `req-2`, ... in
   * file order, each comes from the request line at its line number, GET and
   * HEAD requests have no body, no body is blank, errors are reported in line
   * order with valid line numbers, and success means no errors.
   */
  lemma ParseLinesWellFormed(lines: seq<string>, urlParses: string -> bool)
    ensures var r := ParseLines(lines, urlParses);
      && (r.success <==> r.errors == [])
      && (forall k | 0 <= k < |r.requests| ::
            && r.requests[k].id == RequestId(k)
            && BodyRule(r.requests[k])
            && ReadFrom(lines, r.requests[k].lineNumber, r.requests[k].httpMethod, r.requests[k].url, urlParses))
      && (forall j, k | 0 <= j < k < |r.requests| :: r.requests[j].lineNumber < r.requests[k].lineNumber)
      && (forall k | 0 <= k < |r.errors| :: 1 <= r.errors[k].lineNumber <= |lines|)
      && (forall j, k | 0 <= j < k < |r.errors| :: r.errors[j].lineNumber < r.errors[k].lineNumber)
  {
    var s := ScanLines(lines, urlParses);
    ScanKeepsInvariant(lines, urlParses);
    CollectedKeepsRequests(s, lines, urlParses);
    WithIdsKeeps(Collected(s), lines, urlParses);
  }

  /** Numbering the requests changes nothing else about them. */
  lemma WithIdsKeeps(rs: seq<ParsedRequest>, lines: seq<string>, urlParses: string -> bool)
    requires RequestsRead(rs, lines, urlParses) && InLineOrder(rs)
    ensures var ws := WithIds(rs);
      && RequestsRead(ws, lines, urlParses) && InLineOrder(ws)
      && forall k | 0 <= k < |ws| :: ws[k].id == RequestId(k)
  {
    var ws := WithIds(rs);
    forall k | 0 <= k < |ws|
      ensures ws[k].id == RequestId(k) && ws[k].lineNumber == rs[k].lineNumber
      ensures BodyRule(ws[k]) && ReadFrom(lines, ws[k].lineNumber, ws[k].httpMethod, ws[k].url, urlParses)
    {
      assert ws[k] == rs[k].(id := RequestId(k));
    }
  }

  /** Request ids are distinct. */
  lemma RequestIdsDistinct(j: nat, k: nat)
    requires j != k
    ensures RequestId(j) != RequestId(k)
  {
    if RequestId(j) == RequestId(k) {
      assert NatToString(j + 1) == RequestId(j)[4..];
      DecimalRoundTrip(j + 1);
      DecimalRoundTrip(k + 1);
    }
  }

  /** A line the parser reads as a request line, wherever it stands. */
  predicate IsRequestLine(line: string, urlParses: string -> bool) {
    && !IsSeparator(line)
    && Trim(line) != []
    && !IsCommentLine(Trim(line))
    && ParseRequestLine(line, 1, urlParses).Ok?
  }

  /** Whether a request line is accepted does not depend on its line number. */
  lemma RequestLineAnyNumber(line: string, n: nat, urlParses: string -> bool)
    ensures ParseRequestLine(line, n, urlParses).Ok? == ParseRequestLine(line, 1, urlParses).Ok?
  {
  }

  /** Between requests, a request line starts a request with no headers. */
  lemma StepOnRequestLine(s: Scan, above: seq<string>, line: string, urlParses: string -> bool)
    requires s.cursor.Idle? && IsRequestLine(line, urlParses)
    ensures var t := Step(s, above, line, urlParses);
      && t.cursor.InHeaders? && t.cursor.req.lineNumber == |above| + 1 && t.cursor.req.headers == []
      && t.bodyLines == [] && t.requests == s.requests && t.errors == s.errors
  {
    RequestLineAnyNumber(line, |above| + 1, urlParses);
  }

  /** A separator closes the pending request, with the body lines gathered so far. */
  lemma StepOnSeparator(s: Scan, above: seq<string>, line: string, urlParses: string -> bool)
    requires IsSeparator(line) && !s.cursor.Idle?
    ensures Step(s, above, line, urlParses) == Scan(Idle, [], s.requests + [Finalized(s.cursor.req, s.bodyLines)], s.errors)
  {
  }

  /** The loop state after `m` lines of alternating request lines and separators. */
  ghost predicate AlternatingState(s: Scan, m: nat) {
    && s.errors == [] && s.bodyLines == [] && |s.requests| == m / 2
    && (forall k | 0 <= k < m / 2 ::
          s.requests[k].lineNumber == 2 * k + 1 && s.requests[k].headers == [] && s.requests[k].body.None?)
    && (if m % 2 == 1 then s.cursor.InHeaders? && s.cursor.req.lineNumber == m && s.cursor.req.headers == []
        else s.cursor.Idle?)
  }

  /** A request line after an even number of lines, or a separator after an odd number, keeps the pattern. */
  lemma AlternatingStep(s: Scan, above: seq<string>, line: string, urlParses: string -> bool)
    requires AlternatingState(s, |above|)
    requires if |above| % 2 == 0 then IsRequestLine(line, urlParses) else IsSeparator(line)
    ensures AlternatingState(Step(s, above, line, urlParses), |above| + 1)
  {
    var m := |above|;
    if m % 2 == 0 {
      StepOnRequestLine(s, above, line, urlParses);
    } else {
      StepOnSeparator(s, above, line, urlParses);
      assert TrimTrailingBlank([]) == [];
      var t := Step(s, above, line, urlParses);
      assert t.requests[m / 2] == Finalized(s.cursor.req, []);
    }
  }

  /** The pattern carried from `i` lines to `i + 1`. */
  /** Line `i` is a request line when `i` is even and a separator when it is odd. */
  predicate AlternatingAt(lines: seq<string>, i: nat, urlParses: string -> bool)
    requires i < |lines|
  {
    if i % 2 == 0 then IsRequestLine(lines[i], urlParses) else IsSeparator(lines[i])
  }

  lemma AlternatingNext(lines: seq<string>, i: nat, urlParses: string -> bool)
    requires i < |lines| && AlternatingAt(lines, i, urlParses)
    requires AlternatingState(ScanLines(lines[..i], urlParses), i)
    ensures AlternatingState(ScanLines(lines[..i + 1], urlParses), i + 1)
  {
    ScanLinesSnoc(lines, i, urlParses);
    AlternatingStep(ScanLines(lines[..i], urlParses), lines[..i], lines[i], urlParses);
  }

  /** Request lines alternating with separators: the prefix of length `m` reads `m / 2` requests and no errors. */
  lemma {:induction false} AlternatingPrefix(lines: seq<string>, urlParses: string -> bool, m: nat)
    requires m <= |lines|
    requires forall i | 0 <= i < m :: AlternatingAt(lines, i, urlParses)
    ensures AlternatingState(ScanLines(lines[..m], urlParses), m)
    decreases m
  {
    if m == 0 {
      assert lines[..0] == [];
    } else {
      AlternatingPrefix(lines, urlParses, m - 1);
      AlternatingNext(lines, m - 1, urlParses);
    }
  }

  /**
   * A file of `n` request lines separated by separator lines parses without
   * errors into `n` requests, numbered in order, each at its own line, with
   * no headers and no body.
   */
  lemma AlternatingDocument(lines: seq<string>, urlParses: string -> bool)
    requires forall i | 0 <= i < |lines| :: AlternatingAt(lines, i, urlParses)
    ensures var r := ParseLines(lines, urlParses);
      && r.success
      && |r.requests| == (|lines| + 1) / 2
      && forall k | 0 <= k < |r.requests| ::
           && r.requests[k].id == RequestId(k)
           && r.requests[k].lineNumber == 2 * k + 1
           && r.requests[k].headers == []
           && r.requests[k].body.None?
  {
    AlternatingPrefix(lines, urlParses, |lines|);
    assert lines[..|lines|] == lines;
  }

  /** The method names contain neither spaces nor lower-case letters. */
  lemma MethodNameShape(m: Method)
    ensures forall i | 0 <= i < |MethodName(m)| :: !IsSpace(MethodName(m)[i]) && UpperChar(MethodName(m)[i]) == MethodName(m)[i]
  {
  }

  /** `Words` of two space-free words joined by one space. */
  lemma WordsOfPair(a: string, b: string)
    requires a != [] && b != []
    requires forall i | 0 <= i < |a| :: !IsSpace(a[i])
    requires forall i | 0 <= i < |b| :: !IsSpace(b[i])
    ensures Words(a + " " + b) == [a, b]
  {
    var line := a + " " + b;
    var n := |a|;
    assert forall i | 0 <= i < n :: line[i] == a[i] && !IsSpace(line[i]);
    assert line[n] == ' ';
    assert forall i | n < i < |line| :: line[i] == b[i - n - 1] && !IsSpace(line[i]);
    assert SkipSpaces(line, 0) == 0;
    assert SkipNonSpaces(line, 0) == n;
    assert SkipSpaces(line, n) == n + 1;
    assert SkipNonSpaces(line, n + 1) == |line|;
    assert SkipSpaces(line, |line|) == |line|;
    assert line[..n] == a && line[n + 1..|line|] == b;
    assert WordsFrom(line, |line|) == [];
    assert WordsFrom(line, n) == [b];
  }

  /** A method name, a space and a URL with no spaces and no leading `#` is already clean. */
  lemma PairIsClean(name: string, url: string)
    requires name != [] && url != [] && url[0] != '#'
    requires forall i | 0 <= i < |name| :: !IsSpace(name[i])
    requires forall i | 0 <= i < |url| :: !IsSpace(url[i])
    ensures CleanRequestLine(name + " " + url) == name + " " + url
  {
    var line := name + " " + url;
    TrimmedIsFixed(line);
    forall j | 0 <= j && j + 2 <= |line|
      ensures !OccursAt(line, " #", j)
    {
      if j < |name| {
        assert line[j] == name[j];
        MismatchAt(line, " #", j, 0);
      } else if j == |name| {
        assert line[j + 1] == url[0];
        MismatchAt(line, " #", j, 1);
      } else {
        assert line[j] == url[j - |name| - 1];
        MismatchAt(line, " #", j, 0);
      }
    }
    IndexOfFirst(line, " #");
  }

  /** Writing a method and a URL as a request line and reading it back gives them back. */
  lemma RequestLineRoundTrip(m: Method, url: string, n: nat, urlParses: string -> bool)
    requires url != [] && url[0] != '#'
    requires forall i | 0 <= i < |url| :: !IsSpace(url[i])
    requires IsValidUrl(url, urlParses)
    ensures ParseRequestLine(MethodName(m) + " " + url, n, urlParses) == Ok(Pending(None, m, url, [], n))
  {
    var name := MethodName(m);
    MethodNameShape(m);
    PairIsClean(name, url);
    WordsOfPair(name, url);
    assert ToUpper(name) == name;
  }

  /** Trimming a line that starts with `l` and a ` #` keeps that start. */
  lemma CommentStartKept(l: string, comment: string)
    requires l != [] && !IsSpace(l[0])
    ensures var t := Trim(l + " #" + comment); |t| >= |l| + 2 && t[..|l| + 2] == l + " #"
  {
    var x := l + " #" + comment;
    TrimCutsSpaces(x);
    assert TrimOffset(x) == 0;
    assert x[|l| + 1] == '#';
    assert x[..|l| + 2] == l + " #";
  }

  /** A clean line without ` #` is left as it is. */
  lemma CleanLineKept(l: string)
    requires l != [] && !IsSpace(l[0]) && !IsSpace(l[|l| - 1])
    requires !Contains(l, " #")
    ensures CleanRequestLine(l) == l
  {
    TrimmedIsFixed(l);
  }

  /** The comment and the space before it are cut off. */
  lemma CommentCut(l: string, comment: string)
    requires l != [] && !IsSpace(l[0]) && !IsSpace(l[|l| - 1])
    requires !Contains(l, " #")
    ensures CleanRequestLine(l + " #" + comment) == l
  {
    CommentStartKept(l, comment);
    var t := Trim(l + " #" + comment);
    assert t[|l|..|l| + 2] == (l + " #")[|l|..];
    IndexOfFirst(l, " #");
    forall j | 0 <= j < |l|
      ensures !OccursAt(t, " #", j)
    {
      assert t[j] == t[..|l| + 2][j] == l[j];
      if j + 2 <= |l| {
        assert !OccursAt(l, " #", j);
        assert t[j..j + 2] == t[..|l| + 2][j..j + 2] == l[j..j + 2];
      } else {
        assert !IsSpace(t[j]) && IsSpace(" #"[0]);
        MismatchAt(t, " #", j, 0);
      }
    }
    IndexOfIs(t, " #", |l|);
    assert t[..|l|] == l;
    TrimmedIsFixed(l);
  }

  /** Whatever follows ` #` on a request line is an inline comment and does not change how the line reads. */
  lemma InlineCommentIgnored(l: string, comment: string, n: nat, urlParses: string -> bool)
    requires l != [] && !IsSpace(l[0]) && !IsSpace(l[|l| - 1])
    requires !Contains(l, " #")
    ensures ParseRequestLine(l + " #" + comment, n, urlParses) == ParseRequestLine(l, n, urlParses)
  {
    CommentCut(l, comment);
    CleanLineKept(l);
  }

  /** A space before a trimmed text is trimmed away. */
  lemma TrimLeadingSpace(v: string)
    requires Trim(v) == v
    ensures Trim(" " + v) == v
  {
    var x := " " + v;
    TrimCutsSpaces(x);
    assert x[0] == ' ';
    if v == [] {
      assert x == " ";
      assert TrimOffset(x) == 1;
    } else {
      assert x[1] == v[0] && x[|x| - 1] == v[|v| - 1];
      assert !IsSpace(x[1]) && !IsSpace(x[|x| - 1]);
      var a := TrimOffset(x);
      assert a == 1;
      var b := TrimLimit(x);
      assert b == |x|;
      assert x[1..] == v;
    }
  }

  /** A `Key: Value` line reads back as that key and value. */
  lemma HeaderRoundTrip(key: string, value: string, n: nat)
    requires key != [] && !IsSpace(key[0]) && !IsSpace(key[|key| - 1])
    requires forall i | 0 <= i < |key| :: key[i] != ':'
    requires Trim(value) == value
    ensures ParseHeader(key + ": " + value, n) == Ok((key, value))
  {
    HeaderColon(key, value);
    TrimmedIsFixed(key);
    TrimLeadingSpace(value);
  }

  /** In `Key: Value`, with no `:` in the key, the first `:` follows the key. */
  lemma HeaderColon(key: string, value: string)
    requires forall i | 0 <= i < |key| :: key[i] != ':'
    ensures var line := key + ": " + value;
      IndexOf(line, ":") == Some(|key|) && line[..|key|] == key && line[|key| + 1..] == " " + value
  {
    var line := key + ": " + value;
    forall j | 0 <= j < |key|
      ensures !OccursAt(line, ":", j)
    {
      assert line[j] == key[j];
    }
    assert line[|key|..|key| + 1] == ":";
    assert OccursAt(line, ":", |key|);
    IndexOfIs(line, ":", |key|);
    assert line[..|key|] == key;
    assert line[|key| + 1..] == " " + value;
  }

  /** `@name` followed by a space and an identifier names the request. */
  lemma NameAnnotationOf(id: string)
    requires id != [] && forall i | 0 <= i < |id| :: IsWordChar(id[i])
    ensures NameAnnotation("# @name " + id) == Some(id)
  {
    var t := "# @name " + id;
    assert t[0] == '#' && t[1] == ' ' && t[7] == ' ';
    assert t[2..7] == "@name";
    assert forall i | 0 <= i < |id| :: t[8 + i] == id[i];
    assert !OccursAt(t, "@name", 0) && !OccursAt(t, "@name", 1);
    assert OccursAt(t, "@name", 2);
    assert NameAt(t, 0).None? && NameAt(t, 1).None?;
    assert !IsSpace(t[8]);
    var q := SkipSpaces(t, 7);
    assert q == 8;
    var e := SkipWord(t, 8);
    assert e == |t|;
    assert t[8..|t|] == id;
    assert NameAt(t, 2) == Some(id);
    assert NameFrom(t, 2) == Some(id);
    assert NameFrom(t, 1) == Some(id);
  }

  /** A `# @name id` comment right above a request line names that request. */
  lemma NameFromCommentAbove(lines: seq<string>, i: nat, id: string)
    requires i < |lines| && lines[i] == "# @name " + id
    requires id != [] && forall k | 0 <= k < |id| :: IsWordChar(id[k])
    ensures NameAbove(lines, i + 1) == Some(id)
  {
    var t := "# @name " + id;
    TrimmedIsFixed(t);
    NameAnnotationOf(id);
    assert t[2] == '@';
    if AllChar(t, '#') {
      AllCharAt(t, '#', 2);
    }
    assert !IsSeparator(t);
    assert IsCommentLine(t);
  }

  /** The search only looks at the lines above its starting point. */
  lemma {:induction false} SearchUpPrefix(lines: seq<string>, i: nat, k: nat, verdict: string -> Option<Option<string>>)
    requires i <= k <= |lines|
    ensures SearchUp(lines[..k], i, verdict) == SearchUp(lines, i, verdict)
    decreases i
  {
    if i > 0 {
      SearchUpPrefix(lines, i - 1, k, verdict);
      assert lines[..k][i - 1] == lines[i - 1];
    }
  }

  /** The name search only looks at the lines above the request line. */
  lemma NameAbovePrefix(lines: seq<string>, i: nat, k: nat)
    requires i <= k <= |lines|
    ensures NameAbove(lines[..k], i) == NameAbove(lines, i)
  {
    SearchUpPrefix(lines, i, k, LineVerdict);
  }

  /** A blank or separator line stops the search. */
  lemma BreakStopsSearch(stop: string)
    requires Trim(stop) == [] || IsSeparator(stop)
    ensures NameVerdict(Trim(stop)) == Some(None)
  {
    if Trim(stop) != [] {
      TrimmedIsFixed(Trim(stop));
    }
  }

  /** Lines above one whose verdict stops the search are never looked at. */
  lemma {:induction false} SearchStopsAt(above: seq<string>, stop: string, below: seq<string>, k: nat,
                                         verdict: string -> Option<Option<string>>)
    requires k <= |below| && verdict(stop) == Some(None)
    ensures SearchUp(above + [stop] + below, |above| + 1 + k, verdict) == SearchUp(below, k, verdict)
    decreases k
  {
    var lines := above + [stop] + below;
    if k == 0 {
      assert lines[|above|] == stop;
    } else {
      SearchStopsAt(above, stop, below, k - 1, verdict);
      assert lines[|above| + k] == below[k - 1];
    }
  }

  /**
   * Comments above a blank or separator line never name a request below
   * it: the name depends only on the lines between the two.
   */
  lemma NameStopsAtBreak(above: seq<string>, stop: string, below: seq<string>, k: nat)
    requires k <= |below|
    requires Trim(stop) == [] || IsSeparator(stop)
    ensures NameAbove(above + [stop] + below, |above| + 1 + k) == NameAbove(below, k)
  {
    BreakStopsSearch(stop);
    SearchStopsAt(above, stop, below, k, LineVerdict);
  }

  // ---------------------------------------------------------------------
  // Lines that are skipped or rejected

  /** Between requests and in a header block, a comment line changes nothing; in a body it is a body line. */
  lemma StepOnComment(s: Scan, above: seq<string>, line: string, urlParses: string -> bool)
    requires !IsSeparator(line) && IsCommentLine(Trim(line))
    ensures !s.cursor.InBody? ==> Step(s, above, line, urlParses) == s
    ensures s.cursor.InBody? ==> Step(s, above, line, urlParses) == s.(bodyLines := s.bodyLines + [line])
  {
  }

  /**
   * Between requests, a line that is not a valid request line adds its
   * error and nothing else: no request starts and the next line is read
   * between requests again.
   */
  lemma StepOnInvalidRequestLine(s: Scan, above: seq<string>, line: string, urlParses: string -> bool)
    requires s.cursor.Idle? && !IsSeparator(line) && Trim(line) != [] && !IsCommentLine(Trim(line))
    requires ParseRequestLine(line, |above| + 1, urlParses).Err?
    ensures Step(s, above, line, urlParses) == s.(errors := s.errors + [ParseRequestLine(line, |above| + 1, urlParses).error])
  {
  }

  /** In a header block, a malformed header line adds its error and leaves the request as it was. */
  lemma StepOnInvalidHeader(s: Scan, above: seq<string>, line: string, urlParses: string -> bool)
    requires s.cursor.InHeaders? && !IsSeparator(line) && Trim(line) != [] && !IsCommentLine(Trim(line))
    requires ParseHeader(line, |above| + 1).Err?
    ensures Step(s, above, line, urlParses) == s.(errors := s.errors + [ParseHeader(line, |above| + 1).error])
  {
  }

  /** A header line whose trimmed key before the first colon is empty is rejected. */
  lemma EmptyKeyIsError(value: string, n: nat)
    ensures ParseHeader(":" + value, n).Err?
    ensures ParseHeader(" :" + value, n).Err?
  {
    assert OccursAt(":" + value, ":", 0);
    IndexOfIs(":" + value, ":", 0);
    assert (":" + value)[..0] == [];
    var spaced := " :" + value;
    assert spaced[1..2] == ":";
    MismatchAt(spaced, ":", 0, 0);
    IndexOfIs(spaced, ":", 1);
    assert spaced[..1] == " ";
    TrimEmptyIffBlank(" ");
  }

  /**
   * The error line `lineNumber` gives in the state `s` it is read in: a
   * rejected request line between requests, a rejected header in a header
   * block, and none for a separator, blank, comment or body line.
   */
  function LineError(s: Scan, lineNumber: nat, line: string, urlParses: string -> bool): Option<ParseError> {
    var trimmed := Trim(line);
    if IsSeparator(line) || trimmed == [] || IsCommentLine(trimmed) then None
    else
      match s.cursor
      case Idle => (match ParseRequestLine(line, lineNumber, urlParses) case Err(e) => Some(e) case Ok(_) => None)
      case InHeaders(_) => (match ParseHeader(line, lineNumber) case Err(e) => Some(e) case Ok(_) => None)
      case InBody(_) => None
  }

  function AsSeq(e: Option<ParseError>): seq<ParseError> {
    if e.Some? then [e.value] else []
  }

  /**
   * What each line of the file gives: entry `i` is the error line `i + 1`
   * gives in the state the lines above it leave, or nothing.
   */
  function Outcomes(lines: seq<string>, urlParses: string -> bool): (fs: seq<Option<ParseError>>)
    ensures |fs| == |lines|
    decreases |lines|
  {
    if lines == [] then []
    else
      var above := lines[..|lines| - 1];
      Outcomes(above, urlParses) + [LineError(ScanLines(above, urlParses), |lines|, lines[|lines| - 1], urlParses)]
  }

  /** The errors among `fs`, in order. */
  function Reports(fs: seq<Option<ParseError>>): seq<ParseError>
    decreases |fs|
  {
    if fs == [] then [] else Reports(fs[..|fs| - 1]) + AsSeq(fs[|fs| - 1])
  }

  /** A line adds to the errors exactly the error it gives in the state it is read in. */
  lemma StepErrors(s: Scan, above: seq<string>, line: string, urlParses: string -> bool)
    ensures Step(s, above, line, urlParses).errors == s.errors + AsSeq(LineError(s, |above| + 1, line, urlParses))
  {
  }

  /** The last line of a file adds to the errors exactly the error it gives. */
  lemma LastLineErrors(lines: seq<string>, urlParses: string -> bool)
    requires lines != []
    ensures var fs := Outcomes(lines, urlParses);
      ScanLines(lines, urlParses).errors == ScanLines(lines[..|lines| - 1], urlParses).errors + AsSeq(fs[|fs| - 1])
      && fs[..|fs| - 1] == Outcomes(lines[..|lines| - 1], urlParses)
  {
    var above := lines[..|lines| - 1];
    StepErrors(ScanLines(above, urlParses), above, lines[|lines| - 1], urlParses);
  }

  /** The errors of the fold are those of the failing lines, in line order. */
  lemma {:induction false} ErrorsAreFailures(lines: seq<string>, urlParses: string -> bool)
    ensures ScanLines(lines, urlParses).errors == Reports(Outcomes(lines, urlParses))
    decreases |lines|
  {
    if lines != [] {
      ErrorsAreFailures(lines[..|lines| - 1], urlParses);
      LastLineErrors(lines, urlParses);
    }
  }

  /** The error a line gives carries that line's number. */
  lemma LineErrorNumber(s: Scan, lineNumber: nat, line: string, urlParses: string -> bool)
    ensures LineError(s, lineNumber, line, urlParses).Some? ==> LineError(s, lineNumber, line, urlParses).value.lineNumber == lineNumber
  {
  }

  /** `e` is the error at the position its line number names. */
  predicate FromItsLine(fs: seq<Option<ParseError>>, e: ParseError) {
    1 <= e.lineNumber <= |fs| && fs[e.lineNumber - 1] == Some(e)
  }

  /** Every error among `fs` carries its position plus one. */
  predicate Numbered(fs: seq<Option<ParseError>>) {
    forall i | 0 <= i < |fs| && fs[i].Some? :: fs[i].value.lineNumber == i + 1
  }

  /** The outcomes of a file's lines carry their line numbers. */
  lemma {:induction false} OutcomesNumbered(lines: seq<string>, urlParses: string -> bool)
    ensures Numbered(Outcomes(lines, urlParses))
    decreases |lines|
  {
    if lines != [] {
      var above := lines[..|lines| - 1];
      var fs := Outcomes(lines, urlParses);
      OutcomesNumbered(above, urlParses);
      LineErrorNumber(ScanLines(above, urlParses), |lines|, lines[|lines| - 1], urlParses);
      assert forall i | 0 <= i < |above| :: fs[i] == Outcomes(above, urlParses)[i];
    }
  }

  /** `e` is one of `errors`. */
  predicate Reported(errors: seq<ParseError>, e: ParseError) {
    exists k | 0 <= k < |errors| :: errors[k] == e
  }

  /** Every error among `fs` is reported. */
  lemma {:induction false} ReportedAt(fs: seq<Option<ParseError>>, i: nat)
    requires i < |fs| && fs[i].Some?
    ensures Reported(Reports(fs), fs[i].value)
    decreases |fs|
  {
    var init := fs[..|fs| - 1];
    var before := Reports(init);
    if i == |fs| - 1 {
      assert Reports(fs)[|before|] == fs[i].value;
    } else {
      assert init[i] == fs[i];
      ReportedAt(init, i);
      var k :| 0 <= k < |before| && before[k] == fs[i].value;
      assert Reports(fs)[k] == fs[i].value;
    }
  }

  /** Every report of numbered outcomes is the error at the position its number names. */
  lemma {:induction false} ReportFrom(fs: seq<Option<ParseError>>, k: nat)
    requires Numbered(fs) && k < |Reports(fs)|
    ensures var e := Reports(fs)[k]; 1 <= e.lineNumber <= |fs| && fs[e.lineNumber - 1] == Some(e)
    decreases |fs|
  {
    var init := fs[..|fs| - 1];
    var before := Reports(init);
    if k < |before| {
      assert Numbered(init) by {
        forall i | 0 <= i < |init| && init[i].Some?
          ensures init[i].value.lineNumber == i + 1
        {
          assert init[i] == fs[i];
        }
      }
      ReportFrom(init, k);
      assert Reports(fs)[k] == before[k];
      assert init[before[k].lineNumber - 1] == fs[before[k].lineNumber - 1];
    } else {
      assert Reports(fs)[k] == fs[|fs| - 1].value;
    }
  }

  /** Every report of numbered outcomes is the error at the position its number names. */
  lemma ReportsFrom(fs: seq<Option<ParseError>>)
    requires Numbered(fs)
    ensures var f := Reports(fs); forall k | 0 <= k < |f| :: FromItsLine(fs, f[k])
  {
    forall k | 0 <= k < |Reports(fs)|
      ensures FromItsLine(fs, Reports(fs)[k])
    {
      ReportFrom(fs, k);
    }
  }

  /** Nothing is reported exactly when nothing fails. */
  lemma {:induction false} NoReports(fs: seq<Option<ParseError>>)
    ensures Reports(fs) == [] <==> forall i | 0 <= i < |fs| :: fs[i].None?
    decreases |fs|
  {
    if fs != [] {
      var init := fs[..|fs| - 1];
      NoReports(init);
      assert forall i | 0 <= i < |init| :: init[i] == fs[i];
    }
  }

  /** The errors `parse` returns are those of the failing lines, and it succeeds exactly when there are none. */
  lemma ParseErrors(lines: seq<string>, urlParses: string -> bool)
    ensures var r, f := ParseLines(lines, urlParses), Reports(Outcomes(lines, urlParses));
      r.errors == f && (r.success <==> f == [])
  {
    ErrorsAreFailures(lines, urlParses);
  }

  /** Every error of the parse is the one its own line gives. */
  lemma ErrorsFromLines(lines: seq<string>, urlParses: string -> bool)
    ensures var errors := ParseLines(lines, urlParses).errors;
      forall k | 0 <= k < |errors| :: FromItsLine(Outcomes(lines, urlParses), errors[k])
  {
    var fs := Outcomes(lines, urlParses);
    ParseErrors(lines, urlParses);
    OutcomesNumbered(lines, urlParses);
    ReportsFrom(fs);
  }

  /** Every line that fails in the state it is read in is reported. */
  lemma FailingLinesReported(lines: seq<string>, urlParses: string -> bool)
    ensures var errors, fs := ParseLines(lines, urlParses).errors, Outcomes(lines, urlParses);
      forall i | 0 <= i < |lines| && fs[i].Some? :: Reported(errors, fs[i].value)
  {
    var fs := Outcomes(lines, urlParses);
    ParseErrors(lines, urlParses);
    forall i | 0 <= i < |lines| && fs[i].Some?
      ensures Reported(Reports(fs), fs[i].value)
    {
      ReportedAt(fs, i);
    }
  }

  /** The parse succeeds exactly when no line fails. */
  lemma SuccessIffNoFailure(lines: seq<string>, urlParses: string -> bool)
    ensures var fs := Outcomes(lines, urlParses);
      ParseLines(lines, urlParses).success <==> forall i | 0 <= i < |lines| :: fs[i].None?
  {
    ParseErrors(lines, urlParses);
    NoReports(Outcomes(lines, urlParses));
  }

  /**
   * Malformed lines never stop the parse: every error is the one its own
   * line gives, every line that fails in the state it is read in is
   * reported, and the parse succeeds exactly when no line fails.
   */
  lemma ErrorsAreLineFailures(lines: seq<string>, urlParses: string -> bool)
    ensures var r, fs := ParseLines(lines, urlParses), Outcomes(lines, urlParses);
      && (forall k | 0 <= k < |r.errors| :: FromItsLine(fs, r.errors[k]))
      && (forall i | 0 <= i < |lines| && fs[i].Some? :: Reported(r.errors, fs[i].value))
      && (r.success <==> forall i | 0 <= i < |lines| :: fs[i].None?)
  {
    ErrorsFromLines(lines, urlParses);
    FailingLinesReported(lines, urlParses);
    SuccessIffNoFailure(lines, urlParses);
  }

  // ---------------------------------------------------------------------
  // Request lines and separators

  /** A method name in lower case followed by a URL and an extra word reads as that method and URL. */
  lemma LowerCaseWithExtraWord(line: string, n: nat, urlParses: string -> bool)
    requires line == "get /x extra"
    ensures ParseRequestLine(line, n, urlParses) == Ok(Pending(None, Get, "/x", [], n))
  {
    ExtraWordClean(line);
    ExtraWordWords(line);
    assert ToUpper("get") == "GET";
    assert StartsWith("/x", "/");
  }

  /** `get /x extra` has no ` #` and no outer spaces, so cleaning keeps it. */
  lemma ExtraWordClean(line: string)
    requires line == "get /x extra"
    ensures CleanRequestLine(line) == line
  {
    TrimmedIsFixed(line);
    forall j
      ensures !OccursAt(line, " #", j)
    {
      if 0 <= j && j + 2 <= |line| {
        assert line[j + 1] != '#';
        MismatchAt(line, " #", j, 1);
      }
    }
    IndexOfFirst(line, " #");
  }

  /** The words of `get /x extra`. */
  lemma ExtraWordWords(line: string)
    requires line == "get /x extra"
    ensures Words(line) == ["get", "/x", "extra"]
  {
    assert forall i | 0 <= i < |line| && i != 3 && i != 6 :: !IsSpace(line[i]);
    assert line[3] == ' ' && line[6] == ' ';
    assert SkipSpaces(line, 0) == 0 && SkipNonSpaces(line, 0) == 3;
    assert SkipSpaces(line, 3) == 4 && SkipNonSpaces(line, 4) == 6;
    assert SkipSpaces(line, 6) == 7 && SkipNonSpaces(line, 7) == 12;
    assert SkipSpaces(line, 12) == 12;
    assert line[..3] == "get" && line[4..6] == "/x" && line[7..12] == "extra";
    assert WordsFrom(line, 12) == [];
    assert WordsFrom(line, 6) == ["extra"];
    assert WordsFrom(line, 3) == ["/x", "extra"];
  }

  /** A URL that starts with `/` or holds a `{{` placeholder is accepted whatever the `URL` constructor says. */
  lemma RelativeOrPlaceholderUrl(m: Method, url: string, n: nat, urlParses: string -> bool)
    requires url != [] && url[0] != '#'
    requires forall i | 0 <= i < |url| :: !IsSpace(url[i])
    requires StartsWith(url, "/") || Contains(url, "{{")
    ensures ParseRequestLine(MethodName(m) + " " + url, n, urlParses) == Ok(Pending(None, m, url, [], n))
  {
    RequestLineRoundTrip(m, url, n, urlParses);
  }

  /** `AllChar` says every character is `c`. */
  lemma {:induction false} AllCharIff(t: string, c: char)
    ensures AllChar(t, c) <==> forall i | 0 <= i < |t| :: t[i] == c
    decreases |t|
  {
    if t != [] {
      AllCharIff(t[1..], c);
      assert forall i | 1 <= i < |t| :: t[i] == t[1..][i - 1];
    }
  }

  /** `/^(\s*(#{3,}|---+)\s*)$/`: a separator is a run of three or more `#` or `-` between whitespace. */
  lemma SeparatorIff(line: string)
    ensures IsSeparator(line) <==> var t := Trim(line);
      |t| >= 3 && ((forall i | 0 <= i < |t| :: t[i] == '#') || (forall i | 0 <= i < |t| :: t[i] == '-'))
  {
    AllCharIff(Trim(line), '#');
    AllCharIff(Trim(line), '-');
  }
}
