/**
 * The multipart pseudo-body parser (src/parser/multipartParser.ts): a body
 * is cut at every `--<boundary>` delimiter, each interior piece becomes a
 * part whose header lines (up to the first blank line) give its name,
 * filename and content type, and whose remaining lines give its value or,
 * after `<`, the path of a file to upload.
 *
 * Both loops of the source are methods proved to compute prefix folds
 * (`ScanPart` over the lines of a part, `CollectParts` over the pieces).
 */
module MultipartParser {
  import opened Common
  import opened Strings

  /** One part of a multipart body (src/parser/multipartTypes.ts). */
  datatype Part = Part(
    name: string,
    filename: Option<string>,
    contentType: Option<string>,
    value: Option<string>,
    filePath: Option<string>)

  datatype MultipartRequest = MultipartRequest(boundary: string, parts: seq<Part>)

  datatype ParseMultipartResult = ParseMultipartResult(success: bool, multipart: Option<MultipartRequest>, error: Option<string>)

  /** The fields a part's lines have set so far (`Partial<MultipartPart>`, without `value`). */
  datatype Draft = Draft(name: Option<string>, filename: Option<string>, contentType: Option<string>, filePath: Option<string>)

  const NoFields := Draft(None, None, None, None)

  /**
   * The loop state of `parsePart`: the trimmed header lines read so far
   * (whose fields `HeaderFields` gives), the `headersDone` flag, the file
   * path and the `valueLines` buffer.
   */
  datatype PartScan = PartScan(headerLines: seq<string>, headersDone: bool, filePath: Option<string>, valueLines: seq<string>)

  /** The first index at or after `k` holding a double quote, or the end. */
  function SkipNonQuote(s: string, k: nat): (r: nat)
    requires k <= |s|
    ensures k <= r <= |s|
    ensures r == |s| || s[r] == '"'
    decreases |s| - k
  {
    if k == |s| || s[k] == '"' then k else SkipNonQuote(s, k + 1)
  }

  /**
   * A match of `<key>="([^"]+)"` starting at `p`, as its capture. The class
   * `[^"]+` cannot contain the closing quote, so the only candidate is the
   * longest run of non-quote characters, and it must be non-empty and
   * followed by a quote.
   */
  function AttrAt(s: string, key: string, p: nat): Option<string>
    requires p <= |s|
  {
    var open := key + "=\"";
    if !OccursAt(s, open, p) then None
    else
      var q := SkipNonQuote(s, p + |open|);
      if q == p + |open| || q == |s| then None else Some(s[p + |open|..q])
  }

  function AttrFrom(s: string, key: string, p: nat): Option<string>
    requires p <= |s|
    decreases |s| - p
  {
    match AttrAt(s, key, p)
    case Some(v) => Some(v)
    case None => if p == |s| then None else AttrFrom(s, key, p + 1)
  }

  /** `s.match(/<key>="([^"]+)"/)`: the capture of the leftmost match. */
  function QuotedAttr(s: string, key: string): Option<string> {
    AttrFrom(s, key, 0)
  }

  /** `parsePartHeader`: what one trimmed header line sets. */
  function ApplyHeader(d: Draft, line: string): (r: Draft)
    ensures r.filePath == d.filePath
  {
    if StartsWithIgnoringCase(line, "content-disposition:") then
      ApplyDisposition(d, Trim(line[20..]))
    else if StartsWithIgnoringCase(line, "content-type:") then
      d.(contentType := Some(Trim(line[13..])))
    else
      match IndexOf(line, ":")
      case None => d
      case Some(colon) => ApplyKey(d, ToLower(Trim(line[..colon])), Trim(line[colon + 1..]))
  }

  /** The quoted `name` and `filename` of a `Content-Disposition` value. */
  function ApplyDisposition(d: Draft, disposition: string): (r: Draft)
    ensures r.contentType == d.contentType && r.filePath == d.filePath
  {
    var named := match QuotedAttr(disposition, "name") case Some(v) => d.(name := Some(v)) case None => d;
    match QuotedAttr(disposition, "filename") case Some(v) => named.(filename := Some(v)) case None => named
  }

  /** The simplified `key: value` header lines. */
  function ApplyKey(d: Draft, key: string, value: string): (r: Draft)
    ensures r.filePath == d.filePath
  {
    if key == "name" then d.(name := Some(value))
    else if key == "filename" then d.(filename := Some(value))
    else if key == "content-type" then d.(contentType := Some(value))
    else d
  }

  /** The fields set by header lines, applied in order. */
  function HeaderFields(headerLines: seq<string>): (d: Draft)
    ensures d.filePath.None?
  {
    if headerLines == [] then NoFields
    else ApplyHeader(HeaderFields(headerLines[..|headerLines| - 1]), headerLines[|headerLines| - 1])
  }

  lemma HeaderFieldsSnoc(headerLines: seq<string>, line: string)
    ensures HeaderFields(headerLines + [line]) == ApplyHeader(HeaderFields(headerLines), line)
  {
    assert (headerLines + [line])[..|headerLines|] == headerLines;
  }

  /** One line of a part: a blank line ends the headers, then `<` lines name a file and the rest are value lines. */
  function PartStep(s: PartScan, line: string): PartScan {
    var trimmed := Trim(line);
    if trimmed == [] then s.(headersDone := true)
    else if !s.headersDone then s.(headerLines := s.headerLines + [trimmed])
    else if StartsWith(trimmed, "<") then s.(filePath := Some(Trim(trimmed[1..])))
    else s.(valueLines := s.valueLines + [line])
  }

  /** The state of `parsePart` after the first `n` lines. */
  function ScanPart(lines: seq<string>, n: nat): PartScan
    requires n <= |lines|
  {
    if n == 0 then PartScan([], false, None, [])
    else PartStep(ScanPart(lines, n - 1), lines[n - 1])
  }

  /** The record `parsePart` has filled in. */
  function DraftOf(s: PartScan): Draft {
    HeaderFields(s.headerLines).(filePath := s.filePath)
  }

  /** JavaScript truthiness of an optional string: present and non-empty. */
  predicate Truthy(o: Option<string>) {
    o.Some? && o.value != []
  }

  /** The end of `parsePart`: the value unless a file was named, and no part without a name. */
  function FinishPart(d: Draft, valueLines: seq<string>): Option<Part> {
    var value := if !Truthy(d.filePath) && |valueLines| > 0 then Some(Trim(Join(valueLines, "\n"))) else None;
    if Truthy(d.name) then Some(Part(d.name.value, d.filename, d.contentType, value, d.filePath)) else None
  }

  /** What `parsePart` returns for a trimmed piece of the body. */
  function PartOf(section: string): Option<Part> {
    var lines := SplitLines(section);
    var s := ScanPart(lines, |lines|);
    FinishPart(DraftOf(s), s.valueLines)
  }

  /** The end of `parsePart`: sets the value and rejects a part without a name. */
  method CompletePart(draft: Draft, valueLines: seq<string>) returns (part: Option<Part>)
    ensures part == FinishPart(draft, valueLines)
  {
    var value := None;
    if !Truthy(draft.filePath) && |valueLines| > 0 {
      value := Some(Trim(Join(valueLines, "\n")));
    }
    if !Truthy(draft.name) {
      return None;
    }
    part := Some(Part(draft.name.value, draft.filename, draft.contentType, value, draft.filePath));
  }

  /**
   * One line of `parsePart`: `draft` is the record `parsePartHeader` fills
   * in place; the ghost `scan` is the state of the specification.
   */
  method ReadPartLine(line: string, draft0: Draft, headersDone0: bool, valueLines0: seq<string>, ghost scan0: PartScan)
    returns (draft: Draft, headersDone: bool, valueLines: seq<string>, ghost scan: PartScan)
    requires scan0 == PartScan(scan0.headerLines, headersDone0, draft0.filePath, valueLines0)
    requires draft0 == DraftOf(scan0)
    requires !headersDone0 ==> draft0.filePath.None?
    ensures scan == PartStep(scan0, line)
    ensures scan == PartScan(scan.headerLines, headersDone, draft.filePath, valueLines)
    ensures draft == DraftOf(scan)
    ensures !headersDone ==> draft.filePath.None?
  {
    draft, headersDone, valueLines, scan := draft0, headersDone0, valueLines0, scan0;
    var trimmed := Trim(line);
    if trimmed == [] {
      headersDone := true;
      scan := scan.(headersDone := true);
    } else if !headersDone {
      assert draft == HeaderFields(scan.headerLines);
      HeaderFieldsSnoc(scan.headerLines, trimmed);
      draft := ApplyHeader(draft, trimmed);
      scan := scan.(headerLines := scan.headerLines + [trimmed]);
    } else if StartsWith(trimmed, "<") {
      draft := draft.(filePath := Some(Trim(trimmed[1..])));
      scan := scan.(filePath := draft.filePath);
    } else {
      valueLines := valueLines + [line];
      scan := scan.(valueLines := valueLines);
    }
  }

  /** The line loop of `parsePart`: the record and the value lines after every line of the section. */
  method ScanSection(lines: seq<string>) returns (draft: Draft, valueLines: seq<string>)
    ensures draft == DraftOf(ScanPart(lines, |lines|)) && valueLines == ScanPart(lines, |lines|).valueLines
  {
    draft := NoFields;
    valueLines := [];
    var headersDone := false;
    ghost var scan := PartScan([], false, None, []);
    for i := 0 to |lines|
      invariant scan == ScanPart(lines, i)
      invariant scan == PartScan(scan.headerLines, headersDone, draft.filePath, valueLines)
      invariant draft == DraftOf(scan)
      invariant !headersDone ==> draft.filePath.None?
    {
      draft, headersDone, valueLines, scan := ReadPartLine(lines[i], draft, headersDone, valueLines, scan);
    }
  }

  /** `parsePart` */
  method ParsePart(section: string) returns (part: Option<Part>)
    ensures part == PartOf(section)
  {
    var draft, valueLines := ScanSection(SplitLines(section));
    part := CompletePart(draft, valueLines);
  }

  /** A piece of the split body, as a part: blank pieces are skipped. */
  function SectionPart(section: string): Option<Part> {
    var t := Trim(section);
    if t == [] then None else PartOf(t)
  }

  /** What each piece of the split body yields. */
  function SectionParts(sections: seq<string>): (found: seq<Option<Part>>)
    ensures |found| == |sections|
  {
    if sections == [] then []
    else SectionParts(sections[..|sections| - 1]) + [SectionPart(sections[|sections| - 1])]
  }

  lemma {:induction false} SectionPartsAt(sections: seq<string>, i: nat)
    requires i < |sections|
    ensures SectionParts(sections)[i] == SectionPart(sections[i])
  {
    if i < |sections| - 1 {
      SectionPartsAt(sections[..|sections| - 1], i);
    }
  }

  /** The parts yielded by the pieces `1 .. n - 1`, in order. */
  function CollectParts(found: seq<Option<Part>>, n: nat): seq<Part>
    requires n <= |found|
  {
    if n <= 1 then []
    else
      var prev := CollectParts(found, n - 1);
      match found[n - 1]
      case Some(p) => prev + [p]
      case None => prev
  }

  /** One iteration of `parse`: a piece is trimmed, skipped when blank, and read as a part. */
  method ReadPiece(section: string) returns (part: Option<Part>)
    ensures part == SectionPart(section)
  {
    var trimmed := Trim(section);
    if trimmed == [] {
      return None;
    }
    part := ParsePart(trimmed);
  }

  /** The delimiter the body is split at. */
  function Delimiter(boundary: string): (r: string)
    ensures r != []
  {
    "--" + boundary
  }

  const NoPartsFound := "No multipart parts found"

  /** What `parse` returns: the first and the last piece never yield a part. */
  function ParseBody(body: string, boundary: string): (r: ParseMultipartResult)
    ensures r.success <==> r.multipart.Some?
    ensures r.success ==> r.multipart.value.boundary == boundary && r.multipart.value.parts != [] && r.error.None?
    ensures !r.success ==> r.error == Some(NoPartsFound)
  {
    var sections := Split(body, Delimiter(boundary));
    var parts := CollectParts(SectionParts(sections), |sections| - 1);
    if parts == [] then ParseMultipartResult(false, None, Some(NoPartsFound))
    else ParseMultipartResult(true, Some(MultipartRequest(boundary, parts)), None)
  }

  /** One iteration of the loop of `parse`: the piece at `i` adds its part, if any. */
  method AddPiece(sections: seq<string>, i: nat, parts0: seq<Part>) returns (parts: seq<Part>)
    requires 1 <= i < |sections|
    requires parts0 == CollectParts(SectionParts(sections), i)
    ensures parts == CollectParts(SectionParts(sections), i + 1)
  {
    parts := parts0;
    var part := ReadPiece(sections[i]);
    SectionPartsAt(sections, i);
    if part.Some? {
      parts := parts + [part.value];
    }
  }

  /** The loop of `parse` over the interior pieces. */
  method CollectPieces(sections: seq<string>) returns (parts: seq<Part>)
    requires |sections| >= 1
    ensures parts == CollectParts(SectionParts(sections), |sections| - 1)
  {
    parts := [];
    var i := 1;
    while i < |sections| - 1
      invariant 1 <= i <= |sections| && (i <= |sections| - 1 || |sections| == 1)
      invariant parts == CollectParts(SectionParts(sections), i)
    {
      parts := AddPiece(sections, i, parts);
      i := i + 1;
    }
    if |sections| == 1 {
      assert CollectParts(SectionParts(sections), 0) == [];
    }
  }

  /** `parse` */
  method Parse(body: string, boundary: string) returns (r: ParseMultipartResult)
    ensures r == ParseBody(body, boundary)
  {
    var sections := Split(body, Delimiter(boundary));
    var parts := CollectPieces(sections);
    assert parts == CollectParts(SectionParts(sections), |sections| - 1);
    if |parts| == 0 {
      return ParseMultipartResult(false, None, Some(NoPartsFound));
    }
    r := ParseMultipartResult(true, Some(MultipartRequest(boundary, parts)), None);
  }

  /** A single or double quote. */
  predicate IsQuote(c: char) {
    c == '"' || c == '\''
  }

  /** `.replace(/^["']|["']$/g, '')`: one leading and one trailing quote removed, never the same character twice. */
  function Unquote(s: string): (r: string)
    ensures |r| <= |s|
  {
    var a := if s != [] && IsQuote(s[0]) then 1 else 0;
    var b := if |s| > a && IsQuote(s[|s| - 1]) then |s| - 1 else |s|;
    s[a..b]
  }

  /** The first index at or after `k` holding `;`, or the end. */
  function SkipNonSemicolon(s: string, k: nat): (r: nat)
    requires k <= |s|
    ensures k <= r <= |s|
    ensures r == |s| || s[r] == ';'
    ensures forall i | k <= i < r :: s[i] != ';'
    decreases |s| - k
  {
    if k == |s| || s[k] == ';' then k else SkipNonSemicolon(s, k + 1)
  }

  /** A match of `boundary=([^;]+)` at `p`, as its capture. */
  function BoundaryAt(s: string, p: nat): Option<string>
    requires p <= |s|
  {
    if !OccursAt(s, "boundary=", p) then None
    else
      var q := SkipNonSemicolon(s, p + 9);
      if q == p + 9 then None else Some(s[p + 9..q])
  }

  function BoundaryFrom(s: string, p: nat): Option<string>
    requires p <= |s|
    decreases |s| - p
  {
    match BoundaryAt(s, p)
    case Some(v) => Some(v)
    case None => if p == |s| then None else BoundaryFrom(s, p + 1)
  }

  /** The search finds a value exactly when some position from `p` on starts `boundary=` and a non-`;` character. */
  lemma {:induction false} BoundaryFromSomeIff(s: string, p: nat)
    requires p <= |s|
    ensures BoundaryFrom(s, p).Some? <==> exists q | p <= q <= |s| :: BoundaryAt(s, q).Some?
    decreases |s| - p
  {
    if BoundaryAt(s, p).None? && p < |s| {
      BoundaryFromSomeIff(s, p + 1);
      if exists q | p <= q <= |s| :: BoundaryAt(s, q).Some? {
        var q :| p <= q <= |s| && BoundaryAt(s, q).Some?;
        assert q != p;
      }
    }
  }

  /**
   * `extractBoundary`: the leftmost `boundary=` value, trimmed and unquoted,
   * or `null`; a value exists exactly when some `boundary=` is followed by
   * a character other than `;`.
   */
  function ExtractBoundary(contentType: string): (r: Option<string>)
    ensures r.Some? <==> exists q | 0 <= q <= |contentType| :: BoundaryAt(contentType, q).Some?
  {
    BoundaryFromSomeIff(contentType, 0);
    match BoundaryFrom(contentType, 0)
    case Some(v) => Some(Unquote(Trim(v)))
    case None => None
  }

  const BoundaryPrefix := "----WebKitFormBoundary"

  /**
   * `generateBoundary`, given the text of the random number in base 36
   * (`Math.random().toString(36)`), of which characters 2 to 14 are kept.
   */
  function GenerateBoundary(random36: string): (r: string)
    ensures StartsWith(r, BoundaryPrefix)
    ensures |r| <= |BoundaryPrefix| + 13
  {
    var from := if |random36| < 2 then |random36| else 2;
    var to := if |random36| < 15 then |random36| else 15;
    BoundaryPrefix + random36[from..to]
  }

  // ---------------------------------------------------------------------
  // Properties of the multipart parser
  // ---------------------------------------------------------------------

  /** With fewer than three pieces there is no interior piece, so parsing fails. */
  lemma FewPiecesFail(body: string, boundary: string)
    requires |Split(body, Delimiter(boundary))| < 3
    ensures ParseBody(body, boundary) == ParseMultipartResult(false, None, Some(NoPartsFound))
  {
    var sections := Split(body, Delimiter(boundary));
    assert CollectParts(SectionParts(sections), |sections| - 1) == [];
  }

  /**
   * The parts are exactly those the interior pieces yield, in the order of
   * the pieces: `idx` lists the pieces they come from.
   */
  lemma {:induction false} PartsInOrder(found: seq<Option<Part>>, n: nat) returns (idx: seq<nat>)
    requires n <= |found|
    ensures |idx| == |CollectParts(found, n)|
    ensures forall k | 0 <= k < |idx| :: 1 <= idx[k] < n && found[idx[k]] == Some(CollectParts(found, n)[k])
    ensures forall j, k | 0 <= j < k < |idx| :: idx[j] < idx[k]
    ensures forall j | 1 <= j < n :: found[j].Some? <==> j in idx
  {
    if n <= 1 {
      idx := [];
    } else {
      var prev := PartsInOrder(found, n - 1);
      if found[n - 1].Some? {
        idx := prev + [n - 1];
      } else {
        idx := prev;
      }
    }
  }

  /** A part has a non-empty name; it is dropped exactly when no name, or an empty one, was given. */
  lemma PartNamed(section: string)
    ensures var d := DraftOf(ScanPart(SplitLines(section), |SplitLines(section)|));
      && (PartOf(section).None? <==> d.name.None? || d.name == Some(""))
      && (PartOf(section).Some? ==> Some(PartOf(section).value.name) == d.name && PartOf(section).value.name != [])
  {
  }

  /** A value is only kept when no file path (or an empty one) was given, so a part names a file or carries a value. */
  lemma ValueOrFile(section: string)
    requires PartOf(section).Some?
    ensures var p := PartOf(section).value;
      p.value.Some? ==> p.filePath.None? || p.filePath == Some("")
  {
  }

  /** The first `n` lines, trimmed. */
  function TrimmedLines(lines: seq<string>, n: nat): (r: seq<string>)
    requires n <= |lines|
    ensures |r| == n
  {
    if n == 0 then [] else TrimmedLines(lines, n - 1) + [Trim(lines[n - 1])]
  }

  /** The value lines among lines `a .. n - 1`: those neither blank nor starting with `<`. */
  function ValueLinesIn(lines: seq<string>, a: nat, n: nat): seq<string>
    requires a <= n <= |lines|
    decreases n - a
  {
    if n == a then []
    else
      var t := Trim(lines[n - 1]);
      var prev := ValueLinesIn(lines, a, n - 1);
      if t == [] || StartsWith(t, "<") then prev else prev + [lines[n - 1]]
  }

  /** The file named by the last `<` line among lines `a .. n - 1`. */
  function FileIn(lines: seq<string>, a: nat, n: nat): Option<string>
    requires a <= n <= |lines|
    decreases n - a
  {
    if n == a then None
    else
      var t := Trim(lines[n - 1]);
      if t != [] && StartsWith(t, "<") then Some(Trim(t[1..])) else FileIn(lines, a, n - 1)
  }

  /** The index of the first blank line, if any. */
  predicate FirstBlankAt(lines: seq<string>, h: nat) {
    h < |lines| && Trim(lines[h]) == [] && forall k | 0 <= k < h :: Trim(lines[k]) != []
  }

  /** Before the first blank line every line is a header line. */
  lemma {:induction false} HeadersUntilBlank(lines: seq<string>, n: nat)
    requires n <= |lines|
    requires forall k | 0 <= k < n :: Trim(lines[k]) != []
    ensures ScanPart(lines, n) == PartScan(TrimmedLines(lines, n), false, None, [])
  {
    if n > 0 {
      HeadersUntilBlank(lines, n - 1);
    }
  }

  /**
   * After the first blank line the header lines are frozen, the file path
   * is that of the last `<` line and the value lines are the other
   * non-blank lines, in order.
   */
  lemma {:induction false} ContentAfterBlank(lines: seq<string>, h: nat, n: nat)
    requires FirstBlankAt(lines, h) && h < n <= |lines|
    ensures ScanPart(lines, n) == PartScan(TrimmedLines(lines, h), true, FileIn(lines, h + 1, n), ValueLinesIn(lines, h + 1, n))
  {
    if n == h + 1 {
      HeadersUntilBlank(lines, h);
    } else {
      var m := n - 1;
      ContentAfterBlank(lines, h, m);
      ContentStep(lines, h, m, n);
    }
  }

  /** One more line after the blank line: the headers stay, and the line adds to the file or the value lines. */
  lemma ContentStep(lines: seq<string>, h: nat, m: nat, n: nat)
    requires FirstBlankAt(lines, h) && h + 1 <= m && n == m + 1 && n <= |lines|
    requires ScanPart(lines, m) == PartScan(TrimmedLines(lines, h), true, FileIn(lines, h + 1, m), ValueLinesIn(lines, h + 1, m))
    ensures ScanPart(lines, n) == PartScan(TrimmedLines(lines, h), true, FileIn(lines, h + 1, n), ValueLinesIn(lines, h + 1, n))
  {
    var t := Trim(lines[m]);
    assert lines[n - 1] == lines[m];
    assert ScanPart(lines, n) == PartStep(ScanPart(lines, m), lines[m]);
    if t == [] || StartsWith(t, "<") {
      assert ValueLinesIn(lines, h + 1, n) == ValueLinesIn(lines, h + 1, m);
    } else {
      assert ValueLinesIn(lines, h + 1, n) == ValueLinesIn(lines, h + 1, m) + [lines[m]];
      assert FileIn(lines, h + 1, n) == FileIn(lines, h + 1, m);
    }
  }

  /**
   * What a part with a blank line holds: the fields of the header lines
   * before it, and the value or file of the lines after it.
   */
  lemma PartContent(section: string, h: nat)
    requires FirstBlankAt(SplitLines(section), h)
    requires PartOf(section).Some?
    ensures var lines := SplitLines(section); var p := PartOf(section).value;
      var hd := HeaderFields(TrimmedLines(lines, h)); var values := ValueLinesIn(lines, h + 1, |lines|);
      && Some(p.name) == hd.name && p.filename == hd.filename && p.contentType == hd.contentType
      && p.filePath == FileIn(lines, h + 1, |lines|)
      && p.value == if !Truthy(p.filePath) && values != [] then Some(Trim(Join(values, "\n"))) else None
  {
    var lines := SplitLines(section);
    ContentAfterBlank(lines, h, |lines|);
  }

  /** A part without a blank line has only headers: no value and no file. */
  lemma PartWithoutBlank(section: string)
    requires forall k | 0 <= k < |SplitLines(section)| :: Trim(SplitLines(section)[k]) != []
    requires PartOf(section).Some?
    ensures PartOf(section).value.value.None? && PartOf(section).value.filePath.None?
  {
    var lines := SplitLines(section);
    HeadersUntilBlank(lines, |lines|);
  }

  /**
   * `Content-Disposition:` is recognised in any letter case; its quoted
   * `name` and `filename` replace the earlier ones, and nothing else changes.
   */
  lemma DispositionAnyCase(d: Draft, line: string)
    requires StartsWith(ToLower(line), "content-disposition:")
    ensures var disposition := Trim(line[20..]); var r := ApplyHeader(d, line);
      && r.name == (if QuotedAttr(disposition, "name").Some? then QuotedAttr(disposition, "name") else d.name)
      && r.filename == (if QuotedAttr(disposition, "filename").Some? then QuotedAttr(disposition, "filename") else d.filename)
      && r.contentType == d.contentType && r.filePath == d.filePath
  {
    StartsWithIgnoringCaseIff(line, "content-disposition:");
  }

  /** `Content-Type:` is recognised in any letter case and sets only the content type. */
  lemma ContentTypeAnyCase(d: Draft, line: string)
    requires StartsWith(ToLower(line), "content-type:")
    ensures ApplyHeader(d, line) == d.(contentType := Some(Trim(line[13..])))
  {
    StartsWithIgnoringCaseIff(line, "content-type:");
    assert ToLower(line)[..13][8] == 't';
    ToLowerAt(line, 8);
    MismatchIgnoringCase(line, "content-disposition:", 8);
  }

  /**
   * Any other line with a colon is read as `key: value`, the key trimmed
   * and lower-cased and the value trimmed, split at the first colon.
   */
  lemma KeyLine(d: Draft, line: string, colon: nat)
    requires colon < |line| && line[colon] == ':' && forall j | 0 <= j < colon :: line[j] != ':'
    requires !StartsWithIgnoringCase(line, "content-disposition:") && !StartsWithIgnoringCase(line, "content-type:")
    ensures ApplyHeader(d, line) == ApplyKey(d, ToLower(Trim(line[..colon])), Trim(line[colon + 1..]))
  {
    assert OccursAt(line, ":", colon);
    forall j | 0 <= j < colon
      ensures !OccursAt(line, ":", j)
    {
      MismatchAt(line, ":", j, 0);
    }
    IndexOfIs(line, ":", colon);
  }

  /** A line with no colon and neither prefix changes nothing. */
  lemma UnknownLine(d: Draft, line: string)
    requires forall j | 0 <= j < |line| :: line[j] != ':'
    requires !StartsWithIgnoringCase(line, "content-disposition:") && !StartsWithIgnoringCase(line, "content-type:")
    ensures ApplyHeader(d, line) == d
  {
    forall j | 0 <= j < |line|
      ensures !OccursAt(line, ":", j)
    {
      MismatchAt(line, ":", j, 0);
    }
    IndexOfFirst(line, ":");
  }

  /** A lower-case key without surrounding spaces is read as itself. */
  lemma PlainKey(key: string)
    requires key != [] && !IsSpace(key[0]) && !IsSpace(key[|key| - 1])
    requires forall i | 0 <= i < |key| :: 'a' <= key[i] <= 'z'
    ensures ToLower(Trim(key)) == key
  {
    TrimmedIsFixed(key);
    LowerCaseFixed(key);
  }

  /** The simplified `name:` line sets the name to the trimmed rest of the line. */
  lemma NameLine(d: Draft, v: string)
    ensures ApplyHeader(d, "name:" + v) == d.(name := Some(Trim(v)))
  {
    var line := "name:" + v;
    MismatchIgnoringCase(line, "content-disposition:", 0);
    MismatchIgnoringCase(line, "content-type:", 0);
    var key := "name";
    assert line[..4] == key && line[5..] == v;
    assert forall j | 0 <= j < 4 :: line[j] == key[j] && 'a' <= key[j] <= 'z';
    PlainKey(key);
    KeyLine(d, line, 4);
  }

  /** The simplified `filename:` line sets the file name to the trimmed rest of the line. */
  lemma FilenameLine(d: Draft, v: string)
    ensures ApplyHeader(d, "filename:" + v) == d.(filename := Some(Trim(v)))
  {
    var line := "filename:" + v;
    MismatchIgnoringCase(line, "content-disposition:", 0);
    MismatchIgnoringCase(line, "content-type:", 0);
    var key := "filename";
    assert line[..8] == key && line[9..] == v;
    assert forall j | 0 <= j < 8 :: line[j] == key[j] && 'a' <= key[j] <= 'z';
    PlainKey(key);
    KeyLine(d, line, 8);
  }

  lemma NoQuoteRun(s: string, a: nat, b: nat)
    requires a <= b < |s| && s[b] == '"'
    requires forall i | a <= i < b :: s[i] != '"'
    ensures SkipNonQuote(s, a) == b
    decreases b - a
  {
    if a < b {
      NoQuoteRun(s, a + 1, b);
    }
  }

  /** `key="v"` at index `|pre|` of a text is read back as `v`. */
  lemma AttrAtValue(pre: string, key: string, v: string, rest: string)
    requires v != [] && forall i | 0 <= i < |v| :: v[i] != '"'
    ensures AttrAt(pre + key + "=\"" + v + "\"" + rest, key, |pre|) == Some(v)
  {
    var open := key + "=\"";
    var s := pre + open + v + "\"" + rest;
    var a := |pre| + |open|;
    assert s == pre + key + "=\"" + v + "\"" + rest;
    assert s[|pre|..a] == open;
    assert s[a + |v|] == '"';
    NoQuoteRun(s, a, a + |v|);
    assert s[a..a + |v|] == v;
  }

  /** The leftmost match is the first position from `p` where the pattern matches. */
  lemma {:induction false} AttrFromFirst(s: string, key: string, p: nat, q: nat)
    requires p <= q <= |s| && AttrAt(s, key, q).Some?
    requires forall j | p <= j < q :: !OccursAt(s, key + "=\"", j)
    ensures AttrFrom(s, key, p) == AttrAt(s, key, q)
    decreases q - p
  {
    if p < q {
      AttrFromFirst(s, key, p + 1, q);
    }
  }

  /**
   * In `filename="f"; name="n"` the leftmost `name="` is the one inside
   * `filename="`, so the part is named `f`.
   */
  lemma NameInsideFilename(f: string, n: string)
    requires f != [] && forall i | 0 <= i < |f| :: f[i] != '"'
    ensures QuotedAttr("filename=\"" + f + "\"; name=\"" + n + "\"", "name") == Some(f)
  {
    var rest := "; name=\"" + n + "\"";
    var s := "file" + "name" + "=\"" + f + "\"" + rest;
    assert s == "filename=\"" + f + "\"; name=\"" + n + "\"";
    AttrAtValue("file", "name", f, rest);
    var open := "name" + "=\"";
    forall j | 0 <= j < 4
      ensures !OccursAt(s, open, j)
    {
      assert s[j] == "file"[j] != 'n' == open[0];
      MismatchAt(s, open, j, 0);
    }
    AttrFromFirst(s, "name", 0, 4);
  }


  /** A value with no `;` after `boundary=`, up to a `;` or the end, is read whole. */
  lemma BoundaryAtValue(pre: string, v: string, rest: string)
    requires v != [] && forall i | 0 <= i < |v| :: v[i] != ';'
    requires rest == [] || rest[0] == ';'
    ensures BoundaryAt(pre + "boundary=" + v + rest, |pre|) == Some(v)
  {
    var s := pre + "boundary=" + v + rest;
    var a := |pre| + 9;
    assert s[|pre|..a] == "boundary=";
    assert s[a..a + |v|] == v;
    assert forall i | a <= i < a + |v| :: s[i] == v[i - a];
    assert a + |v| == |s| || s[a + |v|] == ';';
    SkipNonSemicolonTo(s, a, a + |v|);
  }

  lemma {:induction false} SkipNonSemicolonTo(s: string, a: nat, b: nat)
    requires a <= b <= |s|
    requires forall i | a <= i < b :: s[i] != ';'
    requires b == |s| || s[b] == ';'
    ensures SkipNonSemicolon(s, a) == b
    decreases b - a
  {
    if a < b {
      SkipNonSemicolonTo(s, a + 1, b);
    }
  }

  /** The leftmost `boundary=` with a value decides the search. */
  lemma {:induction false} BoundaryFromFirst(s: string, p: nat, q: nat)
    requires p <= q <= |s| && BoundaryAt(s, q).Some?
    requires forall j | p <= j < q :: !OccursAt(s, "boundary=", j)
    ensures BoundaryFrom(s, p) == BoundaryAt(s, q)
    decreases q - p
  {
    if p < q {
      BoundaryFromFirst(s, p + 1, q);
    }
  }

  /** Without any `boundary=` there is no boundary (`null`). */
  lemma {:induction false} NoBoundaryFrom(s: string, p: nat)
    requires p <= |s|
    requires forall j | p <= j <= |s| :: !OccursAt(s, "boundary=", j)
    ensures BoundaryFrom(s, p).None?
    decreases |s| - p
  {
    if p < |s| {
      NoBoundaryFrom(s, p + 1);
    }
  }

  /** A content type with no `boundary=` in it gives no boundary. */
  lemma NoBoundary(contentType: string)
    requires forall j | 0 <= j <= |contentType| :: !OccursAt(contentType, "boundary=", j)
    ensures ExtractBoundary(contentType).None?
  {
    NoBoundaryFrom(contentType, 0);
  }

  /**
   * The first `boundary=` of a content type gives its value up to the next
   * `;`, trimmed and with its surrounding quotes removed.
   */
  lemma ExtractedBoundary(pre: string, v: string, rest: string)
    requires v != [] && forall i | 0 <= i < |v| :: v[i] != ';'
    requires rest == [] || rest[0] == ';'
    requires forall j | 0 <= j < |pre| :: !OccursAt(pre + "boundary=" + v + rest, "boundary=", j)
    ensures ExtractBoundary(pre + "boundary=" + v + rest) == Some(Unquote(Trim(v)))
  {
    BoundaryAtValue(pre, v, rest);
    BoundaryFromFirst(pre + "boundary=" + v + rest, 0, |pre|);
  }

  /** A boundary written between quotes of either kind is read without them. */
  lemma QuotedBoundary(pre: string, q: char, b: string, rest: string)
    requires IsQuote(q) && forall i | 0 <= i < |b| :: b[i] != ';'
    requires rest == [] || rest[0] == ';'
    requires forall j | 0 <= j < |pre| :: !OccursAt(pre + "boundary=" + ([q] + b + [q]) + rest, "boundary=", j)
    ensures ExtractBoundary(pre + "boundary=" + ([q] + b + [q]) + rest) == Some(b)
  {
    var v := [q] + b + [q];
    assert forall i | 0 <= i < |v| :: v[i] != ';' by {
      forall i | 0 <= i < |v| ensures v[i] != ';' {
        if 0 < i < |v| - 1 { assert v[i] == b[i - 1]; }
      }
    }
    ExtractedBoundary(pre, v, rest);
    TrimmedIsFixed(v);
    assert v[1..|v| - 1] == b;
  }
}
