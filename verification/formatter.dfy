/**
 * The response-body formatter (src/utils/formatter.ts): which format a
 * `Content-Type` names, the simple tag-per-line XML/HTML layout, and the
 * cut-off for long bodies.
 */
module Formatter {
  import opened Common
  import opened Strings

  // ---------------------------------------------------------------------
  // Content type
  // ---------------------------------------------------------------------

  datatype FormatType = Json | Xml | Html | Text

  /** `detectContentType`: the first of json, xml and html whose media type the lower-cased header mentions. */
  function DetectContentType(contentType: string): (r: FormatType)
    ensures r == Text <==>
      var lower := ToLower(contentType);
      && !Contains(lower, "application/json") && !Contains(lower, "text/json")
      && !Contains(lower, "application/xml") && !Contains(lower, "text/xml") && !Contains(lower, "text/html")
  {
    var lower := ToLower(contentType);
    if Contains(lower, "application/json") || Contains(lower, "text/json") then Json
    else if Contains(lower, "application/xml") || Contains(lower, "text/xml") then Xml
    else if Contains(lower, "text/html") then Html
    else Text
  }

  /** Lower-casing a character after upper-casing it is lower-casing it. */
  lemma {:induction false} LowerOfUpper(s: string)
    ensures ToLower(ToUpper(s)) == ToLower(s)
    ensures ToLower(ToLower(s)) == ToLower(s)
  {
    forall i | 0 <= i < |s|
      ensures ToLower(ToUpper(s))[i] == ToLower(s)[i]
      ensures ToLower(ToLower(s))[i] == ToLower(s)[i]
    {
      ToLowerAt(ToUpper(s), i);
      ToLowerAt(ToLower(s), i);
      ToLowerAt(s, i);
    }
  }

  /** The detection ignores case: a header, its upper-case and its lower-case forms name the same format. */
  lemma DetectIgnoresCase(contentType: string)
    ensures DetectContentType(ToUpper(contentType)) == DetectContentType(contentType)
    ensures DetectContentType(ToLower(contentType)) == DetectContentType(contentType)
  {
    LowerOfUpper(contentType);
  }

  /** A header that mentions `application/json` anywhere, in any case, is JSON whatever else it says. */
  lemma JsonWins(contentType: string, i: nat)
    requires OccursAt(ToLower(contentType), "application/json", i)
    ensures DetectContentType(contentType) == Json
  {
    ContainsAt(ToLower(contentType), "application/json", i);
  }

  /** `text/json` is JSON as much as `application/json` is. */
  lemma TextJsonIsJson(contentType: string, i: nat)
    requires OccursAt(ToLower(contentType), "text/json", i)
    ensures DetectContentType(contentType) == Json
  {
    ContainsAt(ToLower(contentType), "text/json", i);
  }

  /** An XML media type wins over `text/html` when no JSON type is mentioned. */
  lemma XmlWins(contentType: string, xml: string, i: nat)
    requires xml == "application/xml" || xml == "text/xml"
    requires OccursAt(ToLower(contentType), xml, i)
    requires !Contains(ToLower(contentType), "application/json") && !Contains(ToLower(contentType), "text/json")
    ensures DetectContentType(contentType) == Xml
  {
    ContainsAt(ToLower(contentType), xml, i);
  }

  /** A header that mentions `text/html` but no JSON or XML media type is HTML. */
  lemma HtmlWhenOnlyHtml(contentType: string, i: nat)
    requires OccursAt(ToLower(contentType), "text/html", i)
    requires !Contains(ToLower(contentType), "application/json") && !Contains(ToLower(contentType), "text/json")
    requires !Contains(ToLower(contentType), "application/xml") && !Contains(ToLower(contentType), "text/xml")
    ensures DetectContentType(contentType) == Html
  {
    ContainsAt(ToLower(contentType), "text/html", i);
  }

  /** A header too short to mention any media type, the empty one included, is plain text. */
  lemma ShortIsText(contentType: string)
    requires |contentType| < 8
    ensures DetectContentType(contentType) == Text
  {
    var lower := ToLower(contentType);
    IndexOfFirst(lower, "application/json");
    IndexOfFirst(lower, "text/json");
    IndexOfFirst(lower, "application/xml");
    IndexOfFirst(lower, "text/xml");
    IndexOfFirst(lower, "text/html");
  }

  // ---------------------------------------------------------------------
  // XML and HTML layout
  // ---------------------------------------------------------------------

  /** The end of a match of `/>\s*</` at `p`: a `>`, a run of whitespace, then `<`. */
  function BreakEnd(s: string, p: nat): (r: Option<nat>)
    requires p < |s|
    ensures r.Some? ==> p + 2 <= r.value <= |s| && s[p] == '>' && s[r.value - 1] == '<'
  {
    if s[p] != '>' then None
    else
      var q := SkipSpaces(s, p + 1);
      if q < |s| && s[q] == '<' then Some(q + 1) else None
  }

  /** The pieces of `s[start..]` between matches of `/>\s*</`, searching from `p`. */
  function PiecesFrom(s: string, start: nat, p: nat): (r: seq<string>)
    requires start <= p <= |s|
    ensures |r| >= 1
    decreases |s| - p
  {
    if p == |s| then [s[start..]]
    else
      var e := BreakEnd(s, p);
      if e.Some? then [s[start..p]] + PiecesFrom(s, e.value, e.value)
      else PiecesFrom(s, start, p + 1)
  }

  /** `body.split(/>\s*</)` */
  function SplitTags(body: string): seq<string> {
    PiecesFrom(body, 0, 0)
  }

  /** `part` holds no match of `/>\s*</`. */
  predicate BreakFree(part: string) {
    forall x | 0 <= x < |part| :: BreakEnd(part, x).None?
  }

  /**
   * A position of a break-free part starts no match in a text that holds
   * the part followed by `>` or by the end of the text.
   */
  lemma NoBreakInPart(s: string, off: nat, part: string, x: nat)
    requires off + |part| <= |s| && s[off..off + |part|] == part
    requires off + |part| == |s| || s[off + |part|] == '>'
    requires x < |part| && BreakEnd(part, x).None?
    ensures BreakEnd(s, off + x).None?
  {
    assert s[off + x] == part[x];
    if part[x] == '>' {
      var q := SkipSpaces(part, x + 1);
      forall i | off + x + 1 <= i < off + q
        ensures IsSpace(s[i])
      {
        assert s[i] == part[i - off];
      }
      if q < |part| {
        assert s[off + q] == part[q];
      }
      SkipSpacesTo(s, off + x + 1, off + q);
    }
  }

  /** The search for a break passes over positions that start none. */
  lemma {:induction false} PassOver(s: string, start: nat, p: nat, q: nat)
    requires start <= p <= q <= |s|
    requires forall x | p <= x < q :: BreakEnd(s, x).None?
    ensures PiecesFrom(s, start, p) == PiecesFrom(s, start, q)
    decreases q - p
  {
    if p < q {
      PassOver(s, start, p + 1, q);
    }
  }

  /** A break-free part that ends the text is its last piece. */
  lemma FinalPiece(s: string, off: nat)
    requires off <= |s| && BreakFree(s[off..])
    ensures PiecesFrom(s, off, off) == [s[off..]]
  {
    forall x | off <= x < |s|
      ensures BreakEnd(s, x).None?
    {
      NoBreakInPart(s, off, s[off..], x - off);
    }
    PassOver(s, off, off, |s|);
  }

  /** A break-free part followed by `><` is the next piece, and the search goes on after the `<`. */
  lemma NextPiece(s: string, off: nat, m: nat)
    requires off <= m && m + 2 <= |s| && BreakFree(s[off..m]) && s[m] == '>' && s[m + 1] == '<'
    ensures PiecesFrom(s, off, off) == [s[off..m]] + PiecesFrom(s, m + 2, m + 2)
  {
    forall x | off <= x < m
      ensures BreakEnd(s, x).None?
    {
      NoBreakInPart(s, off, s[off..m], x - off);
    }
    PassOver(s, off, off, m);
    SkipSpacesTo(s, m + 1, m + 1);
  }

  /** The pieces of a text that ends with break-free parts joined by `><` are those parts. */
  lemma {:induction false} PiecesOfJoin(s: string, off: nat, parts: seq<string>)
    requires parts != [] && forall i | 0 <= i < |parts| :: BreakFree(parts[i])
    requires off <= |s| && s[off..] == Join(parts, "><")
    ensures PiecesFrom(s, off, off) == parts
    decreases |parts|
  {
    if |parts| == 1 {
      FinalPiece(s, off);
    } else {
      var m := off + |parts[0]|;
      JoinHead(s, off, parts, m);
      NextPiece(s, off, m);
      PiecesOfJoin(s, m + 2, parts[1..]);
    }
  }

  /** A text ending with several parts joined by `><`: the first part, `><`, then the others joined. */
  lemma JoinHead(s: string, off: nat, parts: seq<string>, m: nat)
    requires |parts| > 1 && off <= |s| && s[off..] == Join(parts, "><") && m == off + |parts[0]|
    ensures m + 2 <= |s| && s[off..m] == parts[0] && s[m] == '>' && s[m + 1] == '<'
    ensures s[m + 2..] == Join(parts[1..], "><")
  {
    var rest := Join(parts[1..], "><");
    assert s[off..] == parts[0] + "><" + rest;
    assert s[off..m] == parts[0] && s[m] == '>' && s[m + 1] == '<';
    assert s[m + 2..] == rest;
  }

  /** Splitting break-free parts joined by `><` gives the parts back. */
  lemma SplitJoined(parts: seq<string>)
    requires parts != [] && forall i | 0 <= i < |parts| :: BreakFree(parts[i])
    ensures SplitTags(Join(parts, "><")) == parts
  {
    PiecesOfJoin(Join(parts, "><"), 0, parts);
  }

  /** Each piece gets back the `<` and `>` the split removed: `<` unless it is the first, `>` unless it is the last. */
  function Bracketed(pieces: seq<string>): (lines: seq<string>)
    ensures |lines| == |pieces|
  {
    seq(|pieces|, i requires 0 <= i < |pieces| =>
      (if i > 0 then "<" else "") + pieces[i] + (if i < |pieces| - 1 then ">" else ""))
  }

  /** `/^<\/\w/`: the line starts a closing tag. */
  predicate IsClosingTag(line: string) {
    |line| >= 3 && line[0] == '<' && line[1] == '/' && IsWordChar(line[2])
  }

  /**
   * `/^<\w[^>]*[^\/]>$/` as written: `<`, a word character, characters
   * other than `>`, one character other than `/`, and a final `>`. The
   * word character and the last character before `>` are two different
   * characters, so a one-letter tag such as `<p>` does not match.
   */
  predicate OpensAsWritten(line: string) {
    && |line| >= 4 && line[0] == '<' && IsWordChar(line[1])
    && line[|line| - 1] == '>' && line[|line| - 2] != '/'
    && forall i | 2 <= i < |line| - 2 :: line[i] != '>'
  }

  /** An opening tag that is not self-closing, one-letter tags included: `/^<\w([^>]*[^\/])?>$/`. */
  predicate IsOpeningTag(line: string) {
    OpensAsWritten(line) || (|line| == 3 && line[0] == '<' && IsWordChar(line[1]) && line[2] == '>')
  }

  /** The opening-tag test the layout uses. */
  function Opening(): string -> bool {
    (line: string) => IsOpeningTag(line)
  }

  /** The opening-tag test exactly as the source writes it. */
  function OpeningAsWritten(): string -> bool {
    (line: string) => OpensAsWritten(line)
  }

  /** The text laid out so far and the current indent. */
  datatype Layout = Layout(text: string, indent: nat)

  function Spaces(n: nat): (r: string)
    ensures |r| == n && forall i | 0 <= i < n :: r[i] == ' '
  {
    seq(n, i => ' ')
  }

  /**
   * One line of the `forEach`: a closing tag first takes two off the indent
   * (never below zero), the trimmed line is written at the indent, and an
   * opening tag then adds two.
   */
  function Place(layout: Layout, line: string, opens: string -> bool): Layout {
    var indent: nat := if IsClosingTag(line) then (if layout.indent >= 2 then layout.indent - 2 else 0) else layout.indent;
    Layout(layout.text + Spaces(indent) + Trim(line) + "\n", if opens(line) then indent + 2 else indent)
  }

  /** The layout of a sequence of lines, from empty text at indent zero. */
  function LayOut(opens: string -> bool, lines: seq<string>): Layout
    decreases |lines|
  {
    if lines == [] then Layout("", 0)
    else Place(LayOut(opens, lines[..|lines| - 1]), lines[|lines| - 1], opens)
  }

  /** What `formatXml` returns for `body`, with the opening-tag test as written. */
  function XmlLayout(body: string): string {
    Trim(LayOut(OpeningAsWritten(), Bracketed(SplitTags(body))).text)
  }

  /** The layout `formatXml` evidently intends: one-letter opening tags indent what follows too. */
  function CorrectedXmlLayout(body: string): string {
    Trim(LayOut(Opening(), Bracketed(SplitTags(body))).text)
  }

  /** The start of the `forEach` body: piece `i` with its `<` and `>` put back. */
  method BracketPiece(pieces: seq<string>, i: nat) returns (line: string)
    requires i < |pieces|
    ensures line == Bracketed(pieces)[i]
  {
    line := pieces[i];
    if i > 0 {
      line := "<" + line;
    }
    if i < |pieces| - 1 {
      line := line + ">";
    }
  }

  /** The rest of the `forEach` body: one line written at the indent, the indent updated around it. */
  method PlaceLine(text: string, indent: nat, line: string) returns (text': string, indent': nat)
    ensures Layout(text', indent') == Place(Layout(text, indent), line, OpeningAsWritten())
  {
    indent' := indent;
    if IsClosingTag(line) {
      indent' := if indent' >= 2 then indent' - 2 else 0;
    }
    text' := text + Spaces(indent') + Trim(line) + "\n";
    if OpensAsWritten(line) {
      indent' := indent' + 2;
    }
  }

  /** `formatXml`: the `forEach` over the pieces, one line per piece. */
  method FormatXml(body: string) returns (formatted: string)
    ensures formatted == XmlLayout(body)
  {
    var pieces := SplitTags(body);
    ghost var lines := Bracketed(pieces);
    var text := "";
    var indent: nat := 0;
    for i := 0 to |pieces|
      invariant Layout(text, indent) == LayOut(OpeningAsWritten(), lines[..i])
    {
      var line := BracketPiece(pieces, i);
      text, indent := PlaceLine(text, indent, line);
      assert lines[..i + 1][..i] == lines[..i];
    }
    assert lines[..|pieces|] == lines;
    formatted := Trim(text);
  }

  /** A body without any `>` ... `<` boundary is laid out as one line: it only loses its surrounding whitespace. */
  lemma PlainTextIsTrimmed(body: string)
    requires BreakFree(body)
    ensures XmlLayout(body) == Trim(body)
  {
    assert Join([body], "><") == body;
    SplitJoined([body]);
    var lines := Bracketed([body]);
    assert lines[0] == "" + body + "" == body;
    assert lines == [body];
    assert lines[..0] == [];
    var placed := Place(Layout("", 0), body, OpeningAsWritten());
    assert LayOut(OpeningAsWritten(), lines) == placed;
    assert Spaces(0) == [];
    assert placed.text == Trim(body) + "\n";
    TrimmedPlusSpace(Trim(body), '\n');
  }

  /** `format(body, 'html')` is `formatHtml`, which is `formatXml`. */
  function Format(body: string, format: FormatType, prettyJson: string -> Option<string>): (r: string)
    ensures format == Text ==> r == body
    ensures format == Json && prettyJson(body).None? ==> r == body
    ensures format == Html || format == Xml ==> r == XmlLayout(body)
  {
    if format == Json then (if prettyJson(body).Some? then prettyJson(body).value else body)
    else if format == Xml || format == Html then XmlLayout(body)
    else body
  }

  // ---------------------------------------------------------------------
  // Nesting depth
  // ---------------------------------------------------------------------

  /** Opening tags minus closing tags among `lines`, by the opening-tag test `opens`. */
  function Depth(opens: string -> bool, lines: seq<string>): int
    decreases |lines|
  {
    if lines == [] then 0
    else
      var last := lines[|lines| - 1];
      Depth(opens, lines[..|lines| - 1]) + (if opens(last) then 1 else 0) - (if IsClosingTag(last) then 1 else 0)
  }

  /** No prefix closes more tags than it opened. */
  predicate WellNested(opens: string -> bool, lines: seq<string>) {
    forall k | 0 <= k <= |lines| :: Depth(opens, lines[..k]) >= 0
  }

  /** No line is both an opening tag under `opens` and a closing tag. */
  predicate OpensNeverClose(opens: string -> bool, lines: seq<string>) {
    forall i | 0 <= i < |lines| :: !(opens(lines[i]) && IsClosingTag(lines[i]))
  }

  /**
   * Whatever the opening-tag test, the indent of a well-nested layout is
   * twice the number of lines that test opens minus the closing lines.
   */
  lemma {:induction false} IndentTracksDepth(opens: string -> bool, lines: seq<string>)
    requires OpensNeverClose(opens, lines) && WellNested(opens, lines)
    ensures LayOut(opens, lines).indent == 2 * Depth(opens, lines)
    decreases |lines|
  {
    if lines != [] {
      var init := lines[..|lines| - 1];
      forall k | 0 <= k <= |init|
        ensures Depth(opens, init[..k]) >= 0
      {
        assert init[..k] == lines[..k];
      }
      assert forall i | 0 <= i < |init| :: init[i] == lines[i];
      IndentTracksDepth(opens, init);
      assert lines[..|lines|] == lines;
    }
  }

  /**
   * The indent `formatXml` keeps, with its test as written, is twice the
   * number of multi-letter opening tags minus the closing tags: a
   * one-letter tag such as `<p>` is not counted, while `</p>` is.
   */
  lemma AsWrittenIndentTracksDepth(lines: seq<string>)
    requires WellNested(OpeningAsWritten(), lines)
    ensures LayOut(OpeningAsWritten(), lines).indent == 2 * Depth(OpeningAsWritten(), lines)
  {
    IndentTracksDepth(OpeningAsWritten(), lines);
  }

  /**
   * In well-nested lines the corrected layout's indent is always twice the
   * nesting depth: each opening tag (one-letter tags included) indents what
   * follows by two, and its closing tag takes the two back.
   */
  lemma IndentIsTwiceDepth(lines: seq<string>)
    requires WellNested(Opening(), lines)
    ensures LayOut(Opening(), lines).indent == 2 * Depth(Opening(), lines)
  {
    IndentTracksDepth(Opening(), lines);
  }

  /** Under the corrected test, a tag and its closing tag leave the indent where they found it. */
  lemma OpenCloseRestores(layout: Layout, open: string, close: string)
    requires IsOpeningTag(open) && IsClosingTag(close)
    ensures Place(Place(layout, open, Opening()), close, Opening()).indent == layout.indent
  {
  }

  /**
   * As written, `<p>` is not an opening tag, yet `</p>` still takes two
   * off the indent: inside an element indented by two, a `<p>` ... `</p>`
   * pair moves everything after it back to zero.
   */
  lemma OneLetterTagAsWritten(text: string)
    ensures !OpensAsWritten("<p>") && IsOpeningTag("<p>")
    ensures Place(Place(Layout(text, 2), "<p>", OpeningAsWritten()), "</p>", OpeningAsWritten()).indent == 0
    ensures Place(Place(Layout(text, 2), "<p>", Opening()), "</p>", Opening()).indent == 2
  {
  }

  /** The example the two layouts disagree on. */
  const NestedExample: string := "<div><p><b>x</b></p></div>"

  /** A part whose every `>` but a final one is followed by a character that is neither whitespace nor `<` is break-free. */
  lemma BreakFreeIf(part: string)
    requires forall x | 0 <= x < |part| - 1 && part[x] == '>' :: !IsSpace(part[x + 1]) && part[x + 1] != '<'
    ensures BreakFree(part)
  {
    forall x | 0 <= x < |part|
      ensures BreakEnd(part, x).None?
    {
      if part[x] == '>' && x + 1 < |part| {
        assert SkipSpaces(part, x + 1) == x + 1;
      }
    }
  }

  /** Joining the parts from `k` on puts part `k` and the separator before the join of the rest. */
  lemma JoinFrom(parts: seq<string>, k: nat, sep: string, rest: string)
    requires k + 1 < |parts| && Join(parts[k + 1..], sep) == rest
    ensures Join(parts[k..], sep) == parts[k] + sep + rest
  {
    assert parts[k..][1..] == parts[k + 1..];
  }

  /** Joining a first part onto at least one more puts the separator between them. */
  lemma JoinCons(x: string, rest: seq<string>, sep: string)
    requires rest != []
    ensures Join([x] + rest, sep) == x + sep + Join(rest, sep)
  {
    assert ([x] + rest)[1..] == rest;
  }

  /** `NestedExample` is five break-free parts joined by `><`. */
  lemma NestedExampleJoin()
    ensures Join(["<div", "p", "b>x</b", "/p", "/div>"], "><") == NestedExample
  {
    var tail := ["p", "b>x</b", "/p", "/div>"];
    NestedTailJoin();
    assert ["<div"] + tail == ["<div", "p", "b>x</b", "/p", "/div>"];
    JoinCons("<div", tail, "><");
    assert "<div" + "><" + "p><b>x</b></p></div>" == NestedExample;
  }

  /** The last four parts of `NestedExample`, joined by `><`. */
  lemma NestedTailJoin()
    ensures Join(["p", "b>x</b", "/p", "/div>"], "><") == "p><b>x</b></p></div>"
  {
    var parts := ["p", "b>x</b", "/p", "/div>"];
    assert parts[3..] == ["/div>"];
    JoinFrom(parts, 2, "><", "/div>");
    assert "/p" + "><" + "/div>" == "/p></div>";
    JoinFrom(parts, 1, "><", "/p></div>");
    assert "b>x</b" + "><" + "/p></div>" == "b>x</b></p></div>";
    JoinFrom(parts, 0, "><", "b>x</b></p></div>");
    assert "p" + "><" + "b>x</b></p></div>" == "p><b>x</b></p></div>";
    assert parts[0..] == parts;
  }

  /** The pieces `body.split(/>\s*</)` gives for `NestedExample`. */
  lemma NestedExamplePieces()
    ensures SplitTags(NestedExample) == ["<div", "p", "b>x</b", "/p", "/div>"]
  {
    var parts := ["<div", "p", "b>x</b", "/p", "/div>"];
    BreakFreeIf("<div");
    BreakFreeIf("p");
    assert "b>x</b"[1] == '>' && "b>x</b"[2] == 'x';
    BreakFreeIf("b>x</b");
    BreakFreeIf("/p");
    BreakFreeIf("/div>");
    assert forall i | 0 <= i < |parts| :: BreakFree(parts[i]) by {
      assert parts[0] == "<div" && parts[1] == "p" && parts[2] == "b>x</b" && parts[3] == "/p" && parts[4] == "/div>";
    }
    NestedExampleJoin();
    SplitJoined(parts);
  }

  /** The five lines `formatXml` makes of `NestedExample`. */
  lemma NestedExampleLines()
    ensures Bracketed(SplitTags(NestedExample)) == ["<div>", "<p>", "<b>x</b>", "</p>", "</div>"]
  {
    NestedExamplePieces();
    var lines := Bracketed(["<div", "p", "b>x</b", "/p", "/div>"]);
    assert lines[0] == "" + "<div" + ">" == "<div>";
    assert lines[1] == "<" + "p" + ">" == "<p>";
    assert lines[2] == "<" + "b>x</b" + ">" == "<b>x</b>";
    assert lines[3] == "<" + "/p" + ">" == "</p>";
    assert lines[4] == "<" + "/div>" + "" == "</div>";
  }

  /** The lines of `NestedExample` are their own trims, and which of them open or close a tag. */
  lemma NestedExampleTags()
    ensures Trim("<div>") == "<div>" && Trim("<p>") == "<p>" && Trim("<b>x</b>") == "<b>x</b>"
    ensures Trim("</p>") == "</p>" && Trim("</div>") == "</div>"
    ensures OpensAsWritten("<div>") && !OpensAsWritten("<p>") && !OpensAsWritten("<b>x</b>")
    ensures IsOpeningTag("<div>") && IsOpeningTag("<p>") && !IsOpeningTag("<b>x</b>")
    ensures !IsOpeningTag("</p>") && !IsOpeningTag("</div>")
    ensures !IsClosingTag("<div>") && !IsClosingTag("<p>") && !IsClosingTag("<b>x</b>")
    ensures IsClosingTag("</p>") && IsClosingTag("</div>")
    ensures Spaces(0) == "" && Spaces(2) == "  " && Spaces(4) == "    "
  {
    TrimmedIsFixed("<div>");
    TrimmedIsFixed("<p>");
    TrimmedIsFixed("<b>x</b>");
    TrimmedIsFixed("</p>");
    TrimmedIsFixed("</div>");
    assert "<b>x</b>"[2] == '>';
  }

  /** Placing line `k` of `lines`, a line that is its own trim, after the layout of the lines above it. */
  lemma PlaceNext(opens: string -> bool, lines: seq<string>, k: nat, before: Layout, indent: nat, next: nat)
    requires k < |lines| && LayOut(opens, lines[..k]) == before && Trim(lines[k]) == lines[k]
    requires indent == if IsClosingTag(lines[k]) then (if before.indent >= 2 then before.indent - 2 else 0) else before.indent
    requires next == if opens(lines[k]) then indent + 2 else indent
    ensures LayOut(opens, lines[..k + 1]) == Layout(before.text + (Spaces(indent) + lines[k] + "\n"), next)
  {
    assert lines[..k + 1][..k] == lines[..k];
  }

  /** The text the as-written layout builds line by line. */
  lemma AsWrittenText()
    ensures "" + (Spaces(0) + "<div>" + "\n") + (Spaces(2) + "<p>" + "\n") + (Spaces(2) + "<b>x</b>" + "\n")
          + (Spaces(0) + "</p>" + "\n") + (Spaces(0) + "</div>" + "\n")
         == "<div>\n  <p>\n  <b>x</b>\n</p>\n</div>\n"
  {
    SpacedLines();
    assert "" + "<div>\n" + "  <p>\n" + "  <b>x</b>\n" + "</p>\n" + "</div>\n" == "<div>\n  <p>\n  <b>x</b>\n</p>\n</div>\n";
  }

  /** The text the corrected layout builds line by line. */
  lemma CorrectedText()
    ensures "" + (Spaces(0) + "<div>" + "\n") + (Spaces(2) + "<p>" + "\n") + (Spaces(4) + "<b>x</b>" + "\n")
          + (Spaces(2) + "</p>" + "\n") + (Spaces(0) + "</div>" + "\n")
         == "<div>\n  <p>\n    <b>x</b>\n  </p>\n</div>\n"
  {
    SpacedLines();
    assert "" + "<div>\n" + "  <p>\n" + "    <b>x</b>\n" + "  </p>\n" + "</div>\n" == "<div>\n  <p>\n    <b>x</b>\n  </p>\n</div>\n";
  }

  /** The lines of `NestedExample` at the indents the two layouts give them. */
  lemma SpacedLines()
    ensures Spaces(0) + "<div>" + "\n" == "<div>\n" && Spaces(0) + "</div>" + "\n" == "</div>\n"
    ensures Spaces(2) + "<p>" + "\n" == "  <p>\n" && Spaces(0) + "</p>" + "\n" == "</p>\n" && Spaces(2) + "</p>" + "\n" == "  </p>\n"
    ensures Spaces(2) + "<b>x</b>" + "\n" == "  <b>x</b>\n" && Spaces(4) + "<b>x</b>" + "\n" == "    <b>x</b>\n"
  {
    assert Spaces(0) == "" && Spaces(2) == "  " && Spaces(4) == "    ";
  }

  /** `formatXml` as written: `<p>` does not indent `<b>x</b>`, and `</p>` goes back to zero. */
  lemma NestedExampleAsWritten(lines: seq<string>)
    requires lines == ["<div>", "<p>", "<b>x</b>", "</p>", "</div>"]
    ensures LayOut(OpeningAsWritten(), lines)
         == Layout("<div>\n  <p>\n  <b>x</b>\n</p>\n</div>\n", 0)
  {
    var opens := OpeningAsWritten();
    NestedExampleTags();
    assert lines[..0] == [];
    var l0 := Layout("", 0);
    PlaceNext(opens, lines, 0, l0, 0, 2);
    var l1 := Layout(l0.text + (Spaces(0) + "<div>" + "\n"), 2);
    PlaceNext(opens, lines, 1, l1, 2, 2);
    var l2 := Layout(l1.text + (Spaces(2) + "<p>" + "\n"), 2);
    PlaceNext(opens, lines, 2, l2, 2, 2);
    var l3 := Layout(l2.text + (Spaces(2) + "<b>x</b>" + "\n"), 2);
    PlaceNext(opens, lines, 3, l3, 0, 0);
    var l4 := Layout(l3.text + (Spaces(0) + "</p>" + "\n"), 0);
    PlaceNext(opens, lines, 4, l4, 0, 0);
    assert lines[..5] == lines;
    AsWrittenText();
  }

  /** The corrected layout: `<p>` indents `<b>x</b>` by two more, and `</p>` takes the two back. */
  lemma NestedExampleCorrected(lines: seq<string>)
    requires lines == ["<div>", "<p>", "<b>x</b>", "</p>", "</div>"]
    ensures LayOut(Opening(), lines)
         == Layout("<div>\n  <p>\n    <b>x</b>\n  </p>\n</div>\n", 0)
  {
    var opens := Opening();
    NestedExampleTags();
    assert lines[..0] == [];
    var l0 := Layout("", 0);
    PlaceNext(opens, lines, 0, l0, 0, 2);
    var l1 := Layout(l0.text + (Spaces(0) + "<div>" + "\n"), 2);
    PlaceNext(opens, lines, 1, l1, 2, 4);
    var l2 := Layout(l1.text + (Spaces(2) + "<p>" + "\n"), 4);
    PlaceNext(opens, lines, 2, l2, 4, 4);
    var l3 := Layout(l2.text + (Spaces(4) + "<b>x</b>" + "\n"), 4);
    PlaceNext(opens, lines, 3, l3, 2, 2);
    var l4 := Layout(l3.text + (Spaces(2) + "</p>" + "\n"), 2);
    PlaceNext(opens, lines, 4, l4, 0, 0);
    assert lines[..5] == lines;
    CorrectedText();
  }

  /**
   * On `<div><p><b>x</b></p></div>` `formatXml` writes the five lines at
   * indents 0, 2, 2, 0, 0, where the corrected layout gives 0, 2, 4, 2, 0.
   */
  lemma LayoutsDiffer()
    ensures XmlLayout(NestedExample) == "<div>\n  <p>\n  <b>x</b>\n</p>\n</div>"
    ensures CorrectedXmlLayout(NestedExample) == "<div>\n  <p>\n    <b>x</b>\n  </p>\n</div>"
  {
    NestedAsWrittenLayout();
    NestedCorrectedLayout();
  }

  /** `formatXml` on `NestedExample`, with the opening-tag test as written. */
  lemma NestedAsWrittenLayout()
    ensures XmlLayout(NestedExample) == "<div>\n  <p>\n  <b>x</b>\n</p>\n</div>"
  {
    NestedExampleLines();
    NestedExampleAsWritten(["<div>", "<p>", "<b>x</b>", "</p>", "</div>"]);
    var asWritten := "<div>\n  <p>\n  <b>x</b>\n</p>\n</div>";
    assert asWritten + "\n" == "<div>\n  <p>\n  <b>x</b>\n</p>\n</div>\n";
    TrimmedPlusSpace(asWritten, '\n');
  }

  /** The corrected layout of `NestedExample`. */
  lemma NestedCorrectedLayout()
    ensures CorrectedXmlLayout(NestedExample) == "<div>\n  <p>\n    <b>x</b>\n  </p>\n</div>"
  {
    NestedExampleLines();
    NestedExampleCorrected(["<div>", "<p>", "<b>x</b>", "</p>", "</div>"]);
    var corrected := "<div>\n  <p>\n    <b>x</b>\n  </p>\n</div>";
    assert corrected + "\n" == "<div>\n  <p>\n    <b>x</b>\n  </p>\n</div>\n";
    TrimmedPlusSpace(corrected, '\n');
  }

  // ---------------------------------------------------------------------
  // Truncation
  // ---------------------------------------------------------------------

  /** `truncate`'s default limit. */
  const DefaultMaxLength: nat := 50000

  const TruncationNotice: string := "\n\n... (truncated)"

  datatype Truncation = Truncation(text: string, truncated: bool)

  /** `truncate`: text longer than `maxLength` is cut to its first `maxLength` characters and marked. */
  function Truncate(text: string, maxLength: nat): (r: Truncation)
    ensures r.truncated <==> |text| > maxLength
    ensures !r.truncated ==> r.text == text
    ensures r.truncated ==>
      && StartsWith(r.text, text[..maxLength]) && EndsWith(r.text, TruncationNotice)
      && |r.text| == maxLength + |TruncationNotice|
  {
    if |text| <= maxLength then Truncation(text, false)
    else Truncation(text[..maxLength] + TruncationNotice, true)
  }
}
