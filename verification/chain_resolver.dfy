/**
 * Request chaining (src/env/chainResolver.ts): every
 * `{{name.response.body|headers|status<path>}}` in a text is replaced by
 * the value it points to in the response saved under `name`; a placeholder
 * whose value is not found stays as it is.
 */
module ChainResolver {
  import opened Common
  import opened Strings
  import opened Headers
  import opened Json
  import opened RequestChain

  // ---------------------------------------------------------------------
  // The placeholder pattern
  // ---------------------------------------------------------------------

  datatype Section = BodySection | HeaderSection | StatusSection

  function SectionName(section: Section): (r: string)
    ensures |r| == SectionLength(section)
  {
    if section.BodySection? then "body" else if section.HeaderSection? then "headers" else "status"
  }

  /** The length of a section name. */
  function SectionLength(section: Section): nat {
    if section.BodySection? then 4 else if section.HeaderSection? then 7 else 6
  }

  /** `[\.\[a-zA-Z0-9_\]]`, the characters of a path; `-` is not one of them. */
  predicate IsPathChar(c: char) {
    IsWordChar(c) || c == '.' || c == '[' || c == ']'
  }

  /** The end of the run of path characters that starts at `k`. */
  function SkipPath(s: string, k: nat): (r: nat)
    requires k <= |s|
    ensures k <= r <= |s|
    ensures r == |s| || !IsPathChar(s[r])
    ensures forall i | k <= i < r :: IsPathChar(s[i])
    decreases |s| - k
  {
    if k == |s| || !IsPathChar(s[k]) then k else SkipPath(s, k + 1)
  }

  /** `(body|headers|status)` at `k`: the section and the index just past its name. */
  function SectionAt(s: string, k: nat): (r: Option<(Section, nat)>)
    ensures r.Some? ==> r.value.1 == k + SectionLength(r.value.0) <= |s|
  {
    if OccursAt(s, "body", k) then Some((BodySection, k + 4))
    else if OccursAt(s, "headers", k) then Some((HeaderSection, k + 7))
    else if OccursAt(s, "status", k) then Some((StatusSection, k + 6))
    else None
  }

  /** A match of the pattern: its extent, the request name (group 1), the section (group 2) and group 3, empty when absent. */
  datatype ChainMatch = ChainMatch(start: nat, end: nat, name: string, section: Section, group: string)

  /**
   * The head of the pattern from `p` on: `{{`, a request name, `.response.`
   * and a section name. Gives the index just past the request name, the
   * section and the index just past the section name.
   */
  function HeadEnd(s: string, p: nat): (r: Option<(nat, Section, nat)>)
    ensures r.Some? ==> p + 2 < r.value.0 <= r.value.2 <= |s|
  {
    if !OccursAt(s, "{{", p) then None
    else
      var n := SkipWord(s, p + 2);
      if n == p + 2 || !OccursAt(s, ".response.", n) then None
      else
        var section := SectionAt(s, n + 10);
        if section.None? then None else Some((n, section.value.0, section.value.1))
  }

  /**
   * The match of `/\{\{([a-zA-Z0-9_]+)\.response\.(body|headers|status)([\.\[a-zA-Z0-9_\]]+)?\}\}/`
   * that starts at `p`, if any: the head, then the longest run of path
   * characters, then `}}`. The name and the path are maximal runs followed
   * by characters they cannot contain, so backtracking never finds another
   * match at the same position.
   */
  function MatchAt(s: string, p: nat): (r: Option<ChainMatch>)
    ensures r.Some? ==> r.value.start == p < r.value.end <= |s|
  {
    var head := HeadEnd(s, p);
    if head.None? then None
    else
      var g := SkipPath(s, head.value.2);
      if OccursAt(s, "}}", g) then Some(ChainMatch(p, g + 2, s[p + 2..head.value.0], head.value.1, s[head.value.2..g]))
      else None
  }

  /** A match names a request with word characters only and its group 3 holds path characters only. */
  lemma MatchShape(s: string, p: nat)
    requires MatchAt(s, p).Some?
    ensures IsName(MatchAt(s, p).value.name)
    ensures forall i | 0 <= i < |MatchAt(s, p).value.group| :: IsPathChar(MatchAt(s, p).value.group[i])
  {
    var m := MatchAt(s, p).value;
    var e := HeadEnd(s, p).value.2;
    forall i | 0 <= i < |m.name|
      ensures IsWordChar(m.name[i])
    {
      assert m.name[i] == s[p + 2 + i];
    }
    forall i | 0 <= i < |m.group|
      ensures IsPathChar(m.group[i])
    {
      assert m.group[i] == s[e + i];
    }
  }

  /**
   * The leftmost position in `from..last` that passes `found`: the scan a
   * global regular expression's `exec` makes from `lastIndex` on.
   */
  function Scan(found: nat -> bool, from: nat, last: nat): (r: Option<nat>)
    requires from <= last
    ensures r.Some? ==> from <= r.value <= last && found(r.value)
    decreases last - from
  {
    if found(from) then Some(from)
    else if from == last then None
    else Scan(found, from + 1, last)
  }

  /** The scan finds nothing exactly when no position passes. */
  lemma {:induction false} ScanNoneIff(found: nat -> bool, from: nat, last: nat)
    requires from <= last
    ensures Scan(found, from, last).None? <==> forall q | from <= q <= last :: !found(q)
    decreases last - from
  {
    if !found(from) && from < last {
      ScanNoneIff(found, from + 1, last);
    }
  }

  /** The scan finds the leftmost position that passes. */
  lemma {:induction false} ScanLeftmost(found: nat -> bool, from: nat, last: nat)
    requires from <= last
    ensures Scan(found, from, last).Some? ==> forall q | from <= q < Scan(found, from, last).value :: !found(q)
    decreases last - from
  {
    if !found(from) && from < last {
      ScanLeftmost(found, from + 1, last);
    }
  }

  /** The positions where the pattern matches. */
  function Matches(s: string): nat -> bool {
    (q: nat) => MatchAt(s, q).Some?
  }

  /** `chainVarPattern.exec(text)` with `lastIndex` at `from`: the leftmost match at or after `from`. */
  function NextMatch(s: string, from: nat): (r: Option<ChainMatch>)
    requires from <= |s|
    ensures r.Some? ==> from <= r.value.start < r.value.end <= |s| && MatchAt(s, r.value.start) == r
  {
    var q := Scan(Matches(s), from, |s|);
    if q.Some? then MatchAt(s, q.value) else None
  }

  /** The path of group 3: without its leading `.`, or empty. */
  function PathOf(group: string): (r: string)
    ensures |r| <= |group|
  {
    if group != "" && group[0] == '.' then group[1..] else group
  }

  // ---------------------------------------------------------------------
  // Navigating a value
  // ---------------------------------------------------------------------

  predicate AllDigits(s: string) {
    forall i | 0 <= i < |s| :: IsDigit(s[i])
  }

  /** `/^\[(\d+)\]$/`: the index of a part such as `[0]`. */
  function IndexPart(part: string): Option<nat> {
    if |part| >= 3 && part[0] == '[' && part[|part| - 1] == ']' && AllDigits(part[1..|part| - 1]) then
      Some(DecimalValue(part[1..|part| - 1]))
    else None
  }

  /** `/^([a-zA-Z0-9_]+)\[(\d+)\]$/`: the key and index of a part such as `items[0]`. */
  function KeyIndexPart(part: string): Option<(string, nat)> {
    var k := SkipWord(part, 0);
    if 0 < k && k + 2 < |part| && part[k] == '[' && part[|part| - 1] == ']' && AllDigits(part[k + 1..|part| - 1]) then
      Some((part[..k], DecimalValue(part[k + 1..|part| - 1])))
    else None
  }

  /** One iteration of the loop in `getNestedValue`, on a value that is neither null nor undefined. */
  function StepInto(current: Value, part: string): (r: Option<Value>)
    ensures IndexPart(part).Some? ==> (r.Some? <==> current.Arr? && IndexPart(part).value < |current.items|)
    ensures IndexPart(part).None? && KeyIndexPart(part).Some? ==>
              (r.Some? <==> var inner := Property(current, KeyIndexPart(part).value.0);
                            inner.Some? && inner.value.Arr? && KeyIndexPart(part).value.1 < |inner.value.items|)
    ensures IndexPart(part).Some? && r.Some? ==>
              current.Arr? && IndexPart(part).value < |current.items| && r.value == current.items[IndexPart(part).value]
    ensures IndexPart(part).None? && KeyIndexPart(part).Some? && r.Some? ==>
              var inner := Property(current, KeyIndexPart(part).value.0);
              inner.Some? && inner.value.Arr? && KeyIndexPart(part).value.1 < |inner.value.items|
              && r.value == inner.value.items[KeyIndexPart(part).value.1]
    ensures IndexPart(part).None? && KeyIndexPart(part).None? ==> r == Property(current, part)
  {
    var index := IndexPart(part);
    if index.Some? then (if current.Arr? then Element(current, index.value) else None)
    else
      var keyIndex := KeyIndexPart(part);
      if keyIndex.Some? then
        var inner := Property(current, keyIndex.value.0);
        if inner.Some? && inner.value.Arr? then Element(inner.value, keyIndex.value.1) else None
      else Property(current, part)
  }

  /** Where the loop of `getNestedValue` stands after `parts`: nothing once a null or undefined value had to be entered. */
  function Walk(obj: Value, parts: seq<string>): Option<Value>
    decreases |parts|
  {
    if parts == [] then Some(obj)
    else
      var current := Walk(obj, parts[..|parts| - 1]);
      if current.None? || current.value.Null? then None else StepInto(current.value, parts[|parts| - 1])
  }

  /** What `getNestedValue(obj, path)` returns. */
  function NestedValue(obj: Value, path: string): Option<Value> {
    Walk(obj, Split(path, "."))
  }

  /** Once the walk meets null or undefined before a part, the whole path is undefined. */
  lemma {:induction false} StuckStaysStuck(obj: Value, parts: seq<string>, i: nat)
    requires i < |parts|
    requires Walk(obj, parts[..i]).None? || Walk(obj, parts[..i]).value.Null?
    ensures Walk(obj, parts).None?
    decreases |parts|
  {
    var init := parts[..|parts| - 1];
    if i < |init| {
      assert init[..i] == parts[..i];
      StuckStaysStuck(obj, init, i);
    } else {
      assert init == parts[..i];
    }
  }

  /** A path without `.` is a single step. */
  lemma OnePart(obj: Value, part: string)
    requires '.' !in part
    ensures NestedValue(obj, part) == StepInto(obj, part)
  {
    SplitWithout(part, '.');
    assert Split(part, ".") == [part];
    assert [part][..0] == [];
    assert Walk(obj, [part]) == if obj.Null? then None else StepInto(obj, part);
  }

  /** A path is walked left to right: the value at `path.part` is one step from the value at `path`. */
  lemma DottedPath(obj: Value, path: string, part: string)
    requires '.' !in part
    ensures NestedValue(obj, path).None? || NestedValue(obj, path).value.Null? ==> NestedValue(obj, path + "." + part).None?
    ensures NestedValue(obj, path).Some? && !NestedValue(obj, path).value.Null? ==>
              NestedValue(obj, path + "." + part) == StepInto(NestedValue(obj, path).value, part)
  {
    SplitSnoc(path, '.', part);
    var parts := Split(path, ".") + [part];
    assert Split(path + "." + part, ".") == parts;
    assert parts[..|parts| - 1] == Split(path, ".");
    assert NestedValue(obj, path + "." + part) == Walk(obj, parts);
  }

  /** `getNestedValue`: the `for` loop over the parts of the path. */
  method GetNestedValue(obj: Value, path: string) returns (r: Option<Value>)
    ensures r == NestedValue(obj, path)
  {
    var parts := Split(path, ".");
    var current := Some(obj);
    for i := 0 to |parts|
      invariant current == Walk(obj, parts[..i])
    {
      if current.None? || current.value.Null? {
        StuckStaysStuck(obj, parts, i);
        return None;
      }
      current := StepInto(current.value, parts[i]);
      assert parts[..i + 1][..i] == parts[..i];
    }
    assert parts[..|parts|] == parts;
    return current;
  }

  // ---------------------------------------------------------------------
  // The value of a placeholder
  // ---------------------------------------------------------------------

  /** One string field per header, in order. */
  function HeaderFields(h: seq<(string, string)>): (r: seq<(string, Value)>)
    ensures |r| == |h|
  {
    seq(|h|, i requires 0 <= i < |h| => (h[i].0, Str(h[i].1)))
  }

  /** `Object.fromEntries(headers)` */
  function HeadersObject(h: HeaderMap): Value {
    Obj(HeaderFields(h))
  }

  /** A field of the headers object is the header of that name, as a string. */
  lemma {:induction false} HeaderField(h: seq<(string, string)>, key: string)
    ensures Find(h, key).None? ==> Field(HeaderFields(h), key).None?
    ensures Find(h, key).Some? ==> Field(HeaderFields(h), key) == Some(Str(h[Find(h, key).value].1))
    decreases |h|
  {
    if h != [] && h[|h| - 1].0 != key {
      var init := h[..|h| - 1];
      HeaderField(init, key);
      assert HeaderFields(h)[..|h| - 1] == HeaderFields(init);
    }
  }

  /** Looking a name up in the headers object is `headers.get(name)`. */
  lemma HeaderLookup(h: HeaderMap, key: string)
    ensures Headers.Get(h, key).None? ==> Property(HeadersObject(h), key).None?
    ensures Headers.Get(h, key).Some? ==> Property(HeadersObject(h), key) == Some(Str(Headers.Get(h, key).value))
  {
    HeaderField(h, key);
  }

  /**
   * What `resolveChainVariable` returns: nothing for an unknown request; the
   * status number for `status` whatever the path; with no path the section
   * itself, as JSON text when it is an object, array or null; otherwise the
   * value at the path.
   */
  function ChainValue(name: string, section: Section, path: string, responses: map<string, SavedResponse>,
                      stringify: Value -> string): (r: Option<Value>)
    ensures r.Some? ==> name in responses
    ensures name in responses && (section.StatusSection? || path == "") ==> r.Some?
  {
    if name !in responses then None
    else
      var saved := responses[name];
      if section.StatusSection? then Some(Num(NatToString(saved.status)))
      else
        var data := if section.BodySection? then saved.body else HeadersObject(saved.headers);
        if path == "" then Some(if IsObjectLike(data) then Str(stringify(data)) else data)
        else NestedValue(data, path)
  }

  /** `resolveChainVariable` */
  method ResolveChainVariable(name: string, section: Section, path: string, responses: map<string, SavedResponse>,
                              stringify: Value -> string) returns (r: Option<Value>)
    ensures r == ChainValue(name, section, path, responses, stringify)
  {
    if name !in responses {
      return None;
    }
    var saved := responses[name];
    var data: Value;
    match section {
      case BodySection =>
        data := saved.body;
      case HeaderSection =>
        data := HeadersObject(saved.headers);
      case StatusSection =>
        return Some(Num(NatToString(saved.status)));
    }
    if path == "" {
      return Some(if IsObjectLike(data) then Str(stringify(data)) else data);
    }
    r := GetNestedValue(data, path);
  }

  // ---------------------------------------------------------------------
  // Rewriting the text
  // ---------------------------------------------------------------------

  /** The value of each match. */
  function Values(responses: map<string, SavedResponse>, stringify: Value -> string): ChainMatch -> Option<Value> {
    (m: ChainMatch) => ChainValue(m.name, m.section, PathOf(m.group), responses, stringify)
  }

  /**
   * The `while` loop of `resolve` from `lastIndex` `from` on: each match of
   * the original text, left to right, whose value is found replaces the
   * first occurrence of its exact text in the text rewritten so far.
   */
  function RewriteFrom(text: string, resolved: string, from: nat, value: ChainMatch -> Option<Value>): string
    requires from <= |text|
    decreases |text| - from
  {
    var next := NextMatch(text, from);
    if next.None? then resolved
    else
      var m := next.value;
      var found := value(m);
      RewriteFrom(text, if found.Some? then ReplaceFirst(resolved, text[m.start..m.end], ToText(found.value)) else resolved,
                  m.end, value)
  }

  /** What `resolve(text, context)` returns. */
  function ChainResolve(text: string, responses: map<string, SavedResponse>, stringify: Value -> string): (r: string)
    ensures responses == map[] ==> r == text
  {
    if text == "" then text
    else
      assert responses == map[] ==> RewriteFrom(text, text, 0, Values(responses, stringify)) == text by {
        if responses == map[] {
          MissesKeepText(text, text, 0, Values(responses, stringify));
        }
      }
      RewriteFrom(text, text, 0, Values(responses, stringify))
  }

  /** One iteration of the `while` loop: the text after the match `m`. */
  method Substitute(text: string, resolved: string, m: ChainMatch, responses: map<string, SavedResponse>,
                    stringify: Value -> string) returns (r: string)
    requires m.start <= m.end <= |text|
    ensures r == (var found := Values(responses, stringify)(m);
                  if found.Some? then ReplaceFirst(resolved, text[m.start..m.end], ToText(found.value)) else resolved)
  {
    var fullMatch := text[m.start..m.end];
    var value := ResolveChainVariable(m.name, m.section, PathOf(m.group), responses, stringify);
    r := resolved;
    if value.Some? {
      r := ReplaceFirst(resolved, fullMatch, ToText(value.value));
    }
  }

  /** `resolve`: the `exec` loop over the original text. */
  method Resolve(text: string, responses: map<string, SavedResponse>, stringify: Value -> string) returns (resolved: string)
    ensures resolved == ChainResolve(text, responses, stringify)
  {
    if text == "" {
      return text;
    }
    ghost var goal := RewriteFrom(text, text, 0, Values(responses, stringify));
    resolved := text;
    var from := 0;
    var next := NextMatch(text, from);
    while next.Some?
      invariant from <= |text| && next == NextMatch(text, from)
      invariant RewriteFrom(text, resolved, from, Values(responses, stringify)) == goal
      decreases |text| - from
    {
      var m := next.value;
      resolved := Substitute(text, resolved, m, responses, stringify);
      from := m.end;
      next := NextMatch(text, from);
    }
  }

  // ---------------------------------------------------------------------
  // What resolving promises
  // ---------------------------------------------------------------------

  /** The search finds nothing exactly when no position from `from` on starts a match. */
  lemma NoNextMatchIffNoMatch(s: string, from: nat)
    requires from <= |s|
    ensures NextMatch(s, from).None? <==> forall q | from <= q <= |s| :: MatchAt(s, q).None?
  {
    ScanNoneIff(Matches(s), from, |s|);
    assert forall q :: Matches(s)(q) == MatchAt(s, q).Some?;
  }

  /** The search finds the leftmost match: none starts between `from` and it. */
  lemma NextMatchIsLeftmost(s: string, from: nat)
    requires from <= |s|
    ensures NextMatch(s, from).Some? ==> forall q | from <= q < NextMatch(s, from).value.start :: MatchAt(s, q).None?
  {
    ScanLeftmost(Matches(s), from, |s|);
    assert forall q :: Matches(s)(q) == MatchAt(s, q).Some?;
  }

  /** Matches whose value is not found leave the text as it is. */
  lemma {:induction false} MissesKeepText(text: string, resolved: string, from: nat, value: ChainMatch -> Option<Value>)
    requires from <= |text|
    requires forall q | from <= q <= |text| && MatchAt(text, q).Some? :: value(MatchAt(text, q).value).None?
    ensures RewriteFrom(text, resolved, from, value) == resolved
    decreases |text| - from
  {
    var next := NextMatch(text, from);
    if next.Some? {
      assert MatchAt(text, next.value.start) == next;
      MissesKeepText(text, resolved, next.value.end, value);
    }
  }

  /** A text without placeholders is returned unchanged. */
  lemma NoPlaceholderUnchanged(text: string, responses: map<string, SavedResponse>, stringify: Value -> string)
    requires forall q | 0 <= q <= |text| :: MatchAt(text, q).None?
    ensures ChainResolve(text, responses, stringify) == text
  {
    if text != "" {
      MissesKeepText(text, text, 0, Values(responses, stringify));
    }
  }

  /** Placeholders that name only requests with no saved response stay in the text. */
  lemma UnknownRequestsKept(text: string, responses: map<string, SavedResponse>, stringify: Value -> string)
    requires forall q | 0 <= q <= |text| && MatchAt(text, q).Some? :: MatchAt(text, q).value.name !in responses
    ensures ChainResolve(text, responses, stringify) == text
  {
    if text != "" {
      MissesKeepText(text, text, 0, Values(responses, stringify));
    }
  }

  /** The text of a placeholder. */
  function Placeholder(name: string, section: Section, group: string): string {
    Head(name, section) + (group + "}}")
  }

  /** A placeholder up to the end of its section name. */
  function Head(name: string, section: Section): string {
    "{{" + name + ".response." + SectionName(section)
  }

  predicate IsName(name: string) {
    name != [] && forall i | 0 <= i < |name| :: IsWordChar(name[i])
  }

  /** `s` starts with `{{`, `name`, `.response.` and the name of `section`. */
  predicate HeadLaid(s: string, name: string, section: Section) {
    12 + |name| + SectionLength(section) <= |s|
    && s[..2] == "{{"
    && s[2..2 + |name|] == name
    && s[2 + |name|..12 + |name|] == ".response."
    && s[12 + |name|..12 + |name| + SectionLength(section)] == SectionName(section)
  }

  /** `s` is laid out as the placeholder with this name, section and group 3. */
  predicate Laid(s: string, name: string, section: Section, group: string) {
    HeadLaid(s, name, section)
    && |s| == 14 + |name| + SectionLength(section) + |group|
    && s[12 + |name| + SectionLength(section)..12 + |name| + SectionLength(section) + |group|] == group
    && s[12 + |name| + SectionLength(section) + |group|..] == "}}"
  }

  /** How a head followed by any text is laid out. */
  lemma {:induction false} HeadLaidOut(name: string, section: Section, rest: string)
    ensures HeadLaid(Head(name, section) + rest, name, section)
    ensures (Head(name, section) + rest)[12 + |name| + SectionLength(section)..] == rest
  {
    var s := Head(name, section) + rest;
    var n := 2 + |name|;
    assert s[..2] == "{{";
    assert s[2..n] == name;
    assert s[n..n + 10] == ".response.";
    assert s[n + 10..n + 10 + SectionLength(section)] == SectionName(section);
  }

  /** How a placeholder is laid out. */
  lemma {:induction false} PlaceholderLaid(name: string, section: Section, group: string)
    ensures Laid(Placeholder(name, section, group), name, section, group)
  {
    var s := Placeholder(name, section, group);
    var e := 12 + |name| + SectionLength(section);
    HeadLaidOut(name, section, group + "}}");
    assert s[e..e + |group|] == group;
    assert s[e + |group|..] == "}}";
  }

  /** The pattern reads `{{`, the name, `.response.` and the section name at the start of `s`. */
  lemma {:induction false} HeadMatches(s: string, name: string, section: Section)
    requires IsName(name) && HeadLaid(s, name, section)
    ensures HeadEnd(s, 0) == Some((2 + |name|, section, 12 + |name| + SectionLength(section)))
  {
    var n := 2 + |name|;
    assert s[n] == s[n..n + 10][0];
    SkipWordTo(s, 2, n);
    var k := n + 10;
    assert OccursAt(s, SectionName(section), k);
    match section {
      case BodySection =>
      case HeaderSection =>
        assert s[k] == 'h';
        MismatchAt(s, "body", k, 0);
      case StatusSection =>
        assert s[k] == 's';
        MismatchAt(s, "body", k, 0);
        MismatchAt(s, "headers", k, 0);
    }
  }

  /** The path read from `e` ends at `g`, where `}}` follows. */
  predicate CloseAt(s: string, e: nat, g: nat) {
    e <= |s| && SkipPath(s, e) == g && OccursAt(s, "}}", g)
  }

  /** Once the head has been read, the match stands or falls with the `}}` after the path. */
  lemma MatchAfterHead(s: string, p: nat, n: nat, section: Section, e: nat, g: nat)
    requires HeadEnd(s, p) == Some((n, section, e))
    ensures CloseAt(s, e, g) ==> MatchAt(s, p) == Some(ChainMatch(p, g + 2, s[p + 2..n], section, s[e..g]))
    ensures e <= |s| && SkipPath(s, e) == g && !OccursAt(s, "}}", g) ==> MatchAt(s, p).None?
  {
  }

  /** After the section name of a text laid out as a placeholder, its path and `}}` are read whole. */
  lemma {:induction false} PathThenClose(s: string, name: string, section: Section, group: string)
    requires forall i | 0 <= i < |group| :: IsPathChar(group[i])
    requires Laid(s, name, section, group)
    ensures CloseAt(s, 12 + |name| + SectionLength(section), 12 + |name| + SectionLength(section) + |group|)
  {
    var e := 12 + |name| + SectionLength(section);
    var g := e + |group|;
    assert forall i | e <= i < g :: IsPathChar(s[i]) by {
      forall i | e <= i < g
        ensures IsPathChar(s[i])
      {
        assert s[i] == s[e..g][i - e];
      }
    }
    assert s[g] == s[g..][0];
    assert !IsPathChar(s[g]);
  }

  /** Where the request name and group 3 sit in a text laid out as a placeholder, and its length (a part of `Laid`). */
  predicate Fields(s: string, name: string, section: Section, group: string) {
    2 + |name| <= |s|
    && s[2..2 + |name|] == name
    && |s| == 14 + |name| + SectionLength(section) + |group|
    && s[12 + |name| + SectionLength(section)..12 + |name| + SectionLength(section) + |group|] == group
  }

  /** A text laid out as a placeholder has its fields in place. */
  lemma LaidFields(s: string, name: string, section: Section, group: string)
    requires Laid(s, name, section, group)
    ensures Fields(s, name, section, group)
  {
  }

  /** The match read from a text laid out as a placeholder carries its request name and group 3. */
  lemma FieldsRead(s: string, name: string, section: Section, group: string)
    requires Fields(s, name, section, group)
    ensures ChainMatch(0, 12 + |name| + SectionLength(section) + |group| + 2, s[2..2 + |name|], section,
                       s[12 + |name| + SectionLength(section)..12 + |name| + SectionLength(section) + |group|])
         == ChainMatch(0, |s|, name, section, group)
  {
  }

  /** Once the head of a text is read up to `e` and its path and `}}` from there up to `g`, the text holds a match at its start. */
  lemma MatchOfRead(s: string, n: nat, section: Section, e: nat, g: nat)
    requires HeadEnd(s, 0) == Some((n, section, e))
    requires CloseAt(s, e, g)
    ensures MatchAt(s, 0) == Some(ChainMatch(0, g + 2, s[2..n], section, s[e..g]))
  {
    MatchAfterHead(s, 0, n, section, e, g);
  }

  /** The pattern reads the head of a text laid out as a placeholder, then its path and `}}`. */
  lemma LaidRead(s: string, name: string, section: Section, group: string)
    requires IsName(name)
    requires forall i | 0 <= i < |group| :: IsPathChar(group[i])
    requires Laid(s, name, section, group)
    ensures HeadEnd(s, 0) == Some((2 + |name|, section, 12 + |name| + SectionLength(section)))
    ensures CloseAt(s, 12 + |name| + SectionLength(section), 12 + |name| + SectionLength(section) + |group|)
  {
    HeadMatches(s, name, section);
    PathThenClose(s, name, section, group);
  }

  /** A text laid out as a placeholder is one match, the whole text. */
  lemma {:induction false} LaidMatches(s: string, name: string, section: Section, group: string)
    requires IsName(name)
    requires forall i | 0 <= i < |group| :: IsPathChar(group[i])
    requires Laid(s, name, section, group)
    ensures MatchAt(s, 0) == Some(ChainMatch(0, |s|, name, section, group))
  {
    LaidRead(s, name, section, group);
    LaidFields(s, name, section, group);
    FieldsRead(s, name, section, group);
    MatchOfRead(s, 2 + |name|, section, 12 + |name| + SectionLength(section), 12 + |name| + SectionLength(section) + |group|);
  }

  /** A well-formed placeholder is matched, whole, at its start. */
  lemma PlaceholderMatches(name: string, section: Section, group: string)
    requires IsName(name)
    requires forall i | 0 <= i < |group| :: IsPathChar(group[i])
    ensures MatchAt(Placeholder(name, section, group), 0)
         == Some(ChainMatch(0, |Placeholder(name, section, group)|, name, section, group))
  {
    PlaceholderLaid(name, section, group);
    LaidMatches(Placeholder(name, section, group), name, section, group);
  }

  /** A text that is one placeholder becomes the text of its value, or stays as it is when the value is not found. */
  lemma {:induction false} LonePlaceholder(name: string, section: Section, group: string,
                                           responses: map<string, SavedResponse>, stringify: Value -> string)
    requires IsName(name)
    requires forall i | 0 <= i < |group| :: IsPathChar(group[i])
    ensures ChainValue(name, section, PathOf(group), responses, stringify).Some? ==>
              ChainResolve(Placeholder(name, section, group), responses, stringify)
              == ToText(ChainValue(name, section, PathOf(group), responses, stringify).value)
    ensures ChainValue(name, section, PathOf(group), responses, stringify).None? ==>
              ChainResolve(Placeholder(name, section, group), responses, stringify) == Placeholder(name, section, group)
  {
    var s := Placeholder(name, section, group);
    var value := Values(responses, stringify);
    PlaceholderMatches(name, section, group);
    var m := ChainMatch(0, |s|, name, section, group);
    assert NextMatch(s, 0) == Some(m);
    assert s[m.start..m.end] == s;
    var found := value(m);
    var after := if found.Some? then ReplaceFirst(s, s, ToText(found.value)) else s;
    assert NextMatch(s, |s|).None?;
    assert RewriteFrom(s, s, 0, value) == RewriteFrom(s, after, |s|, value) == after;
    if found.Some? {
      ReplaceWhole(s, ToText(found.value));
    }
  }

  /** `{{name.response.status...}}` is the status number, whatever path follows it. */
  lemma StatusIgnoresPath(name: string, group: string, responses: map<string, SavedResponse>, stringify: Value -> string)
    requires IsName(name) && name in responses
    requires forall i | 0 <= i < |group| :: IsPathChar(group[i])
    ensures ChainResolve(Placeholder(name, StatusSection, group), responses, stringify) == NatToString(responses[name].status)
  {
    LonePlaceholder(name, StatusSection, group, responses, stringify);
  }

  /** A placeholder naming a request with no saved response stays as it is. */
  lemma UnknownRequestKept(name: string, section: Section, group: string,
                           responses: map<string, SavedResponse>, stringify: Value -> string)
    requires IsName(name) && name !in responses
    requires forall i | 0 <= i < |group| :: IsPathChar(group[i])
    ensures ChainResolve(Placeholder(name, section, group), responses, stringify) == Placeholder(name, section, group)
  {
    LonePlaceholder(name, section, group, responses, stringify);
  }

  /** With no path, a body that is an object, array or null is written as its JSON text, any other body as its own text. */
  lemma WholeBody(name: string, responses: map<string, SavedResponse>, stringify: Value -> string)
    requires IsName(name) && name in responses
    ensures IsObjectLike(responses[name].body) ==>
              ChainResolve(Placeholder(name, BodySection, ""), responses, stringify) == stringify(responses[name].body)
    ensures !IsObjectLike(responses[name].body) ==>
              ChainResolve(Placeholder(name, BodySection, ""), responses, stringify) == ToText(responses[name].body)
  {
    LonePlaceholder(name, BodySection, "", responses, stringify);
  }

  /** With no path, the headers are written as the JSON text of an object. */
  lemma WholeHeaders(name: string, responses: map<string, SavedResponse>, stringify: Value -> string)
    requires IsName(name) && name in responses
    ensures ChainResolve(Placeholder(name, HeaderSection, ""), responses, stringify)
         == stringify(HeadersObject(responses[name].headers))
  {
    LonePlaceholder(name, HeaderSection, "", responses, stringify);
  }

  /** After the section name, a `.` and a key holding a `-` are not a path followed by `}}`. */
  lemma {:induction false} HyphenStopsPath(s: string, e: nat, key: string)
    requires e <= |s| && s[e..] == "." + key + "}}"
    requires forall i | 0 <= i < |key| :: IsWordChar(key[i]) || key[i] == '-'
    requires '-' in key
    ensures !OccursAt(s, "}}", SkipPath(s, e))
  {
    var h :| 0 <= h < |key| && key[h] == '-';
    assert s[e + 1 + h] == key[h];
    var g := SkipPath(s, e);
    assert g <= e + 1 + h;
    if g > e {
      assert s[g] == key[g - e - 1];
    }
  }

  predicate BraceFree(t: string) {
    forall i | 0 <= i < |t| :: t[i] != '{'
  }

  lemma BraceFreeJoin(a: string, b: string)
    requires BraceFree(a) && BraceFree(b)
    ensures BraceFree(a + b)
  {
    assert forall i | |a| <= i < |a + b| :: (a + b)[i] == b[i - |a|];
  }

  /** Neither `.response.` nor a section name holds a `{`. */
  lemma LiteralsBraceFree(section: Section)
    ensures BraceFree(".response.") && BraceFree(SectionName(section))
  {
  }

  /** No `{{` starts after the first character of a text that is `{{` followed by text without `{`. */
  lemma OnlyOneOpening(s: string)
    requires |s| >= 2 && BraceFree(s[2..])
    ensures forall q | 0 < q <= |s| :: !OccursAt(s, "{{", q)
  {
    forall q | 0 < q <= |s|
      ensures !OccursAt(s, "{{", q)
    {
      if q + 1 < |s| {
        assert s[q + 1] == s[2..][q - 1];
      }
    }
  }

  /** A text with no match at its start and no `{{` after it holds no match at all. */
  lemma NoOtherMatch(s: string)
    requires MatchAt(s, 0).None?
    requires forall q | 0 < q <= |s| :: !OccursAt(s, "{{", q)
    ensures forall q | 0 <= q <= |s| :: MatchAt(s, q).None?
  {
  }

  /** A placeholder whose path is a `.` and a key holding a `-` is not matched at its start. */
  lemma {:induction false} HyphenatedNotMatched(name: string, section: Section, key: string)
    requires IsName(name)
    requires forall i | 0 <= i < |key| :: IsWordChar(key[i]) || key[i] == '-'
    requires '-' in key
    ensures MatchAt(Placeholder(name, section, "." + key), 0).None?
  {
    var s := Placeholder(name, section, "." + key);
    HeadLaidOut(name, section, "." + key + "}}");
    HeadMatches(s, name, section);
    var e := 12 + |name| + SectionLength(section);
    HyphenStopsPath(s, e, key);
    MatchAfterHead(s, 0, 2 + |name|, section, e, SkipPath(s, e));
  }

  /** The text of a placeholder after its `{{` holds no `{` when its tail holds none. */
  lemma {:induction false} PlaceholderBraceFree(name: string, section: Section, rest: string)
    requires IsName(name) && BraceFree(rest)
    ensures BraceFree((Head(name, section) + rest)[2..])
  {
    var s := Head(name, section) + rest;
    LiteralsBraceFree(section);
    assert BraceFree(name);
    BraceFreeJoin(name, ".response.");
    BraceFreeJoin(name + ".response.", SectionName(section));
    BraceFreeJoin(name + ".response." + SectionName(section), rest);
    assert s[2..] == name + ".response." + SectionName(section) + rest;
  }

  /** A path naming a header with a `-` is not a placeholder: the pattern stops at the `-`, and the text stays as it is. */
  lemma {:induction false} HyphenatedNameNeverMatches(name: string, section: Section, key: string,
                                                      responses: map<string, SavedResponse>, stringify: Value -> string)
    requires IsName(name)
    requires forall i | 0 <= i < |key| :: IsWordChar(key[i]) || key[i] == '-'
    requires '-' in key
    ensures ChainResolve(Placeholder(name, section, "." + key), responses, stringify) == Placeholder(name, section, "." + key)
  {
    var s := Placeholder(name, section, "." + key);
    var rest := "." + key + "}}";
    HyphenatedNotMatched(name, section, key);
    assert BraceFree(rest) by {
      forall i | 0 <= i < |rest|
        ensures rest[i] != '{'
      {
        if 0 < i <= |key| {
          assert rest[i] == key[i - 1];
        }
      }
    }
    PlaceholderBraceFree(name, section, rest);
    OnlyOneOpening(s);
    NoOtherMatch(s);
    NoPlaceholderUnchanged(s, responses, stringify);
  }

  /** A found `null` is written as `null`, like any other found value. */
  lemma FoundNullWritten(name: string, section: Section, group: string,
                         responses: map<string, SavedResponse>, stringify: Value -> string)
    requires IsName(name)
    requires forall i | 0 <= i < |group| :: IsPathChar(group[i])
    requires ChainValue(name, section, PathOf(group), responses, stringify) == Some(Null)
    ensures ChainResolve(Placeholder(name, section, group), responses, stringify) == "null"
  {
    LonePlaceholder(name, section, group, responses, stringify);
  }

  /** A part made of word characters only is a plain property name. */
  lemma WordPart(v: Value, key: string)
    requires IsName(key)
    ensures NestedValue(v, key) == Property(v, key)
  {
    assert key[0] != '[';
    assert SkipWord(key, 0) == |key|;
    assert forall i | 0 <= i < |key| :: key[i] != '.';
    OnePart(v, key);
  }

  /** `{{name.response.headers.key}}` becomes the value of header `key`, or stays when there is no such header. */
  lemma HeaderPlaceholder(name: string, key: string, responses: map<string, SavedResponse>, stringify: Value -> string)
    requires IsName(name) && IsName(key) && name in responses
    ensures Headers.Get(responses[name].headers, key).Some? ==>
              ChainResolve(Placeholder(name, HeaderSection, "." + key), responses, stringify)
              == Headers.Get(responses[name].headers, key).value
    ensures Headers.Get(responses[name].headers, key).None? ==>
              ChainResolve(Placeholder(name, HeaderSection, "." + key), responses, stringify) == Placeholder(name, HeaderSection, "." + key)
  {
    var group := "." + key;
    DottedNameIsPath(key);
    HeaderValue(name, key, responses, stringify);
    LonePlaceholder(name, HeaderSection, group, responses, stringify);
  }

  /** `.` followed by a name is a path, and the path it gives is the name. */
  lemma DottedNameIsPath(key: string)
    requires IsName(key)
    ensures forall i | 0 <= i < |"." + key| :: IsPathChar(("." + key)[i])
    ensures PathOf("." + key) == key
  {
    var group := "." + key;
    forall i | 0 <= i < |group|
      ensures IsPathChar(group[i])
    {
      if i > 0 {
        assert group[i] == key[i - 1];
      }
    }
    assert group[1..] == key;
  }

  /** The value of the header path `key` is the header of that name, as a string. */
  lemma HeaderValue(name: string, key: string, responses: map<string, SavedResponse>, stringify: Value -> string)
    requires IsName(key) && name in responses
    ensures Headers.Get(responses[name].headers, key).Some? ==>
              ChainValue(name, HeaderSection, key, responses, stringify) == Some(Str(Headers.Get(responses[name].headers, key).value))
    ensures Headers.Get(responses[name].headers, key).None? ==> ChainValue(name, HeaderSection, key, responses, stringify).None?
  {
    WordPart(HeadersObject(responses[name].headers), key);
    HeaderLookup(responses[name].headers, key);
  }
}
