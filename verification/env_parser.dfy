/**
 * Reading a `.env` file (src/env/envParser.ts): `KEY=value` lines, comments
 * and blank lines, key validation, one pair of quotes removed, the last value
 * of a key wins, and the environment's name taken from the file path.
 */
module EnvParser {
  import opened Common
  import opened Strings
  import opened Headers
  import opened EnvTypes

  function FormatMessage(line: string): string {
    "Invalid format: expected KEY=VALUE, got \"" + line + "\""
  }

  function KeyMessage(key: string): string {
    "Invalid key: \"" + key + "\". Keys must start with letter/underscore and contain only alphanumeric/underscore characters."
  }

  // ---------------------------------------------------------------------
  // Values
  // ---------------------------------------------------------------------

  /** `value.slice(1, -1)`: the first and the last character dropped; empty for one character. */
  function Inner(value: string): string {
    if |value| >= 2 then value[1..|value| - 1] else ""
  }

  /** `value.startsWith(q) && value.endsWith(q)`: a single `q` does both. */
  predicate QuotedWith(value: string, q: char) {
    |value| > 0 && value[0] == q && value[|value| - 1] == q
  }

  /** `unquoteValue`: one surrounding pair of double quotes, or else of single quotes, removed. */
  function Unquote(value: string): (r: string)
    ensures |r| <= |value|
    ensures QuotedWith(value, '"') || QuotedWith(value, '\'') ==> r == Inner(value)
    ensures !QuotedWith(value, '"') && !QuotedWith(value, '\'') ==> r == value
  {
    if QuotedWith(value, '"') then Inner(value)
    else if QuotedWith(value, '\'') then Inner(value)
    else value
  }

  // ---------------------------------------------------------------------
  // Lines
  // ---------------------------------------------------------------------

  /** What one line of the file does in the loop of `parse`. */
  datatype LineOutcome =
    | Skip                               // blank line or comment: `continue`
    | Bad(error: EnvironmentError)       // no `=`, or an invalid key: an error is recorded
    | Assign(key: string, value: string) // `variables.set(key, value)`

  /** A blank line, or one whose trimmed text starts with `#`. */
  predicate IsSkipped(line: string) {
    var trimmed := Trim(line);
    trimmed == [] || trimmed[0] == '#'
  }

  /**
   * One line, numbered from 1: the key is the trimmed text before the first
   * `=`, the value the trimmed and unquoted text after it.
   */
  function Classify(line: string, lineNumber: nat): (r: LineOutcome)
    ensures r.Skip? <==> IsSkipped(line)
    ensures r.Assign? ==> IsIdentifier(r.key)
    ensures r.Bad? ==> r.error.line == lineNumber
    ensures !IsSkipped(line) && '=' !in line ==> r == Bad(EnvironmentError(lineNumber, FormatMessage(line)))
  {
    IndexOfChar(line, '=');
    if IsSkipped(line) then Skip
    else
      var equalIndex := IndexOf(line, "=");
      if equalIndex.None? then Bad(EnvironmentError(lineNumber, FormatMessage(line)))
      else
        var key := Trim(line[..equalIndex.value]);
        if !IsIdentifier(key) then Bad(EnvironmentError(lineNumber, KeyMessage(key)))
        else Assign(key, Unquote(Trim(line[equalIndex.value + 1..])))
  }

  /**
   * A line that is not skipped, with its first `=` at `c`: it assigns exactly
   * when the trimmed text before `c` is an identifier, and then the key is
   * that text and the value the trimmed, unquoted text after `c`; otherwise
   * the key is reported as invalid.
   */
  lemma ClassifyAssignment(line: string, lineNumber: nat, c: nat)
    requires c < |line| && line[c] == '=' && '=' !in line[..c] && !IsSkipped(line)
    ensures var r, key := Classify(line, lineNumber), Trim(line[..c]);
      && (r.Assign? <==> IsIdentifier(key))
      && (!IsIdentifier(key) ==> r == Bad(EnvironmentError(lineNumber, KeyMessage(key))))
      && (r.Assign? ==> r.key == key && r.value == Unquote(Trim(line[c + 1..])))
  {
    IndexOfChar(line, '=');
  }

  // ---------------------------------------------------------------------
  // The specification of `parse`
  // ---------------------------------------------------------------------

  /** The state of the line loop: the variables map and the errors so far. */
  datatype Scan = Scan(variables: HeaderMap, errors: seq<EnvironmentError>)

  /** The effect of one line on the loop state. */
  function Step(scan: Scan, outcome: LineOutcome): Scan {
    if outcome.Bad? then scan.(errors := scan.errors + [outcome.error])
    else if outcome.Assign? then scan.(variables := Set(scan.variables, outcome.key, outcome.value))
    else scan
  }

  /** The loop state after `lines`, numbered from 1, given what each line does (`Classify`). */
  function ScanLines(classify: (string, nat) -> LineOutcome, lines: seq<string>): Scan
    decreases |lines|
  {
    if lines == [] then Scan([], [])
    else Step(ScanLines(classify, lines[..|lines| - 1]), classify(lines[|lines| - 1], |lines|))
  }

  /** `Classify` as a function value. */
  function Lines(): (string, nat) -> LineOutcome {
    (line: string, lineNumber: nat) => Classify(line, lineNumber)
  }

  /** What `parse` returns for the text of a file and its optional path. */
  function ParseEnv(content: string, filePath: Option<string>): ParseEnvironmentResult {
    var scan := ScanLines(Lines(), Split(content, "\n"));
    if |scan.errors| > 0 then Failed(scan.errors)
    else Parsed(Environment(EnvironmentName(filePath), scan.variables, filePath))
  }

  // ---------------------------------------------------------------------
  // The environment's name
  // ---------------------------------------------------------------------

  const PathSeparators: set<char> := {'/', '\\'}

  /**
   * The text after the last character of `seps` in `s`, all of `s` when there
   * is none: the last element of `s.split(...)` on that character class.
   */
  function LastPiece(s: string, seps: set<char>): string
    decreases |s|
  {
    if s == [] || s[|s| - 1] in seps then [] else LastPiece(s[..|s| - 1], seps) + [s[|s| - 1]]
  }

  /**
   * `getEnvironmentName`, with the `'default'` of `parse` for a missing or
   * empty path: the name the path's last piece gives.
   */
  function EnvironmentName(filePath: Option<string>): (name: string)
    ensures name != [] && (name == "default" || forall i | 0 <= i < |name| :: name[i] !in {'.', '/', '\\'})
  {
    if filePath.None? || filePath.value == "" then "default"
    else
      var piece := LastPiece(filePath.value, PathSeparators);
      LastPieceIs(filePath.value, PathSeparators);
      StemShape(piece);
      Stem(piece)
  }

  /**
   * The name the last piece of a path gives: `default` for `.env` and for an
   * empty piece (which stands for `.env`), otherwise its text after the last
   * `.` unless that is empty.
   */
  function Stem(filename: string): string {
    if filename == "" || filename == ".env" then "default"
    else
      var last := LastPiece(filename, {'.'});
      if last == "" then "default" else last
  }

  // ---------------------------------------------------------------------
  // The operation
  // ---------------------------------------------------------------------

  /** The body of the line loop of `parse`: what line `lineNumber` does, `continue` being an early return. */
  method ReadLine(line: string, lineNumber: nat) returns (outcome: LineOutcome)
    ensures outcome == Classify(line, lineNumber)
  {
    var trimmed := Trim(line);
    if trimmed == [] || trimmed[0] == '#' {
      return Skip;
    }
    assert !IsSkipped(line);
    var equalIndex := IndexOf(line, "=");
    if equalIndex.None? {
      return Bad(EnvironmentError(lineNumber, FormatMessage(line)));
    }
    var key := Trim(line[..equalIndex.value]);
    var value := Trim(line[equalIndex.value + 1..]);
    if !IsIdentifier(key) {
      return Bad(EnvironmentError(lineNumber, KeyMessage(key)));
    }
    value := Unquote(value);
    return Assign(key, value);
  }

  /** One more line read: its outcome applied to the state after the lines before it. */
  lemma ScanExtended(lines: seq<string>, i: nat)
    requires i < |lines|
    ensures ScanLines(Lines(), lines[..i + 1]) == Step(ScanLines(Lines(), lines[..i]), Classify(lines[i], i + 1))
  {
    assert lines[..i + 1][..i] == lines[..i];
  }

  /** `parse`: reads every line, then fails with all errors or returns the environment. */
  method Parse(content: string, filePath: Option<string>) returns (r: ParseEnvironmentResult)
    ensures r == ParseEnv(content, filePath)
  {
    var variables: HeaderMap := [];
    var errors: seq<EnvironmentError> := [];
    var lines := Split(content, "\n");
    for i := 0 to |lines|
      invariant Scan(variables, errors) == ScanLines(Lines(), lines[..i])
    {
      var outcome := ReadLine(lines[i], i + 1);
      ScanExtended(lines, i);
      match outcome {
        case Skip =>
        case Bad(error) => errors := errors + [error];
        case Assign(key, value) => variables := Set(variables, key, value);
      }
    }
    assert lines[..|lines|] == lines;
    if |errors| > 0 {
      return Failed(errors);
    }
    var name := EnvironmentName(filePath);
    return Parsed(Environment(name, variables, filePath));
  }

  // ---------------------------------------------------------------------
  // Properties
  // ---------------------------------------------------------------------

  /** A value written between a pair of quotes of either kind reads back exactly; only that one pair goes. */
  lemma QuotedRoundTrip(v: string, q: char)
    requires q == '"' || q == '\''
    ensures Unquote([q] + v + [q]) == v
  {
    var s := [q] + v + [q];
    assert s[1..|s| - 1] == v;
  }

  /** A line of blanks then `#` is a comment, whatever follows. */
  lemma CommentSkipped(blanks: string, text: string, lineNumber: nat)
    requires IsBlank(blanks)
    ensures Classify(blanks + "#" + text, lineNumber) == Skip
  {
    CommentIsSkipped(blanks, text);
  }

  /** Trimming a comment line leaves its `#` first. */
  lemma CommentIsSkipped(blanks: string, text: string)
    requires IsBlank(blanks)
    ensures IsSkipped(blanks + "#" + text)
  {
    var line := blanks + "#" + text;
    assert line[|blanks|] == '#';
    TrimCutsSpaces(line);
    assert !IsBlank(line);
    NonBlankTrim(line);
    assert TrimOffset(line) == |blanks|;
  }

  /** A blank line is skipped. */
  lemma BlankSkipped(line: string, lineNumber: nat)
    requires IsBlank(line)
    ensures Classify(line, lineNumber) == Skip
  {
    TrimEmptyIffBlank(line);
  }

  /** A line that is neither blank nor a comment and has no `=` is a format error naming the line. */
  lemma NoEqualsIsError(line: string, lineNumber: nat)
    requires !IsSkipped(line) && forall i | 0 <= i < |line| :: line[i] != '='
    ensures Classify(line, lineNumber) == Bad(EnvironmentError(lineNumber, FormatMessage(line)))
  {
    IndexOfFirst(line, "=");
    forall j | 0 <= j
      ensures !OccursAt(line, "=", j)
    {
      if j + 1 <= |line| {
        assert line[j..j + 1][0] == line[j];
      }
    }
  }

  /**
   * `KEY=raw`, for an identifier KEY and a raw value without surrounding
   * blanks, reads back as KEY with the unquoted raw value, even when the
   * value holds `=` itself.
   */
  lemma AssignmentReadsBack(key: string, raw: string, lineNumber: nat)
    requires IsIdentifier(key)
    requires raw == [] || (!IsSpace(raw[0]) && !IsSpace(raw[|raw| - 1]))
    ensures Classify(key + "=" + raw, lineNumber) == Assign(key, Unquote(raw))
  {
    var line := key + "=" + raw;
    assert line[0] == key[0] && line[|key|] == '=';
    assert !IsSpace(line[|line| - 1]) by {
      if raw != [] {
        assert line[|line| - 1] == raw[|raw| - 1];
      }
    }
    TrimmedIsFixed(line);
    assert line[..|key|] == key && line[|key| + 1..] == raw;
    forall j | 0 <= j < |key|
      ensures !OccursAt(line, "=", j)
    {
      assert line[j..j + 1][0] == key[j];
    }
    assert line[|key|..|key| + 1] == "=";
    IndexOfIs(line, "=", |key|);
    TrimmedIsFixed(key);
    TrimmedIsFixed(raw);
  }

  /** Any value at all, written between double quotes after `KEY=`, reads back exactly. */
  lemma QuotedAssignmentReadsBack(key: string, v: string, lineNumber: nat)
    requires IsIdentifier(key)
    ensures Classify(key + "=\"" + v + "\"", lineNumber) == Assign(key, v)
  {
    var raw := "\"" + v + "\"";
    assert key + "=\"" + v + "\"" == key + "=" + raw;
    assert raw[0] == '"' && raw[|raw| - 1] == '"';
    AssignmentReadsBack(key, raw, lineNumber);
    QuotedRoundTrip(v, '"');
  }

  /** Line `i` (from 0) assigns `key`. */
  predicate Assigns(classify: (string, nat) -> LineOutcome, lines: seq<string>, i: nat, key: string)
    requires i < |lines|
  {
    var outcome := classify(lines[i], i + 1);
    outcome.Assign? && outcome.key == key
  }

  /** The last line that assigns a key decides its value: later lines that do not assign it leave it alone. */
  lemma {:induction false} LastAssignmentWins(classify: (string, nat) -> LineOutcome, lines: seq<string>, key: string, i: nat)
    requires i < |lines| && Assigns(classify, lines, i, key)
    requires forall j | i < j < |lines| :: !Assigns(classify, lines, j, key)
    ensures Headers.Get(ScanLines(classify, lines).variables, key) == Some(classify(lines[i], i + 1).value)
    decreases |lines|
  {
    var init := lines[..|lines| - 1];
    if i < |lines| - 1 {
      forall j | i < j < |init|
        ensures !Assigns(classify, init, j, key)
      {
        assert !Assigns(classify, lines, j, key);
      }
      LastAssignmentWins(classify, init, key, i);
      assert !Assigns(classify, lines, |lines| - 1, key);
    }
  }

  /** A key no line assigns is not in the variables. */
  lemma {:induction false} UnassignedAbsent(classify: (string, nat) -> LineOutcome, lines: seq<string>, key: string)
    requires forall j | 0 <= j < |lines| :: !Assigns(classify, lines, j, key)
    ensures Headers.Get(ScanLines(classify, lines).variables, key) == None
    decreases |lines|
  {
    if lines != [] {
      var init := lines[..|lines| - 1];
      forall j | 0 <= j < |init|
        ensures !Assigns(classify, init, j, key)
      {
        assert !Assigns(classify, lines, j, key);
      }
      UnassignedAbsent(classify, init, key);
      assert !Assigns(classify, lines, |lines| - 1, key);
    }
  }

  /** Every key of the variables is an identifier. */
  lemma {:induction false} KeysAreIdentifiers(lines: seq<string>)
    ensures forall k | k in Keys(ScanLines(Lines(), lines).variables) :: IsIdentifier(k)
    decreases |lines|
  {
    if lines != [] {
      KeysAreIdentifiers(lines[..|lines| - 1]);
    }
  }

  /** Each error is what its own line, within the file, gives. */
  lemma {:induction false} ErrorsComeFromLines(classify: (string, nat) -> LineOutcome, lines: seq<string>)
    requires forall line, n :: classify(line, n).Bad? ==> classify(line, n).error.line == n
    ensures forall e | 0 <= e < |ScanLines(classify, lines).errors| ::
      var error := ScanLines(classify, lines).errors[e];
      1 <= error.line <= |lines| && classify(lines[error.line - 1], error.line) == Bad(error)
    decreases |lines|
  {
    if lines != [] {
      var init := lines[..|lines| - 1];
      ErrorsComeFromLines(classify, init);
      var before := ScanLines(classify, init).errors;
      var errors := ScanLines(classify, lines).errors;
      var outcome := classify(lines[|lines| - 1], |lines|);
      assert errors == if outcome.Bad? then before + [outcome.error] else before;
      forall e | 0 <= e < |errors|
        ensures 1 <= errors[e].line <= |lines| && classify(lines[errors[e].line - 1], errors[e].line) == Bad(errors[e])
      {
        if e < |before| {
          assert errors[e] == before[e];
          assert lines[before[e].line - 1] == init[before[e].line - 1];
        }
      }
    }
  }

  /** The errors are in strictly increasing line order: one per failing line at most. */
  lemma {:induction false} ErrorsInLineOrder(classify: (string, nat) -> LineOutcome, lines: seq<string>)
    requires forall line, n :: classify(line, n).Bad? ==> classify(line, n).error.line == n
    ensures forall e, f | 0 <= e < f < |ScanLines(classify, lines).errors| ::
      ScanLines(classify, lines).errors[e].line < ScanLines(classify, lines).errors[f].line
    decreases |lines|
  {
    if lines != [] {
      var init := lines[..|lines| - 1];
      ErrorsInLineOrder(classify, init);
      ErrorsComeFromLines(classify, init);
      var before := ScanLines(classify, init).errors;
      var errors := ScanLines(classify, lines).errors;
      var outcome := classify(lines[|lines| - 1], |lines|);
      assert errors == if outcome.Bad? then before + [outcome.error] else before;
      forall e, f | 0 <= e < f < |errors|
        ensures errors[e].line < errors[f].line
      {
        assert errors[e] == before[e];
        if f < |before| {
          assert errors[f] == before[f];
        }
      }
    }
  }

  /** Some error of `errors` is about line `lineNumber`. */
  predicate Reported(errors: seq<EnvironmentError>, lineNumber: nat) {
    exists e | 0 <= e < |errors| :: errors[e].line == lineNumber
  }

  /** A failing line has its error. */
  lemma {:induction false} FailingLineReported(classify: (string, nat) -> LineOutcome, lines: seq<string>, i: nat)
    requires i < |lines| && classify(lines[i], i + 1).Bad?
    requires forall line, n :: classify(line, n).Bad? ==> classify(line, n).error.line == n
    ensures Reported(ScanLines(classify, lines).errors, i + 1)
    decreases |lines|
  {
    var init := lines[..|lines| - 1];
    var errors := ScanLines(classify, lines).errors;
    var before := ScanLines(classify, init).errors;
    var outcome := classify(lines[|lines| - 1], |lines|);
    assert errors == if outcome.Bad? then before + [outcome.error] else before;
    if i < |init| {
      assert init[i] == lines[i];
      FailingLineReported(classify, init, i);
      var e :| 0 <= e < |before| && before[e].line == i + 1;
      assert errors[e].line == i + 1;
    } else {
      assert errors[|errors| - 1].line == i + 1;
    }
  }

  /** Every failing line has its error. */
  lemma FailingLinesReported(classify: (string, nat) -> LineOutcome, lines: seq<string>)
    requires forall line, n :: classify(line, n).Bad? ==> classify(line, n).error.line == n
    ensures forall i: nat | i < |lines| && classify(lines[i], i + 1).Bad? ::
      Reported(ScanLines(classify, lines).errors, i + 1)
  {
    forall i: nat | i < |lines| && classify(lines[i], i + 1).Bad?
      ensures Reported(ScanLines(classify, lines).errors, i + 1)
    {
      FailingLineReported(classify, lines, i);
    }
  }

  /** Errors are recorded exactly when some line fails. */
  lemma SomeErrorIffFailingLine(classify: (string, nat) -> LineOutcome, lines: seq<string>)
    requires forall line, n :: classify(line, n).Bad? ==> classify(line, n).error.line == n
    ensures ScanLines(classify, lines).errors != [] <==> exists i: nat | i < |lines| :: classify(lines[i], i + 1).Bad?
  {
    ErrorsComeFromLines(classify, lines);
    FailingLinesReported(classify, lines);
    var errors := ScanLines(classify, lines).errors;
    if errors != [] {
      var i: nat := errors[0].line - 1;
      assert classify(lines[i], i + 1).Bad?;
    }
  }

  /** Some line of `lines` (numbered from 1) is malformed. */
  predicate SomeLineFails(lines: seq<string>) {
    exists i: nat | i < |lines| :: Classify(lines[i], i + 1).Bad?
  }

  /** `parse` fails exactly when some line fails, and then it reports at least one error. */
  lemma FailsIffSomeLineFails(content: string, filePath: Option<string>)
    ensures ParseEnv(content, filePath).Failed? <==> SomeLineFails(Split(content, "\n"))
    ensures ParseEnv(content, filePath).Failed? ==> ParseEnv(content, filePath).errors != []
  {
    var lines := Split(content, "\n");
    SomeErrorIffFailingLine(Lines(), lines);
    if ScanLines(Lines(), lines).errors != [] {
      var i: nat :| i < |lines| && Lines()(lines[i], i + 1).Bad?;
      assert Classify(lines[i], i + 1).Bad?;
    } else {
      forall i: nat | i < |lines|
        ensures !Classify(lines[i], i + 1).Bad?
      {
        assert !Lines()(lines[i], i + 1).Bad?;
      }
    }
  }

  /** The last piece is a suffix free of separators that starts the text or follows a separator. */
  lemma {:induction false} LastPieceIs(s: string, seps: set<char>)
    ensures var r := LastPiece(s, seps);
      && EndsWith(s, r)
      && (forall i | 0 <= i < |r| :: r[i] !in seps)
      && (|r| == |s| || s[|s| - |r| - 1] in seps)
    decreases |s|
  {
    if s != [] && s[|s| - 1] !in seps {
      var init := s[..|s| - 1];
      LastPieceIs(init, seps);
      assert s == init + [s[|s| - 1]];
      PieceExtended(init, s[|s| - 1], LastPiece(init, seps), seps);
    }
  }

  /** A separator-free suffix of `init` that starts it or follows a separator, extended by one more such character. */
  lemma PieceExtended(init: string, x: char, r: string, seps: set<char>)
    requires EndsWith(init, r) && (forall i | 0 <= i < |r| :: r[i] !in seps)
    requires |r| == |init| || init[|init| - |r| - 1] in seps
    requires x !in seps
    ensures var s, r' := init + [x], r + [x];
      && EndsWith(s, r')
      && (forall i | 0 <= i < |r'| :: r'[i] !in seps)
      && (|r'| == |s| || s[|s| - |r'| - 1] in seps)
  {
    var s := init + [x];
    assert s[|s| - |r| - 1..] == init[|init| - |r|..] + [x];
    if |r| < |init| {
      assert s[|s| - |r| - 2] == init[|init| - |r| - 1];
    }
  }

  /** After a separator, the last piece is all of a separator-free tail. */
  lemma {:induction false} LastPieceAfter(x: string, c: char, y: string, seps: set<char>)
    requires c in seps && forall i | 0 <= i < |y| :: y[i] !in seps
    ensures LastPiece(x + [c] + y, seps) == y
    decreases |y|
  {
    var s := x + [c] + y;
    if y != [] {
      var init := y[..|y| - 1];
      LastPieceAfter(x, c, init, seps);
      assert s[..|s| - 1] == x + [c] + init;
      assert y == init + [y[|y| - 1]];
    }
  }

  /** A file `.env.NAME` in any directory names environment NAME, when NAME has no `.`, `/` or `\`. */
  lemma DotEnvSuffixNames(dir: string, name: string)
    requires name != []
    requires forall i | 0 <= i < |name| :: name[i] !in {'.', '/', '\\'}
    ensures EnvironmentName(Some(dir + "/.env." + name)) == name
  {
    var file := ".env." + name;
    assert forall i | 0 <= i < |file| :: file[i] !in PathSeparators by {
      forall i | 0 <= i < |file|
        ensures file[i] !in PathSeparators
      {
        if i >= 5 {
          assert file[i] == name[i - 5];
        }
      }
    }
    assert dir + "/.env." + name == dir + ['/'] + file;
    LastPieceAfter(dir, '/', file, PathSeparators);
    assert file == ".env" + ['.'] + name;
    LastPieceAfter(".env", '.', name, {'.'});
    assert file != ".env";
  }

  /** A file named `.env`, in any directory, and a missing path both name the default environment. */
  lemma DotEnvIsDefault(dir: string)
    ensures EnvironmentName(Some(dir + "/.env")) == "default"
    ensures EnvironmentName(None) == "default"
  {
    assert dir + "/.env" == dir + ['/'] + ".env";
    LastPieceAfter(dir, '/', ".env", PathSeparators);
  }

  /** A file name without separators gives a name that is `default` or free of `.`, `/` and `\`. */
  lemma StemShape(filename: string)
    requires forall i | 0 <= i < |filename| :: filename[i] !in PathSeparators
    ensures var name := Stem(filename);
      name != [] && (name == "default" || forall i | 0 <= i < |name| :: name[i] !in {'.', '/', '\\'})
  {
    if filename != "" && filename != ".env" {
      LastPieceIs(filename, {'.'});
      var last := LastPiece(filename, {'.'});
      assert forall i | 0 <= i < |last| :: last[i] == filename[|filename| - |last| + i];
    }
  }
}
