# A verified model of the request core of a REST client

This project models, in Dafny, the core of a Visual Studio Code extension
that runs HTTP requests written in `.http` files. The core:

- reads a `.http` file into requests (`HttpParser`), and `multipart/form-data`
  bodies into parts (`MultipartParser`);
- validates a parsed request (`RequestValidator`);
- reads `.env` files into named environments (`EnvParser`);
- substitutes `{{NAME}}` environment variables into a request (`EnvResolver`);
- keeps the responses of named requests (`ResponseChain`), and substitutes
  `{{name.response.body.path}}`, `{{name.response.headers.key}}` and
  `{{name.response.status}}` from them (`ChainResolver`);
- lays out response bodies for display (`Formatter`);
- turns transport errors into user messages (`ErrorCategorizer`).

Each core source file is one module, and each module follows the source's
own form:

- Loops in the source are methods with loop invariants. Each is proved equal
  to a specification function, usually a fold over the input lines or a
  left-to-right scan.
- The response store is a class whose map field its methods update in place.
- Pure checks are functions.
- Properties the source promises are lemmas about the specification
  functions.

Shared modules:

- `Common`: `Option`, `Result` and the HTTP methods.
- `Strings`: the ASCII behaviour of `trim`, `split`, `indexOf`,
  `toLowerCase`, `replace` and number printing.
- `Headers`: a JavaScript `Map<string, string>` as a sequence of pairs with
  distinct keys, in insertion order.
- `Json`: the values `JSON.parse` produces.
- `ParserTypes`, `EnvTypes` and `RequestChain`: the records of the source.

Functions the core calls but that are not part of it are parameters of the
model. These are `new URL(...)` (`urlParses`), `JSON.parse` (`parseJson`),
`JSON.stringify` (`stringify`, `prettyJson`) and the text of a random number
(`random36`).

Regular expressions are modelled by deterministic "match at position p"
functions and a leftmost-position search. Every pattern involved reads
maximal runs of characters that the following literal cannot start with,
so backtracking never changes a match.

## Model

| member | source | states |
|---|---|---|
| Common.ParseMethod | src/parser/httpParser.ts:15-23 | a method name is accepted exactly when it is the upper-case name of one of the seven methods, and it maps back to that method |
| Headers.Get | src/env/envResolver.ts:54 | `map.get` finds a value exactly for the keys of the map, and the value found is the one paired with that key |
| Headers.Set | src/parser/httpParser.ts:118 | `map.set` makes the key give the new value, leaves every other key alone, keeps the key order and appends a new key at the end |
| Headers.SetAppends | src/env/envParser.ts:52 | setting a new key appends exactly that pair |
| Strings.TrimCutsSpaces | src/parser/httpParser.ts:60 | `trim` removes exactly the leading and trailing whitespace |
| Strings.TrimEmptyIffBlank | src/parser/httpParser.ts:68 | a line trims to the empty string exactly when it is all whitespace |
| Strings.JoinSplit | src/env/envParser.ts:8 | joining the pieces of `split` with the separator gives the text back |
| Strings.SplitSnoc | src/env/envParser.ts:8 | appending the separator and a tail free of it adds exactly that tail as the last piece |
| Strings.StartsWithIgnoringCaseIff | src/parser/multipartParser.ts:106 | a case-insensitive prefix test is `startsWith` on the lower-cased text |
| Strings.IndexOfFirst | src/parser/httpParser.ts:292 | `indexOf` gives the first occurrence, and nothing exactly when there is none |
| Strings.ReplaceFirst | src/env/chainResolver.ts:30 | `replace` with a string pattern: with no occurrence the text is unchanged; otherwise the occurrence with none before it, and only that one, is replaced |
| Strings.ReplaceWhole | src/env/chainResolver.ts:30 | replacing a whole text gives the replacement |
| Strings.DecimalRoundTrip | src/env/chainResolver.ts:63 | the decimal text `String(n)` gives of a natural number reads back as that number |
| HttpParser.ParseRequestLine | src/parser/httpParser.ts:226-286 | a line is accepted exactly when, trimmed and cut before its inline comment, it has two or more words, the upper-cased first word is a method and the second a valid URL; the method and URL are read from those two words and later words are ignored; the request carries the line number and no headers, and an error carries the line number |
| HttpParser.RequestLineRoundTrip | src/parser/httpParser.ts:226-286 | `METHOD URL` with a space-free valid URL reads back as that method and URL |
| HttpParser.LowerCaseWithExtraWord | src/parser/httpParser.ts:226-286 | `get /x extra` reads as GET `/x`: the method is upper-cased and the extra word is ignored |
| HttpParser.RelativeOrPlaceholderUrl | src/parser/httpParser.ts:323-341 | a URL starting with `/` or holding `{{` is accepted whatever the `URL` constructor says |
| HttpParser.RequestLineAnyNumber | src/parser/httpParser.ts:226-286 | whether a request line is accepted does not depend on its line number |
| HttpParser.CommentCut | src/parser/httpParser.ts:230-238 | a ` #` and everything after it are cut from a request line |
| HttpParser.InlineCommentIgnored | src/parser/httpParser.ts:232-238 | an inline comment does not change how a request line reads |
| HttpParser.MethodNameShape | src/parser/httpParser.ts:252-255 | the method names are upper case and space-free, so upper-casing before the lookup keeps them |
| HttpParser.ParseHeader | src/parser/httpParser.ts:288-318 | a header line is accepted exactly when it has a colon and the trimmed text before its first colon is not empty; key and value are the trimmed text before and after that colon, and the key holds no colon; an error carries the line number |
| HttpParser.HeaderRoundTrip | src/parser/httpParser.ts:288-318 | `Key: Value` with a trimmed colon-free key and a trimmed value reads back as that pair |
| HttpParser.EmptyKeyIsError | src/parser/httpParser.ts:303-312 | a colon with nothing but whitespace before it is an empty-name error |
| HttpParser.ExtractRequestName | src/parser/httpParser.ts:171-191 | the upward loop returns the name of the nearest annotated comment above the request line, stopping at a blank or separator line |
| HttpParser.NameAbove | src/parser/httpParser.ts:171-191 | a name found comes from an annotated comment line above the request line |
| HttpParser.NameAnnotationOf | src/parser/httpParser.ts:183-185 | `# @name id` names the request `id` |
| HttpParser.NameFromCommentAbove | src/parser/httpParser.ts:171-191 | a `# @name id` line directly above a request line names it |
| HttpParser.NameAbovePrefix | src/parser/httpParser.ts:173 | the name search reads only the lines above the request line |
| HttpParser.BreakStopsSearch | src/parser/httpParser.ts:176-179 | a blank or separator line ends the search with no name |
| HttpParser.NameStopsAtBreak | src/parser/httpParser.ts:176-179 | comments above a blank or separator line never name a request below it |
| HttpParser.TrimTrailingBlank | src/parser/httpParser.ts:199-201 | popping trailing blank lines leaves a prefix whose last line is not blank, and only blank lines are removed |
| HttpParser.BodyOfNotBlank | src/parser/httpParser.ts:196-207 | a request gets a body exactly when some body line is not blank, and the body is never blank |
| HttpParser.FinalizeRequest | src/parser/httpParser.ts:196-207 | the method's `while` loop gives the finalized request of the specification |
| HttpParser.FinalizedBodyRule | src/parser/httpParser.ts:99-105 | a finalized request has no body when its method is GET or HEAD, and never a blank body |
| HttpParser.ReadLine | src/parser/httpParser.ts:44-126 | one iteration of the line loop is one step of the specification fold |
| HttpParser.Step | src/parser/httpParser.ts:43-127 | a line adds at most one error, at its own line number, and at most one request, only at a separator; what was collected before is kept |
| HttpParser.AssignIds | src/parser/httpParser.ts:136-138 | requests are numbered `req-1`, `req-2`, ... in order |
| HttpParser.Parse | src/parser/httpParser.ts:31-152 | `parse` returns the result of the fold over the lines of the file |
| HttpParser.SeparatorKeepsInvariant | src/parser/httpParser.ts:48-58 | a separator line collects the pending request and keeps the loop invariant |
| HttpParser.IdleLineKeepsInvariant | src/parser/httpParser.ts:60-90 | between requests a line is skipped, adds an error at its own line, or starts a request read from it |
| HttpParser.PendingLineKeepsInvariant | src/parser/httpParser.ts:92-126 | inside a request a line changes only its headers, its state or its body lines, or adds an error |
| HttpParser.StepKeepsInvariant | src/parser/httpParser.ts:43-127 | every line keeps the loop invariant: collected requests come from their request lines in line order, and errors are in line order |
| HttpParser.ScanKeepsInvariant | src/parser/httpParser.ts:43-133 | the invariant holds after the whole file |
| HttpParser.ParseLinesWellFormed | src/parser/httpParser.ts:31-152 | success holds exactly when there are no errors; requests are numbered in file order, come from their request lines, and GET/HEAD requests have no body; errors have valid line numbers in increasing order |
| HttpParser.WithIdsKeeps | src/parser/httpParser.ts:136-138 | numbering the requests changes nothing else about them |
| HttpParser.RequestIdsDistinct | src/parser/httpParser.ts:137 | request ids are distinct |
| HttpParser.SeparatorsOnly | src/parser/httpParser.ts:48-58 | a file of separator lines only gives no requests and no errors |
| HttpParser.StepOnRequestLine | src/parser/httpParser.ts:73-89 | between requests, a request line starts a request at its line number, with no headers |
| HttpParser.StepOnSeparator | src/parser/httpParser.ts:48-57 | a separator closes the pending request with the body lines gathered so far |
| HttpParser.StepOnComment | src/parser/httpParser.ts:60-124 | a comment line changes nothing between requests or in a header block, and is a body line in a body |
| HttpParser.StepOnInvalidRequestLine | src/parser/httpParser.ts:78-82 | between requests, a rejected request line adds its error and nothing else, so parsing goes on between requests |
| HttpParser.StepOnInvalidHeader | src/parser/httpParser.ts:108-112 | in a header block, a rejected header line adds its error and leaves the request as it was |
| HttpParser.StepErrors | src/parser/httpParser.ts:43-127 | a line adds to the errors exactly the error it gives in the state it is read in |
| HttpParser.ErrorsAreFailures | src/parser/httpParser.ts:43-127 | the errors after the whole file are the errors of the failing lines, in line order |
| HttpParser.ErrorsFromLines | src/parser/httpParser.ts:43-127 | every error `parse` returns is the error its own line gives in the state it is read in |
| HttpParser.FailingLinesReported | src/parser/httpParser.ts:43-127 | every line that fails in the state it is read in has its error returned |
| HttpParser.SuccessIffNoFailure | src/parser/httpParser.ts:43-152 | `parse` succeeds exactly when no line fails |
| HttpParser.ErrorsAreLineFailures | src/parser/httpParser.ts:31-152 | every error is the one its own line gives, every line that fails in the state it is read in is reported, and `parse` succeeds exactly when no line fails |
| HttpParser.SeparatorIff | src/parser/httpParser.ts:29 | a separator is three or more `#` or three or more `-`, with only whitespace around them |
| HttpParser.AlternatingDocument | src/parser/httpParser.ts:31-152 | `n` request lines separated by separators parse, without errors, into `n` requests in order, each at its own line, with no headers or body |
| MultipartParser.ApplyHeader | src/parser/multipartParser.ts:104-141 | a header line never sets the file path |
| MultipartParser.ApplyDisposition | src/parser/multipartParser.ts:106-120 | `Content-Disposition` sets only the name and the file name |
| MultipartParser.DispositionAnyCase | src/parser/multipartParser.ts:106-120 | `Content-Disposition:` in any case: its quoted `name` and `filename` replace the earlier ones, and nothing else changes |
| MultipartParser.ContentTypeAnyCase | src/parser/multipartParser.ts:123-125 | `Content-Type:` in any case sets only the trimmed content type |
| MultipartParser.KeyLine | src/parser/multipartParser.ts:128-140 | any other line with a colon is split at its first colon into a trimmed lower-case key and a trimmed value |
| MultipartParser.UnknownLine | src/parser/multipartParser.ts:104-141 | a line with neither prefix and no colon changes nothing |
| MultipartParser.NameLine | src/parser/multipartParser.ts:133-134 | `name:` sets the name to the trimmed rest of the line |
| MultipartParser.FilenameLine | src/parser/multipartParser.ts:135-136 | `filename:` sets the file name to the trimmed rest of the line |
| MultipartParser.AttrAtValue | src/parser/multipartParser.ts:110-111 | `key="v"` is read back as `v` |
| MultipartParser.AttrFromFirst | src/parser/multipartParser.ts:110-118 | the leftmost `key="` with a value decides the match |
| MultipartParser.NameInsideFilename | src/parser/multipartParser.ts:110-113 | in `filename="f"; name="n"` the name is read from inside `filename="`, so the part is named `f` |
| MultipartParser.ReadPartLine | src/parser/multipartParser.ts:64-85 | one iteration of the line loop of `parsePart` is one step of the specification, the record filled in place included |
| MultipartParser.ScanSection | src/parser/multipartParser.ts:64-85 | the line loop of `parsePart` leaves the record and the value lines the specification reads from the section |
| MultipartParser.CompletePart | src/parser/multipartParser.ts:87-98 | the end of `parsePart` sets the value unless a file is named, and rejects a part without a name |
| MultipartParser.ParsePart | src/parser/multipartParser.ts:58-99 | the loop of `parsePart` gives the part the specification reads from the section |
| MultipartParser.HeadersUntilBlank | src/parser/multipartParser.ts:64-75 | before the first blank line every line is a header line |
| MultipartParser.ContentAfterBlank | src/parser/multipartParser.ts:64-85 | after the first blank line the header lines are frozen, the file is that of the last `<` line, and the value lines are the other non-blank lines, in order |
| MultipartParser.PartContent | src/parser/multipartParser.ts:58-99 | a part holds the fields of the header lines before its first blank line, and the value or file of the lines after it |
| MultipartParser.PartWithoutBlank | src/parser/multipartParser.ts:58-99 | a part without a blank line has no value and no file |
| MultipartParser.PartNamed | src/parser/multipartParser.ts:93-98 | a part is dropped exactly when it has no name or an empty one; a kept part's name is non-empty |
| MultipartParser.ValueOrFile | src/parser/multipartParser.ts:87-90 | a part with a value names no file |
| MultipartParser.ReadPiece | src/parser/multipartParser.ts:21-27 | a piece is trimmed, skipped when blank, and otherwise read as a part |
| MultipartParser.AddPiece | src/parser/multipartParser.ts:20-28 | one iteration adds the part of the next interior piece, if any |
| MultipartParser.CollectPieces | src/parser/multipartParser.ts:20-28 | the loop collects the parts of the pieces between the first and the last |
| MultipartParser.PartsInOrder | src/parser/multipartParser.ts:20-28 | the parts are exactly those the interior pieces yield, in the order of the pieces |
| MultipartParser.ParseBody | src/parser/multipartParser.ts:12-53 | success holds exactly when a request is returned, which holds the boundary and at least one part; failure says `No multipart parts found` |
| MultipartParser.Parse | src/parser/multipartParser.ts:12-53 | `parse` returns the result of the specification |
| MultipartParser.FewPiecesFail | src/parser/multipartParser.ts:17-35 | a body with fewer than three pieces has no parts and fails |
| MultipartParser.ExtractBoundary | src/parser/multipartParser.ts:146-152 | a boundary is found exactly when some `boundary=` is followed by a character other than `;` |
| MultipartParser.ExtractedBoundary | src/parser/multipartParser.ts:146-152 | the first `boundary=` gives its value up to the next `;`, trimmed and unquoted |
| MultipartParser.QuotedBoundary | src/parser/multipartParser.ts:147-150 | a boundary between quotes of either kind is read without them |
| MultipartParser.NoBoundary | src/parser/multipartParser.ts:146-152 | without `boundary=` there is no boundary |
| MultipartParser.GenerateBoundary | src/parser/multipartParser.ts:157-159 | a generated boundary starts with `----WebKitFormBoundary` followed by at most 13 characters |
| RequestValidator.LowerKeys | src/parser/requestValidator.ts:12 | the lower-cased header names, in order |
| RequestValidator.SetSmallerIffDuplicates | src/parser/requestValidator.ts:12-15 | the set of the names is smaller than their list exactly when two names repeat |
| RequestValidator.Validate | src/parser/requestValidator.ts:10-42 | duplicate names ignoring case give the duplicate error; otherwise an error exactly for GET or HEAD with a non-empty body, and it is the no-body error |
| RequestValidator.DuplicatesDifferOnlyInCase | src/parser/requestValidator.ts:11-15 | a duplicate the validator finds is two names that differ only in case |
| RequestValidator.DuplicateCheckComesFirst | src/parser/requestValidator.ts:11-20 | two names equal ignoring case give the duplicate error, whatever the method and body |
| EnvParser.Unquote | src/env/envParser.ts:72-84 | a value between one pair of matching double or single quotes loses exactly that pair; any other value is returned unchanged; the result is never longer |
| EnvParser.QuotedRoundTrip | src/env/envParser.ts:72-84 | a value between one pair of either kind of quote reads back exactly |
| EnvParser.Classify | src/env/envParser.ts:14-52 | a line is skipped exactly when its trimmed text is empty or starts with `#`; a line without `=` is the format error; an assignment's key is an identifier; an error carries the line's number |
| EnvParser.ClassifyAssignment | src/env/envParser.ts:20-43 | for a line that is not skipped, with its first `=` at `c`: it assigns exactly when the trimmed text before `c` is an identifier, and then the key is that text and the value the trimmed, unquoted text after `c`; otherwise it is the invalid-key error naming that text |
| EnvParser.ReadLine | src/env/envParser.ts:11-53 | one iteration of the line loop does what the specification says that line does |
| EnvParser.Parse | src/env/envParser.ts:5-70 | `parse` returns the result of the fold over the lines |
| EnvParser.CommentSkipped | src/env/envParser.ts:15-18 | a line of blanks then `#` is skipped |
| EnvParser.BlankSkipped | src/env/envParser.ts:15-18 | a blank line is skipped |
| EnvParser.NoEqualsIsError | src/env/envParser.ts:21-28 | a non-skipped line without `=` is the format error for its line |
| EnvParser.AssignmentReadsBack | src/env/envParser.ts:30-52 | `KEY=raw` reads back as KEY with the unquoted raw value, even when the value holds `=` |
| EnvParser.QuotedAssignmentReadsBack | src/env/envParser.ts:30-43 | any double-quoted value after `KEY=` reads back exactly |
| EnvParser.LastAssignmentWins | src/env/envParser.ts:45-52 | the last line that assigns a key decides its value |
| EnvParser.UnassignedAbsent | src/env/envParser.ts:10-54 | a key no line assigns is absent |
| EnvParser.KeysAreIdentifiers | src/env/envParser.ts:33-40 | every variable name is an identifier |
| EnvParser.ErrorsComeFromLines | src/env/envParser.ts:10-54 | each error is the one its own line, within the file, gives |
| EnvParser.ErrorsInLineOrder | src/env/envParser.ts:10-54 | errors are in strictly increasing line order |
| EnvParser.FailingLinesReported | src/env/envParser.ts:10-54 | every failing line has its error |
| EnvParser.SomeErrorIffFailingLine | src/env/envParser.ts:10-58 | errors are recorded exactly when some line fails |
| EnvParser.FailsIffSomeLineFails | src/env/envParser.ts:56-58 | `parse` fails exactly when some line fails, and then reports at least one error |
| EnvParser.LastPieceIs | src/env/envParser.ts:90 | the last piece of a path is a separator-free suffix that starts the path or follows a separator |
| EnvParser.DotEnvSuffixNames | src/env/envParser.ts:86-98 | `dir/.env.NAME` names environment NAME |
| EnvParser.DotEnvIsDefault | src/env/envParser.ts:60-94 | `dir/.env` and a missing path both name `default` |
| EnvParser.EnvironmentName | src/env/envParser.ts:86-98 | an environment name is never empty and is `default` or free of `.`, `/` and `\` |
| EnvResolver.VarAt | src/env/envResolver.ts:6 | a match of the variable pattern names an identifier and ends within the text |
| EnvResolver.DistinctElements | src/env/envResolver.ts:97-102 | the names collected hold every name exactly once |
| EnvResolver.ReadMatch | src/env/envResolver.ts:97-102 | one step of the `matchAll` loop advances and keeps the distinct names of what it has read |
| EnvResolver.ExtractVariables | src/env/envResolver.ts:93-105 | the distinct placeholder names of the text, in first-occurrence order |
| EnvResolver.NamedMatchIsPlaceholder | src/env/envResolver.ts:66 | the pattern built for NAME matches exactly where the variable pattern finds NAME, and ends at the same place |
| EnvResolver.DottedNotPlaceholder | src/env/envResolver.ts:6 | a chain placeholder such as `{{login.response.body}}` is not an environment variable |
| EnvResolver.LonePlaceholder | src/env/envResolver.ts:6-66 | a lone placeholder, with or without inner spaces, is one match of both patterns spanning the text |
| EnvResolver.VarAtShift | src/env/envResolver.ts:6 | the variable pattern matches at a point of a text's tail exactly where it matches in the tail on its own, with the same name and a shifted end |
| EnvResolver.NamedVarAtShift | src/env/envResolver.ts:66 | the same for the pattern built for one name |
| EnvResolver.ReplaceVarShift | src/env/envResolver.ts:66-67 | the global `replace`, from any point of a text's tail on, gives what it gives on the tail on its own: what came before does not matter |
| EnvResolver.ReplaceVarInText | src/env/envResolver.ts:66-67 | in `pre {{ NAME }} post`, with no `{` in `pre` or `post`, NAME is the only name and replacing it keeps `pre` and `post` around the value |
| EnvResolver.ReplaceVarAfter | src/env/envResolver.ts:66-67 | in `pre {{ NAME }} post`, with no `{` in `pre`, replacing NAME keeps `pre`, puts the value in place of the placeholder, and replaces in `post` as in `post` alone |
| EnvResolver.ReplaceVarAfterOther | src/env/envResolver.ts:66-67 | in `pre {{ OTHER }} post`, with no `{` in `pre`, replacing another name keeps `pre` and the placeholder, and replaces in `post` as in `post` alone |
| EnvResolver.VariableInTextResolves | src/env/envResolver.ts:40-87 | a placeholder of a variable inside text without `{` resolves to the text with the value in its place |
| EnvResolver.TwoPlaceholdersListed | src/env/envResolver.ts:93-105 | the names found in `pre {{A}} mid {{B}} post`, with no `{` around them, are A then B |
| EnvResolver.TwoPlaceholdersParts | src/env/envResolver.ts:53-73 | in `pre {{A}} mid {{B}} post`: replacing A gives `pre`, A's value, `mid`, `{{B}}`, `post`; replacing B in that gives both values in place; no name is left |
| EnvResolver.TwoVariablesRound | src/env/envResolver.ts:44-77 | one round on `pre {{A}} mid {{B}} post` substitutes both variables' values |
| EnvResolver.TwoVariablesResolve | src/env/envResolver.ts:40-87 | `pre {{A}} mid {{B}} post`, as in `http://{{HOST}}:{{PORT}}/api`, resolves to the text with both values in place |
| EnvResolver.ApplyVars | src/env/envResolver.ts:53-73 | a round's `changed` flag, once set, stays set; an unchanged round leaves the text as it is |
| EnvResolver.SubstituteRound | src/env/envResolver.ts:51-73 | the inner loop substitutes the names in turn, as the specification says |
| EnvResolver.RunRound | src/env/envResolver.ts:45-77 | one iteration of the `while` loop is one round of the specification |
| EnvResolver.ResolveString | src/env/envResolver.ts:40-87 | `resolveString` returns the resolution of the specification, or its error |
| EnvResolver.TextWithoutBracesUnchanged | src/env/envResolver.ts:40-87 | text without `{{` comes back unchanged, whatever the environment |
| EnvResolver.LoneVariableResolves | src/env/envResolver.ts:40-87 | `{{ NAME }}` resolves to the value of NAME when that value has no `{{` |
| EnvResolver.NestedVariableResolves | src/env/envResolver.ts:40-87 | a value that is another variable's placeholder is resolved in the next round |
| EnvResolver.SelfReferenceFails | src/env/envResolver.ts:60-63 | a value holding its own `{{NAME}}` gives the circular-reference error |
| EnvResolver.UnknownVariableFails | src/env/envResolver.ts:54-58 | a placeholder of a missing variable gives the not-found error naming it and the environment |
| EnvResolver.MissingNameStopsRound | src/env/envResolver.ts:53-58 | a round fails when one of its names is missing |
| EnvResolver.MissingVariableFails | src/env/envResolver.ts:44-58 | any placeholder of a missing variable makes resolution fail |
| EnvResolver.Alternation | src/env/envResolver.ts:44-84 | two texts that rounds turn into each other use up every round and give the maximum-depth error |
| EnvResolver.CycleExceedsDepth | src/env/envResolver.ts:44-84 | variables referring to each other end in the maximum-depth error |
| EnvResolver.TenthRoundFails | src/env/envResolver.ts:79-84 | the depth check follows the loop: a tenth substituting round fails even when it removed the last placeholder |
| EnvResolver.HeadersResolved | src/env/envResolver.ts:21-25 | the header loop keeps every key in place, resolves every value, and fails exactly when some value fails |
| EnvResolver.ResolveHeader | src/env/envResolver.ts:22-25 | one header step keeps the keys so far and advances the specification |
| EnvResolver.ResolveHeaders | src/env/envResolver.ts:21-25 | the header loop gives the specification's headers or its error |
| EnvResolver.ResolveRequest | src/env/envResolver.ts:9-38 | without an environment the request is returned as it is; otherwise it is resolved field by field |
| EnvResolver.ResolvedRequestFields | src/env/envResolver.ts:9-38 | a resolved request keeps its id, name, method, line and header keys; url, header values and a non-empty body are resolved, an empty body is dropped; it fails exactly when one of them fails |
| EnvResolver.ValidateVariables | src/env/envResolver.ts:107-118 | the loop gives the missing names of the distinct placeholder names |
| EnvResolver.MissingVariables | src/env/envResolver.ts:107-118 | the missing names are, once each, exactly the placeholder names the environment cannot supply; all of them without an environment |
| ResponseChain.SavedFrom | src/storage/responseChainManager.ts:53-73 | the saved entry keeps the name, status and headers; a body that parses as JSON is stored as its parsed value, one that does not is kept as text |
| ResponseChain.ResponseTable.constructor | src/storage/responseChainManager.ts:14-20 | a new table is empty |
| ResponseChain.ResponseTable.SaveResponse | src/storage/responseChainManager.ts:53-81 | the entry is filed under its name, replacing an earlier one, and every other name is unchanged |
| ResponseChain.ResponseTable.GetResponse | src/storage/responseChainManager.ts:86-88 | an entry is found exactly for the saved names, it is the saved one, and in a valid table it carries the name it is filed under |
| ResponseChain.ResponseTable.AllResponses | src/storage/responseChainManager.ts:93-95 | the whole table agrees with `getResponse` on every name |
| ResponseChain.ResponseTable.ClearAll | src/storage/responseChainManager.ts:100-104 | afterwards no name has an entry |
| ResponseChain.ResponseTable.Clear | src/storage/responseChainManager.ts:109-116 | the result says whether the name had an entry; afterwards it has none and every other name is unchanged |
| Json.Field | src/env/chainResolver.ts:112 | a property is found exactly when a field of that name exists, and it is the value of the last field of that name, as `JSON.parse` keeps it |
| Json.Property | src/env/chainResolver.ts:103 | only objects have properties |
| Json.Element | src/env/chainResolver.ts:93 | an array element exists exactly for indices below the length, and it is the item at that index |
| ChainResolver.SkipPath | src/env/chainResolver.ts:16 | group 3 is the longest run of path characters |
| ChainResolver.MatchAt | src/env/chainResolver.ts:15-16 | a match starts where it is looked for and ends within the text |
| ChainResolver.MatchShape | src/env/chainResolver.ts:16 | a match names a request with word characters and its path holds path characters only |
| ChainResolver.ScanNoneIff | src/env/chainResolver.ts:21 | the search finds nothing exactly when no position passes |
| ChainResolver.ScanLeftmost | src/env/chainResolver.ts:21 | the search finds the leftmost position that passes |
| ChainResolver.NextMatch | src/env/chainResolver.ts:21 | `exec` gives a match at or after `lastIndex` |
| ChainResolver.NoNextMatchIffNoMatch | src/env/chainResolver.ts:21 | `exec` finds nothing exactly when no position from `lastIndex` on starts a match |
| ChainResolver.NextMatchIsLeftmost | src/env/chainResolver.ts:21 | `exec` finds the leftmost match |
| ChainResolver.PathOf | src/env/chainResolver.ts:25 | the path is group 3 without its leading `.` |
| ChainResolver.DottedNameIsPath | src/env/chainResolver.ts:25 | `.key` is a path whose value is `key` |
| ChainResolver.StepInto | src/env/chainResolver.ts:89-113 | `[i]` gives item `i` of an array when `i` is below its length; `key[i]` gives item `i` of the array under `key`; any other part is a property |
| ChainResolver.StuckStaysStuck | src/env/chainResolver.ts:85-87 | once null or undefined is met before a part, the whole path is undefined |
| ChainResolver.OnePart | src/env/chainResolver.ts:81-84 | a path without `.` is one step |
| ChainResolver.DottedPath | src/env/chainResolver.ts:81-114 | the parts are walked left to right |
| ChainResolver.WordPart | src/env/chainResolver.ts:110-113 | a word part is a plain property |
| ChainResolver.GetNestedValue | src/env/chainResolver.ts:80-117 | the loop gives the value of the path |
| ChainResolver.HeaderField | src/env/chainResolver.ts:61 | a field of the headers object is the header of that name, as a string |
| ChainResolver.HeaderLookup | src/env/chainResolver.ts:61 | a property of the headers object is `headers.get(name)` |
| ChainResolver.ResolveChainVariable | src/env/chainResolver.ts:43-75 | the method gives the value of the specification |
| ChainResolver.HeaderValue | src/env/chainResolver.ts:58-74 | the value of a header path is that header, or undefined when absent |
| ChainResolver.ChainValue | src/env/chainResolver.ts:43-75 | a value is found only for a saved request, and always for its status or a whole section |
| ChainResolver.Substitute | src/env/chainResolver.ts:27-34 | a found value replaces the first occurrence of the match's text; otherwise nothing changes |
| ChainResolver.Resolve | src/env/chainResolver.ts:11-38 | the `exec` loop gives the rewriting of the specification |
| ChainResolver.ChainResolve | src/env/chainResolver.ts:11-38 | with no saved responses the text is returned unchanged |
| ChainResolver.MissesKeepText | src/env/chainResolver.ts:29-34 | matches whose value is not found leave the text as it is |
| ChainResolver.NoPlaceholderUnchanged | src/env/chainResolver.ts:11-38 | a text without placeholders is returned unchanged |
| ChainResolver.UnknownRequestsKept | src/env/chainResolver.ts:49-54 | placeholders naming only unsaved requests stay in the text |
| ChainResolver.LaidMatches | src/env/chainResolver.ts:15-16 | a text laid out as a placeholder is one match spanning the whole text |
| ChainResolver.PlaceholderMatches | src/env/chainResolver.ts:15-16 | a well-formed placeholder is matched whole at its start |
| ChainResolver.HyphenatedNotMatched | src/env/chainResolver.ts:16 | a path `.key` whose key holds a `-` is not matched |
| ChainResolver.LonePlaceholder | src/env/chainResolver.ts:11-38 | a text that is one placeholder becomes the text of its value, or stays when the value is not found |
| ChainResolver.StatusIgnoresPath | src/env/chainResolver.ts:62-63 | a status placeholder gives the status number whatever path follows |
| ChainResolver.UnknownRequestKept | src/env/chainResolver.ts:49-54 | a placeholder naming an unsaved request stays as it is |
| ChainResolver.WholeBody | src/env/chainResolver.ts:68-71 | with no path, an object, array or null body gives its JSON text and any other body its own text |
| ChainResolver.WholeHeaders | src/env/chainResolver.ts:60-71 | with no path, the headers give the JSON text of an object |
| ChainResolver.HeaderPlaceholder | src/env/chainResolver.ts:58-74 | `{{name.response.headers.key}}` becomes the header's value, or stays when there is no such header |
| ChainResolver.HyphenatedNameNeverMatches | src/env/chainResolver.ts:15-35 | a header path with a `-` is never substituted: the text stays as it is |
| ChainResolver.FoundNullWritten | src/env/chainResolver.ts:29-30 | a found `null` is written as `null` |
| Formatter.DetectIgnoresCase | src/utils/formatter.ts:4-17 | detection gives the same format for a header and its upper- and lower-case forms |
| Formatter.DetectContentType | src/utils/formatter.ts:4-17 | the format is text exactly when the lower-cased header mentions none of the five media types |
| Formatter.JsonWins | src/utils/formatter.ts:7-9 | a header mentioning `application/json` is JSON whatever else it says |
| Formatter.TextJsonIsJson | src/utils/formatter.ts:7-9 | a header mentioning `text/json` is JSON |
| Formatter.XmlWins | src/utils/formatter.ts:10-12 | a header mentioning `application/xml` or `text/xml` and no JSON type is XML, even when it mentions `text/html` |
| Formatter.HtmlWhenOnlyHtml | src/utils/formatter.ts:13-15 | a header mentioning `text/html` but no JSON or XML type is HTML |
| Formatter.ShortIsText | src/utils/formatter.ts:4-17 | a header too short for any media type is text |
| Formatter.BreakEnd | src/utils/formatter.ts:50 | a match of `>\s*<` starts with `>` and ends with `<` |
| Formatter.SplitJoined | src/utils/formatter.ts:50 | splitting break-free parts joined by `><` gives the parts back |
| Formatter.Bracketed | src/utils/formatter.ts:53-58 | there is one line per piece |
| Formatter.BracketPiece | src/utils/formatter.ts:52-58 | a piece gets back its `<` unless it is first and its `>` unless it is last |
| Formatter.PlaceLine | src/utils/formatter.ts:60-70 | one iteration of `forEach` places the line as the specification says, with the opening-tag test as written |
| Formatter.FormatXml | src/utils/formatter.ts:46-74 | `formatXml` returns the layout of the specification, with the opening-tag test as written |
| Formatter.PlainTextIsTrimmed | src/utils/formatter.ts:46-74 | a body without a `>`...`<` boundary only loses its surrounding whitespace |
| Formatter.Format | src/utils/formatter.ts:19-44 | text is returned as it is, JSON that does not parse too, and XML and HTML get the layout of `formatXml` |
| Formatter.IndentIsTwiceDepth | src/utils/formatter.ts:60-70 | with the corrected opening-tag test, the indent of well-nested lines is twice their nesting depth |
| Formatter.OpenCloseRestores | src/utils/formatter.ts:60-70 | a tag and its closing tag leave the indent where they found it |
| Formatter.OneLetterTagAsWritten | src/utils/formatter.ts:68 | as written, `<p>` is not an opening tag, yet `</p>` still takes two off the indent |
| Formatter.AsWrittenIndentTracksDepth | src/utils/formatter.ts:60-70 | with the test as written, the indent of well-nested lines is twice the number of multi-letter opening tags minus the closing tags |
| Formatter.LayoutsDiffer | src/utils/formatter.ts:46-74 | on `<div><p><b>x</b></p></div>` `formatXml` writes its five lines at indents 0, 2, 2, 0, 0, where the corrected test gives 0, 2, 4, 2, 0 |
| Formatter.Truncate | src/utils/formatter.ts:81-89 | text is truncated exactly when longer than the limit, to the limit's prefix followed by the notice |
| ErrorCategorizer.CodeOf | src/client/errorCategorizer.ts:19 | a missing or empty code is `UNKNOWN`; any other code is kept |
| ErrorCategorizer.UserMessage | src/client/errorCategorizer.ts:65-71 | the default branch's message repeats the error's message |
| ErrorCategorizer.CategorizeAxios | src/client/errorCategorizer.ts:18-73 | code and message are kept; retryable and the user message follow the branch of the code |
| ErrorCategorizer.RetryableIffTransient | src/client/errorCategorizer.ts:21-72 | exactly the five transient codes are retryable |
| ErrorCategorizer.UnlistedIffUnknown | src/client/errorCategorizer.ts:21-72 | the default branch is taken exactly for unlisted codes |
| ErrorCategorizer.UnlistedCode | src/client/errorCategorizer.ts:65-71 | an unlisted code is not retryable and its message repeats the error's |
| ErrorCategorizer.Categorize | src/client/errorCategorizer.ts:5-16 | the message is kept; a non-Axios error is `UNKNOWN_ERROR`, not retryable |
| ErrorCategorizer.TransientCodeIsGiven | src/client/errorCategorizer.ts:19 | a missing or empty code is never transient |
| ErrorCategorizer.RetryableIffTransientAxios | src/client/errorCategorizer.ts:5-73 | an error is retryable exactly when it is an Axios error with a transient code |
| ErrorCategorizer.KnownCodesHaveFixedMessages | src/client/errorCategorizer.ts:21-64 | a listed code's user message does not depend on the error's message |

## Left out

- Logging (`logger.*` calls) is not modelled; it has no effect on results.
- Persistence of the response table (`loadFromStorage`, `saveToStorage`) is not modelled; a new table starts empty.
- The `rawBody` and `timestamp` fields of a saved response (`Date.now()`) are not modelled.
- ResponseChain.ResponseTable.AllResponses: `getAllResponses` and `getContext` return the live `Map`. The model returns its value, so later changes made through that alias are not modelled.
- The insertion order of the response `Map` is not modelled (a Dafny `map`); header maps keep their order.
- `JSON.parse`, `JSON.stringify`, pretty-printing and `new URL(...)` are parameters, because they are outside the core.
- Numbers in parsed JSON are kept as their `String(n)` text. Floating point, and the precision of `parseInt` for very long indices, are not modelled.
- Strings.ReplaceFirst: `replace` treats `$` sequences in the replacement as substitution patterns; the model inserts the replacement literally.
- EnvResolver.ResolveString: whole resolutions are proved for a lone placeholder, for one placeholder inside text and for two different variables inside text, with no `{` in the text around them or in the values; for longer texts the model states the step that composes them (ReplaceVarAfter, ReplaceVarAfterOther, ReplaceVarShift) but no closed form.
- EnvResolver.ApplyVars: replacement with the variable's value is literal; `$` sequences in the value are not expanded.
- Property lookups on prototype members (`current["constructor"]`, `length` of an array or string) are not modelled; a part of a non-object value is undefined.
- `\s` and `toLowerCase`/`toUpperCase` are modelled on ASCII only, without Unicode whitespace or case mapping.
- The `try`/`catch` around `parse` in the HTTP and multipart parsers is not modelled, because nothing in the modelled code throws.
- `Buffer.toString('utf-8')` is not modelled; a response body is its decoded text.
- `Math.random()` is not modelled; MultipartParser.GenerateBoundary takes the digits as a parameter.
- ChainResolver.LonePlaceholder: the resolution of texts holding several placeholders is stated only through the specification function (`ChainResolve`) and MissesKeepText, not as a lemma about each placeholder.
- Strings are sequences of Unicode scalar values, not of the UTF-16 code units JavaScript counts; every length, index and `substring` in the model counts characters.
- Formatter.Truncate: the limit counts Unicode scalar values, where `length` and `substring` count UTF-16 code units, so text with characters outside the Basic Multilingual Plane is cut at a different place, and a surrogate pair is never split.

## Findings

| source | as written | input that shows it | evidently intended | confidence | as-written member | corrected member |
|---|---|---|---|---|---|---|
| src/utils/formatter.ts:68 | `/^<\w[^>]*[^\/]>$/` needs a word character and then another character before `>`, so a one-letter tag such as `<p>` is not an opening tag, while `</p>` still takes two off the indent | `<div><p><b>x</b></p></div>`: `<b>x</b>` is not indented under `<p>`, and `</p>` is written at indent 0 inside the `div` instead of 2 | every non-self-closing opening tag indents by two (`/^<\w([^>]*[^\/])?>$/`), so the indent is twice the nesting depth | not executed | Formatter.LayoutsDiffer | Formatter.IndentIsTwiceDepth |
