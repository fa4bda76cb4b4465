/**
 * Environment-variable substitution (src/env/envResolver.ts): every
 * `{{ NAME }}` placeholder is replaced by the variable's value, round after
 * round, so that values which contain placeholders are resolved too; at most
 * ten substituting rounds are allowed.
 */
module EnvResolver {
  import opened Common
  import opened Strings
  import opened Headers
  import opened ParserTypes
  import opened EnvTypes

  /** MAX_RESOLUTION_DEPTH */
  const MaxResolutionDepth: nat := 10

  const MaxDepthMessage := "Variable resolution exceeded maximum depth (possible circular reference)"

  function NotFoundMessage(name: string, envName: string): string {
    "Variable \"" + name + "\" not found in environment \"" + envName + "\""
  }

  function CircularMessage(name: string): string {
    "Circular reference detected: " + name
  }

  /** The placeholder text `{{NAME}}` without inner spaces. */
  function Placeholder(name: string): string {
    "{{" + name + "}}"
  }

  // ---------------------------------------------------------------------
  // The two patterns
  // ---------------------------------------------------------------------

  /**
   * A match of VARIABLE_PATTERN, `{{`, spaces, an identifier, spaces, `}}`,
   * starting at `p`: the identifier (the trimmed capture) and the index just
   * past the match. Spaces and identifier characters are disjoint, so the
   * greedy pattern never backtracks and one left-to-right reading decides it.
   */
  function VarAt(s: string, p: nat): (r: Option<(string, nat)>)
    ensures r.Some? ==> p < r.value.1 <= |s| && IsIdentifier(r.value.0)
  {
    if OccursAt(s, "{{", p) then
      var a := SkipSpaces(s, p + 2);
      if a < |s| && IsIdentStart(s[a]) then
        var b := SkipWord(s, a);
        var c := SkipSpaces(s, b);
        if OccursAt(s, "}}", c) then
          assert forall i | 0 <= i < b - a :: s[a..b][i] == s[a + i];
          Some((s[a..b], c + 2))
        else None
      else None
    else None
  }

  /** The names of the matches `matchAll` finds from index `p` on, in order, repeats included. */
  function PlaceholdersFrom(s: string, p: nat): seq<string>
    requires p <= |s|
    decreases |s| - p
  {
    if p == |s| then []
    else
      var m := VarAt(s, p);
      if m.Some? then [m.value.0] + PlaceholdersFrom(s, m.value.1) else PlaceholdersFrom(s, p + 1)
  }

  function Placeholders(s: string): seq<string> {
    PlaceholdersFrom(s, 0)
  }

  predicate NoDuplicates(xs: seq<string>) {
    forall i, j | 0 <= i < j < |xs| :: xs[i] != xs[j]
  }

  /** The distinct elements of `xs` in the order they first occur. */
  function Distinct(xs: seq<string>): seq<string>
    decreases |xs|
  {
    if xs == [] then []
    else
      var d := Distinct(xs[..|xs| - 1]);
      var x := xs[|xs| - 1];
      if x in d then d else d + [x]
  }

  /** `Distinct` keeps every element exactly once. */
  lemma {:induction false} DistinctElements(xs: seq<string>)
    ensures NoDuplicates(Distinct(xs))
    ensures forall x :: x in Distinct(xs) <==> x in xs
    decreases |xs|
  {
    if xs != [] {
      var init := xs[..|xs| - 1];
      DistinctElements(init);
      assert xs == init + [xs[|xs| - 1]];
    }
  }

  /**
   * The pattern built for one variable NAME, `{{`, spaces, NAME, spaces,
   * `}}`, at `p`: the index just past the match.
   */
  function NamedVarAt(s: string, name: string, p: nat): (r: Option<nat>)
    ensures r.Some? ==> p < r.value <= |s|
  {
    if OccursAt(s, "{{", p) then
      var a := SkipSpaces(s, p + 2);
      if OccursAt(s, name, a) then
        var c := SkipSpaces(s, a + |name|);
        if OccursAt(s, "}}", c) then Some(c + 2) else None
      else None
    else None
  }

  /** `s.replace(pattern, value)` with the global pattern of `name`, from index `p` on. */
  function ReplaceVarFrom(s: string, name: string, value: string, p: nat): string
    requires p <= |s|
    decreases |s| - p
  {
    if p == |s| then []
    else
      var m := NamedVarAt(s, name, p);
      if m.Some? then value + ReplaceVarFrom(s, name, value, m.value) else [s[p]] + ReplaceVarFrom(s, name, value, p + 1)
  }

  /** Every match of the pattern of `name` replaced by `value`, taken literally. */
  function ReplaceVar(s: string, name: string, value: string): string {
    ReplaceVarFrom(s, name, value, 0)
  }

  // ---------------------------------------------------------------------
  // The specification of `resolveString`
  // ---------------------------------------------------------------------

  /**
   * The rest of one round: the variables still to substitute, from the text
   * so far and whether it has changed yet in this round.
   */
  function ApplyVars(env: Environment, s: string, vars: seq<string>, changed: bool): (r: Result<(string, bool), string>)
    ensures r.Ok? && changed ==> r.value.1
    ensures r.Ok? && !r.value.1 ==> r.value.0 == s
    decreases |vars|
  {
    if vars == [] then Ok((s, changed))
    else
      var name := vars[0];
      var value := Headers.Get(env.variables, name);
      if value.None? then Err(NotFoundMessage(name, env.name))
      else if Contains(value.value, Placeholder(name)) then Err(CircularMessage(name))
      else
        var s' := ReplaceVar(s, name, value.value);
        if s' != s then ApplyVars(env, s', vars[1..], true)
        else ApplyVars(env, s, vars[1..], changed)
  }

  /** How one round of `resolveString` ends. */
  datatype RoundOutcome =
    | Settled              // no placeholder left, or no substitution changed the text: stop
    | Threw(error: string) // a variable is missing or refers to itself: throw
    | Substituted(text: string) // the text changed: count the round and go on

  /** One round on `s`: extract the names, substitute each of them in turn. */
  function Round(env: Environment, s: string): RoundOutcome {
    var vars := Distinct(Placeholders(s));
    if vars == [] then Settled
    else
      var a := ApplyVars(env, s, vars, false);
      if a.Err? then Threw(a.error) else if a.value.1 then Substituted(a.value.0) else Settled
  }

  /**
   * Resolution of `s` once `depth` substituting rounds have been done, given
   * what one round does: the `while` loop of `resolveString` and the depth
   * check after it.
   */
  function ResolveFrom(round: string -> RoundOutcome, s: string, depth: nat): Result<string, string>
    requires depth <= MaxResolutionDepth
    decreases MaxResolutionDepth - depth
  {
    if depth == MaxResolutionDepth then Err(MaxDepthMessage)
    else
      var r := round(s);
      if r.Settled? then Ok(s)
      else if r.Threw? then Err(r.error)
      else ResolveFrom(round, r.text, depth + 1)
  }

  /** The rounds of `resolveString` in an environment, as a function value. */
  function Rounds(env: Environment): string -> RoundOutcome {
    s => Round(env, s)
  }

  /** What `resolveString` returns, or the message of the error it throws. */
  function ResolveText(env: Environment, s: string): Result<string, string> {
    ResolveFrom(Rounds(env), s, 0)
  }

  /**
   * The headers from index `i` on, each value passed through `resolve` and
   * appended to `acc`; the first failure wins.
   */
  function ResolveHeadersFrom(h: seq<(string, string)>, i: nat, acc: seq<(string, string)>,
                              resolve: string -> Result<string, string>)
    : Result<seq<(string, string)>, string>
    requires i <= |h|
    decreases |h| - i
  {
    if i == |h| then Ok(acc)
    else
      var v := resolve(h[i].1);
      if v.Err? then Err(v.error) else ResolveHeadersFrom(h, i + 1, acc + [(h[i].0, v.value)], resolve)
  }

  /**
   * The header loop keeps every key in place and resolves every value, and
   * it fails exactly when some value fails to resolve.
   */
  lemma {:induction false} HeadersResolved(h: seq<(string, string)>, i: nat, acc: seq<(string, string)>,
                                           resolve: string -> Result<string, string>)
    requires i <= |h|
    ensures var r := ResolveHeadersFrom(h, i, acc, resolve);
      r.Ok? ==> |r.value| == |acc| + |h| - i && r.value[..|acc|] == acc
    ensures var r := ResolveHeadersFrom(h, i, acc, resolve);
      r.Ok? ==> forall k | i <= k < |h| ::
        r.value[|acc| + k - i].0 == h[k].0 && resolve(h[k].1) == Ok(r.value[|acc| + k - i].1)
    ensures ResolveHeadersFrom(h, i, acc, resolve).Err? <==> exists k | i <= k < |h| :: resolve(h[k].1).Err?
    decreases |h| - i
  {
    if i < |h| && resolve(h[i].1).Ok? {
      var acc' := acc + [(h[i].0, resolve(h[i].1).value)];
      HeadersResolved(h, i + 1, acc', resolve);
      var r := ResolveHeadersFrom(h, i + 1, acc', resolve);
      if r.Ok? {
        assert r.value[..|acc|] == r.value[..|acc'|][..|acc|];
      }
    }
  }

  /** Resolved headers keep the keys, so they stay distinct. */
  lemma ResolvedKeysDistinct(h: HeaderMap, resolve: string -> Result<string, string>)
    ensures ResolveHeadersFrom(h, 0, [], resolve).Ok? ==> DistinctKeys(ResolveHeadersFrom(h, 0, [], resolve).value)
  {
    HeadersResolved(h, 0, [], resolve);
    var r := ResolveHeadersFrom(h, 0, [], resolve);
    if r.Ok? {
      forall i, j | 0 <= i < j < |r.value|
        ensures r.value[i].0 != r.value[j].0
      {
        assert r.value[i].0 == h[i].0 && r.value[j].0 == h[j].0;
      }
    }
  }

  /** `resolveString` as a function value, to be applied to every field of a request. */
  function Resolver(env: Environment): string -> Result<string, string> {
    s => ResolveText(env, s)
  }

  /**
   * What `resolveRequest` returns for an environment, or the message of the
   * error it throws, given how one string is resolved: the url, then each
   * header value, then a non-empty body.
   */
  function ResolvedRequest(request: ParsedRequest, resolve: string -> Result<string, string>): Result<ParsedRequest, string> {
    var url := resolve(request.url);
    if url.Err? then Err(url.error)
    else
      var hs := ResolveHeadersFrom(request.headers, 0, [], resolve);
      if hs.Err? then Err(hs.error)
      else
        ResolvedKeysDistinct(request.headers, resolve);
        var headers: HeaderMap := hs.value;
        if request.body.Some? && request.body.value != "" then
          var body := resolve(request.body.value);
          if body.Err? then Err(body.error)
          else Ok(request.(url := url.value, headers := headers, body := Some(body.value)))
        else Ok(request.(url := url.value, headers := headers, body := None))
  }

  /** The names of `vars` that the environment lacks (all of them without an environment), in order. */
  function MissingNames(vars: seq<string>, env: Option<Environment>): seq<string>
    decreases |vars|
  {
    if vars == [] then []
    else
      var rest := MissingNames(vars[..|vars| - 1], env);
      var name := vars[|vars| - 1];
      if env.None? || Headers.Get(env.value.variables, name).None? then rest + [name] else rest
  }

  // ---------------------------------------------------------------------
  // The operations
  // ---------------------------------------------------------------------

  /** One step of the `matchAll` loop of `extractVariables`: the match at `p`, if any, and where to go on. */
  method ReadMatch(text: string, p: nat, variables: seq<string>, ghost found: seq<string>)
    returns (next: nat, variables': seq<string>, ghost found': seq<string>)
    requires p < |text| && variables == Distinct(found)
    ensures p < next <= |text|
    ensures found' + PlaceholdersFrom(text, next) == found + PlaceholdersFrom(text, p)
    ensures variables' == Distinct(found')
  {
    var m := VarAt(text, p);
    if m.None? {
      assert PlaceholdersFrom(text, p) == PlaceholdersFrom(text, p + 1);
      return p + 1, variables, found;
    }
    var name := m.value.0;
    next := m.value.1;
    assert PlaceholdersFrom(text, p) == [name] + PlaceholdersFrom(text, next);
    found' := found + [name];
    assert found'[..|found|] == found;
    assert found' + PlaceholdersFrom(text, next) == found + ([name] + PlaceholdersFrom(text, next));
    variables' := variables;
    if name !in variables {
      variables' := variables + [name];
    }
  }

  /** `extractVariables`: the distinct placeholder names of `text`, in first-occurrence order. */
  method ExtractVariables(text: string) returns (variables: seq<string>)
    ensures variables == Distinct(Placeholders(text))
  {
    variables := [];
    ghost var found: seq<string> := [];
    var p := 0;
    while p < |text|
      invariant p <= |text|
      invariant found + PlaceholdersFrom(text, p) == Placeholders(text)
      invariant variables == Distinct(found)
      decreases |text| - p
    {
      p, variables, found := ReadMatch(text, p, variables, found);
    }
    assert found + [] == found;
  }

  /**
   * The `for (const varName of variables)` loop of one round: substitutes
   * each variable in turn and reports whether the text changed.
   */
  method SubstituteRound(text: string, variables: seq<string>, env: Environment)
    returns (r: Result<(string, bool), string>)
    ensures r == ApplyVars(env, text, variables, false)
  {
    var resolved := text;
    var changed := false;
    var i := 0;
    while i < |variables|
      invariant i <= |variables|
      invariant ApplyVars(env, resolved, variables[i..], changed) == ApplyVars(env, text, variables, false)
    {
      var varName := variables[i];
      assert variables[i..][0] == varName && variables[i..][1..] == variables[i + 1..];
      var value := Headers.Get(env.variables, varName);
      if value.None? {
        return Err(NotFoundMessage(varName, env.name));
      }
      if Contains(value.value, Placeholder(varName)) {
        return Err(CircularMessage(varName));
      }
      var newResolved := ReplaceVar(resolved, varName, value.value);
      if newResolved != resolved {
        changed := true;
        resolved := newResolved;
      }
      i := i + 1;
    }
    return Ok((resolved, changed));
  }

  /** The body of the `while` loop of `resolveString`: one round on `resolved`. */
  method RunRound(resolved: string, env: Environment) returns (outcome: RoundOutcome)
    ensures outcome == Round(env, resolved)
  {
    var variables := ExtractVariables(resolved);
    if |variables| == 0 {
      return Settled;
    }
    var round := SubstituteRound(resolved, variables, env);
    if round.Err? {
      return Threw(round.error);
    }
    if !round.value.1 {
      return Settled;
    }
    return Substituted(round.value.0);
  }

  /** `resolveString`: rounds of substitution until nothing is left or nothing changes. */
  method ResolveString(text: string, env: Environment) returns (r: Result<string, string>)
    ensures r == ResolveText(env, text)
  {
    ghost var goal := ResolveText(env, text);
    var resolved := text;
    var depth := 0;
    while depth < MaxResolutionDepth
      invariant 0 <= depth <= MaxResolutionDepth
      invariant ResolveFrom(Rounds(env), resolved, depth) == goal
    {
      var outcome := RunRound(resolved, env);
      match outcome {
        case Threw(e) => return Err(e);
        case Settled => break;
        case Substituted(t) => resolved := t;
      }
      depth := depth + 1;
    }
    if depth >= MaxResolutionDepth {
      return Err(MaxDepthMessage);
    }
    return Ok(resolved);
  }

  /** One step of the header loop: resolve the value of header `i` and add it under its key. */
  method ResolveHeader(h: HeaderMap, i: nat, headers: HeaderMap, env: Environment) returns (r: Result<HeaderMap, string>)
    requires i < |h| && |headers| == i && forall k | 0 <= k < i :: headers[k].0 == h[k].0
    ensures r.Ok? ==> |r.value| == i + 1 && (forall k | 0 <= k <= i :: r.value[k].0 == h[k].0)
    ensures r.Ok? ==> ResolveHeadersFrom(h, i + 1, r.value, Resolver(env)) == ResolveHeadersFrom(h, i, headers, Resolver(env))
    ensures r.Err? ==> ResolveHeadersFrom(h, i, headers, Resolver(env)) == Err(r.error)
  {
    var value := ResolveString(h[i].1, env);
    assert Resolver(env)(h[i].1) == value;
    if value.Err? {
      return Err(value.error);
    }
    NewKeyAppended(h, i, headers, value.value);
    return Ok(Set(headers, h[i].0, value.value));
  }

  /** The key of header `i` is not among the keys before it, so setting it appends. */
  lemma NewKeyAppended(h: HeaderMap, i: nat, headers: HeaderMap, v: string)
    requires i < |h| && |headers| == i && forall k | 0 <= k < i :: headers[k].0 == h[k].0
    ensures Set(headers, h[i].0, v) == headers + [(h[i].0, v)]
  {
    assert forall k | 0 <= k < |headers| :: headers[k].0 != h[i].0;
    SetAppends(headers, h[i].0, v);
  }

  /** The header loop of `resolveRequest`: a new map with the same keys and resolved values. */
  method ResolveHeaders(h: HeaderMap, env: Environment) returns (r: Result<HeaderMap, string>)
    ensures r.Ok? <==> ResolveHeadersFrom(h, 0, [], Resolver(env)).Ok?
    ensures r.Ok? ==> r.value == ResolveHeadersFrom(h, 0, [], Resolver(env)).value
    ensures r.Err? ==> r.error == ResolveHeadersFrom(h, 0, [], Resolver(env)).error
  {
    ghost var goal := ResolveHeadersFrom(h, 0, [], Resolver(env));
    var headers: HeaderMap := [];
    var i := 0;
    while i < |h|
      invariant i <= |h|
      invariant |headers| == i && forall k | 0 <= k < i :: headers[k].0 == h[k].0
      invariant ResolveHeadersFrom(h, i, headers, Resolver(env)) == goal
    {
      var next := ResolveHeader(h, i, headers, env);
      if next.Err? {
        return Err(next.error);
      }
      headers := next.value;
      i := i + 1;
    }
    return Ok(headers);
  }

  /** `resolveRequest`: without an environment the request comes back as it is. */
  method ResolveRequest(request: ParsedRequest, environment: Option<Environment>) returns (r: Result<ParsedRequest, string>)
    ensures environment.None? ==> r == Ok(request)
    ensures environment.Some? ==> r == ResolvedRequest(request, Resolver(environment.value))
  {
    if environment.None? {
      return Ok(request);
    }
    var env := environment.value;
    var url := ResolveString(request.url, env);
    assert Resolver(env)(request.url) == url;
    if url.Err? {
      return Err(url.error);
    }
    var headers := ResolveHeaders(request.headers, env);
    if headers.Err? {
      return Err(headers.error);
    }
    var body: Option<string> := None;
    if request.body.Some? && request.body.value != "" {
      var b := ResolveString(request.body.value, env);
      assert Resolver(env)(request.body.value) == b;
      if b.Err? {
        return Err(b.error);
      }
      body := Some(b.value);
    }
    return Ok(request.(url := url.value, headers := headers.value, body := body));
  }

  /** `validateVariables`: the placeholder names the environment cannot supply; never fails. */
  method ValidateVariables(text: string, environment: Option<Environment>) returns (missing: seq<string>)
    ensures missing == MissingNames(Distinct(Placeholders(text)), environment)
  {
    var variables := ExtractVariables(text);
    missing := [];
    var i := 0;
    while i < |variables|
      invariant i <= |variables|
      invariant missing == MissingNames(variables[..i], environment)
    {
      assert variables[..i + 1][..i] == variables[..i];
      if environment.None? || Headers.Get(environment.value.variables, variables[i]).None? {
        missing := missing + [variables[i]];
      }
      i := i + 1;
    }
    assert variables[..i] == variables;
  }

  // ---------------------------------------------------------------------
  // Properties
  // ---------------------------------------------------------------------

  /** Names found earlier stay first: the distinct names of a text start with those of any prefix of its matches. */
  lemma {:induction false} DistinctPrefix(xs: seq<string>, ys: seq<string>)
    ensures Distinct(xs) <= Distinct(xs + ys)
    decreases |ys|
  {
    if ys == [] {
      assert xs + ys == xs;
    } else {
      var ys' := ys[..|ys| - 1];
      DistinctPrefix(xs, ys');
      assert (xs + ys)[..|xs + ys| - 1] == xs + ys';
      assert Distinct(xs + ys') <= Distinct(xs + ys);
    }
  }

  /** The characters of a placeholder: `{{`, spaces, an identifier, spaces, `}}`, at `p`, `a`, `b`, `c`. */
  predicate PlaceholderShape(s: string, p: nat, a: nat, b: nat, c: nat) {
    && OccursAt(s, "{{", p) && p + 2 <= a < b <= c && c + 2 <= |s|
    && (forall i | p + 2 <= i < a :: IsSpace(s[i]))
    && IsIdentStart(s[a]) && (forall i | a <= i < b :: IsWordChar(s[i]))
    && (forall i | b <= i < c :: IsSpace(s[i]))
    && s[c] == '}' && s[c + 1] == '}'
  }

  /** A match of VARIABLE_PATTERN read off the characters around it. */
  lemma VarAtIs(s: string, p: nat, a: nat, b: nat, c: nat)
    requires PlaceholderShape(s, p, a, b, c)
    ensures VarAt(s, p) == Some((s[a..b], c + 2))
  {
    SkipSpacesTo(s, p + 2, a);
    SkipWordTo(s, a, b);
    SkipSpacesTo(s, b, c);
    assert OccursAt(s, "}}", c) by {
      assert s[c..c + 2] == "}}";
    }
    VarAtSteps(s, p, a, b, c);
  }

  /** VARIABLE_PATTERN, read step by step: `{{`, spaces up to `a`, a word from `a` to `b`, spaces up to `c`, `}}`. */
  lemma VarAtSteps(s: string, p: nat, a: nat, b: nat, c: nat)
    requires OccursAt(s, "{{", p) && SkipSpaces(s, p + 2) == a && a < |s| && IsIdentStart(s[a])
    requires SkipWord(s, a) == b && SkipSpaces(s, b) == c && OccursAt(s, "}}", c)
    ensures VarAt(s, p) == Some((s[a..b], c + 2))
  {
  }

  /** The pattern of the placeholder's own name matches there too. */
  lemma NamedVarAtIs(s: string, p: nat, a: nat, b: nat, c: nat)
    requires PlaceholderShape(s, p, a, b, c)
    ensures NamedVarAt(s, s[a..b], p) == Some(c + 2)
  {
    var name := s[a..b];
    SkipSpacesTo(s, p + 2, a);
    assert OccursAt(s, name, a) && a + |name| == b;
    SkipSpacesTo(s, b, c);
    assert OccursAt(s, "}}", c) by {
      assert s[c..c + 2] == "}}";
    }
    NamedVarAtSteps(s, name, p, a, c);
  }

  /** The pattern built for NAME, read step by step: `{{`, spaces up to `a`, NAME, spaces up to `c`, `}}`. */
  lemma NamedVarAtSteps(s: string, name: string, p: nat, a: nat, c: nat)
    requires OccursAt(s, "{{", p) && SkipSpaces(s, p + 2) == a && OccursAt(s, name, a)
    requires SkipSpaces(s, a + |name|) == c && OccursAt(s, "}}", c)
    ensures NamedVarAt(s, name, p) == Some(c + 2)
  {
  }

  /** Where VARIABLE_PATTERN finds a placeholder, the pattern built for its name matches and ends at the same place. */
  lemma PlaceholderIsNamedMatch(s: string, p: nat)
    requires VarAt(s, p).Some?
    ensures NamedVarAt(s, VarAt(s, p).value.0, p) == Some(VarAt(s, p).value.1)
  {
    var a := SkipSpaces(s, p + 2);
    var b := SkipWord(s, a);
    var c := SkipSpaces(s, b);
    assert PlaceholderShape(s, p, a, b, c);
    NamedVarAtIs(s, p, a, b, c);
  }

  /** Where the pattern built for an identifier NAME matches, VARIABLE_PATTERN finds a placeholder named NAME. */
  lemma NamedMatchIsPlaceholderAt(s: string, name: string, p: nat)
    requires IsIdentifier(name) && NamedVarAt(s, name, p).Some?
    ensures VarAt(s, p) == Some((name, NamedVarAt(s, name, p).value))
  {
    var a := SkipSpaces(s, p + 2);
    var b := a + |name|;
    var c := SkipSpaces(s, b);
    assert s[a..b] == name;
    assert forall i | a <= i < b :: s[i] == name[i - a];
    if c == b {
      assert s[b] == '}';
    }
    VarAtIs(s, p, a, b, c);
  }

  /**
   * The pattern built for an identifier NAME matches exactly where
   * VARIABLE_PATTERN finds a placeholder named NAME, and ends at the same
   * place.
   */
  lemma NamedMatchIsPlaceholder(s: string, name: string, p: nat)
    requires IsIdentifier(name)
    ensures NamedVarAt(s, name, p).Some? <==> VarAt(s, p).Some? && VarAt(s, p).value.0 == name
    ensures NamedVarAt(s, name, p).Some? ==> NamedVarAt(s, name, p).value == VarAt(s, p).value.1
  {
    if VarAt(s, p).Some? {
      PlaceholderIsNamedMatch(s, p);
    }
    if NamedVarAt(s, name, p).Some? {
      NamedMatchIsPlaceholderAt(s, name, p);
    }
  }

  /** A text without `{{` has no placeholder from `p` on. */
  lemma {:induction false} NoBracesNoPlaceholders(s: string, p: nat)
    requires p <= |s|
    requires forall j :: !OccursAt(s, "{{", j)
    ensures PlaceholdersFrom(s, p) == []
    decreases |s| - p
  {
    if p < |s| {
      NoBracesNoPlaceholders(s, p + 1);
    }
  }

  /** Text without any `{{` comes back unchanged and without error, whatever the environment. */
  lemma TextWithoutBracesUnchanged(env: Environment, s: string)
    requires !Contains(s, "{{")
    ensures ResolveText(env, s) == Ok(s)
  {
    IndexOfFirst(s, "{{");
    NoBracesNoPlaceholders(s, 0);
  }

  /** A request-chain placeholder such as `{{login.response.body}}` is not a match: the name must be followed by `}}`. */
  lemma DottedNotPlaceholder(name: string, rest: string)
    requires IsIdentifier(name)
    ensures VarAt("{{" + name + "." + rest, 0).None?
  {
    var s := "{{" + name + "." + rest;
    var e := 2 + |name|;
    assert forall i | 2 <= i < e :: s[i] == name[i - 2];
    assert s[2] == name[0] && s[e] == '.';
    SkipSpacesTo(s, 2, 2);
    SkipWordTo(s, 2, e);
    SkipSpacesTo(s, e, e);
  }

  /** The text of a lone placeholder, spaces allowed inside the braces. */
  function SpacedPlaceholder(sp1: string, name: string, sp2: string): string {
    "{{" + sp1 + name + sp2 + "}}"
  }

  /** A lone placeholder, with or without inner spaces, is one match of both patterns spanning the whole text. */
  lemma LonePlaceholder(sp1: string, name: string, sp2: string)
    requires IsBlank(sp1) && IsBlank(sp2) && IsIdentifier(name)
    ensures var s := SpacedPlaceholder(sp1, name, sp2);
      VarAt(s, 0) == Some((name, |s|)) && NamedVarAt(s, name, 0) == Some(|s|)
  {
    var a := 2 + |sp1|;
    SpacedShape(sp1, name, sp2);
    WholeMatch(SpacedPlaceholder(sp1, name, sp2), a, a + |name|, a + |name| + |sp2|, name);
  }

  /** A text that is exactly the characters of a placeholder named NAME is one match of both patterns. */
  lemma WholeMatch(s: string, a: nat, b: nat, c: nat, name: string)
    requires PlaceholderShape(s, 0, a, b, c) && s[a..b] == name && |s| == c + 2
    ensures VarAt(s, 0) == Some((name, |s|)) && NamedVarAt(s, name, 0) == Some(|s|)
  {
    MatchAt(s, 0, a, b, c, name);
  }

  /** The only name in a lone placeholder is its own, and substituting it leaves exactly the value. */
  lemma LonePlaceholderParts(sp1: string, name: string, sp2: string, value: string)
    requires IsBlank(sp1) && IsBlank(sp2) && IsIdentifier(name)
    ensures Placeholders(SpacedPlaceholder(sp1, name, sp2)) == [name]
    ensures ReplaceVar(SpacedPlaceholder(sp1, name, sp2), name, value) == value
  {
    var s := SpacedPlaceholder(sp1, name, sp2);
    LonePlaceholder(sp1, name, sp2);
    assert PlaceholdersFrom(s, |s|) == [];
    assert ReplaceVarFrom(s, name, value, |s|) == [];
    assert value + [] == value;
  }

  /** A lone placeholder of a variable whose value is fine is replaced by that value in one round. */
  lemma {:induction false} LoneRound(env: Environment, sp1: string, name: string, sp2: string, value: string)
    requires IsBlank(sp1) && IsBlank(sp2) && IsIdentifier(name)
    requires Headers.Get(env.variables, name) == Some(value)
    requires !Contains(value, Placeholder(name)) && value != SpacedPlaceholder(sp1, name, sp2)
    ensures Round(env, SpacedPlaceholder(sp1, name, sp2)) == Substituted(value)
  {
    var s := SpacedPlaceholder(sp1, name, sp2);
    LonePlaceholderParts(sp1, name, sp2, value);
    assert Distinct([name]) == [name] by {
      assert [name][..0] == [];
    }
    assert ApplyVars(env, s, [name], false) == ApplyVars(env, value, [], true);
  }

  /** `{{NAME}}` is the lone placeholder without spaces. */
  lemma PlainPlaceholder(name: string)
    ensures Placeholder(name) == SpacedPlaceholder("", name, "")
  {
  }

  /** Once every placeholder is gone the text is the result, if rounds remain. */
  lemma Settles(env: Environment, s: string, depth: nat)
    requires Placeholders(s) == [] && depth < MaxResolutionDepth
    ensures ResolveFrom(Rounds(env), s, depth) == Ok(s)
  {
    assert Rounds(env)(s) == Settled;
  }

  /** A text without `{{` has no placeholder and contains no `{{NAME}}`. */
  lemma NoBraces(s: string, name: string)
    requires !Contains(s, "{{")
    ensures Placeholders(s) == []
    ensures !Contains(s, Placeholder(name))
    ensures s != Placeholder(name)
  {
    IndexOfFirst(s, "{{");
    NoBracesNoPlaceholders(s, 0);
    var t := Placeholder(name);
    forall j | 0 <= j && j + |t| <= |s|
      ensures !OccursAt(s, t, j)
    {
      assert !OccursAt(s, "{{", j);
      assert s[j..j + |t|][..2] == s[j..j + 2];
      assert t[..2] == "{{";
    }
    IndexOfFirst(s, t);
    assert t[..2] == "{{";
    assert !OccursAt(s, "{{", 0);
  }

  /** `{{ NAME }}` resolves to the value of NAME when that value has no `{{` in it. */
  lemma LoneVariableResolves(env: Environment, sp1: string, name: string, sp2: string, value: string)
    requires IsBlank(sp1) && IsBlank(sp2) && IsIdentifier(name)
    requires Headers.Get(env.variables, name) == Some(value) && !Contains(value, "{{")
    ensures ResolveText(env, SpacedPlaceholder(sp1, name, sp2)) == Ok(value)
  {
    NoBraces(value, name);
    LonePlaceholderParts(sp1, name, sp2, value);
    assert value != SpacedPlaceholder(sp1, name, sp2) by {
      assert Placeholders(value) != Placeholders(SpacedPlaceholder(sp1, name, sp2));
    }
    LoneRound(env, sp1, name, sp2, value);
    Settles(env, value, 1);
  }

  /** One round on `{{NAME}}`: the value of NAME takes its place. */
  lemma PlainRound(env: Environment, name: string, value: string)
    requires IsIdentifier(name) && Headers.Get(env.variables, name) == Some(value)
    requires !Contains(value, Placeholder(name)) && value != Placeholder(name)
    ensures Round(env, Placeholder(name)) == Substituted(value)
  {
    PlainPlaceholder(name);
    LoneRound(env, "", name, "", value);
  }

  /** `{{NAME}}` with a value free of `{{` resolves to that value if a round is left for it. */
  lemma PlainSettles(env: Environment, name: string, value: string, depth: nat)
    requires IsIdentifier(name) && depth + 1 < MaxResolutionDepth
    requires Headers.Get(env.variables, name) == Some(value) && !Contains(value, "{{")
    ensures ResolveFrom(Rounds(env), Placeholder(name), depth) == Ok(value)
  {
    NoBraces(value, name);
    PlainRound(env, name, value);
    assert Rounds(env)(Placeholder(name)) == Substituted(value);
    Settles(env, value, depth + 1);
  }

  /** Variable A of the environment is exactly `{{B}}`, for distinct identifiers A and B. */
  predicate Refers(env: Environment, a: string, b: string) {
    IsIdentifier(a) && IsIdentifier(b) && a != b && Headers.Get(env.variables, a) == Some(Placeholder(b))
  }

  /** One round turns `{{A}}` into `{{B}}` when the value of A is `{{B}}`. */
  lemma ReferRound(env: Environment, a: string, b: string)
    requires Refers(env, a, b)
    ensures Round(env, Placeholder(a)) == Substituted(Placeholder(b))
  {
    OtherPlaceholder(a, b);
    PlainRound(env, a, Placeholder(b));
  }

  /** A value holding the placeholder of another variable is resolved in the next round. */
  lemma NestedVariableResolves(env: Environment, a: string, b: string, value: string)
    requires Refers(env, a, b)
    requires Headers.Get(env.variables, b) == Some(value) && !Contains(value, "{{")
    ensures ResolveText(env, Placeholder(a)) == Ok(value)
  {
    NestedSettles(env, a, b, value, 0);
  }

  /** `{{A}}` whose value is `{{B}}` resolves to the value of B when two rounds remain. */
  lemma NestedSettles(env: Environment, a: string, b: string, value: string, depth: nat)
    requires Refers(env, a, b) && depth + 2 < MaxResolutionDepth
    requires Headers.Get(env.variables, b) == Some(value) && !Contains(value, "{{")
    ensures ResolveFrom(Rounds(env), Placeholder(a), depth) == Ok(value)
  {
    ReferRound(env, a, b);
    assert Rounds(env)(Placeholder(a)) == Substituted(Placeholder(b));
    PlainSettles(env, b, value, depth + 1);
  }

  /** `{{B}}` neither contains nor equals `{{A}}` for distinct identifiers. */
  lemma OtherPlaceholder(a: string, b: string)
    requires IsIdentifier(a) && IsIdentifier(b) && a != b
    ensures !Contains(Placeholder(b), Placeholder(a)) && Placeholder(b) != Placeholder(a)
  {
    var sa := Placeholder(a);
    var sb := Placeholder(b);
    assert sa[2..2 + |a|] == a && sb[2..2 + |b|] == b;
    assert forall k | 2 <= k < 2 + |b| :: sb[k] == b[k - 2];
    assert sb[2 + |b|] == '}' && sb[3 + |b|] == '}';
    forall j | 0 <= j && j + |sa| <= |sb|
      ensures !OccursAt(sb, sa, j)
    {
      assert sb[j..j + |sa|][1] == sb[j + 1];
      assert sb[j..j + |sa|][2 + |a|] == sb[j + 2 + |a|];
    }
    IndexOfFirst(sb, sa);
  }

  /** A variable whose value contains its own `{{NAME}}` fails with the circular-reference error. */
  lemma SelfReferenceFails(env: Environment, sp1: string, name: string, sp2: string, value: string)
    requires IsBlank(sp1) && IsBlank(sp2) && IsIdentifier(name)
    requires Headers.Get(env.variables, name) == Some(value) && Contains(value, Placeholder(name))
    ensures ResolveText(env, SpacedPlaceholder(sp1, name, sp2)) == Err(CircularMessage(name))
  {
    LonePlaceholderParts(sp1, name, sp2, value);
    assert Distinct([name]) == [name] by {
      assert [name][..0] == [];
    }
  }

  /** A placeholder of a variable the environment lacks fails with the not-found error naming both. */
  lemma UnknownVariableFails(env: Environment, sp1: string, name: string, sp2: string)
    requires IsBlank(sp1) && IsBlank(sp2) && IsIdentifier(name)
    requires Headers.Get(env.variables, name).None?
    ensures ResolveText(env, SpacedPlaceholder(sp1, name, sp2)) == Err(NotFoundMessage(name, env.name))
  {
    LonePlaceholderParts(sp1, name, sp2, "");
    assert Distinct([name]) == [name] by {
      assert [name][..0] == [];
    }
  }

  /** A round fails as soon as one of its names is missing from the environment. */
  lemma {:induction false} MissingNameStopsRound(env: Environment, s: string, vars: seq<string>, changed: bool, k: nat)
    requires k < |vars| && Headers.Get(env.variables, vars[k]).None?
    ensures ApplyVars(env, s, vars, changed).Err?
    decreases k
  {
    if k > 0 {
      var value := Headers.Get(env.variables, vars[0]);
      if value.Some? && !Contains(value.value, Placeholder(vars[0])) {
        var s' := ReplaceVar(s, vars[0], value.value);
        assert vars[1..][k - 1] == vars[k];
        MissingNameStopsRound(env, s', vars[1..], true, k - 1);
        MissingNameStopsRound(env, s, vars[1..], changed, k - 1);
      }
    }
  }

  /** Any placeholder of a missing variable makes resolution fail. */
  lemma MissingVariableFails(env: Environment, s: string, name: string)
    requires name in Placeholders(s) && Headers.Get(env.variables, name).None?
    ensures ResolveText(env, s).Err?
  {
    var vars := Distinct(Placeholders(s));
    DistinctElements(Placeholders(s));
    var k :| 0 <= k < |vars| && vars[k] == name;
    MissingNameStopsRound(env, s, vars, false, k);
  }

  /** Two texts that rounds turn into each other use up every round: the maximum-depth error. */
  lemma {:induction false} Alternation(round: string -> RoundOutcome, s: string, t: string, depth: nat)
    requires round(s) == Substituted(t) && round(t) == Substituted(s) && depth <= MaxResolutionDepth
    ensures ResolveFrom(round, s, depth) == Err(MaxDepthMessage)
    decreases MaxResolutionDepth - depth
  {
    if depth < MaxResolutionDepth {
      Alternation(round, t, s, depth + 1);
    }
  }

  /** Two variables that refer to each other, A to `{{B}}` and B to `{{A}}`, end in the maximum-depth error. */
  lemma CycleExceedsDepth(env: Environment, a: string, b: string, depth: nat)
    requires Refers(env, a, b) && Refers(env, b, a) && depth <= MaxResolutionDepth
    ensures ResolveFrom(Rounds(env), Placeholder(a), depth) == Err(MaxDepthMessage)
  {
    ReferRound(env, a, b);
    ReferRound(env, b, a);
    Alternation(Rounds(env), Placeholder(a), Placeholder(b), depth);
  }

  /** The depth check comes after the loop: a tenth substituting round fails even if it removed the last placeholder. */
  lemma TenthRoundFails(env: Environment, name: string, value: string)
    requires IsIdentifier(name)
    requires Headers.Get(env.variables, name) == Some(value) && !Contains(value, "{{")
    ensures ResolveFrom(Rounds(env), Placeholder(name), MaxResolutionDepth - 1) == Err(MaxDepthMessage)
    ensures Placeholders(value) == []
  {
    NoBraces(value, name);
    PlainRound(env, name, value);
    assert Rounds(env)(Placeholder(name)) == Substituted(value);
  }

  // ---------------------------------------------------------------------
  // Placeholders inside other text
  // ---------------------------------------------------------------------

  /** No `{{` starts at any index from `p` up to `e`. */
  predicate NoOpenBetween(s: string, p: nat, e: nat)
    decreases e - p
  {
    p >= e || (!OccursAt(s, "{{", p) && NoOpenBetween(s, p + 1, e))
  }

  /** Where no `{{` starts between `p` and `e`, nothing is matched. */
  lemma {:induction false} RunSkipped(s: string, p: nat, e: nat)
    requires p <= e <= |s| && NoOpenBetween(s, p, e)
    ensures PlaceholdersFrom(s, p) == PlaceholdersFrom(s, e)
    decreases e - p
  {
    if p < e {
      assert VarAt(s, p).None?;
      RunSkipped(s, p + 1, e);
    }
  }

  /** Where no `{{` starts between `p` and `e`, the characters are copied. */
  lemma {:induction false} RunCopied(s: string, name: string, value: string, p: nat, e: nat)
    requires p <= e <= |s| && NoOpenBetween(s, p, e)
    ensures ReplaceVarFrom(s, name, value, p) == s[p..e] + ReplaceVarFrom(s, name, value, e)
    decreases e - p
  {
    if p < e {
      assert NamedVarAt(s, name, p).None?;
      CopiedAt(s, name, value, p);
      RunCopied(s, name, value, p + 1, e);
      assert s[p..e] == [s[p]] + s[p + 1..e];
    }
  }

  /** A character where the pattern of the name does not match is copied. */
  lemma CopiedAt(s: string, name: string, value: string, p: nat)
    requires p < |s| && NamedVarAt(s, name, p).None?
    ensures ReplaceVarFrom(s, name, value, p) == [s[p]] + ReplaceVarFrom(s, name, value, p + 1)
  {
  }

  /** Every index in the range is free of `{{`: the run has none. */
  lemma {:induction false} NoOpenIn(s: string, p: nat, e: nat)
    requires forall j | p <= j < e :: !OccursAt(s, "{{", j)
    ensures NoOpenBetween(s, p, e)
    decreases e - p
  {
    if p < e {
      NoOpenIn(s, p + 1, e);
    }
  }

  /** No `{{` starts in a stretch without `{`. */
  lemma NotOpenNoBraces(s: string, p: nat, e: nat)
    requires p <= e <= |s| && '{' !in s[p..e]
    ensures NoOpenBetween(s, p, e)
  {
    forall j | p <= j < e
      ensures !OccursAt(s, "{{", j)
    {
      assert s[p..e][j - p] == s[j];
      if j + 2 <= |s| {
        assert s[j..j + 2][0] == s[j];
      }
    }
    NoOpenIn(s, p, e);
  }

  /** The next match, at `k`, after a stretch without `{{`: its name comes next. */
  lemma PlaceholdersStep(s: string, p: nat, k: nat)
    requires p <= k <= |s| && NoOpenBetween(s, p, k) && VarAt(s, k).Some?
    ensures PlaceholdersFrom(s, p) == [VarAt(s, k).value.0] + PlaceholdersFrom(s, VarAt(s, k).value.1)
  {
    RunSkipped(s, p, k);
  }

  /**
   * One step of the global replacement: up to the next `{{`, at `k`, the
   * text is copied; a match of the name there becomes the value, and the
   * replacement goes on after the match.
   */
  lemma ReplaceVarStep(s: string, name: string, value: string, p: nat, k: nat)
    requires p <= k <= |s| && NoOpenBetween(s, p, k) && NamedVarAt(s, name, k).Some?
    ensures ReplaceVarFrom(s, name, value, p) == s[p..k] + value + ReplaceVarFrom(s, name, value, NamedVarAt(s, name, k).value)
  {
    RunCopied(s, name, value, p, k);
  }

  /** The characters of a placeholder after its first `{`: no `{{` starts among them. */
  lemma InsideNoOpen(s: string, k: nat, a: nat, b: nat, c: nat)
    requires PlaceholderShape(s, k, a, b, c)
    ensures NoOpenBetween(s, k + 1, c + 2)
  {
    assert !IsSpace('{') && !IsIdentStart('{') && !IsWordChar('{');
    forall j | k + 1 <= j < c + 2
      ensures !OccursAt(s, "{{", j)
    {
      if j + 2 <= |s| {
        if j == k + 1 {
          assert s[j..j + 2][1] == s[j + 1];
        } else {
          assert s[j..j + 2][0] == s[j];
        }
      }
    }
    NoOpenIn(s, k + 1, c + 2);
  }

  /** A character the pattern does not match at, followed by a run without `{{`, is copied. */
  lemma CopiedThenRun(s: string, name: string, value: string, k: nat, e: nat)
    requires k < e <= |s| && NamedVarAt(s, name, k).None? && NoOpenBetween(s, k + 1, e)
    ensures ReplaceVarFrom(s, name, value, k) == s[k..e] + ReplaceVarFrom(s, name, value, e)
  {
    CopiedAt(s, name, value, k);
    RunCopied(s, name, value, k + 1, e);
    SliceCons(s, k, e, ReplaceVarFrom(s, name, value, e));
  }

  /** A slice is its first element followed by the rest, before any tail. */
  lemma SliceCons(s: string, k: nat, e: nat, tail: string)
    requires k < e <= |s|
    ensures s[k..e] + tail == [s[k]] + (s[k + 1..e] + tail)
  {
    assert s[k..e] == [s[k]] + s[k + 1..e];
  }

  /** The characters of `{{ NAME }}` on their own. */
  lemma SpacedShape(sp1: string, name: string, sp2: string)
    requires IsBlank(sp1) && IsBlank(sp2) && IsIdentifier(name)
    ensures var ph, a := SpacedPlaceholder(sp1, name, sp2), 2 + |sp1|;
      && PlaceholderShape(ph, 0, a, a + |name|, a + |name| + |sp2|)
      && ph[a..a + |name|] == name && |ph| == a + |name| + |sp2| + 2
  {
    var ph := SpacedPlaceholder(sp1, name, sp2);
    var a := 2 + |sp1|;
    var b := a + |name|;
    var c := b + |sp2|;
    assert ph == "{{" + sp1 + name + sp2 + "}}";
    assert forall i | 2 <= i < a :: ph[i] == sp1[i - 2];
    assert forall i | a <= i < b :: ph[i] == name[i - a];
    assert forall i | b <= i < c :: ph[i] == sp2[i - b];
    assert ph[c] == '}' && ph[c + 1] == '}';
    assert ph[..2] == "{{";
    assert ph[a..b] == name;
  }

  /** The characters of a placeholder `t` placed at index `k` of a text. */
  lemma ShapeAt(s: string, k: nat, t: string, a: nat, b: nat, c: nat)
    requires k + |t| <= |s| && s[k..k + |t|] == t && PlaceholderShape(t, 0, a, b, c)
    ensures PlaceholderShape(s, k, k + a, k + b, k + c) && s[k + a..k + b] == t[a..b]
  {
    assert forall i | 0 <= i < |t| :: s[k + i] == t[i];
    assert s[k..k + 2] == t[..2];
    assert s[k + a..k + b] == t[a..b];
  }

  /** `{{ NAME }}` at index `k` of a text: the characters of a placeholder named NAME. */
  lemma SpacedAt(s: string, k: nat, sp1: string, name: string, sp2: string)
    requires IsBlank(sp1) && IsBlank(sp2) && IsIdentifier(name)
    requires k + |SpacedPlaceholder(sp1, name, sp2)| <= |s| && s[k..k + |SpacedPlaceholder(sp1, name, sp2)|] == SpacedPlaceholder(sp1, name, sp2)
    ensures var a := k + 2 + |sp1|;
      && PlaceholderShape(s, k, a, a + |name|, a + |name| + |sp2|) && s[a..a + |name|] == name
      && |SpacedPlaceholder(sp1, name, sp2)| == |sp1| + |name| + |sp2| + 4
  {
    var ph := SpacedPlaceholder(sp1, name, sp2);
    var a := 2 + |sp1|;
    SpacedShape(sp1, name, sp2);
    ShapeAt(s, k, ph, a, a + |name|, a + |name| + |sp2|);
  }

  /** Both patterns match where the characters of a placeholder named NAME are. */
  lemma MatchAt(s: string, p: nat, a: nat, b: nat, c: nat, name: string)
    requires PlaceholderShape(s, p, a, b, c) && s[a..b] == name
    ensures VarAt(s, p) == Some((name, c + 2)) && NamedVarAt(s, name, p) == Some(c + 2)
  {
    VarAtIs(s, p, a, b, c);
    NamedVarAtIs(s, p, a, b, c);
  }

  /** A text without `{` has no placeholder, and no replacement changes it. */
  lemma WithoutBraceUnchanged(s: string, name: string, value: string)
    requires '{' !in s
    ensures Placeholders(s) == []
    ensures ReplaceVar(s, name, value) == s
    ensures !Contains(s, "{{")
  {
    NotOpenNoBraces(s, 0, |s|);
    RunSkipped(s, 0, |s|);
    RunCopied(s, name, value, 0, |s|);
    assert forall j | 0 <= j < |s| :: !OccursAt(s, "{{", j) by {
      forall j | 0 <= j < |s|
        ensures !OccursAt(s, "{{", j)
      {
        if j + 2 <= |s| {
          assert s[j..j + 2][0] == s[j];
        }
      }
    }
    IndexOfFirst(s, "{{");
  }

  /** A text with one placeholder named NAME at `k`, and no `{` elsewhere. */
  lemma OneSlot(s: string, k: nat, a: nat, b: nat, c: nat, name: string, value: string)
    requires PlaceholderShape(s, k, a, b, c) && s[a..b] == name
    requires '{' !in s[..k] && '{' !in s[c + 2..]
    ensures Placeholders(s) == [name]
    ensures ReplaceVar(s, name, value) == s[..k] + value + s[c + 2..]
  {
    WholeSlices(s, k, c + 2);
    NotOpenNoBraces(s, 0, k);
    NotOpenNoBraces(s, c + 2, |s|);
    MatchAt(s, k, a, b, c, name);
    OneMatch(s, k, c + 2, name, value);
    Regrouped3(s[0..k], value, s[c + 2..|s|]);
  }

  /** A text with one match of NAME at `k`, ending at `e`, and no other `{{`. */
  lemma OneMatch(s: string, k: nat, e: nat, name: string, value: string)
    requires VarAt(s, k) == Some((name, e)) && NamedVarAt(s, name, k) == Some(e)
    requires NoOpenBetween(s, 0, k) && NoOpenBetween(s, e, |s|)
    ensures Placeholders(s) == [name]
    ensures ReplaceVar(s, name, value) == s[0..k] + value + (s[e..|s|] + [])
  {
    PlaceholdersStep(s, 0, k);
    RunSkipped(s, e, |s|);
    assert PlaceholdersFrom(s, |s|) == [];
    ReplaceVarStep(s, name, value, 0, k);
    RunCopied(s, name, value, e, |s|);
    assert ReplaceVarFrom(s, name, value, |s|) == [];
  }

  /**
   * The pattern of NAME replaces its placeholder inside other text: the text
   * before and after it, both without `{`, is kept, and the placeholder
   * becomes the value.
   */
  lemma ReplaceVarInText(pre: string, sp1: string, name: string, sp2: string, post: string, value: string)
    requires '{' !in pre && '{' !in post && IsBlank(sp1) && IsBlank(sp2) && IsIdentifier(name)
    ensures Placeholders(pre + SpacedPlaceholder(sp1, name, sp2) + post) == [name]
    ensures ReplaceVar(pre + SpacedPlaceholder(sp1, name, sp2) + post, name, value) == pre + value + post
  {
    var ph := SpacedPlaceholder(sp1, name, sp2);
    var s := pre + ph + post;
    var k, e := |pre|, |pre| + |ph|;
    assert s[..k] == pre && s[k..e] == ph && s[e..] == post;
    SpacedAt(s, k, sp1, name, sp2);
    var a := k + 2 + |sp1|;
    OneSlot(s, k, a, a + |name|, a + |name| + |sp2|, name, value);
  }

  /** A variable whose placeholder sits inside text without `{` resolves there, and the text around it is kept. */
  lemma VariableInTextResolves(env: Environment, pre: string, name: string, post: string, value: string)
    requires IsIdentifier(name) && '{' !in pre && '{' !in post
    requires Headers.Get(env.variables, name) == Some(value) && '{' !in value
    ensures ResolveText(env, pre + Placeholder(name) + post) == Ok(pre + value + post)
  {
    var s := pre + Placeholder(name) + post;
    var r := pre + value + post;
    PlainPlaceholder(name);
    ReplaceVarInText(pre, "", name, "", post, value);
    WithoutBraceUnchanged(value, name, value);
    NoBraces(value, name);
    WithoutBraceUnchanged(r, name, value);
    assert Distinct([name]) == [name] by {
      assert [name][..0] == [];
    }
    assert r != s by {
      assert Placeholders(r) != Placeholders(s);
    }
    assert ApplyVars(env, s, [name], false) == ApplyVars(env, r, [], true);
    assert Rounds(env)(s) == Substituted(r);
    Settles(env, r, 1);
  }

  /** The names found in a text with matches of A at `k1` and of B at `k2`, and no other `{{`, are A then B. */
  lemma TwoMatchesListed(s: string, k1: nat, e1: nat, k2: nat, e2: nat, a: string, b: string)
    requires VarAt(s, k1) == Some((a, e1)) && VarAt(s, k2) == Some((b, e2)) && e1 <= k2
    requires NoOpenBetween(s, 0, k1) && NoOpenBetween(s, e1, k2) && NoOpenBetween(s, e2, |s|)
    ensures Placeholders(s) == [a, b]
  {
    PlaceholdersStep(s, 0, k1);
    PlaceholdersStep(s, e1, k2);
    RunSkipped(s, e2, |s|);
    assert PlaceholdersFrom(s, |s|) == [];
  }

  /** A slice from the start, and a slice to the end, written out. */
  lemma WholeSlices(s: string, k: nat, e: nat)
    requires k <= |s| && e <= |s|
    ensures s[..k] == s[0..k] && s[e..] == s[e..|s|]
  {
  }

  /** Regrouping three pieces of text. */
  lemma Regrouped3(x1: string, x2: string, x3: string)
    ensures x1 + x2 + (x3 + []) == x1 + x2 + x3
  {
  }

  // ---------------------------------------------------------------------
  // The text after a placeholder is resolved on its own
  // ---------------------------------------------------------------------

  /** The characters of the placeholder VARIABLE_PATTERN finds at `p`. */
  lemma VarAtShape(s: string, p: nat) returns (a: nat, b: nat, c: nat)
    requires VarAt(s, p).Some?
    ensures PlaceholderShape(s, p, a, b, c) && VarAt(s, p) == Some((s[a..b], c + 2))
  {
    a := SkipSpaces(s, p + 2);
    b := SkipWord(s, a);
    c := SkipSpaces(s, b);
  }

  /** The characters of a placeholder in the suffix `y` are those of a placeholder `d` further on in `s`. */
  lemma ShapeShiftUp(s: string, d: nat, y: string, j: nat, a: nat, b: nat, c: nat, p: nat, a': nat, b': nat, c': nat)
    requires SuffixAt(s, d, y) && PlaceholderShape(y, j, a, b, c)
    requires p == d + j && a' == d + a && b' == d + b && c' == d + c
    ensures PlaceholderShape(s, p, a', b', c') && s[a'..b'] == y[a..b]
  {
    OccursShift(s, d, y, "{{", j, p);
    forall i | p + 2 <= i < c' + 2 ensures s[i] == y[i - d] {
      SuffixChar(s, d, y, i - d);
    }
    SliceShift(s, d, y, a, b);
  }

  /** The characters of a placeholder in `s` past index `d` are those of a placeholder in its suffix `y`. */
  lemma ShapeShiftDown(s: string, d: nat, y: string, j: nat, a: nat, b: nat, c: nat)
    requires SuffixAt(s, d, y) && PlaceholderShape(s, d + j, d + a, d + b, d + c)
    ensures PlaceholderShape(y, j, a, b, c) && s[d + a..d + b] == y[a..b]
  {
    OccursShift(s, d, y, "{{", j, d + j);
    forall i | j + 2 <= i < c + 2 ensures s[d + i] == y[i] {
      SuffixChar(s, d, y, i);
    }
    SliceShift(s, d, y, a, b);
  }

  /** A match of VARIABLE_PATTERN at `j` of the suffix `y` is one at `d + j` of `s`. */
  lemma VarAtUp(s: string, d: nat, y: string, j: nat)
    requires SuffixAt(s, d, y) && VarAt(y, j).Some?
    ensures VarAt(s, d + j) == Some((VarAt(y, j).value.0, d + VarAt(y, j).value.1))
  {
    var a, b, c := VarAtShape(y, j);
    ShapeShiftMatch(s, d, y, j, a, b, c, d + j, d + a, d + b, d + c);
  }

  /** The characters of a placeholder at `j` of the suffix `y` make a match at `p == d + j` of `s`. */
  lemma ShapeShiftMatch(s: string, d: nat, y: string, j: nat, a: nat, b: nat, c: nat, p: nat, a': nat, b': nat, c': nat)
    requires SuffixAt(s, d, y) && PlaceholderShape(y, j, a, b, c)
    requires p == d + j && a' == d + a && b' == d + b && c' == d + c
    ensures VarAt(s, d + j) == Some((y[a..b], d + c + 2))
  {
    ShapeShiftUp(s, d, y, j, a, b, c, p, a', b', c');
    VarAtIs(s, p, a', b', c');
  }

  /** A match of VARIABLE_PATTERN at `d + j` of `s` is one at `j` of its suffix `y`. */
  lemma VarAtDown(s: string, d: nat, y: string, j: nat)
    requires SuffixAt(s, d, y)
    ensures VarAt(s, d + j).Some? ==> VarAt(y, j).Some?
  {
    if VarAt(s, d + j).Some? {
      var a, b, c := VarAtShape(s, d + j);
      ShapeShiftBack(s, d, y, j, a, b, c);
    }
  }

  /** The characters of a placeholder at `d + j` of `s` make a match at `j` of its suffix `y`. */
  lemma ShapeShiftBack(s: string, d: nat, y: string, j: nat, a: nat, b: nat, c: nat)
    requires SuffixAt(s, d, y) && PlaceholderShape(s, d + j, a, b, c)
    ensures VarAt(y, j).Some?
  {
    ShapeShiftDown(s, d, y, j, a - d, b - d, c - d);
    VarAtIs(y, j, a - d, b - d, c - d);
  }

  /** VARIABLE_PATTERN at index `d + j` of `s` matches as it does at `j` of its suffix `y`, shifted by `d`. */
  lemma VarAtShift(s: string, d: nat, y: string, j: nat)
    requires SuffixAt(s, d, y)
    ensures VarAt(s, d + j).Some? <==> VarAt(y, j).Some?
    ensures VarAt(y, j).Some? ==> VarAt(s, d + j) == Some((VarAt(y, j).value.0, d + VarAt(y, j).value.1))
  {
    VarAtDown(s, d, y, j);
    if VarAt(y, j).Some? {
      VarAtUp(s, d, y, j);
    }
  }

  /** The pattern of an identifier NAME at index `d + j` of `s` matches as it does at `j` of its suffix `y`, shifted by `d`. */
  lemma NamedVarAtShift(s: string, d: nat, y: string, name: string, j: nat)
    requires SuffixAt(s, d, y) && IsIdentifier(name)
    ensures NamedVarAt(s, name, d + j).Some? <==> NamedVarAt(y, name, j).Some?
    ensures NamedVarAt(y, name, j).Some? ==> NamedVarAt(s, name, d + j).value == d + NamedVarAt(y, name, j).value
  {
    VarAtShift(s, d, y, j);
    NamedMatchIsPlaceholder(s, name, d + j);
    NamedMatchIsPlaceholder(y, name, j);
  }

  lemma SliceShift(s: string, d: nat, y: string, a: nat, b: nat)
    requires SuffixAt(s, d, y) && a <= b <= |y|
    ensures s[d + a..d + b] == y[a..b]
  {
    forall i | a <= i < b ensures s[d + i] == y[i] {
      SuffixChar(s, d, y, i);
    }
  }

  /** A match of the pattern of `name` at `p` becomes the value. */
  lemma ReplacedAt(s: string, name: string, value: string, p: nat)
    requires p < |s| && NamedVarAt(s, name, p).Some?
    ensures ReplaceVarFrom(s, name, value, p) == value + ReplaceVarFrom(s, name, value, NamedVarAt(s, name, p).value)
  {
  }

  /** One step of replacing from index `d + j` of `s`, read off its suffix `y`: the same piece, then the same next index. */
  lemma ReplaceStepShift(s: string, d: nat, y: string, name: string, value: string, j: nat) returns (piece: string, n: nat)
    requires SuffixAt(s, d, y) && IsIdentifier(name) && j < |y|
    ensures j < n <= |y|
    ensures ReplaceVarFrom(s, name, value, d + j) == piece + ReplaceVarFrom(s, name, value, d + n)
    ensures ReplaceVarFrom(y, name, value, j) == piece + ReplaceVarFrom(y, name, value, n)
  {
    NamedVarAtShift(s, d, y, name, j);
    if NamedVarAt(y, name, j).Some? {
      piece, n := value, NamedVarAt(y, name, j).value;
      MatchStepShift(s, y, name, value, j, n, d + j, d + n);
    } else {
      piece, n := [y[j]], j + 1;
      SuffixChar(s, d, y, j);
      CopyStepShift(s, y, name, value, j, d + j);
    }
  }

  /** A match at `j` of `y` ending at `e` and one at `p` of `s` ending at `q` are both replaced by the value. */
  lemma MatchStepShift(s: string, y: string, name: string, value: string, j: nat, e: nat, p: nat, q: nat)
    requires j < |y| && p < |s|
    requires NamedVarAt(y, name, j) == Some(e) && NamedVarAt(s, name, p) == Some(q)
    ensures ReplaceVarFrom(s, name, value, p) == value + ReplaceVarFrom(s, name, value, q)
    ensures ReplaceVarFrom(y, name, value, j) == value + ReplaceVarFrom(y, name, value, e)
  {
    ReplacedAt(s, name, value, p);
    ReplacedAt(y, name, value, j);
  }

  /** The same character at `j` of `y` and at `p` of `s`, where no match starts, is copied in both. */
  lemma CopyStepShift(s: string, y: string, name: string, value: string, j: nat, p: nat)
    requires j < |y| && p < |s| && s[p] == y[j]
    requires NamedVarAt(y, name, j).None? && NamedVarAt(s, name, p).None?
    ensures ReplaceVarFrom(s, name, value, p) == [y[j]] + ReplaceVarFrom(s, name, value, p + 1)
    ensures ReplaceVarFrom(y, name, value, j) == [y[j]] + ReplaceVarFrom(y, name, value, j + 1)
  {
    CopiedAt(s, name, value, p);
    CopiedAt(y, name, value, j);
  }

  /** Replacing from index `d + j` of `s` reads its suffix `y` alone. */
  lemma {:induction false} ReplaceVarShift(s: string, d: nat, y: string, name: string, value: string, j: nat)
    requires SuffixAt(s, d, y) && IsIdentifier(name) && j <= |y|
    ensures ReplaceVarFrom(s, name, value, d + j) == ReplaceVarFrom(y, name, value, j)
    decreases |y| - j
  {
    if j == |y| {
      assert ReplaceVarFrom(s, name, value, |s|) == [];
    } else {
      var piece, n := ReplaceStepShift(s, d, y, name, value, j);
      ReplaceVarShift(s, d, y, name, value, n);
    }
  }

  /**
   * A placeholder named NAME at `k`, after a stretch without `{`: the
   * stretch is kept, the placeholder becomes the value, and the replacement
   * goes on after it; the listing finds NAME first.
   */
  lemma SlotThenRest(s: string, k: nat, a: nat, b: nat, c: nat, name: string, value: string)
    requires PlaceholderShape(s, k, a, b, c) && s[a..b] == name && '{' !in s[0..k]
    ensures ReplaceVar(s, name, value) == s[0..k] + value + ReplaceVarFrom(s, name, value, c + 2)
    ensures Placeholders(s) == [name] + PlaceholdersFrom(s, c + 2)
  {
    MatchAt(s, k, a, b, c, name);
    NotOpenNoBraces(s, 0, k);
    MatchThenRest(s, k, c + 2, name, value);
  }

  /** A match of NAME at `k`, ending at `e`, after a stretch without `{{`. */
  lemma MatchThenRest(s: string, k: nat, e: nat, name: string, value: string)
    requires VarAt(s, k) == Some((name, e)) && NamedVarAt(s, name, k) == Some(e) && NoOpenBetween(s, 0, k)
    ensures ReplaceVar(s, name, value) == s[0..k] + value + ReplaceVarFrom(s, name, value, e)
    ensures Placeholders(s) == [name] + PlaceholdersFrom(s, e)
  {
    ReplaceVarStep(s, name, value, 0, k);
    PlaceholdersStep(s, 0, k);
  }

  /**
   * A placeholder named OTHER at `k`, after a stretch without `{`: replacing
   * another identifier NAME keeps the stretch and the placeholder, and goes
   * on after it; the listing finds OTHER first.
   */
  lemma OtherSlotThenRest(s: string, k: nat, a: nat, b: nat, c: nat, other: string, name: string, value: string)
    requires PlaceholderShape(s, k, a, b, c) && s[a..b] == other && '{' !in s[0..k]
    requires IsIdentifier(name) && name != other
    ensures ReplaceVar(s, name, value) == s[0..c + 2] + ReplaceVarFrom(s, name, value, c + 2)
    ensures Placeholders(s) == [other] + PlaceholdersFrom(s, c + 2)
  {
    MatchAt(s, k, a, b, c, other);
    NamedMatchIsPlaceholder(s, name, k);
    InsideNoOpen(s, k, a, b, c);
    NotOpenNoBraces(s, 0, k);
    OtherThenRest(s, k, c + 2, other, name, value);
  }

  /** A match of OTHER at `k`, ending at `e`, after a stretch without `{{`, where the pattern of NAME does not match. */
  lemma OtherThenRest(s: string, k: nat, e: nat, other: string, name: string, value: string)
    requires VarAt(s, k) == Some((other, e)) && NamedVarAt(s, name, k).None?
    requires NoOpenBetween(s, 0, k) && NoOpenBetween(s, k + 1, e)
    ensures ReplaceVar(s, name, value) == s[0..e] + ReplaceVarFrom(s, name, value, e)
    ensures Placeholders(s) == [other] + PlaceholdersFrom(s, e)
  {
    RunCopied(s, name, value, 0, k);
    CopiedThenRun(s, name, value, k, e);
    PlaceholdersStep(s, 0, k);
    SlicesJoined(s, 0, k, e, ReplaceVarFrom(s, name, value, e));
  }

  /** Two adjacent slices, before a tail, are one slice. */
  lemma SlicesJoined(s: string, p: nat, k: nat, e: nat, tail: string)
    requires p <= k <= e <= |s|
    ensures s[p..k] + (s[k..e] + tail) == s[p..e] + tail
  {
    assert s[p..k] + s[k..e] == s[p..e];
  }

  /** `pre`, a placeholder `ph` and `post`, with `ph` a spaced placeholder of NAME: the characters at `|pre|`. */
  lemma SlotInText(pre: string, sp1: string, name: string, sp2: string, post: string)
    requires IsBlank(sp1) && IsBlank(sp2) && IsIdentifier(name)
    ensures var s, k, a := pre + SpacedPlaceholder(sp1, name, sp2) + post, |pre|, |pre| + 2 + |sp1|;
      && PlaceholderShape(s, k, a, a + |name|, a + |name| + |sp2|) && s[a..a + |name|] == name
      && s[0..k] == pre && a + |name| + |sp2| + 2 == |pre + SpacedPlaceholder(sp1, name, sp2)|
      && SuffixAt(s, |pre + SpacedPlaceholder(sp1, name, sp2)|, post)
  {
    var ph := SpacedPlaceholder(sp1, name, sp2);
    var s := pre + ph + post;
    assert s[|pre|..|pre| + |ph|] == ph && s[0..|pre|] == pre;
    SpacedAt(s, |pre|, sp1, name, sp2);
    SuffixOfConcat(pre + ph, post);
  }

  /** A placeholder of NAME at `k`, after a stretch without `{`, and then the suffix `post`. */
  lemma SlotThenSuffix(s: string, k: nat, a: nat, b: nat, c: nat, post: string, name: string, value: string)
    requires PlaceholderShape(s, k, a, b, c) && s[a..b] == name && '{' !in s[0..k]
    requires SuffixAt(s, c + 2, post) && IsIdentifier(name)
    ensures ReplaceVar(s, name, value) == s[0..k] + value + ReplaceVar(post, name, value)
  {
    SlotThenRest(s, k, a, b, c, name, value);
    ReplaceVarShift(s, c + 2, post, name, value, 0);
  }

  /** A placeholder of OTHER at `k`, after a stretch without `{`, and then the suffix `post`. */
  lemma OtherSlotThenSuffix(s: string, k: nat, a: nat, b: nat, c: nat, post: string, other: string, name: string, value: string)
    requires PlaceholderShape(s, k, a, b, c) && s[a..b] == other && '{' !in s[0..k]
    requires SuffixAt(s, c + 2, post) && IsIdentifier(name) && name != other
    ensures ReplaceVar(s, name, value) == s[0..c + 2] + ReplaceVar(post, name, value)
  {
    OtherSlotThenRest(s, k, a, b, c, other, name, value);
    ReplaceVarShift(s, c + 2, post, name, value, 0);
  }

  /**
   * Replacing NAME in `pre`, without `{`, then a placeholder of NAME, then
   * any text: `pre` is kept, the placeholder becomes the value, and the rest
   * is replaced as it would be on its own.
   */
  lemma ReplaceVarAfter(pre: string, sp1: string, name: string, sp2: string, post: string, value: string)
    requires '{' !in pre && IsBlank(sp1) && IsBlank(sp2) && IsIdentifier(name)
    ensures ReplaceVar(pre + SpacedPlaceholder(sp1, name, sp2) + post, name, value) == pre + value + ReplaceVar(post, name, value)
  {
    var s := pre + SpacedPlaceholder(sp1, name, sp2) + post;
    var a := |pre| + 2 + |sp1|;
    SlotInText(pre, sp1, name, sp2, post);
    SlotThenSuffix(s, |pre|, a, a + |name|, a + |name| + |sp2|, post, name, value);
  }

  /**
   * Replacing NAME in `pre`, without `{`, then a placeholder of another
   * identifier OTHER, then any text: `pre` and the placeholder are kept, and
   * the rest is replaced as it would be on its own.
   */
  lemma ReplaceVarAfterOther(pre: string, sp1: string, other: string, sp2: string, post: string, name: string, value: string)
    requires '{' !in pre && IsBlank(sp1) && IsBlank(sp2) && IsIdentifier(other) && IsIdentifier(name) && name != other
    ensures ReplaceVar(pre + SpacedPlaceholder(sp1, other, sp2) + post, name, value)
      == pre + SpacedPlaceholder(sp1, other, sp2) + ReplaceVar(post, name, value)
  {
    var ph := SpacedPlaceholder(sp1, other, sp2);
    var s := pre + ph + post;
    var a := |pre| + 2 + |sp1|;
    SlotInText(pre, sp1, other, sp2, post);
    OtherSlotThenSuffix(s, |pre|, a, a + |other|, a + |other| + |sp2|, post, other, name, value);
    assert s[0..|pre + ph|] == pre + ph;
  }

  /**
   * The text `pre {{A}} mid {{B}} post`, with no `{` in `pre`, `mid`,
   * `post` or the values: the names found, and the text after replacing A,
   * then B.
   */
  lemma TwoPlaceholdersParts(pre: string, a: string, mid: string, b: string, post: string, va: string, vb: string)
    requires IsIdentifier(a) && IsIdentifier(b) && a != b
    requires '{' !in pre && '{' !in mid && '{' !in post && '{' !in va && '{' !in vb
    ensures var s := pre + Placeholder(a) + mid + Placeholder(b) + post;
      && Placeholders(s) == [a, b]
      && ReplaceVar(s, a, va) == pre + va + mid + Placeholder(b) + post
      && Placeholders(pre + va + mid + Placeholder(b) + post) == [b]
      && ReplaceVar(pre + va + mid + Placeholder(b) + post, b, vb) == pre + va + mid + vb + post
      && Placeholders(pre + va + mid + vb + post) == []
  {
    PlainPlaceholder(a);
    PlainPlaceholder(b);
    var tail := mid + Placeholder(b) + post;
    assert pre + Placeholder(a) + mid + Placeholder(b) + post == pre + Placeholder(a) + tail;
    ReplaceVarAfter(pre, "", a, "", tail, va);
    ReplaceVarAfterOther(mid, "", b, "", post, a, va);
    WithoutBraceUnchanged(post, a, va);
    assert pre + va + (mid + Placeholder(b) + post) == pre + va + mid + Placeholder(b) + post;
    assert '{' !in pre + va + mid;
    ReplaceVarInText(pre + va + mid, "", b, "", post, vb);
    assert '{' !in pre + va + mid + vb + post;
    WithoutBraceUnchanged(pre + va + mid + vb + post, b, vb);
    TwoPlaceholdersListed(pre, a, mid, b, post);
  }

  /** The names found in `pre {{A}} mid {{B}} post`, with no `{` in `pre`, `mid` or `post`, are A then B. */
  lemma TwoPlaceholdersListed(pre: string, a: string, mid: string, b: string, post: string)
    requires IsIdentifier(a) && IsIdentifier(b) && '{' !in pre && '{' !in mid && '{' !in post
    ensures Placeholders(pre + Placeholder(a) + mid + Placeholder(b) + post) == [a, b]
  {
    var x := pre + Placeholder(a) + mid;
    var s := x + Placeholder(b) + post;
    var k1, e1 := |pre|, |pre| + |Placeholder(a)|;
    var k2, e2 := |x|, |x| + |Placeholder(b)|;
    assert s[0..k1] == pre && s[k1..e1] == Placeholder(a) && s[e1..k2] == mid;
    assert s[k2..e2] == Placeholder(b) && s[e2..|s|] == post;
    TwoSlotsListed(s, k1, e1, k2, e2, a, b);
  }

  /** A placeholder spelled out from `k` to `e` is matched there. */
  lemma MatchSlice(s: string, k: nat, e: nat, name: string)
    requires k <= e <= |s| && s[k..e] == Placeholder(name) && IsIdentifier(name)
    ensures VarAt(s, k) == Some((name, e))
  {
    var a, b, c := SliceShape(s, k, e, name);
    MatchAt(s, k, a, b, c, name);
  }

  /** The characters of a placeholder spelled out from `k` to `e`. */
  lemma SliceShape(s: string, k: nat, e: nat, name: string) returns (a: nat, b: nat, c: nat)
    requires k <= e <= |s| && s[k..e] == Placeholder(name) && IsIdentifier(name)
    ensures PlaceholderShape(s, k, a, b, c) && s[a..b] == name && c + 2 == e
  {
    var n := 2 + |name|;
    PlainShape(name);
    ShapeAt(s, k, Placeholder(name), 2, n, n);
    a, b, c := k + 2, k + n, k + n;
  }

  /** The characters of `{{NAME}}` on their own. */
  lemma PlainShape(name: string)
    requires IsIdentifier(name)
    ensures PlaceholderShape(Placeholder(name), 0, 2, 2 + |name|, 2 + |name|)
    ensures Placeholder(name)[2..2 + |name|] == name && |Placeholder(name)| == |name| + 4
  {
    PlainPlaceholder(name);
    SpacedShape("", name, "");
  }

  /** Placeholders named A from `k1` to `e1` and B from `k2` to `e2`, and no `{` elsewhere. */
  lemma TwoSlotsListed(s: string, k1: nat, e1: nat, k2: nat, e2: nat, a: string, b: string)
    requires k1 <= e1 <= k2 <= e2 <= |s| && IsIdentifier(a) && IsIdentifier(b)
    requires s[k1..e1] == Placeholder(a) && s[k2..e2] == Placeholder(b)
    requires '{' !in s[0..k1] && '{' !in s[e1..k2] && '{' !in s[e2..|s|]
    ensures Placeholders(s) == [a, b]
  {
    MatchSlice(s, k1, e1, a);
    MatchSlice(s, k2, e2, b);
    NotOpenNoBraces(s, 0, k1);
    NotOpenNoBraces(s, e1, k2);
    NotOpenNoBraces(s, e2, |s|);
    TwoMatchesListed(s, k1, e1, k2, e2, a, b);
  }

  /**
   * One round on `pre {{A}} mid {{B}} post`, for two different variables
   * whose values have no `{`, with no `{` in the text around them: both
   * values take the places of their placeholders.
   */
  lemma TwoVariablesRound(env: Environment, pre: string, a: string, mid: string, b: string, post: string, va: string, vb: string)
    requires IsIdentifier(a) && IsIdentifier(b) && a != b
    requires '{' !in pre && '{' !in mid && '{' !in post && '{' !in va && '{' !in vb
    requires Headers.Get(env.variables, a) == Some(va) && Headers.Get(env.variables, b) == Some(vb)
    ensures Round(env, pre + Placeholder(a) + mid + Placeholder(b) + post) == Substituted(pre + va + mid + vb + post)
  {
    var s := pre + Placeholder(a) + mid + Placeholder(b) + post;
    var s1 := pre + va + mid + Placeholder(b) + post;
    var r := pre + va + mid + vb + post;
    TwoPlaceholdersParts(pre, a, mid, b, post, va, vb);
    WithoutBraceUnchanged(va, a, va);
    NoBraces(va, a);
    WithoutBraceUnchanged(vb, b, vb);
    NoBraces(vb, b);
    DistinctPair(a, b);
    assert s1 != s by {
      assert Placeholders(s1) != Placeholders(s);
    }
    assert r != s1 by {
      assert Placeholders(r) != Placeholders(s1);
    }
    TwoApplied(env, s, s1, r, a, b, va, vb);
  }

  /** Two different names, listed once each. */
  lemma DistinctPair(a: string, b: string)
    requires a != b
    ensures Distinct([a, b]) == [a, b]
  {
    assert [a][..0] == [];
    assert Distinct([a]) == [a];
    assert [a, b][..1] == [a];
  }

  /** Substituting A, then B, where each substitution changes the text. */
  lemma TwoApplied(env: Environment, s: string, s1: string, r: string, a: string, b: string, va: string, vb: string)
    requires Headers.Get(env.variables, a) == Some(va) && Headers.Get(env.variables, b) == Some(vb)
    requires !Contains(va, Placeholder(a)) && !Contains(vb, Placeholder(b))
    requires ReplaceVar(s, a, va) == s1 != s && ReplaceVar(s1, b, vb) == r != s1
    ensures ApplyVars(env, s, [a, b], false) == Ok((r, true))
  {
    assert [a, b][1..] == [b] && [b][1..] == [];
    assert ApplyVars(env, s, [a, b], false) == ApplyVars(env, s1, [b], true) == ApplyVars(env, r, [], true);
  }

  /** `pre {{A}} mid {{B}} post`, as in `TwoVariablesRound`, resolves to the text with both values in place. */
  lemma TwoVariablesResolve(env: Environment, pre: string, a: string, mid: string, b: string, post: string, va: string, vb: string)
    requires IsIdentifier(a) && IsIdentifier(b) && a != b
    requires '{' !in pre && '{' !in mid && '{' !in post && '{' !in va && '{' !in vb
    requires Headers.Get(env.variables, a) == Some(va) && Headers.Get(env.variables, b) == Some(vb)
    ensures ResolveText(env, pre + Placeholder(a) + mid + Placeholder(b) + post) == Ok(pre + va + mid + vb + post)
  {
    var r := pre + va + mid + vb + post;
    TwoVariablesRound(env, pre, a, mid, b, post, va, vb);
    TwoPlaceholdersParts(pre, a, mid, b, post, va, vb);
    assert Rounds(env)(pre + Placeholder(a) + mid + Placeholder(b) + post) == Substituted(r);
    Settles(env, r, 1);
  }

  /** The missing names are the names of `vars` the environment lacks, each once if `vars` holds each once. */
  lemma MissingNamesAre(vars: seq<string>, env: Option<Environment>)
    ensures forall x :: x in MissingNames(vars, env) <==>
      x in vars && (env.None? || Headers.Get(env.value.variables, x).None?)
    ensures NoDuplicates(vars) ==> NoDuplicates(MissingNames(vars, env))
    ensures env.None? ==> MissingNames(vars, env) == vars
  {
    MissingMembers(vars, env);
    if NoDuplicates(vars) {
      MissingOnce(vars, env);
    }
    if env.None? {
      MissingAll(vars, env);
    }
  }

  /** A name is missing exactly when it is one of `vars` the environment lacks. */
  lemma {:induction false} MissingMembers(vars: seq<string>, env: Option<Environment>)
    ensures forall x :: x in MissingNames(vars, env) <==>
      x in vars && (env.None? || Headers.Get(env.value.variables, x).None?)
    decreases |vars|
  {
    if vars != [] {
      var init := vars[..|vars| - 1];
      MissingMembers(init, env);
      assert vars == init + [vars[|vars| - 1]];
    }
  }

  /** Names listed once each are missing once each. */
  lemma {:induction false} MissingOnce(vars: seq<string>, env: Option<Environment>)
    requires NoDuplicates(vars)
    ensures NoDuplicates(MissingNames(vars, env))
    decreases |vars|
  {
    if vars != [] {
      var init := vars[..|vars| - 1];
      var last := vars[|vars| - 1];
      assert NoDuplicates(init) by {
        forall i, j | 0 <= i < j < |init|
          ensures init[i] != init[j]
        {
          assert init[i] == vars[i] && init[j] == vars[j];
        }
      }
      MissingOnce(init, env);
      MissingMembers(init, env);
      assert last !in init by {
        forall k | 0 <= k < |init|
          ensures init[k] != last
        {
          assert init[k] == vars[k];
        }
      }
      if env.None? || Headers.Get(env.value.variables, last).None? {
        OnceMore(MissingNames(init, env), last);
      }
    }
  }

  /** Appending a name not yet listed keeps every name listed once. */
  lemma OnceMore(xs: seq<string>, x: string)
    requires NoDuplicates(xs) && x !in xs
    ensures NoDuplicates(xs + [x])
  {
    forall i, j | 0 <= i < j < |xs + [x]|
      ensures (xs + [x])[i] != (xs + [x])[j]
    {
      if j < |xs| {
        assert (xs + [x])[i] == xs[i] && (xs + [x])[j] == xs[j];
      } else {
        assert (xs + [x])[i] == xs[i] && (xs + [x])[j] == x;
      }
    }
  }

  /** Without an environment every name is missing. */
  lemma {:induction false} MissingAll(vars: seq<string>, env: Option<Environment>)
    requires env.None?
    ensures MissingNames(vars, env) == vars
    decreases |vars|
  {
    if vars != [] {
      var init := vars[..|vars| - 1];
      MissingAll(init, env);
      assert vars == init + [vars[|vars| - 1]];
    }
  }

  /**
   * `validateVariables` lists, once each, exactly the placeholder names of
   * the text that the environment cannot supply; every name when there is
   * no environment.
   */
  lemma MissingVariables(text: string, environment: Option<Environment>)
    ensures var missing := MissingNames(Distinct(Placeholders(text)), environment);
      && NoDuplicates(missing)
      && (forall x :: x in missing <==>
            x in Placeholders(text) && (environment.None? || Headers.Get(environment.value.variables, x).None?))
      && (environment.None? ==> missing == Distinct(Placeholders(text)))
  {
    DistinctElements(Placeholders(text));
    MissingNamesAre(Distinct(Placeholders(text)), environment);
  }

  /**
   * A resolved request keeps its id, name, method and line and every header
   * key in order; url, header values and body are the resolved texts, the
   * body is dropped when it was empty; resolution fails exactly when the url,
   * a header value or a non-empty body fails.
   */
  lemma ResolvedRequestFields(request: ParsedRequest, resolve: string -> Result<string, string>)
    ensures var r := ResolvedRequest(request, resolve);
      r.Ok? ==>
        && r.value.id == request.id && r.value.name == request.name
        && r.value.httpMethod == request.httpMethod && r.value.lineNumber == request.lineNumber
        && resolve(request.url) == Ok(r.value.url)
        && |r.value.headers| == |request.headers|
        && (forall k | 0 <= k < |request.headers| ::
              r.value.headers[k].0 == request.headers[k].0 && resolve(request.headers[k].1) == Ok(r.value.headers[k].1))
        && (r.value.body.None? <==> request.body.None? || request.body.value == "")
        && (r.value.body.Some? ==> resolve(request.body.value) == Ok(r.value.body.value))
    ensures ResolvedRequest(request, resolve).Err? <==>
      || resolve(request.url).Err?
      || (exists k | 0 <= k < |request.headers| :: resolve(request.headers[k].1).Err?)
      || (request.body.Some? && request.body.value != "" && resolve(request.body.value).Err?)
  {
    HeadersResolved(request.headers, 0, [], resolve);
  }
}
