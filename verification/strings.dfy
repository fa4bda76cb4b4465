/**
 * The string operations the source takes from JavaScript (`trim`,
 * `toLowerCase`, `indexOf`, `includes`, `split`, `join`, `startsWith`,
 * `String(n)`), restricted to ASCII whitespace and ASCII case.
 */
module Strings {
  import opened Common

  /** ASCII whitespace: what `trim` and `\s` remove or match here. */
  predicate IsSpace(c: char) {
    c == ' ' || c == '\t' || c == '\n' || c == '\r' || c == '\U{000B}' || c == '\U{000C}'
  }

  predicate IsBlank(s: string) {
    forall i | 0 <= i < |s| :: IsSpace(s[i])
  }

  predicate IsDigit(c: char) {
    '0' <= c <= '9'
  }

  /** `[A-Za-z0-9_]`, the regex class `\w`. */
  predicate IsWordChar(c: char) {
    'a' <= c <= 'z' || 'A' <= c <= 'Z' || IsDigit(c) || c == '_'
  }

  /** `[A-Za-z_]`, the first character of an identifier. */
  predicate IsIdentStart(c: char) {
    'a' <= c <= 'z' || 'A' <= c <= 'Z' || c == '_'
  }

  /** `[A-Za-z_][A-Za-z0-9_]*` */
  predicate IsIdentifier(s: string) {
    |s| > 0 && IsIdentStart(s[0]) && forall i | 0 <= i < |s| :: IsWordChar(s[i])
  }

  /** The first non-space index of `s` at or after `k`, or `|s|`. */
  function TrimStartFrom(s: string, k: nat): (a: nat)
    requires k <= |s|
    ensures k <= a <= |s|
    ensures a == |s| || !IsSpace(s[a])
    decreases |s| - k
  {
    if k == |s| || !IsSpace(s[k]) then k else TrimStartFrom(s, k + 1)
  }

  /** The index just past the last non-space character of `s[a..e]`, or `a` if there is none. */
  function TrimEndFrom(s: string, a: nat, e: nat): (b: nat)
    requires a <= e <= |s|
    ensures a <= b <= e
    ensures b == a || !IsSpace(s[b - 1])
    decreases e
  {
    if e > a && IsSpace(s[e - 1]) then TrimEndFrom(s, a, e - 1) else e
  }

  /** Where the trimmed text starts in the original. */
  function TrimOffset(s: string): (a: nat)
    ensures a <= |s| && (a == |s| || !IsSpace(s[a]))
  {
    TrimStartFrom(s, 0)
  }

  /** Where the trimmed text ends in the original. */
  function TrimLimit(s: string): (b: nat)
    ensures TrimOffset(s) <= b <= |s|
    ensures b == TrimOffset(s) || !IsSpace(s[b - 1])
  {
    TrimEndFrom(s, TrimOffset(s), |s|)
  }

  /** `String.prototype.trim`: drops leading and trailing whitespace. */
  function Trim(s: string): (r: string)
    ensures |r| <= |s|
    ensures r == [] || (!IsSpace(r[0]) && !IsSpace(r[|r| - 1]))
  {
    s[TrimOffset(s)..TrimLimit(s)]
  }

  lemma {:induction false} TrimStartSkipsSpaces(s: string, k: nat)
    requires k <= |s|
    ensures forall i | k <= i < TrimStartFrom(s, k) :: IsSpace(s[i])
    decreases |s| - k
  {
    if k < |s| && IsSpace(s[k]) {
      TrimStartSkipsSpaces(s, k + 1);
    }
  }

  lemma {:induction false} TrimEndSkipsSpaces(s: string, a: nat, e: nat)
    requires a <= e <= |s|
    ensures forall i | TrimEndFrom(s, a, e) <= i < e :: IsSpace(s[i])
    decreases e
  {
    if e > a && IsSpace(s[e - 1]) {
      TrimEndSkipsSpaces(s, a, e - 1);
    }
  }

  /** Only whitespace is cut off: `Trim(s)` is the slice of `s` between two runs of whitespace. */
  lemma TrimCutsSpaces(s: string)
    ensures Trim(s) == s[TrimOffset(s)..TrimLimit(s)]
    ensures forall i | 0 <= i < TrimOffset(s) :: IsSpace(s[i])
    ensures forall i | TrimLimit(s) <= i < |s| :: IsSpace(s[i])
  {
    TrimStartSkipsSpaces(s, 0);
    TrimEndSkipsSpaces(s, TrimOffset(s), |s|);
  }

  /** A string that starts and ends with a non-space character is its own trim. */
  lemma TrimmedIsFixed(s: string)
    requires s == [] || (!IsSpace(s[0]) && !IsSpace(s[|s| - 1]))
    ensures Trim(s) == s
  {
  }

  /** Trimming yields the empty string exactly for whitespace-only text. */
  lemma TrimEmptyIffBlank(s: string)
    ensures Trim(s) == [] <==> IsBlank(s)
  {
    TrimCutsSpaces(s);
    if TrimOffset(s) < |s| {
      assert TrimLimit(s) > TrimOffset(s);
    }
  }

  /** Trimming a trimmed text with one more whitespace character gives the text back. */
  lemma TrimmedPlusSpace(t: string, c: char)
    requires t == [] || (!IsSpace(t[0]) && !IsSpace(t[|t| - 1]))
    requires IsSpace(c)
    ensures Trim(t + [c]) == t
  {
    var s := t + [c];
    if t == [] {
      TrimEmptyIffBlank(s);
    } else {
      assert s[0] == t[0] && s[|t| - 1] == t[|t| - 1];
      assert TrimOffset(s) == 0;
      assert s[|t|] == c && TrimEndFrom(s, 0, |t|) == |t|;
      assert TrimLimit(s) == |t|;
      assert s[..|t|] == t;
    }
  }

  /** Text with a non-space character keeps a non-empty trim. */
  lemma NonBlankTrim(s: string)
    requires !IsBlank(s)
    ensures Trim(s) != []
  {
    TrimEmptyIffBlank(s);
  }

  /** The first index at or after `k` that is not whitespace (or `|s|`). */
  function SkipSpaces(s: string, k: nat): (r: nat)
    requires k <= |s|
    ensures k <= r <= |s|
    ensures r == |s| || !IsSpace(s[r])
    ensures forall i | k <= i < r :: IsSpace(s[i])
    decreases |s| - k
  {
    if k == |s| || !IsSpace(s[k]) then k else SkipSpaces(s, k + 1)
  }

  /** The first index at or after `k` that is not a word character (or `|s|`). */
  function SkipWord(s: string, k: nat): (r: nat)
    requires k <= |s|
    ensures k <= r <= |s|
    ensures r == |s| || !IsWordChar(s[r])
    ensures forall i | k <= i < r :: IsWordChar(s[i])
    decreases |s| - k
  {
    if k == |s| || !IsWordChar(s[k]) then k else SkipWord(s, k + 1)
  }

  /** `SkipSpaces` stops at the first non-space character. */
  lemma {:induction false} SkipSpacesTo(s: string, k: nat, e: nat)
    requires k <= e <= |s|
    requires forall i | k <= i < e :: IsSpace(s[i])
    requires e == |s| || !IsSpace(s[e])
    ensures SkipSpaces(s, k) == e
    decreases e - k
  {
    if k < e {
      SkipSpacesTo(s, k + 1, e);
    }
  }

  /** `SkipWord` stops at the first character that is not a word character. */
  lemma {:induction false} SkipWordTo(s: string, k: nat, e: nat)
    requires k <= e <= |s|
    requires forall i | k <= i < e :: IsWordChar(s[i])
    requires e == |s| || !IsWordChar(s[e])
    ensures SkipWord(s, k) == e
    decreases e - k
  {
    if k < e {
      SkipWordTo(s, k + 1, e);
    }
  }

  /**
   * `s` ends with `y`, which starts at index `d` of it. The characters are
   * compared only at the indices a proof names with `Paired` (see
   * `SuffixChar`), so that the fact stays quiet where it is only passed on.
   */
  predicate SuffixAt(s: string, d: nat, y: string) {
    |s| == d + |y| && forall i {:trigger Paired(i)} | 0 <= i < |y| :: Paired(i) && s[d + i] == y[i]
  }

  /** Names index `i` of a suffix, for `SuffixAt`. */
  predicate Paired(i: int) {
    true
  }

  /** Index `i` of the suffix `y` is index `d + i` of `s`. */
  lemma SuffixChar(s: string, d: nat, y: string, i: nat)
    requires SuffixAt(s, d, y) && i < |y|
    ensures s[d + i] == y[i]
  {
    assert Paired(i);
  }

  /** `y` is the suffix of `x + y` that starts after `x`. */
  lemma SuffixOfConcat(x: string, y: string)
    ensures SuffixAt(x + y, |x|, y)
  {
  }

  /** Whether `t` occurs at index `k == d + j` of `s` depends on its suffix `y` alone. */
  lemma OccursShift(s: string, d: nat, y: string, t: string, j: nat, k: nat)
    requires SuffixAt(s, d, y) && k == d + j
    ensures OccursAt(s, t, k) <==> OccursAt(y, t, j)
  {
    if j + |t| <= |y| {
      forall i | k <= i < k + |t| ensures s[i] == y[i - d] {
        SuffixChar(s, d, y, i - d);
      }
      assert s[k..k + |t|] == y[j..j + |t|];
    }
  }

  /** The first index at or after `k` that is whitespace (or `|s|`). */
  function SkipNonSpaces(s: string, k: nat): (r: nat)
    requires k <= |s|
    ensures k <= r <= |s|
    ensures r == |s| || IsSpace(s[r])
    ensures forall i | k <= i < r :: !IsSpace(s[i])
    decreases |s| - k
  {
    if k == |s| || IsSpace(s[k]) then k else SkipNonSpaces(s, k + 1)
  }

  /** The maximal runs of non-space characters of `s` from index `k` on. */
  function WordsFrom(s: string, k: nat): seq<string>
    requires k <= |s|
    decreases |s| - k
  {
    var a := SkipSpaces(s, k);
    if a == |s| then []
    else
      var b := SkipNonSpaces(s, a);
      [s[a..b]] + WordsFrom(s, b)
  }

  /** `s.split(/\s+/)` of a trimmed, non-empty string: its maximal runs of non-space characters. */
  function Words(s: string): seq<string> {
    WordsFrom(s, 0)
  }

  function LowerChar(c: char): char {
    if 'A' <= c <= 'Z' then (c as int + 32) as char else c
  }

  function UpperChar(c: char): char {
    if 'a' <= c <= 'z' then (c as int - 32) as char else c
  }

  function ToLower(s: string): (r: string)
    ensures |r| == |s|
  {
    if s == [] then [] else [LowerChar(s[0])] + ToLower(s[1..])
  }

  /** `ToLower` maps each character on its own. */
  lemma {:induction false} ToLowerAt(s: string, i: nat)
    requires i < |s|
    ensures ToLower(s)[i] == LowerChar(s[i])
  {
    if i > 0 {
      ToLowerAt(s[1..], i - 1);
    }
  }

  /** Lower-casing a prefix is taking the prefix of the lower-cased text. */
  lemma {:induction false} ToLowerPrefix(s: string, k: nat)
    requires k <= |s|
    ensures ToLower(s)[..k] == ToLower(s[..k])
  {
    if k > 0 {
      ToLowerPrefix(s[1..], k - 1);
      assert s[..k][1..] == s[1..][..k - 1];
    }
  }

  /** `s.toLowerCase()` agrees with the lower-case `p` from index `k` to the end of `p`. */
  predicate LowerPrefixFrom(s: string, p: string, k: nat)
    requires k <= |p|
    ensures LowerPrefixFrom(s, p, k) && k <= |s| ==> |p| <= |s|
    decreases |p| - k
  {
    k == |p| || (k < |s| && LowerChar(s[k]) == p[k] && LowerPrefixFrom(s, p, k + 1))
  }

  /** `s.toLowerCase().startsWith(p)` for a lower-case `p`, compared character by character. */
  predicate StartsWithIgnoringCase(s: string, p: string)
    ensures StartsWithIgnoringCase(s, p) ==> |p| <= |s|
  {
    LowerPrefixFrom(s, p, 0)
  }

  lemma {:induction false} LowerPrefixFromIff(s: string, p: string, k: nat)
    requires k <= |p| <= |s|
    ensures LowerPrefixFrom(s, p, k) <==> forall i | k <= i < |p| :: ToLower(s)[i] == p[i]
    decreases |p| - k
  {
    if k < |p| {
      LowerPrefixFromIff(s, p, k + 1);
      ToLowerAt(s, k);
    }
  }

  /** The character-by-character test is the test on the lower-cased text. */
  lemma StartsWithIgnoringCaseIff(s: string, p: string)
    ensures StartsWithIgnoringCase(s, p) <==> StartsWith(ToLower(s), p)
  {
    if |p| <= |s| {
      LowerPrefixFromIff(s, p, 0);
      if StartsWith(ToLower(s), p) {
        assert forall i | 0 <= i < |p| :: ToLower(s)[i] == ToLower(s)[..|p|][i];
      }
    }
  }

  /** A text without upper-case letters is its own lower-case form. */
  lemma {:induction false} LowerCaseFixed(s: string)
    requires forall i | 0 <= i < |s| :: !('A' <= s[i] <= 'Z')
    ensures ToLower(s) == s
  {
    if s != [] {
      LowerCaseFixed(s[1..]);
    }
  }

  /** A character that differs after lower-casing rules out the prefix. */
  lemma MismatchIgnoringCase(s: string, p: string, k: nat)
    requires k < |p| && k < |s| && LowerChar(s[k]) != p[k]
    ensures !StartsWithIgnoringCase(s, p)
  {
    StartsWithIgnoringCaseIff(s, p);
    ToLowerAt(s, k);
    if |p| <= |s| {
      assert ToLower(s)[..|p|][k] == ToLower(s)[k];
    }
  }

  /** A character that does not match rules out an occurrence. */
  lemma MismatchAt(s: string, t: string, i: nat, k: nat)
    requires k < |t| && i + k < |s| && s[i + k] != t[k]
    ensures !OccursAt(s, t, i)
  {
    if i + |t| <= |s| {
      assert s[i..i + |t|][k] == s[i + k];
    }
  }

  function ToUpper(s: string): (r: string)
    ensures |r| == |s| && forall i | 0 <= i < |s| :: r[i] == UpperChar(s[i])
  {
    seq(|s|, i requires 0 <= i < |s| => UpperChar(s[i]))
  }

  predicate StartsWith(s: string, prefix: string) {
    |prefix| <= |s| && s[..|prefix|] == prefix
  }

  predicate EndsWith(s: string, suffix: string) {
    |suffix| <= |s| && s[|s| - |suffix|..] == suffix
  }

  /** `t` occurs in `s` starting at index `i`. */
  predicate OccursAt(s: string, t: string, i: int) {
    0 <= i && i + |t| <= |s| && s[i..i + |t|] == t
  }

  function IndexFrom(s: string, t: string, k: nat): (r: Option<nat>)
    requires k <= |s|
    ensures r.Some? ==> k <= r.value && OccursAt(s, t, r.value)
    decreases |s| - k
  {
    if k + |t| > |s| then None
    else if s[k..k + |t|] == t then Some(k)
    else if k == |s| then None
    else IndexFrom(s, t, k + 1)
  }

  /** `s.indexOf(t)`, with `None` for -1: the first occurrence of `t`. */
  function IndexOf(s: string, t: string): (r: Option<nat>)
    ensures r.Some? ==> OccursAt(s, t, r.value)
  {
    IndexFrom(s, t, 0)
  }

  /** No occurrence lies between `k` and the one `IndexFrom` finds, nor after `k` when it finds none. */
  lemma {:induction false} IndexFromFirst(s: string, t: string, k: nat)
    requires k <= |s|
    ensures IndexFrom(s, t, k).Some? ==> forall j | k <= j < IndexFrom(s, t, k).value :: !OccursAt(s, t, j)
    ensures IndexFrom(s, t, k).None? ==> forall j | k <= j :: !OccursAt(s, t, j)
    decreases |s| - k
  {
    if k + |t| <= |s| && s[k..k + |t|] != t && k < |s| {
      IndexFromFirst(s, t, k + 1);
    }
  }

  /** `IndexOf` finds the first occurrence, and `None` means there is none. */
  lemma IndexOfFirst(s: string, t: string)
    ensures IndexOf(s, t).Some? ==> forall j | 0 <= j < IndexOf(s, t).value :: !OccursAt(s, t, j)
    ensures IndexOf(s, t).None? <==> forall j :: !OccursAt(s, t, j)
  {
    IndexFromFirst(s, t, 0);
  }

  /** An occurrence with none before it is what `IndexOf` finds. */
  lemma IndexOfIs(s: string, t: string, i: nat)
    requires OccursAt(s, t, i)
    requires forall j | 0 <= j < i :: !OccursAt(s, t, j)
    ensures IndexOf(s, t) == Some(i)
  {
    IndexOfFirst(s, t);
  }

  /** Every occurrence with none before it is what `IndexOf` finds. */
  lemma FirstIsIndex(s: string, t: string)
    ensures forall i | OccursAt(s, t, i) && (forall j | 0 <= j < i :: !OccursAt(s, t, j)) :: IndexOf(s, t) == Some(i)
  {
    forall i | OccursAt(s, t, i) && (forall j | 0 <= j < i :: !OccursAt(s, t, j))
      ensures IndexOf(s, t) == Some(i)
    {
      IndexOfIs(s, t, i);
    }
  }

  /** `s.indexOf(c)` for one character: none exactly when `c` is absent, otherwise the first index holding `c`. */
  lemma IndexOfChar(s: string, c: char)
    ensures IndexOf(s, [c]).None? <==> c !in s
    ensures forall i | 0 <= i < |s| && s[i] == c && c !in s[..i] :: IndexOf(s, [c]) == Some(i)
  {
    IndexOfFirst(s, [c]);
    forall i | 0 <= i < |s|
      ensures OccursAt(s, [c], i) <==> s[i] == c
    {
      assert s[i..i + 1] == [s[i]];
    }
    forall i | 0 <= i < |s| && s[i] == c && c !in s[..i]
      ensures IndexOf(s, [c]) == Some(i)
    {
      forall j | 0 <= j < i
        ensures !OccursAt(s, [c], j)
      {
        assert s[..i][j] == s[j];
      }
      IndexOfIs(s, [c], i);
    }
  }

  /** `s.includes(t)` */
  predicate Contains(s: string, t: string) {
    IndexOf(s, t).Some?
  }

  lemma ContainsAt(s: string, t: string, i: int)
    requires OccursAt(s, t, i)
    ensures Contains(s, t)
  {
    IndexOfFirst(s, t);
  }

  /** `parts.join(sep)` */
  function Join(parts: seq<string>, sep: string): (r: string)
    decreases |parts|
  {
    if |parts| == 0 then ""
    else if |parts| == 1 then parts[0]
    else parts[0] + sep + Join(parts[1..], sep)
  }

  /** Joining one more part appends the separator and that part. */
  lemma {:induction false} JoinSnoc(parts: seq<string>, x: string, sep: string)
    ensures Join(parts + [x], sep) == if parts == [] then x else Join(parts, sep) + sep + x
    decreases |parts|
  {
    if |parts| >= 2 {
      JoinSnoc(parts[1..], x, sep);
      assert (parts + [x])[1..] == parts[1..] + [x];
    } else if |parts| == 1 {
      assert (parts + [x])[1..] == [x];
    }
  }

  /** A joined text whose last part has a non-space character is not blank. */
  lemma JoinLastNotBlank(parts: seq<string>, sep: string)
    requires parts != [] && !IsBlank(parts[|parts| - 1])
    ensures !IsBlank(Join(parts, sep))
  {
    var init := parts[..|parts| - 1];
    var last := parts[|parts| - 1];
    assert parts == init + [last];
    JoinSnoc(init, last, sep);
    var i :| 0 <= i < |last| && !IsSpace(last[i]);
    var j := |Join(parts, sep)| - |last| + i;
    assert Join(parts, sep)[j] == last[i];
  }

  /** `s.split(sep)` for a non-empty literal separator. */
  function Split(s: string, sep: string): (r: seq<string>)
    requires sep != []
    ensures |r| >= 1
    decreases |s|
  {
    match IndexOf(s, sep)
    case None => [s]
    case Some(i) => [s[..i]] + Split(s[i + |sep|..], sep)
  }

  /** Splitting and re-joining with the same separator gives back the text. */
  lemma {:induction false} JoinSplit(s: string, sep: string)
    requires sep != []
    ensures Join(Split(s, sep), sep) == s
    decreases |s|
  {
    match IndexOf(s, sep)
    case None =>
    case Some(i) =>
      var rest := s[i + |sep|..];
      var tail := Split(rest, sep);
      JoinSplit(rest, sep);
      var parts := [s[..i]] + tail;
      assert Split(s, sep) == parts;
      assert parts[1..] == tail;
      assert Join(parts, sep) == s[..i] + sep + Join(tail, sep);
      assert s == s[..i] + sep + rest;
  }

  /** A text without the separator character is one piece. */
  lemma SplitWithout(s: string, c: char)
    requires c !in s
    ensures Split(s, [c]) == [s]
  {
    forall j ensures !OccursAt(s, [c], j) {
      if 0 <= j < |s| {
        assert s[j..j + 1][0] == s[j];
      }
    }
    IndexOfFirst(s, [c]);
  }

  /** The first separator character of `s + [c] + t` is the first one of `s`, or the one added. */
  lemma FirstSeparator(s: string, c: char, t: string)
    ensures IndexOf(s, [c]).Some? ==> IndexOf(s + [c] + t, [c]) == IndexOf(s, [c])
    ensures IndexOf(s, [c]).None? ==> IndexOf(s + [c] + t, [c]) == Some(|s|)
  {
    var u := s + [c] + t;
    IndexOfFirst(s, [c]);
    var i := if IndexOf(s, [c]).Some? then IndexOf(s, [c]).value else |s|;
    assert u[i..i + 1] == [c];
    forall j | 0 <= j < i
      ensures !OccursAt(u, [c], j)
    {
      assert !OccursAt(s, [c], j);
      assert u[j..j + 1] == s[j..j + 1];
    }
    IndexOfIs(u, [c], i);
  }

  /** Appending the separator and a piece without it adds that piece to the split. */
  lemma {:induction false} SplitSnoc(s: string, c: char, t: string)
    requires c !in t
    ensures Split(s + [c] + t, [c]) == Split(s, [c]) + [t]
    decreases |s|
  {
    var u := s + [c] + t;
    FirstSeparator(s, c, t);
    if IndexOf(s, [c]).None? {
      assert u[..|s|] == s;
      assert u[|s| + 1..] == t;
      SplitWithout(t, c);
      assert Split(u, [c]) == [s] + [t];
    } else {
      var i := IndexOf(s, [c]).value;
      var rest := s[i + 1..];
      assert u[i + 1..] == rest + [c] + t;
      assert u[..i] == s[..i];
      SplitSnoc(rest, c, t);
      assert Split(u, [c]) == [s[..i]] + (Split(rest, [c]) + [t]);
      assert Split(s, [c]) == [s[..i]] + Split(rest, [c]);
    }
  }

  /** Removes one trailing carriage return. */
  function DropCR(line: string): string {
    if line != [] && line[|line| - 1] == '\r' then line[..|line| - 1] else line
  }

  /** `s.split(/\r?\n/)`: split at every line feed, dropping a carriage return just before it. */
  function SplitLines(s: string): (r: seq<string>)
    ensures |r| >= 1
    decreases |s|
  {
    match IndexOf(s, "\n")
    case None => [s]
    case Some(i) => [DropCR(s[..i])] + SplitLines(s[i + 1..])
  }

  function DigitChar(d: nat): char
    requires d < 10
  {
    ('0' as int + d) as char
  }

  /** `String(n)` for a natural number: its decimal digits. */
  function NatToString(n: nat): (r: string)
    ensures |r| >= 1
    ensures forall i | 0 <= i < |r| :: IsDigit(r[i])
  {
    if n < 10 then [DigitChar(n)] else NatToString(n / 10) + [DigitChar(n % 10)]
  }

  /** `String(n)` for an integer. */
  function IntToString(n: int): (r: string)
    ensures |r| >= 1
  {
    if n < 0 then "-" + NatToString(-n) else NatToString(n)
  }

  /** `parseInt(digits, 10)` for a string of decimal digits. */
  function DecimalValue(digits: string): nat
    requires forall i | 0 <= i < |digits| :: IsDigit(digits[i])
    decreases |digits|
  {
    if digits == [] then 0
    else
      assert IsDigit(digits[|digits| - 1]);
      10 * DecimalValue(digits[..|digits| - 1]) + (digits[|digits| - 1] as int - '0' as int)
  }

  /** Decimal printing and parsing are inverse. */
  lemma {:induction false} DecimalRoundTrip(n: nat)
    ensures DecimalValue(NatToString(n)) == n
  {
    if n >= 10 {
      DecimalRoundTrip(n / 10);
      var s := NatToString(n);
      assert s[..|s| - 1] == NatToString(n / 10);
    }
  }

  /** `s.replace(pattern, replacement)` with a string pattern: only the first occurrence, replacement taken literally. */
  function ReplaceFirst(s: string, pattern: string, replacement: string): (r: string)
    ensures (forall j :: !OccursAt(s, pattern, j)) ==> r == s
    ensures forall i | OccursAt(s, pattern, i) && (forall j | 0 <= j < i :: !OccursAt(s, pattern, j)) ::
      r == s[..i] + replacement + s[i + |pattern|..]
  {
    IndexOfFirst(s, pattern);
    FirstIsIndex(s, pattern);
    match IndexOf(s, pattern)
    case None => s
    case Some(i) => s[..i] + replacement + s[i + |pattern|..]
  }

  /** Replacing a whole text by a replacement gives the replacement. */
  lemma ReplaceWhole(s: string, replacement: string)
    ensures ReplaceFirst(s, s, replacement) == replacement
  {
    IndexOfIs(s, s, 0);
    assert s[|s|..] == [];
  }
}
