/**
 Padded citations: where an id stands in a line, and whether it is part of a path.
 */
module PaddedIds {
  import opened Finditer
  import opened LineScan
  import opened Text

  const FAMILY_PREFIXES :=
    ["FR", "NFR", "DEP", "OQ", "WK", "SL", "WF", "ADR", "RFC", "PL", "LG", "RL", "RS", "CR", "FD"]
  const PAD_WIDTH := 5

  // --- Ids in a line ------------------------------------------------------------------

  /** The two patterns: any governed id, or one padded to the exact width. */
  datatype Pattern = AnyId | ExactlyPadded

  predicate Admits(pattern: Pattern, digits: string) {
    digits != "" && (pattern.ExactlyPadded? ==> |digits| == PAD_WIDTH && digits[0] == '0')
  }

  /** A position `\b` accepts in front of a word character. */
  predicate FreeLeft(before: string) { before == "" || !IsWord(before[|before| - 1]) }

  /** The family prefix and hyphen an id starts with: upper-case letters, then `-`. */
  function Stem(rest: string): nat {
    var n := Span(rest, IsUpper);
    if n < |rest| && rest[n] == '-' && rest[..n] in FAMILY_PREFIXES then n + 1 else 0
  }

  /** The length of the id the pattern matches here; 0 for none. */
  function IdLength(pattern: Pattern, before: string, rest: string): (k: nat)
    ensures k <= |rest|
  {
    var stem := Stem(rest);
    if stem == 0 || !FreeLeft(before) then 0
    else
      var d := Span(rest[stem..], IsDigit);
      var end := stem + d;
      if Admits(pattern, rest[stem..end]) && (end == |rest| || !IsWord(rest[end])) then end else 0
  }

  /** `pattern.finditer(line)`. */
  function Hits(pattern: Pattern, before: string, rest: string): seq<Hit>
    decreases |rest|
  {
    if rest == "" then []
    else
      var k := IdLength(pattern, before, rest);
      if k > 0 then [Hit(|before|, rest[..k])] + Hits(pattern, before + rest[..k], rest[k..])
      else Hits(pattern, before + [rest[0]], rest[1..])
  }

  // --- Fences -------------------------------------------------------------------------

  predicate StartsFence(line: string) { "```" <= line || "~~~" <= line }

  /** `^\s{0,3}` before a fence of either kind. */
  predicate IsFence(line: string) {
    Span(line, IsSpace) <= 3 && StartsFence(line[Span(line, IsSpace)..])
  }

  /** `fenced_line_numbers`. */
  method FencedLineNumbers(lines: seq<string>) returns (out: set<nat>)
    ensures out == set i: nat | i < |lines| && Hidden(lines, IsFence, i)
  {
    out := HiddenLines(lines, IsFence);
  }

  // --- Paths --------------------------------------------------------------------------

  /** `_TOKEN_BOUNDARY_RE`. */
  predicate IsBoundary(c: char) { IsSpace(c) || c in "`()[]{}\"',;" }
  predicate InToken(c: char) { !IsBoundary(c) }

  /** The part of a token that stands before a position. */
  function LeftPart(before: string): (part: string)
    ensures |part| <= |before|
    decreases |before|
  {
    if before == "" || IsBoundary(before[|before| - 1]) then ""
    else LeftPart(before[..|before| - 1]) + [before[|before| - 1]]
  }

  /** And the part after it. */
  function RightPart(after: string): string { after[..Span(after, InToken)] }

  function DigitsAtEnd(s: string): (n: nat)
    ensures n <= |s|
    decreases |s|
  {
    if s != "" && IsDigit(s[|s| - 1]) then 1 + DigitsAtEnd(s[..|s| - 1]) else 0
  }

  /** `_TRAILING_LINE_LOCATOR_RE.sub("", token)`: without `:12` or `:12-34` at the end. */
  function SansLocator(token: string): string {
    var m := |token| - DigitsAtEnd(token);
    if m == |token| || m == 0 then token
    else if token[m - 1] == ':' then token[..m - 1]
    else if token[m - 1] != '-' then token
    else
      var n := m - 1 - DigitsAtEnd(token[..m - 1]);
      if n == m - 1 || n == 0 || token[n - 1] != ':' then token else token[..n - 1]
  }

  /** `\.[A-Za-z0-9]{2,4}$`. */
  predicate HasExtension(s: string) { EndsIn(s, 2) || EndsIn(s, 3) || EndsIn(s, 4) }

  predicate EndsIn(s: string, k: nat) {
    k < |s| && s[|s| - k - 1] == '.' && forall i | |s| - k <= i < |s| :: IsAlnum(s[i])
  }

  predicate IsPath(token: string) { '/' in token || HasExtension(SansLocator(token)) }

  /** Whether the text between `before` and `after` sits inside a path. */
  predicate InPath(before: string, text: string, after: string) {
    IsPath(LeftPart(before) + text + RightPart(after))
  }

  lemma WalkLeft(line: string, start: nat, left: nat)
    requires 0 < left <= start <= |line| && !IsBoundary(line[left - 1])
    requires LeftPart(line[..start]) == LeftPart(line[..left]) + line[left..start]
    ensures LeftPart(line[..start]) == LeftPart(line[..left - 1]) + line[left - 1..start]
  {
    assert line[..left][..left - 1] == line[..left - 1];
    assert line[left - 1..start] == [line[left - 1]] + line[left..start];
  }

  lemma WalkedRight(line: string, end: nat, right: nat)
    requires end <= right <= |line|
    requires forall i | end <= i < right :: InToken(line[i])
    requires right < |line| ==> !InToken(line[right])
    ensures RightPart(line[end..]) == line[end..right]
  {
    SpanUnique(line[end..], InToken, right - end);
    assert line[end..][..right - end] == line[end..right];
  }

  lemma TokenAround(line: string, start: nat, end: nat, left: nat, right: nat)
    requires left <= start <= end <= right <= |line|
    ensures line[left..right] == line[left..start] + line[start..end] + line[end..right]
  {}

  method TokenStart(line: string, start: nat) returns (left: nat)
    requires start <= |line|
    ensures left <= start && line[left..start] == LeftPart(line[..start])
  {
    left := start;
    while left > 0 && !IsBoundary(line[left - 1])
      invariant 0 <= left <= start
      invariant LeftPart(line[..start]) == LeftPart(line[..left]) + line[left..start]
    {
      WalkLeft(line, start, left);
      left := left - 1;
    }
    assert LeftPart(line[..left]) == "";
  }

  method TokenEnd(line: string, end: nat) returns (right: nat)
    requires end <= |line|
    ensures end <= right <= |line| && line[end..right] == RightPart(line[end..])
  {
    right := end;
    while right < |line| && !IsBoundary(line[right])
      invariant end <= right <= |line|
      invariant forall i | end <= i < right :: InToken(line[i])
    {
      right := right + 1;
    }
    WalkedRight(line, end, right);
  }

  /** `_in_path_context`: the walk to both ends of the enclosing token. */
  method InPathContext(line: string, start: nat, end: nat) returns (r: bool)
    requires start <= end <= |line|
    ensures r == InPath(line[..start], line[start..end], line[end..])
  {
    var left := TokenStart(line, start);
    var right := TokenEnd(line, end);
    TokenAround(line, start, end, left, right);
    return IsPath(line[left..right]);
  }
}
