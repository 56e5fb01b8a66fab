/**
 Text as sequences of characters: the character classes, the splitting and the trimming
 that the scripts' regular expressions and `str` methods use.
 */
module Text {

  predicate IsDigit(c: char) { '0' <= c <= '9' }
  predicate IsUpper(c: char) { 'A' <= c <= 'Z' }
  predicate IsLower(c: char) { 'a' <= c <= 'z' }
  predicate IsAlnum(c: char) { IsDigit(c) || IsUpper(c) || IsLower(c) }

  /** `\w`, for ASCII text. */
  predicate IsWord(c: char) { IsAlnum(c) || c == '_' }

  /** `\s` and `str.isspace`. */
  predicate IsSpace(c: char) {
    || '\t' <= c <= '\r' || '\U{1c}' <= c <= ' ' || c == '\U{85}' || c == '\U{a0}'
    || c == '\U{1680}' || '\U{2000}' <= c <= '\U{200a}' || c == '\U{2028}' || c == '\U{2029}'
    || c == '\U{202f}' || c == '\U{205f}' || c == '\U{3000}'
  }

  predicate AllDigits(s: string) { forall i | 0 <= i < |s| :: IsDigit(s[i]) }

  /** The length of the longest prefix of `s` whose characters all satisfy `p`. */
  function Span(s: string, p: char -> bool): (n: nat)
    ensures n <= |s|
    ensures forall i | 0 <= i < n :: p(s[i])
    ensures n < |s| ==> !p(s[n])
  {
    if s == "" || !p(s[0]) then 0 else 1 + Span(s[1..], p)
  }

  /** `Span` is the only length at which a `p`-prefix ends before a character outside `p`. */
  lemma {:induction false} SpanUnique(s: string, p: char -> bool, n: nat)
    requires n <= |s|
    requires forall i | 0 <= i < n :: p(s[i])
    requires n < |s| ==> !p(s[n])
    ensures Span(s, p) == n
  {
    if n > 0 {
      SpanUnique(s[1..], p, n - 1);
    }
  }

  /** `s.split(c)`: always at least one part. */
  function SplitOn(s: string, c: char): (parts: seq<string>)
    ensures |parts| >= 1
  {
    if s == "" then [""]
    else if s[0] == c then [""] + SplitOn(s[1..], c)
    else
      var rest := SplitOn(s[1..], c);
      [[s[0]] + rest[0]] + rest[1..]
  }

  /** `c.join(parts)`. */
  function JoinWith(parts: seq<string>, c: char): string {
    if |parts| == 0 then ""
    else if |parts| == 1 then parts[0]
    else parts[0] + [c] + JoinWith(parts[1..], c)
  }

  /** A joined text ends where its outer parts end, or in a separator where those are empty. */
  lemma {:induction false} JoinEnds(parts: seq<string>, c: char)
    requires |parts| > 1
    ensures var s := JoinWith(parts, c); var z := parts[|parts| - 1];
      && s != ""
      && s[0] == (if parts[0] == "" then c else parts[0][0])
      && s[|s| - 1] == (if z == "" then c else z[|z| - 1])
    decreases |parts|
  {
    if |parts| > 2 {
      JoinEnds(parts[1..], c);
    }
  }

  lemma {:induction false} SplitFree(s: string, c: char)
    requires c !in s
    ensures SplitOn(s, c) == [s]
  {
    if s != "" {
      assert s[1..] <= s[1..] && forall x | x in s[1..] :: x in s;
      SplitFree(s[1..], c);
      assert [s[0]] + s[1..] == s;
    }
  }

  lemma {:induction false} SplitCons(head: string, c: char, rest: string)
    requires c !in head
    ensures SplitOn(head + [c] + rest, c) == [head] + SplitOn(rest, c)
  {
    var s := head + [c] + rest;
    if head == "" {
      assert s[1..] == rest;
    } else {
      assert s[1..] == head[1..] + [c] + rest;
      assert forall x | x in head[1..] :: x in head;
      SplitCons(head[1..], c, rest);
      assert [s[0]] + head[1..] == head;
    }
  }

  /** Splitting undoes joining when no part carries the separator. */
  lemma {:induction false} SplitJoin(parts: seq<string>, c: char)
    requires |parts| > 0
    requires forall i | 0 <= i < |parts| :: c !in parts[i]
    ensures SplitOn(JoinWith(parts, c), c) == parts
  {
    if |parts| == 1 {
      SplitFree(parts[0], c);
    } else {
      SplitJoin(parts[1..], c);
      SplitCons(parts[0], c, JoinWith(parts[1..], c));
      assert [parts[0]] + parts[1..] == parts;
    }
  }

  /** No part of a split carries the separator. */
  lemma {:induction false} SplitPartsFree(s: string, c: char)
    ensures forall i | 0 <= i < |SplitOn(s, c)| :: c !in SplitOn(s, c)[i]
  {
    if s != "" {
      SplitPartsFree(s[1..], c);
    }
  }

  predicate NotNewline(c: char) { c != '\n' }

  /** `text.splitlines()`, for text whose only line separator is the newline. */
  function Lines(text: string): seq<string>
    decreases |text|
  {
    if text == "" then []
    else
      var n := Span(text, NotNewline);
      if n == |text| then [text] else [text[..n]] + Lines(text[n + 1..])
  }

  /** Lines as a text, each with its newline. */
  function Joined(lines: seq<string>): string {
    if lines == [] then "" else lines[0] + "\n" + Joined(lines[1..])
  }

  /** A line and its newline in front of a text are one more line. */
  lemma LinesCons(line: string, rest: string)
    requires '\n' !in line
    ensures Lines(line + "\n" + rest) == [line] + Lines(rest)
  {
    var text := line + "\n" + rest;
    SpanUnique(text, NotNewline, |line|);
    assert text[..|line|] == line && text[|line| + 1..] == rest;
  }

  /** `s.strip()` on the left, for the characters of `drop`. */
  function TrimLeft(s: string, drop: char -> bool): string {
    s[Span(s, drop)..]
  }

  function TrimRight(s: string, drop: char -> bool): (t: string)
    ensures t <= s
    decreases |s|
  {
    if s != "" && drop(s[|s| - 1]) then TrimRight(s[..|s| - 1], drop) else s
  }

  /** `s.strip(...)`. */
  function Trim(s: string, drop: char -> bool): string {
    TrimRight(TrimLeft(s, drop), drop)
  }

  /** `s.strip()`. */
  function Strip(s: string): string {
    Trim(s, IsSpace)
  }

  /** Every part stripped. */
  function StripAll(parts: seq<string>): (r: seq<string>)
    ensures |r| == |parts|
    ensures forall i | 0 <= i < |r| :: r[i] == Strip(parts[i])
  {
    if parts == [] then [] else [Strip(parts[0])] + StripAll(parts[1..])
  }

  /** No dropped character at either end: what a stripped string is. */
  predicate Trimmed(s: string, drop: char -> bool) {
    s != "" ==> !drop(s[0]) && !drop(s[|s| - 1])
  }

  lemma TrimTrimmed(s: string, drop: char -> bool)
    requires Trimmed(s, drop)
    ensures Trim(s, drop) == s
  {
    SpanUnique(s, drop, 0);
    assert s[0..] == s;
  }

  /** Padding a trimmed string on both sides with dropped characters is undone by `Trim`. */
  lemma {:induction false} TrimPadded(left: string, s: string, right: string, drop: char -> bool)
    requires Trimmed(s, drop)
    requires forall i | 0 <= i < |left| :: drop(left[i])
    requires forall i | 0 <= i < |right| :: drop(right[i])
    ensures Trim(left + s + right, drop) == s
  {
    var all := left + s + right;
    if s == "" {
      assert forall i | 0 <= i < |all| :: drop(all[i]);
      SpanUnique(all, drop, |all|);
    } else {
      assert all[|left|] == s[0];
      SpanUnique(all, drop, |left|);
      assert all[|left|..] == s + right;
      TrimRightPadded(s, right, drop);
    }
  }

  lemma {:induction false} TrimRightPadded(s: string, right: string, drop: char -> bool)
    requires s != "" ==> !drop(s[|s| - 1])
    requires forall i | 0 <= i < |right| :: drop(right[i])
    ensures TrimRight(s + right, drop) == s
    decreases |right|
  {
    if right == "" {
      assert s + right == s;
    } else {
      var t := s + right;
      assert t[|t| - 1] == right[|right| - 1];
      assert t[..|t| - 1] == s + right[..|right| - 1];
      TrimRightPadded(s, right[..|right| - 1], drop);
    }
  }

  /** Only dropped characters. */
  predicate AllDropped(s: string, drop: char -> bool) { forall i | 0 <= i < |s| :: drop(s[i]) }

  /** A text as what `Trim` drops on both sides, and what it keeps. */
  lemma TrimParts(s: string, drop: char -> bool) returns (front: string, core: string, back: string)
    ensures s == front + core + back && core == Trim(s, drop)
    ensures AllDropped(front, drop) && AllDropped(back, drop) && Trimmed(core, drop)
  {
    var n := Span(s, drop);
    front := s[..n];
    core, back := TrimRightParts(s[n..], drop);
    Reassembled(s, n, core, back);
  }

  lemma Reassembled(s: string, n: nat, core: string, back: string)
    requires n <= |s| && s[n..] == core + back
    ensures s == s[..n] + core + back
  {
    assert s == s[..n] + s[n..];
  }

  lemma {:induction false} TrimRightParts(s: string, drop: char -> bool) returns (core: string, back: string)
    requires s != "" ==> !drop(s[0])
    ensures s == core + back && core == TrimRight(s, drop)
    ensures AllDropped(back, drop) && Trimmed(core, drop)
    decreases |s|
  {
    if s != "" && drop(s[|s| - 1]) {
      core, back := TrimRightParts(s[..|s| - 1], drop);
      assert s == s[..|s| - 1] + [s[|s| - 1]];
      back := back + [s[|s| - 1]];
    } else {
      core, back := s, "";
    }
  }

  /** The numeral of a natural number, without leading zeros. */
  function Numeral(n: nat): (s: string)
    ensures s != "" && AllDigits(s)
  {
    if n < 10 then [Digit(n)] else Numeral(n / 10) + [Digit(n % 10)]
  }

  function Digit(d: nat): (c: char)
    requires d < 10
    ensures IsDigit(c)
  {
    '0' + d as char
  }

  /** `int(s)` for a string of digits. */
  function ParseNat(s: string): (n: nat)
    requires AllDigits(s)
  {
    if s == "" then 0 else 10 * ParseNat(s[..|s| - 1]) + (s[|s| - 1] as int - '0' as int)
  }

  /** Reading a numeral gives the number back. */
  lemma {:induction false} ParseNumeral(n: nat)
    ensures ParseNat(Numeral(n)) == n
  {
    var s := Numeral(n);
    if n >= 10 {
      assert s[..|s| - 1] == Numeral(n / 10);
      ParseNumeral(n / 10);
    } else {
      assert s[..0] == "";
    }
  }
}
