/**
 Citations and links on the characters of a line: which texts are ids and what they cite,
 which links a line holds, and which lines stand outside every fence.
 */
module CitationTexts {
  import opened Finditer
  import opened LeftmostScan
  import opened LineScan
  import opened Text
  import opened TextLaws
  import opened Wrappers
  import opened PaddedIds
  import opened Asterisks
  import opened PaddedScanners

  // --- Ids ----------------------------------------------------------------------------

  /** A family prefix, a hyphen, and the number `n` behind `zeros` zeros. */
  predicate Spells(t: string, prefix: string, zeros: nat, n: nat) {
    prefix in FAMILY_PREFIXES && t == prefix + "-" + Zeros(zeros) + Numeral(n)
  }

  /** The id without padding. */
  function IdOf(prefix: string, n: nat): string { prefix + "-" + Numeral(n) }

  lemma FamilyIsUpper(prefix: string)
    requires prefix in FAMILY_PREFIXES
    ensures prefix != "" && forall i | 0 <= i < |prefix| :: IsUpper(prefix[i])
  {}

  lemma StemOf(prefix: string, digits: string)
    requires prefix in FAMILY_PREFIXES
    ensures Span(prefix + "-" + digits, IsUpper) == |prefix| && Stem(prefix + "-" + digits) == |prefix| + 1
  {
    var t := prefix + "-" + digits;
    FamilyIsUpper(prefix);
    SpanUnique(t, IsUpper, |prefix|);
    assert t[..|prefix|] == prefix;
  }

  lemma DigitsAndPrefix(t: string)
    requires Stem(t) > 0
    ensures var prefix := t[..Stem(t) - 1]; prefix in FAMILY_PREFIXES && t == prefix + "-" + t[Stem(t)..]
  {}

  lemma Grouped(prefix: string, zeros: nat, n: nat)
    ensures prefix + "-" + Zeros(zeros) + Numeral(n) == prefix + "-" + (Zeros(zeros) + Numeral(n))
  {}

  lemma TailOf(prefix: string, digits: string)
    ensures (prefix + "-" + digits)[|prefix| + 1..] == digits && (prefix + "-" + digits)[..|prefix| + 1] == prefix + "-"
    ensures (prefix + "-" + digits)[|prefix|] == '-'
  {}

  lemma SpelledIsId(t: string, prefix: string, zeros: nat, n: nat)
    requires Spells(t, prefix, zeros, n)
    ensures IsIdText(AnyId, t) && Canonical(t) == IdOf(prefix, n)
    ensures IsIdText(ExactlyPadded, t) <==> zeros > 0 && zeros + |Numeral(n)| == 5
    ensures t == IdOf(prefix, n) <==> zeros == 0
  {
    var digits := Zeros(zeros) + Numeral(n);
    Grouped(prefix, zeros, n);
    StemOf(prefix, digits);
    TailOf(prefix, digits);
    FamilyIsUpper(prefix);
    ZerosAndNumeral(zeros, n);
    LeadingZero(zeros, n);
    if zeros == 0 {
      assert digits == Numeral(n);
    }
  }

  /** A numeral of several digits does not start with a zero. */
  lemma {:induction false} NumeralHead(n: nat)
    requires n > 0
    ensures Numeral(n)[0] != '0'
  {
    if n >= 10 {
      NumeralHead(n / 10);
    }
  }

  lemma LeadingZero(zeros: nat, n: nat)
    ensures var digits := Zeros(zeros) + Numeral(n);
      |digits| == 5 && digits[0] == '0' <==> zeros > 0 && |digits| == 5
  {
    if zeros == 0 {
      assert Zeros(0) + Numeral(n) == Numeral(n);
      if n > 0 {
        NumeralHead(n);
      }
    }
  }

  lemma IdIsSpelled(t: string) returns (prefix: string, zeros: nat, n: nat)
    requires IsIdText(AnyId, t)
    ensures Spells(t, prefix, zeros, n)
  {
    DigitsAndPrefix(t);
    prefix := t[..Stem(t) - 1];
    var digits := t[Stem(t)..];
    n := ParseNat(digits);
    zeros := DigitsAreNumeral(digits);
    Grouped(prefix, zeros, n);
  }

  /** `t` stands at `at`, between no word characters. */
  predicate StandsAt(line: string, at: nat, t: string) {
    && t != "" && at + |t| <= |line| && line[at..at + |t|] == t
    && (at > 0 ==> !IsWord(line[at - 1])) && (at + |t| < |line| ==> !IsWord(line[at + |t|]))
  }

  /** The line cites an id at `at`: its prefix, its padding and its number. */
  ghost predicate CitesAt(line: string, at: nat, prefix: string, zeros: nat, n: nat) {
    Spells(prefix + "-" + Zeros(zeros) + Numeral(n), prefix, zeros, n)
    && StandsAt(line, at, prefix + "-" + Zeros(zeros) + Numeral(n))
  }

  lemma StandingExactly(pattern: Pattern, line: string, at: nat, t: string)
    requires at <= |line|
    ensures MatchesText(pattern, line[..at], line[at..], t) <==> StandsAt(line, at, t) && IsIdText(pattern, t)
  {
    var rest := line[at..];
    if t != "" && |t| <= |rest| {
      IdByText(pattern, line[..at], rest, |t|);
      assert rest[..|t|] == line[at..at + |t|];
    }
  }

  lemma HitsExactly(pattern: Pattern, line: string, at: nat, t: string)
    ensures Hit(at, t) in Hits(pattern, "", line) <==> StandsAt(line, at, t) && IsIdText(pattern, t)
  {
    MatchOfLine(pattern, line, Hit(at, t));
    if at <= |line| {
      StandingExactly(pattern, line, at, t);
    }
  }

  /** What the scan for ids finds: every id that stands in the line. */
  lemma CitedExactly(line: string, at: nat, t: string)
    ensures Hit(at, t) in Hits(AnyId, "", line) <==>
      exists prefix, zeros: nat, n: nat :: Spells(t, prefix, zeros, n) && CitesAt(line, at, prefix, zeros, n)
  {
    HitsExactly(AnyId, line, at, t);
    if Hit(at, t) in Hits(AnyId, "", line) {
      var prefix, zeros, n := IdIsSpelled(t);
      assert CitesAt(line, at, prefix, zeros, n);
    }
    if prefix, zeros, n :| Spells(t, prefix, zeros, n) && CitesAt(line, at, prefix, zeros, n) {
      SpelledIsId(t, prefix, zeros, n);
    }
  }

  // --- The first id of a text ---------------------------------------------------------

  /** The first id of a text cites `id`. */
  ghost predicate FirstCites(text: string, id: string) {
    exists at: nat, prefix, zeros: nat, n: nat ::
      CitesAt(text, at, prefix, zeros, n) && id == IdOf(prefix, n) && NoneBefore(text, at)
  }

  ghost predicate NoneBefore(text: string, at: nat) {
    forall i, prefix, zeros, n | 0 <= i < at :: !CitesAt(text, i, prefix, zeros, n)
  }

  /** The hits stand one behind the other. */
  ghost predicate Ascend(hits: seq<Hit>, from: nat) {
    && (forall i | 0 <= i < |hits| :: hits[i].at >= from)
    && (forall i, j | 0 <= i < j < |hits| :: hits[i].at < hits[j].at)
  }

  lemma AscendInFront(h: Hit, later: seq<Hit>, from: nat)
    requires Ascend(later, from) && h.at < from
    ensures Ascend([h] + later, h.at)
  {
    var hits := [h] + later;
    assert forall k | 0 < k < |hits| :: hits[k] == later[k - 1];
  }

  lemma AscendFromEarlier(hits: seq<Hit>, from: nat, earlier: nat)
    requires Ascend(hits, from) && earlier <= from
    ensures Ascend(hits, earlier)
  {}

  lemma {:induction false} HitsAscend(pattern: Pattern, before: string, rest: string)
    ensures Ascend(Hits(pattern, before, rest), |before|)
    decreases |rest|
  {
    if rest != "" {
      var k := IdLength(pattern, before, rest);
      if k > 0 {
        HitsAscend(pattern, before + rest[..k], rest[k..]);
        IdStep(pattern, before, rest, k);
        AscendInFront(Hit(|before|, rest[..k]), Hits(pattern, before + rest[..k], rest[k..]), |before| + k);
      } else {
        HitsAscend(pattern, before + [rest[0]], rest[1..]);
        NoIdStep(pattern, before, rest);
        AscendFromEarlier(Hits(pattern, before, rest), |before| + 1, |before|);
      }
    }
  }

  lemma FirstFound(text: string)
    requires Hits(AnyId, "", text) != []
    ensures var h := Hits(AnyId, "", text)[0];
      && (exists prefix, zeros: nat, n: nat ::
            Spells(h.text, prefix, zeros, n) && CitesAt(text, h.at, prefix, zeros, n))
      && NoneBefore(text, h.at)
  {
    var h := Hits(AnyId, "", text)[0];
    HitsAscend(AnyId, "", text);
    CitedExactly(text, h.at, h.text);
    forall i, prefix, zeros, n | 0 <= i < h.at ensures !CitesAt(text, i, prefix, zeros, n) {
      var t := prefix + "-" + Zeros(zeros) + Numeral(n);
      if CitesAt(text, i, prefix, zeros, n) {
        CitedExactly(text, i, t);
      }
    }
  }

  lemma FirstIdExactly(text: string, id: string)
    ensures FirstId(text) == Some(id) <==> FirstCites(text, id)
  {
    var hits := Hits(AnyId, "", text);
    if hits != [] {
      FirstFound(text);
      var h := hits[0];
      var prefix, zeros, n :| Spells(h.text, prefix, zeros, n) && CitesAt(text, h.at, prefix, zeros, n);
      SpelledIsId(h.text, prefix, zeros, n);
      if FirstCites(text, id) {
        FirstIsOne(text, h, id);
      }
    }
    if at, prefix, zeros, n :| CitesAt(text, at, prefix, zeros, n) && id == IdOf(prefix, n) && NoneBefore(text, at) {
      CitedExactly(text, at, prefix + "-" + Zeros(zeros) + Numeral(n));
    }
  }

  lemma FirstIsOne(text: string, h: Hit, id: string)
    requires h in Hits(AnyId, "", text) && NoneBefore(text, h.at) && FirstCites(text, id)
    ensures id == Canonical(h.text)
  {
    var at, prefix, zeros, n :| CitesAt(text, at, prefix, zeros, n) && id == IdOf(prefix, n) && NoneBefore(text, at);
    var t := prefix + "-" + Zeros(zeros) + Numeral(n);
    CitedExactly(text, h.at, h.text);
    CitedExactly(text, at, t);
    assert at == h.at;
    SpelledIsId(t, prefix, zeros, n);
    OneHitAPlace(text, at, t, h.text);
  }

  lemma OneHitAPlace(text: string, at: nat, a: string, b: string)
    requires Hit(at, a) in Hits(AnyId, "", text) && Hit(at, b) in Hits(AnyId, "", text)
    ensures a == b
  {
    MatchOfLine(AnyId, text, Hit(at, a));
    MatchOfLine(AnyId, text, Hit(at, b));
  }

  // --- Links --------------------------------------------------------------------------

  /** `[text](target)` stands at `l.at`. */
  ghost predicate LinkAt(line: string, l: Link) {
    && ']' !in l.text && ')' !in l.target && l.target != "" && l.at <= |line|
    && "[" + l.text + "](" + l.target + ")" <= line[l.at..]
  }

  ghost function LinksIn(line: string): Link -> bool { l => LinkAt(line, l) }

  function PlaceOf(l: Link): nat { l.at }

  /** The links are read from left to right, each from behind the one before. */
  ghost predicate ReadsLinks(line: string, ls: seq<Link>) { Leftmost(LinksIn(line), PlaceOf, LinkSize, 0, ls) }

  lemma LinkParts(rest: string, text: string, target: string)
    ensures "[" + text + "](" + target + ")" <= rest <==>
      && |text| + |target| + 4 <= |rest| && rest[0] == '[' && rest[1..|text| + 1] == text
      && rest[|text| + 1] == ']' && rest[|text| + 2] == '('
      && rest[|text| + 3..|text| + 3 + |target|] == target && rest[|text| + 3 + |target|] == ')'
  {
    var link := "[" + text + "](" + target + ")";
    var n, m := |text|, |target|;
    assert link[0] == '[' && link[1..n + 1] == text && link[n + 1] == ']' && link[n + 2] == '(';
    assert link[n + 3..n + 3 + m] == target && link[n + 3 + m] == ')';
    if link <= rest {
      assert rest[..n + m + 4] == link;
      assert rest[1..n + 1] == link[1..n + 1] && rest[n + 3..n + 3 + m] == link[n + 3..n + 3 + m];
    }
    if && n + m + 4 <= |rest| && rest[0] == '[' && rest[1..n + 1] == text && rest[n + 1] == ']' && rest[n + 2] == '('
       && rest[n + 3..n + 3 + m] == target && rest[n + 3 + m] == ')' {
      assert rest[..n + m + 4] == [rest[0]] + rest[1..n + 1] + [rest[n + 1]] + [rest[n + 2]]
        + rest[n + 3..n + 3 + m] + [rest[n + 3 + m]];
    }
  }

  lemma SpanIs(rest: string, from: nat, part: string, c: char)
    requires from + |part| < |rest| && rest[from..from + |part|] == part && c !in part && rest[from + |part|] == c
    ensures Span(rest[from..], x => x != c) == |part|
  {
    var tail := rest[from..];
    assert forall i | 0 <= i < |part| :: tail[i] == part[i];
    SpanUnique(tail, x => x != c, |part|);
  }

  lemma SpanHolds(rest: string, from: nat, c: char, n: nat)
    requires from <= |rest| && n == Span(rest[from..], x => x != c) && from + n <= |rest|
    ensures c !in rest[from..from + n] && (from + n < |rest| ==> rest[from + n] == c)
  {
    var part, tail := rest[from..from + n], rest[from..];
    forall i | 0 <= i < n ensures part[i] != c {
      assert part[i] == tail[i];
    }
    assert from + n < |rest| ==> tail[n] == rest[from + n];
  }

  lemma LinkIsHere(at: nat, rest: string, text: string, target: string)
    requires ']' !in text && ')' !in target && target != "" && "[" + text + "](" + target + ")" <= rest
    ensures LinkHere(at, rest).Some? && LinkHere(at, rest).value == Link(at, text, target)
  {
    LinkParts(rest, text, target);
    SpanIs(rest, 1, text, ']');
    SpanIs(rest, |text| + 3, target, ')');
  }

  lemma HereShape(at: nat, rest: string) returns (n: nat, m: nat)
    requires LinkHere(at, rest).Some?
    ensures n + m + 4 <= |rest| && rest[0] == '[' && rest[n + 2] == '(' && m > 0
    ensures n == Span(rest[1..], x => x != ']') && m == Span(rest[n + 3..], x => x != ')')
    ensures LinkHere(at, rest).value == Link(at, rest[1..n + 1], rest[n + 3..n + 3 + m])
  {
    n := Span(rest[1..], x => x != ']');
    m := Span(rest[n + 3..], x => x != ')');
  }

  lemma HereIsLink(at: nat, rest: string)
    requires LinkHere(at, rest).Some?
    ensures var l := LinkHere(at, rest).value;
      && l.at == at && ']' !in l.text && ')' !in l.target && l.target != ""
      && "[" + l.text + "](" + l.target + ")" <= rest
  {
    var n, m := HereShape(at, rest);
    SpanHolds(rest, 1, ']', n);
    SpanHolds(rest, n + 3, ')', m);
    LinkParts(rest, rest[1..n + 1], rest[n + 3..n + 3 + m]);
  }

  lemma LinkFoundHere(line: string, at: nat, rest: string)
    requires at <= |line| && rest == line[at..]
    ensures FindsAt(LinkHere(at, rest), LinksIn(line), PlaceOf, LinkSize, at, |rest|)
  {
    if LinkHere(at, rest).Some? {
      HereIsLink(at, rest);
    }
    forall l | LinkAt(line, l) && l.at == at
      ensures LinkHere(at, rest).Some? && LinkHere(at, rest).value == l
    {
      LinkIsHere(at, rest, l.text, l.target);
    }
  }

  lemma LinksRecognised(line: string)
    ensures Recognises(LinkHere, LinksIn(line), PlaceOf, LinkSize, line)
  {
    forall at: nat, rest | at <= |line| && rest == line[at..] { LinkFoundHere(line, at, rest); }
    forall l | LinksIn(line)(l) ensures PlaceOf(l) < |line| {
      assert |"[" + l.text + "](" + l.target + ")"| <= |line[l.at..]|;
    }
  }

  /** The links of a line: every leftmost one behind the one before, and no other. */
  lemma LinksExactly(line: string, ls: seq<Link>)
    ensures Links(0, line) == ls <==> ReadsLinks(line, ls)
  {
    LinksRecognised(line);
    ScannedExactly(LinkHere, LinksIn(line), PlaceOf, LinkSize, line, ls);
  }

  // --- Fences -------------------------------------------------------------------------

  /** Blanks, then three backticks. */
  ghost predicate TickLine(line: string) { exists u :: Blanks(u) && u + "```" <= line }

  /** At most three blanks, then three backticks or three tildes. */
  ghost predicate FenceLine(line: string) {
    exists u :: Blanks(u) && |u| <= 3 && (u + "```" <= line || u + "~~~" <= line)
  }

  lemma BlanksThen(line: string, u: string, mark: string)
    requires Blanks(u) && u + mark <= line && mark != "" && !IsSpace(mark[0])
    ensures Span(line, IsSpace) == |u| && mark <= line[|u|..]
  {
    assert forall i | 0 <= i < |u| :: line[i] == (u + mark)[i] == u[i];
    assert line[|u|] == (u + mark)[|u|] == mark[0];
    SpanUnique(line, IsSpace, |u|);
    assert (u + mark)[|u|..] == mark;
  }

  lemma MarkBehind(line: string, mark: string)
    requires mark <= line[Span(line, IsSpace)..]
    ensures var u := line[..Span(line, IsSpace)]; Blanks(u) && u + mark <= line
  {
    var n := Span(line, IsSpace);
    assert line == line[..n] + line[n..];
  }

  lemma TickExactly(line: string)
    ensures IsTickFence(line) <==> TickLine(line)
  {
    if u :| Blanks(u) && u + "```" <= line {
      BlanksThen(line, u, "```");
    }
    if IsTickFence(line) {
      MarkBehind(line, "```");
    }
  }

  lemma FenceIsLine(line: string, mark: string)
    requires Span(line, IsSpace) <= 3 && mark <= line[Span(line, IsSpace)..] && (mark == "```" || mark == "~~~")
    ensures FenceLine(line)
  {
    MarkBehind(line, mark);
  }

  lemma FenceExactly(line: string)
    ensures IsFence(line) <==> FenceLine(line)
  {
    if u :| Blanks(u) && |u| <= 3 && (u + "```" <= line || u + "~~~" <= line) {
      BlanksThen(line, u, if u + "```" <= line then "```" else "~~~");
    }
    if IsFence(line) {
      FenceIsLine(line, if "```" <= line[Span(line, IsSpace)..] then "```" else "~~~");
    }
  }

  /** The lines before `i` that are fences. */
  ghost function FencesBefore(lines: seq<string>, fence: string -> bool, i: nat): set<nat>
    requires i <= |lines|
  {
    set j: nat | j < i && fence(lines[j])
  }

  /** Neither a fence nor behind an odd number of them. */
  ghost predicate OutsideFences(lines: seq<string>, fence: string -> bool, i: nat)
    requires i < |lines|
  {
    !fence(lines[i]) && |FencesBefore(lines, fence, i)| % 2 == 0
  }

  /** The two hold of the same lines. */
  ghost predicate SameLines(marker: string -> bool, fence: string -> bool) {
    forall line :: marker(line) <==> fence(line)
  }

  lemma {:induction false} MarkersCounted(lines: seq<string>, marker: string -> bool, fence: string -> bool, i: nat)
    requires i <= |lines| && SameLines(marker, fence)
    ensures Markers(lines, marker, i) == |FencesBefore(lines, fence, i)|
  {
    if i > 0 {
      MarkersCounted(lines, marker, fence, i - 1);
      var before := FencesBefore(lines, fence, i - 1);
      if fence(lines[i - 1]) {
        assert FencesBefore(lines, fence, i) == before + {i - 1};
      } else {
        assert FencesBefore(lines, fence, i) == before;
      }
    } else {
      assert FencesBefore(lines, fence, 0) == {};
    }
  }

  /** A line is passed over if and only if it is a fence or an odd number of them stands above. */
  lemma HiddenExactly(lines: seq<string>, marker: string -> bool, fence: string -> bool, i: nat)
    requires i < |lines| && SameLines(marker, fence)
    ensures Hidden(lines, marker, i) <==> !OutsideFences(lines, fence, i)
  {
    MarkersCounted(lines, marker, fence, i);
  }

  /** Line `j` has the number and says it. */
  predicate SaysAt(lines: seq<string>, number: nat, says: string -> bool, j: nat)
    requires j < |lines|
  {
    number == j + 1 && says(lines[j])
  }

  /** Whether `x` is what a line says. */
  ghost predicate SaidBy<T>(
      lines: seq<string>, f: (string, nat) -> seq<T>, x: T, number: nat, says: string -> bool, j: nat)
    requires j < |lines|
  {
    x in f(lines[j], j + 1) <==> SaysAt(lines, number, says, j)
  }

  lemma OneLineMore<T>(lines: seq<string>, marker: string -> bool, f: (string, nat) -> seq<T>, x: T, n: nat)
    requires n < |lines|
    ensures x in Visible(lines, marker, f, n + 1) <==>
      x in Visible(lines, marker, f, n) || (!Hidden(lines, marker, n) && x in f(lines[n], n + 1))
  {}

  /** A scan of numbered lines yields `x` if and only if its line is visible and says it. */
  lemma {:induction false} VisibleSaid<T>(
      lines: seq<string>, marker: string -> bool, fence: string -> bool, f: (string, nat) -> seq<T>,
      x: T, number: nat, says: string -> bool, n: nat)
    requires n <= |lines| && SameLines(marker, fence)
    requires forall j: nat | j < |lines| :: SaidBy(lines, f, x, number, says, j)
    ensures x in Visible(lines, marker, f, n) <==>
      1 <= number <= n && OutsideFences(lines, fence, number - 1) && says(lines[number - 1])
  {
    if n > 0 {
      VisibleSaid(lines, marker, fence, f, x, number, says, n - 1);
      OneLineMore(lines, marker, f, x, n - 1);
      HiddenExactly(lines, marker, fence, n - 1);
      assert SaidBy(lines, f, x, number, says, n - 1);
    }
  }
}
