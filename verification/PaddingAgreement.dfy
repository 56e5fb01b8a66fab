/**
 One rule, two scanners: when check 32 reports an occurrence exactly where row (e) keeps it
 and it stands in no link, on any line. On a line whose asterisks are clean it always does.
 */
module PaddingAgreement {
  import opened Finditer
  import opened Text
  import opened Wrappers
  import opened PaddedIds
  import opened Asterisks
  import opened PaddedScanners

  // --- Lines and their stripped forms -------------------------------------------------

  lemma StripParts(line: string) returns (u: string, v: string)
    ensures line == u + Strip(line) + v && Spaces(u) && Spaces(v)
  {
    var core;
    u, core, v := TrimParts(line, IsSpace);
  }

  lemma SpacesAreNotStars(s: string)
    requires Spaces(s)
    ensures Unstarred(s) == s
  {
    assert forall i | 0 <= i < |s| :: IsSpace(s[i]) && s[i] != '*';
    NothingToDelete(s);
  }

  lemma UnstarredPadded(u: string, s: string, v: string)
    requires Spaces(u) && Spaces(v)
    ensures Unstarred(u + s + v) == u + Unstarred(s) + v
  {
    UnstarredJoin(u + s, v);
    UnstarredJoin(u, s);
    SpacesAreNotStars(u);
    SpacesAreNotStars(v);
  }

  lemma FreeLeftPadded(u: string, before: string)
    requires Spaces(u)
    ensures FreeLeft(u + before) == FreeLeft(before)
  {
    var s := u + before;
    if before != "" {
      assert s[|s| - 1] == before[|before| - 1];
    } else if u != "" {
      assert s[|s| - 1] == u[|u| - 1] && IsSpace(u[|u| - 1]);
    }
  }

  lemma IdLengthPadded(pattern: Pattern, u: string, before: string, rest: string)
    requires Spaces(u)
    ensures IdLength(pattern, u + before, rest) == IdLength(pattern, before, rest)
  {
    FreeLeftPadded(u, before);
  }

  function Finder(pattern: Pattern): (string, string) -> nat { (b, r) => IdLength(pattern, b, r) }

  /** The hits are what the generic scan finds. */
  lemma {:induction false} HitsAreFound(pattern: Pattern, before: string, rest: string)
    ensures Hits(pattern, before, rest) == Found(Finder(pattern), before, rest)
    decreases |rest|
  {
    if rest != "" {
      var m := Stretch(pattern, before, rest);
      HitsAreFound(pattern, before + rest[..m], rest[m..]);
      NextHits(pattern, before, rest);
      FoundStep(Finder(pattern), before, rest, IdLength(pattern, before, rest));
    }
  }

  lemma SpaceIsNoId(pattern: Pattern, before: string, rest: string)
    requires rest != "" && IsSpace(rest[0])
    ensures IdLength(pattern, before, rest) == 0
  {
    SpanUnique(rest, IsUpper, 0);
    assert rest[..0] == "";
    EmptyIsNoFamily();
  }

  lemma IdTextHasNoSpace(pattern: Pattern, t: string, i: nat)
    requires IsIdText(pattern, t) && i < |t|
    ensures !IsSpace(t[i])
  {
    IdTextCharacters(pattern, t);
  }

  lemma IdTextWithin(pattern: Pattern, rest: string, v: string, k: nat)
    requires Spaces(v) && k <= |rest + v| && IsIdText(pattern, (rest + v)[..k])
    ensures k <= |rest|
  {
    if |rest| < k {
      IdTextHasNoSpace(pattern, (rest + v)[..k], |rest|);
    }
  }

  lemma FreeRightPadded(after: string, v: string)
    requires Spaces(v)
    ensures FreeRight(after + v) == FreeRight(after)
  {
    if after == "" {
      assert after + v == v;
    }
  }

  lemma IdLengthBeforeSpaces(pattern: Pattern, before: string, rest: string, v: string, k: nat)
    requires Spaces(v) && 0 < k <= |rest|
    ensures IdLength(pattern, before, rest + v) == k <==> IdLength(pattern, before, rest) == k
  {
    var text := rest + v;
    IdByText(pattern, before, rest, k);
    IdByText(pattern, before, text, k);
    assert text[..k] == rest[..k] && text[k..] == rest[k..] + v;
    FreeRightPadded(rest[k..], v);
  }

  lemma IdStaysInside(pattern: Pattern, before: string, rest: string, v: string)
    requires Spaces(v)
    ensures IdLength(pattern, before, rest + v) <= |rest|
  {
    var m := IdLength(pattern, before, rest + v);
    if m > 0 {
      IdByText(pattern, before, rest + v, m);
      IdTextWithin(pattern, rest, v, m);
    }
  }

  lemma SameBeforeSpaces(pattern: Pattern, before: string, rest: string, v: string)
    requires Spaces(v)
    ensures IdLength(pattern, before, rest + v) == IdLength(pattern, before, rest)
  {
    var k := IdLength(pattern, before, rest);
    var m := IdLength(pattern, before, rest + v);
    IdStaysInside(pattern, before, rest, v);
    if k > 0 {
      IdLengthBeforeSpaces(pattern, before, rest, v, k);
    } else if m > 0 {
      IdLengthBeforeSpaces(pattern, before, rest, v, m);
    }
  }

  lemma FinderIgnoresBlanks(pattern: Pattern, u: string, v: string)
    requires Spaces(u) && Spaces(v)
    ensures IgnoresLeft(Finder(pattern), u)
    ensures forall b, r | r != "" && IsSpace(r[0]) :: Finder(pattern)(b, r) == 0
    ensures IgnoresRight(Finder(pattern), v)
  {
    forall b, r ensures Finder(pattern)(u + b, r) == Finder(pattern)(b, r) && Finder(pattern)(b, r) <= |r| {
      IdLengthPadded(pattern, u, b, r);
    }
    forall b, r | r != "" && IsSpace(r[0]) ensures Finder(pattern)(b, r) == 0 {
      SpaceIsNoId(pattern, b, r);
    }
    forall b, r | r != ""
      ensures Finder(pattern)(b, r + v) == Finder(pattern)(b, r) && Finder(pattern)(b, r) <= |r|
    {
      SameBeforeSpaces(pattern, b, r, v);
    }
  }

  /** The hits of a line are those of the stripped line, shifted. */
  lemma HitsOfPadded(pattern: Pattern, u: string, s: string, v: string)
    requires Spaces(u) && Spaces(v)
    ensures Hits(pattern, "", u + s + v) == Shifted(Hits(pattern, "", s), |u|)
  {
    HitsAreFound(pattern, "", u + s + v);
    HitsAreFound(pattern, "", s);
    FinderIgnoresBlanks(pattern, u, v);
    FoundOfPadded(Finder(pattern), u, s, v);
  }

  lemma FoundOfPadded(f: (string, string) -> nat, u: string, s: string, v: string)
    requires Spaces(u) && Spaces(v)
    requires IgnoresLeft(f, u)
    requires forall b, r | r != "" && IsSpace(r[0]) :: f(b, r) == 0
    requires IgnoresRight(f, v)
    ensures Found(f, "", u + s + v) == Shifted(Found(f, "", s), |u|)
  {
    forall b ensures Found(f, b, v) == [] {
      assert v + "" == v;
      FoundAfterSpaces(f, b, v, "");
    }
    FoundBefore(f, "", u + s, v);
    FoundAfterSpaces(f, "", u, s);
    assert "" + u == u + "";
    FoundShifted(f, u, "", s);
  }

  // --- Paths in padded lines ----------------------------------------------------------

  lemma {:induction false} LeftPartPadded(u: string, before: string)
    requires Spaces(u)
    ensures LeftPart(u + before) == LeftPart(before)
    decreases |before|
  {
    var s := u + before;
    if before == "" {
      assert s == u;
      if u != "" {
        assert IsSpace(u[|u| - 1]);
      }
    } else {
      assert s[|s| - 1] == before[|before| - 1];
      assert s[..|s| - 1] == u + before[..|before| - 1];
      LeftPartPadded(u, before[..|before| - 1]);
    }
  }

  lemma RightPartPadded(after: string, v: string)
    requires Spaces(v)
    ensures RightPart(after + v) == RightPart(after)
  {
    var n := Span(after, InToken);
    var s := after + v;
    assert n == |after| && v != "" ==> s[n] == v[0] && IsSpace(v[0]);
    SpanUnique(s, InToken, n);
    assert s[..n] == after[..n];
  }

  lemma PaddedSlices(u: string, s: string, v: string, at: nat, end: nat)
    requires at <= end <= |s|
    ensures var line := u + s + v;
      line[..|u| + at] == u + s[..at] && line[|u| + at..|u| + end] == s[at..end] && line[|u| + end..] == s[end..] + v
  {}

  lemma InPathPadded(u: string, before: string, text: string, after: string, v: string)
    requires Spaces(u) && Spaces(v)
    ensures InPath(u + before, text, after + v) == InPath(before, text, after)
  {
    LeftPartPadded(u, before);
    RightPartPadded(after, v);
  }

  lemma PathPadded(u: string, s: string, v: string, at: nat, length: nat)
    requires Spaces(u) && Spaces(v) && at + length <= |s|
    ensures PathAt(u + s + v, |u| + at, length) == PathAt(s, at, length)
  {
    PaddedSlices(u, s, v, at, at + length);
    InPathPadded(u, s[..at], s[at..at + length], s[at + length..], v);
  }

  // --- Exactly padded ids among all ids -----------------------------------------------

  lemma ExactIsAnyId(t: string)
    ensures IsIdText(ExactlyPadded, t) ==> IsIdText(AnyId, t)
  {}

  /** The exactly padded hits are the hits whose text is exactly padded. */
  lemma ExactHits(line: string, h: Hit)
    ensures h in Hits(ExactlyPadded, "", line) <==> h in Hits(AnyId, "", line) && IsIdText(ExactlyPadded, h.text)
  {
    MatchOfLine(ExactlyPadded, line, h);
    MatchOfLine(AnyId, line, h);
    if h.at <= |line| && h.text != "" && h.text <= line[h.at..] {
      var rest := line[h.at..];
      assert rest[..|h.text|] == h.text;
      ExactIsAnyId(h.text);
      IdByText(ExactlyPadded, line[..h.at], rest, |h.text|);
      IdByText(AnyId, line[..h.at], rest, |h.text|);
    }
  }

  lemma {:induction false} NumeralHead(n: nat)
    ensures n > 0 ==> Numeral(n)[0] != '0'
    ensures n == 0 ==> Numeral(n) == "0"
  {
    if n >= 10 {
      NumeralHead(n / 10);
    }
  }

  /** A padded id is never its own canonical form. */
  lemma PaddedIsNotCanonical(t: string)
    requires IsIdText(ExactlyPadded, t)
    ensures Canonical(t) != t
  {
    var n := Span(t, IsUpper);
    var digits := t[n + 1..];
    assert AllDigits(digits) && |digits| == PAD_WIDTH && digits[0] == '0';
    NumeralHead(ParseNat(digits));
    assert Canonical(t) == t[..n + 1] + Numeral(ParseNat(digits));
    assert Canonical(t)[n + 1..] == Numeral(ParseNat(digits)) != digits == t[n + 1..];
  }

  // --- The agreement ------------------------------------------------------------------

  lemma {:induction false} NumberedAt(hits: seq<Hit>, line: string, lineNo: nat, from: nat, k: nat)
    requires k < |hits|
    ensures |Numbered(hits, line, lineNo, from)| == |hits|
    ensures Numbered(hits, line, lineNo, from)[k] == PaddedHit(lineNo, hits[k].text, Strip(line), from + k)
  {
    if k > 0 {
      NumberedAt(hits[1..], line, lineNo, from + 1, k - 1);
    } else if |hits| > 1 {
      NumberedAt(hits[1..], line, lineNo, from + 1, 0);
    }
  }

  /** Without asterisks and blanks, the hits are the line's own, moved. */
  lemma CleanedHits(line: string, u: string, v: string)
    requires line == u + Strip(line) + v && Spaces(u) && Spaces(v)
    requires Clean(ExactlyPadded, "", line)
    ensures Unstarred(line) == u + Unstarred(Strip(line)) + v
    ensures Shifted(Hits(ExactlyPadded, "", Unstarred(Strip(line))), |u|)
         == AllMoved(line, Hits(ExactlyPadded, "", line))
  {
    UnstarredPadded(u, Strip(line), v);
    DeletionKeepsHitsExactly(ExactlyPadded, line);
    HitsOfPadded(ExactlyPadded, u, Unstarred(Strip(line)), v);
  }

  lemma HitInside(line: string, h: Hit)
    requires h in Hits(ExactlyPadded, "", line)
    ensures h.at + |h.text| <= |line| && Unstarred(h.text) == h.text
  {
    HitStartsWithLetter(ExactlyPadded, line, h);
    NothingToDelete(h.text);
  }

  /** The `k`-th hit of the cleaned line is the line's own, at its moved place. */
  lemma FoundAlike(line: string, u: string, v: string, k: nat)
    requires line == u + Strip(line) + v && Spaces(u) && Spaces(v)
    requires Clean(ExactlyPadded, "", line) && k < |Hits(ExactlyPadded, "", line)|
    ensures var h := Hits(ExactlyPadded, "", line)[k];
      var found := Hits(ExactlyPadded, "", Unstarred(Strip(line)));
      && k < |found| && found[k].text == h.text && h.at <= |line|
      && |Unstarred(line[..h.at])| == |u| + found[k].at
      && found[k].at + |h.text| <= |Unstarred(Strip(line))| && Unstarred(h.text) == h.text
  {
    var hits := Hits(ExactlyPadded, "", line);
    var found := Hits(ExactlyPadded, "", Unstarred(Strip(line)));
    CleanedHits(line, u, v);
    assert AllMoved(line, hits)[k] == Shifted(found, |u|)[k];
    HitInside(line, hits[k]);
    HitInside(Unstarred(Strip(line)), found[k]);
  }

  /** The same hit, found by ordinal in the stripped line and by prefix in the whole one. */
  lemma RelocatedAlike(line: string, k: nat)
    requires Clean(ExactlyPadded, "", line) && k < |Hits(ExactlyPadded, "", line)|
    ensures var h := Hits(ExactlyPadded, "", line)[k];
      var found := Hits(ExactlyPadded, "", Unstarred(Strip(line)));
      && k < |found| && found[k].text == h.text && h.at <= |line|
      && PathAt(Unstarred(Strip(line)), found[k].at, |h.text|) == Check32Path(line, h)
  {
    var u, v := StripParts(line);
    FoundAlike(line, u, v, k);
    UnstarredPadded(u, Strip(line), v);
    var h := Hits(ExactlyPadded, "", line)[k];
    var at := Hits(ExactlyPadded, "", Unstarred(Strip(line)))[k].at;
    PathPadded(u, Unstarred(Strip(line)), v, at, |h.text|);
  }

  /** Row (e) keeps the occurrence: in prose, and its unpadded form resolves. */
  predicate KeptByRowE(line: string, lineNo: nat, index: set<string>, k: nat)
    requires k < |LineHits(line, lineNo)|
  {
    IsProse(LineHits(line, lineNo)[k]) && Resolves(LineHits(line, lineNo)[k], index)
  }

  predicate ReportedByCheck32(line: string, lineNo: nat, index: set<string>, h: Hit) {
    OutsideLinks(line, lineNo, index, h) == Some(Padded(lineNo, h.text))
  }

  lemma KeptUnfolded(line: string, lineNo: nat, index: set<string>, k: nat)
    requires Clean(ExactlyPadded, "", line) && k < |Hits(ExactlyPadded, "", line)|
    ensures |LineHits(line, lineNo)| == |Hits(ExactlyPadded, "", line)|
    ensures var h := Hits(ExactlyPadded, "", line)[k];
      && LineHits(line, lineNo)[k].token == h.text && h.at <= |line|
      && (KeptByRowE(line, lineNo, index, k) <==> !Check32Path(line, h) && Canonical(h.text) in index)
  {
    NumberedAt(Hits(ExactlyPadded, "", line), line, lineNo, 0, k);
    RelocatedAlike(line, k);
  }

  lemma JudgedPadded(lineNo: nat, text: string, canon: string, resolves: bool, inPath: bool, exact: bool)
    requires exact ==> canon != text
    ensures Judged(lineNo, text, canon, resolves, inPath, exact) == Some(Padded(lineNo, text)) <==>
      exact && !inPath && resolves
  {}

  lemma ReportUnfolded(line: string, lineNo: nat, index: set<string>, h: Hit)
    requires h in Hits(AnyId, "", line)
    ensures h.at <= |line|
    ensures ReportedByCheck32(line, lineNo, index, h) <==>
      && !InLink(Links(0, line), h.at)
      && IsIdText(ExactlyPadded, h.text) && !Check32Path(line, h) && Canonical(h.text) in index
  {
    MatchOfLine(AnyId, line, h);
    var exact := IsIdText(ExactlyPadded, h.text);
    var canon := Canonical(h.text);
    if exact {
      PaddedIsNotCanonical(h.text);
    }
    JudgedPadded(lineNo, h.text, canon, canon in index, Check32Path(line, h), exact);
  }

  /** Row (e) and check 32 judge the `k`-th padded id alike: both say prose, or both say path. */
  predicate SameVerdict(line: string, lineNo: nat, k: nat)
    requires k < |LineHits(line, lineNo)| == |Hits(ExactlyPadded, "", line)|
    requires Hits(ExactlyPadded, "", line)[k].at <= |line|
  {
    IsProse(LineHits(line, lineNo)[k]) == !Check32Path(line, Hits(ExactlyPadded, "", line)[k])
  }

  lemma {:induction false} NumberedLength(hits: seq<Hit>, line: string, lineNo: nat, from: nat)
    ensures |Numbered(hits, line, lineNo, from)| == |hits|
  {
    if hits != [] {
      NumberedLength(hits[1..], line, lineNo, from + 1);
    }
  }

  /** The occurrences both look at, in the same order. */
  lemma SameOccurrences(line: string, lineNo: nat, k: nat)
    requires k < |Hits(ExactlyPadded, "", line)|
    ensures |LineHits(line, lineNo)| == |Hits(ExactlyPadded, "", line)|
    ensures var h := Hits(ExactlyPadded, "", line)[k];
      && h in Hits(AnyId, "", line) && h.at <= |line| && IsIdText(ExactlyPadded, h.text)
      && LineHits(line, lineNo)[k] == PaddedHit(lineNo, h.text, Strip(line), k)
  {
    var hits := Hits(ExactlyPadded, "", line);
    NumberedAt(hits, line, lineNo, 0, k);
    ExactHits(line, hits[k]);
    MatchOfLine(ExactlyPadded, line, hits[k]);
  }

  /**
   One rule, two scanners, on any line: check 32 reports the `k`-th padded id exactly when row
   (e) keeps it and it stands in no link, if and only if the id is in a link, or does not
   resolve, or the two judge alike whether it is in a path.
   */
  lemma OneRuleTwoScanners(line: string, lineNo: nat, index: set<string>, k: nat)
    requires k < |Hits(ExactlyPadded, "", line)|
    ensures |LineHits(line, lineNo)| == |Hits(ExactlyPadded, "", line)|
    ensures var h := Hits(ExactlyPadded, "", line)[k];
      && h in Hits(AnyId, "", line) && h.at <= |line| && LineHits(line, lineNo)[k].token == h.text
      && ((ReportedByCheck32(line, lineNo, index, h) <==>
             KeptByRowE(line, lineNo, index, k) && !InLink(Links(0, line), h.at))
          <==> InLink(Links(0, line), h.at) || Canonical(h.text) !in index || SameVerdict(line, lineNo, k))
  {
    SameOccurrences(line, lineNo, k);
    ReportUnfolded(line, lineNo, index, Hits(ExactlyPadded, "", line)[k]);
  }

  /** Where the asterisks neither join nor interrupt a padded id, the verdicts are the same. */
  lemma CleanLinesAgree(line: string, lineNo: nat, index: set<string>, k: nat)
    requires Clean(ExactlyPadded, "", line) && k < |Hits(ExactlyPadded, "", line)|
    ensures |LineHits(line, lineNo)| == |Hits(ExactlyPadded, "", line)|
    ensures var h := Hits(ExactlyPadded, "", line)[k];
      && h.at <= |line| && SameVerdict(line, lineNo, k)
      && (ReportedByCheck32(line, lineNo, index, h) <==>
            KeptByRowE(line, lineNo, index, k) && !InLink(Links(0, line), h.at))
  {
    SameOccurrences(line, lineNo, k);
    RelocatedAlike(line, k);
    OneRuleTwoScanners(line, lineNo, index, k);
  }

  /** And on any line check 32 reports nothing else as padded. */
  lemma OnlyPaddedHitsReported(line: string, lineNo: nat, index: set<string>, h: Hit)
    requires h in Hits(AnyId, "", line) && ReportedByCheck32(line, lineNo, index, h)
    ensures h in Hits(ExactlyPadded, "", line)
  {
    ReportUnfolded(line, lineNo, index, h);
    ExactHits(line, h);
  }

  // --- Where the two may differ -------------------------------------------------------

  lemma SlicesAround(before: string, t: string, after: string)
    ensures var line, rest := before + t + after, t + after;
      line[..|before|] == before && line[|before|..] == rest && rest[..|t|] == t && rest[|t|..] == after
  {}

  lemma IdStands(pattern: Pattern, before: string, t: string, after: string)
    requires IsIdText(pattern, t) && FreeLeft(before) && FreeRight(after)
    ensures Hit(|before|, t) in Hits(pattern, "", before + t + after)
  {
    SlicesAround(before, t, after);
    IdByText(pattern, before, t + after, |t|);
    MatchOfLine(pattern, before + t + after, Hit(|before|, t));
  }

  /** On a starless line the path test reads what stands around the id. */
  lemma StarlessPath(before: string, t: string, after: string)
    requires '*' !in before && '*' !in t && '*' !in after
    ensures Check32Path(before + t + after, Hit(|before|, t)) == InPath(before, t, after)
  {
    var line := before + t + after;
    NothingToDelete(line);
    NothingToDelete(before);
    NothingToDelete(t);
    assert line[..|before|] == before && line[|before|..|before| + |t|] == t && line[|before| + |t|..] == after;
  }

  lemma NoIdBehindWord(pattern: Pattern, before: string, rest: string, h: Hit)
    requires !FreeLeft(before) && h.at == |before| && h.text != ""
    ensures h !in Hits(pattern, "", before + rest)
  {
    var line := before + rest;
    assert line[..h.at] == before;
    MatchOfLine(pattern, line, h);
  }

  lemma StarGoes(left: string)
    requires '*' !in left
    ensures Unstarred(left + "*") == left
  {
    UnstarredJoin(left, "*");
    NothingInStar('*');
    NothingToDelete(left);
  }

  lemma JoinedLine(left: string, t: string)
    requires '*' !in left
    ensures Unstarred(left + "*" + t) == left + Unstarred(t)
    ensures Moved(left + "*" + t, Hit(|left| + 1, t)) == Hit(|left|, t)
  {
    var head := left + "*";
    StarGoes(left);
    UnstarredJoin(head, t);
    assert (head + t)[..|left| + 1] == head;
  }

  /**
   Deleting asterisks can remove a match: a padded id behind a word character and an
   asterisk is one in the line, and none at its place once the asterisk is gone.
   */
  lemma DeletionCanRemoveAMatch(left: string, t: string)
    requires IsIdText(ExactlyPadded, t) && '*' !in left && !FreeLeft(left)
    ensures Hit(|left| + 1, t) in Hits(ExactlyPadded, "", left + "*" + t)
    ensures Moved(left + "*" + t, Hit(|left| + 1, t)) !in Hits(ExactlyPadded, "", Unstarred(left + "*" + t))
  {
    IdStands(ExactlyPadded, left + "*", t, "");
    assert left + "*" + t + "" == left + "*" + t;
    JoinedLine(left, t);
    IdTextCharacters(ExactlyPadded, t);
    NoIdBehindWord(ExactlyPadded, left, Unstarred(t), Hit(|left|, t));
  }

  /**
   And add one: a padded id with an asterisk inside, as in `PL-0*1240`, is none in the line,
   and one where the asterisk is gone.
   */
  lemma DeletionCanAddAMatch(t: string, i: nat)
    requires IsIdText(ExactlyPadded, t) && 0 < i < |t|
    ensures var line := t[..i] + "*" + t[i..];
      && Hit(0, t) in Hits(ExactlyPadded, "", Unstarred(line))
      && forall h | h in Hits(ExactlyPadded, "", line) :: Moved(line, h) != Hit(0, t)
  {
    var line := t[..i] + "*" + t[i..];
    IdTextCharacters(ExactlyPadded, t);
    StarInsideGoes(t, i);
    assert "" + t + "" == t;
    IdStands(ExactlyPadded, "", t, "");
    forall h | h in Hits(ExactlyPadded, "", line) ensures h.text != t {
      MatchIsText(line, h);
      StarInside(t, i, h.at);
    }
  }

  lemma StarInsideGoes(t: string, i: nat)
    requires '*' !in t && i <= |t|
    ensures Unstarred(t[..i] + "*" + t[i..]) == t
  {
    StarGoes(t[..i]);
    UnstarredJoin(t[..i] + "*", t[i..]);
    NothingToDelete(t[i..]);
    assert t[..i] + t[i..] == t;
  }

  /** The interrupted text holds the id nowhere. */
  lemma StarInside(t: string, i: nat, at: nat)
    requires '*' !in t && 0 < i < |t| && at <= |t| + 1
    ensures !(t <= (t[..i] + "*" + t[i..])[at..])
  {
    var line := t[..i] + "*" + t[i..];
    assert |line| == |t| + 1 && line[i] == '*';
    if at <= 1 {
      assert line[at..][i - at] == '*';
    }
  }

  // --- Inside a link ------------------------------------------------------------------

  lemma IdTextAlphabet(t: string, i: nat)
    requires IsIdText(ExactlyPadded, t) && i < |t|
    ensures IsUpper(t[i]) || IsDigit(t[i]) || t[i] == '-'
  {
    var stem := Stem(t);
    if i >= stem {
      assert t[stem..][i - stem] == t[i];
    }
  }

  lemma WordIsNoPath(token: string)
    requires forall i | 0 <= i < |token| :: token[i] != '/' && token[i] != '.'
    ensures !IsPath(token)
  {}

  /** An id alone is no path, and brackets around it end the token. */
  lemma BracketedIsNoPath(t: string, after: string)
    requires IsIdText(ExactlyPadded, t)
    ensures !InPath("[", t, "]" + after)
  {
    forall i | 0 <= i < |t| ensures t[i] != '/' && t[i] != '.' {
      IdTextAlphabet(t, i);
    }
    SpanUnique("]" + after, InToken, 0);
    assert LeftPart("[") == "" && RightPart("]" + after) == "";
    assert "" + t + "" == t;
    WordIsNoPath(t);
  }

  function Linked(t: string, target: string): string { "[" + t + "](" + target + ")" }

  lemma LinkOfLinked(t: string, target: string)
    requires target != "" && (forall i | 0 <= i < |t| :: t[i] != ']')
    requires forall i | 0 <= i < |target| :: target[i] != ')'
    ensures LinkHere(0, Linked(t, target)) == Some(Link(0, t, target))
  {
    var line := Linked(t, target);
    assert line[0] == '[' && line[1..] == t + "](" + target + ")";
    SpanUnique(line[1..], c => c != ']', |t|);
    assert line[|t| + 2] == '(' && line[1..|t| + 1] == t;
    assert line[|t| + 3..] == target + ")";
    SpanUnique(line[|t| + 3..], c => c != ')', |target|);
    assert line[|t| + 3..|t| + 3 + |target|] == target;
  }

  lemma LinkedParts(t: string, target: string)
    ensures Linked(t, target) == "[" + t + ("]" + ("(" + target + ")"))
  {}

  lemma LinkedHit(t: string, target: string)
    requires IsIdText(ExactlyPadded, t)
    ensures Hit(1, t) in Hits(ExactlyPadded, "", Linked(t, target))
  {
    LinkedParts(t, target);
    IdStands(ExactlyPadded, "[", t, "]" + ("(" + target + ")"));
  }

  lemma LinkedOutsidePaths(t: string, target: string)
    requires IsIdText(ExactlyPadded, t) && '*' !in target
    ensures '*' !in Linked(t, target) && !Check32Path(Linked(t, target), Hit(1, t))
  {
    IdTextCharacters(ExactlyPadded, t);
    LinkedParts(t, target);
    StarlessPath("[", t, "]" + ("(" + target + ")"));
    BracketedIsNoPath(t, "(" + target + ")");
  }

  lemma InFirstLink(t: string, target: string)
    requires target != "" && (forall i | 0 <= i < |t| :: t[i] != ']') && t != ""
    requires forall i | 0 <= i < |target| :: target[i] != ')'
    ensures InLink(Links(0, Linked(t, target)), 1)
  {
    LinkOfLinked(t, target);
    assert Links(0, Linked(t, target))[0] == Link(0, t, target);
  }

  /** A padded id as the text of a link: row (e) keeps it, check 32 does not report it. */
  lemma LinkedIdsDiffer(t: string, target: string, lineNo: nat, index: set<string>) returns (k: nat)
    requires IsIdText(ExactlyPadded, t) && Canonical(t) in index
    requires target != "" && '*' !in target && ')' !in target
    ensures var line := Linked(t, target);
      && k < |Hits(ExactlyPadded, "", line)| == |LineHits(line, lineNo)|
      && Hits(ExactlyPadded, "", line)[k] == Hit(1, t) && KeptByRowE(line, lineNo, index, k)
      && !ReportedByCheck32(line, lineNo, index, Hit(1, t))
  {
    var line := Linked(t, target);
    LinkedHit(t, target);
    k :| 0 <= k < |Hits(ExactlyPadded, "", line)| && Hits(ExactlyPadded, "", line)[k] == Hit(1, t);
    LinkedOutsidePaths(t, target);
    StarlessIsClean(ExactlyPadded, line);
    KeptUnfolded(line, lineNo, index, k);
    forall i | 0 <= i < |t| ensures t[i] != ']' {
      IdTextAlphabet(t, i);
    }
    IdTextCharacters(ExactlyPadded, t);
    InFirstLink(t, target);
  }

  // --- Behind an asterisk -------------------------------------------------------------

  lemma {:induction false} NoBracketNoLink(at: nat, rest: string)
    requires '[' !in rest
    ensures Links(at, rest) == []
    decreases |rest|
  {
    if rest != "" {
      NoBracketNoLink(at + 1, rest[1..]);
    }
  }

  lemma HyphenOfId(t: string) returns (i: nat)
    requires IsIdText(ExactlyPadded, t)
    ensures i < |t| && t[i] == '-' && forall j | 0 <= j < i :: IsUpper(t[j])
  {
    i := Stem(t) - 1;
  }

  lemma NoMatchInsideId(left: string, t: string, at: nat)
    requires IsIdText(ExactlyPadded, t) && |left| < at < |left| + |t|
    ensures IdLength(ExactlyPadded, (left + t)[..at], (left + t)[at..]) == 0
  {
    var j := at - |left|;
    assert (left + t)[..at] == left + t[..j] && (left + t)[at..] == t[j..] + "";
    NoIdInside(ExactlyPadded, left, t, j, "");
  }

  lemma MatchIsText(line: string, h: Hit)
    requires h in Hits(ExactlyPadded, "", line)
    ensures h.at <= |line| && h.text <= line[h.at..] && h.text != ""
    ensures IsIdText(ExactlyPadded, h.text) && FreeLeft(line[..h.at])
  {
    MatchOfLine(ExactlyPadded, line, h);
    assert line[h.at..][..|h.text|] == h.text;
    IdByText(ExactlyPadded, line[..h.at], line[h.at..], |h.text|);
  }

  lemma NoHyphenBefore(left: string, t: string, h: Hit, i: nat)
    requires '-' !in left && h.at < |left| && h.text <= (left + t)[h.at..]
    requires i < |h.text| && h.text[i] == '-' && forall j | 0 <= j < i :: IsUpper(h.text[j])
    ensures IsUpper(left[|left| - 1])
  {
    var line := left + t;
    assert line[h.at + i] == line[h.at..][i] == h.text[i];
    assert h.at + i >= |left|;
    var j := |left| - 1 - h.at;
    assert left[|left| - 1] == line[h.at..][j] == h.text[j];
  }

  /** A match starts no earlier than behind the word. */
  lemma StartsBehindWord(left: string, t: string, h: Hit)
    requires '-' !in left && left != "" && !IsUpper(left[|left| - 1])
    requires h in Hits(ExactlyPadded, "", left + t)
    ensures h.at >= |left|
  {
    MatchIsText(left + t, h);
    if h.at < |left| {
      var i := HyphenOfId(h.text);
      NoHyphenBefore(left, t, h, i);
    }
  }

  /** And not right behind it. */
  lemma NotRightBehindWord(left: string, t: string, h: Hit)
    requires left != "" && IsWord(left[|left| - 1])
    requires h in Hits(ExactlyPadded, "", left + t)
    ensures h.at != |left|
  {
    MatchIsText(left + t, h);
    TwoParts(left, t);
  }

  lemma NotInsideId(left: string, t: string, h: Hit)
    requires IsIdText(ExactlyPadded, t) && h in Hits(ExactlyPadded, "", left + t)
    ensures h.at <= |left| || h.at >= |left| + |t|
  {
    MatchOfLine(ExactlyPadded, left + t, h);
    if |left| < h.at < |left| + |t| {
      NoMatchInsideId(left, t, h.at);
    }
  }

  /** An id behind a word that has no hyphen and no upper-case end matches nowhere in the two. */
  lemma NoMatchBehindWord(left: string, t: string, h: Hit)
    requires IsIdText(ExactlyPadded, t) && '-' !in left
    requires left != "" && IsWord(left[|left| - 1]) && !IsUpper(left[|left| - 1])
    ensures h !in Hits(ExactlyPadded, "", left + t)
  {
    if h in Hits(ExactlyPadded, "", left + t) {
      MatchIsText(left + t, h);
      StartsBehindWord(left, t, h);
      NotRightBehindWord(left, t, h);
      NotInsideId(left, t, h);
    }
  }

  lemma StarredLine(left: string, t: string)
    requires IsIdText(ExactlyPadded, t) && '*' !in left
    ensures Unstarred(left + "*" + t) == left + t && Unstarred((left + "*" + t)[..|left| + 1]) == left
    ensures Unstarred(t) == t
  {
    IdTextCharacters(ExactlyPadded, t);
    NothingToDelete(t);
    JoinedLine(left, t);
    StarGoes(left);
    assert (left + "*" + t)[..|left| + 1] == left + "*";
  }

  lemma SlashIsPath(left: string, t: string, after: string)
    requires '/' in LeftPart(left)
    ensures InPath(left, t, after)
  {
    var i :| 0 <= i < |LeftPart(left)| && LeftPart(left)[i] == '/';
    assert (LeftPart(left) + t + RightPart(after))[i] == '/';
  }

  /** Nothing matches in the stripped line either, so the ordinal finds nothing there. */
  lemma OrdinalFindsNothing(left: string, t: string)
    requires IsIdText(ExactlyPadded, t) && '*' !in left && '-' !in left
    requires left != "" && IsWord(left[|left| - 1]) && !IsUpper(left[|left| - 1])
    ensures Hits(ExactlyPadded, "", Unstarred(Strip(left + "*" + t))) == []
  {
    var line := left + "*" + t;
    var u, v := StripParts(line);
    UnstarredPadded(u, Strip(line), v);
    StarredLine(left, t);
    HitsOfPadded(ExactlyPadded, u, Unstarred(Strip(line)), v);
    var hits := Hits(ExactlyPadded, "", left + t);
    if hits != [] {
      NoMatchBehindWord(left, t, hits[0]);
    }
  }

  lemma TwoParts(left: string, t: string)
    ensures var s := left + t;
      s[..|left|] == left && s[|left|..|left| + |t|] == t && s[|left| + |t|..] == "" && |s| == |left| + |t|
  {}

  lemma PathAfter(left: string, t: string)
    requires '/' in LeftPart(left)
    ensures PathAt(left + t, |left|, |t|)
  {
    TwoParts(left, t);
    SlashIsPath(left, t, "");
  }

  lemma StarredIsPath(left: string, t: string)
    requires IsIdText(ExactlyPadded, t) && '*' !in left && '/' in LeftPart(left)
    ensures Check32Path(left + "*" + t, Hit(|left| + 1, t))
  {
    StarredLine(left, t);
    PathAfter(left, t);
  }

  lemma StarredHit(left: string, t: string) returns (k: nat)
    requires IsIdText(ExactlyPadded, t)
    ensures k < |Hits(ExactlyPadded, "", left + "*" + t)|
    ensures Hits(ExactlyPadded, "", left + "*" + t)[k] == Hit(|left| + 1, t)
  {
    IdStands(ExactlyPadded, left + "*", t, "");
    assert left + "*" + t + "" == left + "*" + t;
    k :| 0 <= k < |Hits(ExactlyPadded, "", left + "*" + t)|
      && Hits(ExactlyPadded, "", left + "*" + t)[k] == Hit(|left| + 1, t);
  }

  /**
   A padded id behind a path and an asterisk, as in `docs/x*PL-01240`: row (e), which counts
   matches in the starless line, finds none and keeps the id as prose; check 32, which maps
   the position, finds it in a path and reports nothing.
   */
  lemma StarredPathsDiffer(left: string, t: string, lineNo: nat, index: set<string>) returns (k: nat)
    requires IsIdText(ExactlyPadded, t) && Canonical(t) in index
    requires '*' !in left && '-' !in left && '/' in LeftPart(left)
    requires left != "" && IsWord(left[|left| - 1]) && !IsUpper(left[|left| - 1])
    ensures var line := left + "*" + t;
      && k < |Hits(ExactlyPadded, "", line)| == |LineHits(line, lineNo)|
      && Hits(ExactlyPadded, "", line)[k] == Hit(|left| + 1, t) && KeptByRowE(line, lineNo, index, k)
      && !ReportedByCheck32(line, lineNo, index, Hit(|left| + 1, t))
      && !SameVerdict(line, lineNo, k)
  {
    k := StarredHit(left, t);
    SameOccurrences(left + "*" + t, lineNo, k);
    OrdinalFindsNothing(left, t);
    StarredIsPath(left, t);
    ReportUnfolded(left + "*" + t, lineNo, index, Hit(|left| + 1, t));
  }

  /** And no link is needed for it. */
  lemma StarredLineHasNoLink(left: string, t: string)
    requires IsIdText(ExactlyPadded, t) && '[' !in left
    ensures Links(0, left + "*" + t) == []
  {
    forall i | 0 <= i < |t| ensures t[i] != '[' {
      IdTextAlphabet(t, i);
    }
    NoBracketNoLink(0, left + "*" + t);
  }
}
