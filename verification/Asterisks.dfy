/**
 Markdown emphasis and ids: when deleting the asterisks of a line neither adds nor removes
 a match, and the same ids stand in the same order.
 */
module Asterisks {
  import opened Finditer
  import opened Text
  import opened PaddedIds

  /** `_MD_EMPHASIS_RE.sub("", s)`: every run of asterisks goes, three at a time. */
  function Unstarred(s: string): (r: string)
    ensures '*' !in r && |r| <= |s|
  {
    if s == "" then "" else (if s[0] == '*' then "" else [s[0]]) + Unstarred(s[1..])
  }

  lemma {:induction false} UnstarredJoin(a: string, b: string)
    ensures Unstarred(a + b) == Unstarred(a) + Unstarred(b)
  {
    var s := a + b;
    if a == "" {
      assert s == b;
    } else {
      assert s[0] == a[0] && s[1..] == a[1..] + b;
      UnstarredJoin(a[1..], b);
      assert Unstarred(s) == (if a[0] == '*' then "" else [a[0]]) + Unstarred(a[1..] + b);
    }
  }

  lemma {:induction false} NothingToDelete(s: string)
    requires '*' !in s
    ensures Unstarred(s) == s
  {
    if s != "" {
      NothingToDelete(s[1..]);
    }
  }

  // --- An id by its text and its two sides --------------------------------------------

  predicate IsIdText(pattern: Pattern, t: string) {
    && Stem(t) > 0 && AllDigits(t[Stem(t)..]) && Admits(pattern, t[Stem(t)..])
  }

  predicate FreeRight(after: string) { after == "" || !IsWord(after[0]) }

  lemma StemOfPrefix(rest: string, k: nat)
    requires k <= |rest| && Stem(rest[..k]) > 0
    ensures Stem(rest) == Stem(rest[..k])
  {
    var t := rest[..k];
    var n := Span(t, IsUpper);
    SpanUnique(rest, IsUpper, n);
    assert rest[..n] == t[..n];
  }

  lemma StemWithin(rest: string, k: nat)
    requires k <= |rest| && 0 < Stem(rest) <= k
    ensures Stem(rest[..k]) == Stem(rest)
  {
    var t := rest[..k];
    var n := Span(rest, IsUpper);
    SpanUnique(t, IsUpper, n);
    assert rest[..n] == t[..n];
  }

  /** An id matches exactly where its text stands between two free sides. */
  lemma IdByText(pattern: Pattern, before: string, rest: string, k: nat)
    requires 0 < k <= |rest|
    ensures IdLength(pattern, before, rest) == k <==>
      IsIdText(pattern, rest[..k]) && FreeLeft(before) && FreeRight(rest[k..])
  {
    if IsIdText(pattern, rest[..k]) && FreeLeft(before) && FreeRight(rest[k..]) {
      TextIsId(pattern, before, rest, k);
    }
    if IdLength(pattern, before, rest) == k {
      IdIsText(pattern, before, rest, k);
    }
  }

  lemma TextIsId(pattern: Pattern, before: string, rest: string, k: nat)
    requires 0 < k <= |rest|
    requires IsIdText(pattern, rest[..k]) && FreeLeft(before) && FreeRight(rest[k..])
    ensures IdLength(pattern, before, rest) == k
  {
    var t := rest[..k];
    var stem := Stem(t);
    StemOfPrefix(rest, k);
    DigitRun(rest, stem, k);
    assert t[stem..] == rest[stem..k];
  }

  lemma IdIsText(pattern: Pattern, before: string, rest: string, k: nat)
    requires 0 < k <= |rest| && IdLength(pattern, before, rest) == k
    ensures IsIdText(pattern, rest[..k]) && FreeLeft(before) && FreeRight(rest[k..])
  {
    var stem := Stem(rest);
    StemWithin(rest, k);
    assert rest[..k][stem..] == rest[stem..k];
    DigitsOfSpan(rest[stem..], k - stem);
  }

  lemma DigitRun(rest: string, stem: nat, k: nat)
    requires stem <= k <= |rest| && AllDigits(rest[..k][stem..]) && FreeRight(rest[k..])
    ensures Span(rest[stem..], IsDigit) == k - stem
  {
    forall i | 0 <= i < k - stem ensures IsDigit(rest[stem..][i]) {
      assert rest[..k][stem..][i] == rest[stem..][i];
    }
    SpanUnique(rest[stem..], IsDigit, k - stem);
  }

  lemma DigitsOfSpan(s: string, n: nat)
    requires n == Span(s, IsDigit)
    ensures AllDigits(s[..n])
  {}

  lemma IdTextCharacters(pattern: Pattern, t: string)
    requires IsIdText(pattern, t)
    ensures '*' !in t && |t| >= 4 && IsUpper(t[0])
    ensures forall i | 0 < i < |t| && IsUpper(t[i]) :: IsUpper(t[i - 1])
    ensures forall i | 0 <= i < |t| :: !IsSpace(t[i])
  {
    var stem := Stem(t);
    assert t[..stem - 1] in FAMILY_PREFIXES;
    forall i | stem <= i < |t| ensures IsDigit(t[i]) {
      assert t[stem..][i - stem] == t[i];
    }
    assert forall i | 0 <= i < stem - 1 :: IsUpper(t[i]);
    assert |t[..stem - 1]| >= 2;
  }

  /** No id starts inside another: an upper-case letter there follows an upper-case letter. */
  lemma NoIdInside(pattern: Pattern, before: string, t: string, j: nat, after: string)
    requires IsIdText(pattern, t) && 0 < j < |t|
    ensures IdLength(pattern, before + t[..j], t[j..] + after) == 0
  {
    IdTextCharacters(pattern, t);
    var b := before + t[..j];
    var r := t[j..] + after;
    assert r[0] == t[j] && b[|b| - 1] == t[j - 1];
    if !IsUpper(r[0]) {
      SpanUnique(r, IsUpper, 0);
      assert r[..0] == "";
      EmptyIsNoFamily();
    }
  }

  lemma EmptyIsNoFamily()
    ensures "" !in FAMILY_PREFIXES
  {}

  // --- Where asterisks do harm --------------------------------------------------------

  /** No id of the line is joined by a word character across asterisks. */
  predicate NotJoined(pattern: Pattern, before: string, rest: string) {
    var k := IdLength(pattern, before, rest);
    k > 0 ==> FreeLeft(Unstarred(before)) && FreeRight(Unstarred(rest[k..]))
  }

  /** No id of the starless line has asterisks inside it in the line. */
  predicate NotInterrupted(pattern: Pattern, before: string, rest: string) {
    rest != "" && rest[0] != '*' ==>
      var k := IdLength(pattern, Unstarred(before), Unstarred(rest));
      k <= |rest| && '*' !in rest[..k]
  }

  predicate CleanAt(pattern: Pattern, before: string, rest: string) {
    NotJoined(pattern, before, rest) && NotInterrupted(pattern, before, rest)
  }

  /** The property holds of every split of the line. */
  ghost predicate Everywhere(p: (string, string) -> bool, before: string, rest: string) {
    forall i | 0 <= i <= |rest| :: p(before + rest[..i], rest[i..])
  }

  lemma EverywhereHere(p: (string, string) -> bool, before: string, rest: string)
    requires Everywhere(p, before, rest)
    ensures p(before, rest)
  {
    assert before + rest[..0] == before && rest[0..] == rest;
  }

  lemma EverywhereFurther(p: (string, string) -> bool, before: string, rest: string, k: nat)
    requires k <= |rest| && Everywhere(p, before, rest)
    ensures Everywhere(p, before + rest[..k], rest[k..])
  {
    var tail := rest[k..];
    forall i | 0 <= i <= |tail| ensures p(before + rest[..k] + tail[..i], tail[i..]) {
      assert before + rest[..k] + tail[..i] == before + rest[..k + i];
      assert tail[i..] == rest[k + i..];
    }
  }

  ghost predicate Clean(pattern: Pattern, before: string, rest: string) {
    Everywhere((b, r) => CleanAt(pattern, b, r), before, rest)
  }

  /** A side that is free stays free when asterisks come into it. */
  lemma FreeSides(before: string, after: string)
    ensures FreeLeft(Unstarred(before)) ==> FreeLeft(before)
    ensures FreeRight(Unstarred(after)) ==> FreeRight(after)
  {
    if before != "" && before[|before| - 1] != '*' {
      var init := before[..|before| - 1];
      assert before == init + [before[|before| - 1]];
      UnstarredJoin(init, [before[|before| - 1]]);
    }
  }

  lemma UnstarredPrefix(rest: string, k: nat)
    requires k <= |rest| && '*' !in rest[..k]
    ensures k <= |Unstarred(rest)| && Unstarred(rest)[..k] == rest[..k]
    ensures Unstarred(rest)[k..] == Unstarred(rest[k..])
  {
    assert rest == rest[..k] + rest[k..];
    UnstarredJoin(rest[..k], rest[k..]);
    NothingToDelete(rest[..k]);
  }

  /** In clean surroundings an id is seen with and without asterisks alike. */
  lemma SteadyWhereClean(pattern: Pattern, before: string, rest: string)
    requires CleanAt(pattern, before, rest) && rest != "" && rest[0] != '*'
    ensures IdLength(pattern, Unstarred(before), Unstarred(rest)) == IdLength(pattern, before, rest)
  {
    var k := IdLength(pattern, before, rest);
    var m := IdLength(pattern, Unstarred(before), Unstarred(rest));
    if k > 0 {
      IdByText(pattern, before, rest, k);
      IdTextCharacters(pattern, rest[..k]);
      UnstarredPrefix(rest, k);
      IdByText(pattern, Unstarred(before), Unstarred(rest), k);
    } else if m > 0 {
      UnstarredPrefix(rest, m);
      IdByText(pattern, Unstarred(before), Unstarred(rest), m);
      FreeSides(before, rest[m..]);
      IdByText(pattern, before, rest, m);
    }
  }

  // --- The sequence of matches --------------------------------------------------------

  /** The hit's place in the line without asterisks: what check 32 computes. */
  function Moved(line: string, h: Hit): Hit
  {
    Hit(|Unstarred(line[..if h.at <= |line| then h.at else |line|])|, h.text)
  }

  function AllMoved(line: string, hits: seq<Hit>): (r: seq<Hit>)
    ensures |r| == |hits|
    ensures forall k | 0 <= k < |hits| :: r[k] == Moved(line, hits[k])
  {
    if hits == [] then [] else [Moved(line, hits[0])] + AllMoved(line, hits[1..])
  }

  lemma IdStep(pattern: Pattern, before: string, rest: string, k: nat)
    requires k == IdLength(pattern, before, rest) && k > 0
    ensures Hits(pattern, before, rest) == [Hit(|before|, rest[..k])] + Hits(pattern, before + rest[..k], rest[k..])
  {}

  lemma MovedStep(before: string, rest: string, t: string, later: seq<Hit>)
    ensures AllMoved(before + rest, [Hit(|before|, t)] + later)
         == [Hit(|Unstarred(before)|, t)] + AllMoved(before + rest, later)
  {
    var hits := [Hit(|before|, t)] + later;
    assert hits[1..] == later;
    assert (before + rest)[..|before|] == before;
  }

  /** An id with its own later hits, before and after the asterisks are deleted. */
  lemma IdMoved(pattern: Pattern, before: string, rest: string, k: nat)
    requires CleanAt(pattern, before, rest) && k == IdLength(pattern, before, rest) && k > 0
    ensures Hits(pattern, before, rest)
         == [Hit(|before|, rest[..k])] + Hits(pattern, before + rest[..k], rest[k..])
    ensures Hits(pattern, Unstarred(before), Unstarred(rest))
         == [Hit(|Unstarred(before)|, rest[..k])] + Hits(pattern, Unstarred(before + rest[..k]), Unstarred(rest[k..]))
  {
    SteadyId(pattern, before, rest, k);
    IdStep(pattern, before, rest, k);
    IdStep(pattern, Unstarred(before), Unstarred(rest), k);
  }

  lemma NoIdStep(pattern: Pattern, before: string, rest: string)
    requires rest != "" && IdLength(pattern, before, rest) == 0
    ensures Hits(pattern, before, rest) == Hits(pattern, before + [rest[0]], rest[1..])
  {}

  lemma UnstarredHead(before: string, rest: string)
    requires rest != ""
    ensures rest[0] == '*' ==>
      Unstarred(before + [rest[0]]) == Unstarred(before) && Unstarred(rest) == Unstarred(rest[1..])
    ensures rest[0] != '*' ==>
      && Unstarred(before + [rest[0]]) == Unstarred(before) + [rest[0]]
      && Unstarred(rest) == [rest[0]] + Unstarred(rest[1..])
  {
    UnstarredJoin(before, [rest[0]]);
    NothingInStar(rest[0]);
  }

  lemma NothingInStar(c: char)
    ensures Unstarred([c]) == if c == '*' then "" else [c]
  {}

  lemma UnstarredStep(pattern: Pattern, before: string, rest: string)
    requires rest != "" && (rest[0] != '*' ==> IdLength(pattern, Unstarred(before), Unstarred(rest)) == 0)
    ensures Hits(pattern, Unstarred(before), Unstarred(rest))
         == Hits(pattern, Unstarred(before + [rest[0]]), Unstarred(rest[1..]))
  {
    UnstarredHead(before, rest);
    if rest[0] != '*' {
      NoIdStep(pattern, Unstarred(before), Unstarred(rest));
    }
  }

  lemma CharacterMoved(pattern: Pattern, before: string, rest: string)
    requires CleanAt(pattern, before, rest) && IdLength(pattern, before, rest) == 0 && rest != ""
    ensures Hits(pattern, Unstarred(before), Unstarred(rest))
         == Hits(pattern, Unstarred(before + [rest[0]]), Unstarred(rest[1..]))
    ensures Hits(pattern, before, rest) == Hits(pattern, before + [rest[0]], rest[1..])
  {
    if rest[0] != '*' {
      SteadyWhereClean(pattern, before, rest);
    }
    UnstarredStep(pattern, before, rest);
    NoIdStep(pattern, before, rest);
  }

  /** From here on, the matches without asterisks are the matches with them, moved. */
  ghost predicate Kept(pattern: Pattern, before: string, rest: string) {
    Hits(pattern, Unstarred(before), Unstarred(rest)) == AllMoved(before + rest, Hits(pattern, before, rest))
  }

  lemma KeptWhenSame(pattern: Pattern, before: string, rest: string, b: string, r: string)
    requires before + rest == b + r
    requires Hits(pattern, Unstarred(before), Unstarred(rest)) == Hits(pattern, Unstarred(b), Unstarred(r))
    requires Hits(pattern, before, rest) == Hits(pattern, b, r)
    requires Kept(pattern, b, r)
    ensures Kept(pattern, before, rest)
  {}

  lemma OneCharacter(before: string, rest: string)
    requires rest != ""
    ensures before + rest[..1] == before + [rest[0]] && before + rest[..1] + rest[1..] == before + rest
  {}

  lemma KeptAcrossCharacter(pattern: Pattern, before: string, rest: string)
    requires CleanAt(pattern, before, rest) && IdLength(pattern, before, rest) == 0 && rest != ""
    requires Kept(pattern, before + rest[..1], rest[1..])
    ensures Kept(pattern, before, rest)
  {
    CharacterMoved(pattern, before, rest);
    OneCharacter(before, rest);
    KeptWhenSame(pattern, before, rest, before + [rest[0]], rest[1..]);
  }

  lemma KeptAfterId(before: string, rest: string, k: nat, t: string, here: seq<Hit>, later: seq<Hit>,
                    cleaned: seq<Hit>, cleanedLater: seq<Hit>)
    requires k <= |rest|
    requires here == [Hit(|before|, t)] + later
    requires cleaned == [Hit(|Unstarred(before)|, t)] + cleanedLater
    requires cleanedLater == AllMoved(before + rest[..k] + rest[k..], later)
    ensures cleaned == AllMoved(before + rest, here)
  {
    assert before + rest[..k] + rest[k..] == before + rest;
    MovedStep(before, rest, t, later);
  }

  lemma KeptAcrossId(pattern: Pattern, before: string, rest: string, k: nat)
    requires CleanAt(pattern, before, rest) && IdLength(pattern, before, rest) == k > 0
    requires Kept(pattern, before + rest[..k], rest[k..])
    ensures Kept(pattern, before, rest)
  {
    IdMoved(pattern, before, rest, k);
    KeptAfterId(before, rest, k, rest[..k],
      Hits(pattern, before, rest), Hits(pattern, before + rest[..k], rest[k..]),
      Hits(pattern, Unstarred(before), Unstarred(rest)),
      Hits(pattern, Unstarred(before + rest[..k]), Unstarred(rest[k..])));
  }

  /** The stretch the scan takes next: an id, or one character. */
  function Stretch(pattern: Pattern, before: string, rest: string): (m: nat)
    requires rest != ""
    ensures 0 < m <= |rest|
  {
    var k := IdLength(pattern, before, rest);
    if k > 0 then k else 1
  }

  /** On a clean line deleting the asterisks moves the matches and nothing else. */
  lemma {:induction false} CleanKeepsHits(pattern: Pattern, before: string, rest: string)
    requires Clean(pattern, before, rest)
    ensures Kept(pattern, before, rest)
    decreases |rest|
  {
    if rest != "" {
      var p := (b, r) => CleanAt(pattern, b, r);
      EverywhereHere(p, before, rest);
      var m := Stretch(pattern, before, rest);
      EverywhereFurther(p, before, rest, m);
      CleanKeepsHits(pattern, before + rest[..m], rest[m..]);
      if IdLength(pattern, before, rest) > 0 {
        KeptAcrossId(pattern, before, rest, m);
      } else {
        KeptAcrossCharacter(pattern, before, rest);
      }
    }
  }

  lemma SteadyId(pattern: Pattern, before: string, rest: string, k: nat)
    requires CleanAt(pattern, before, rest) && k == IdLength(pattern, before, rest) && k > 0
    ensures rest != "" && IdLength(pattern, Unstarred(before), Unstarred(rest)) == k
    ensures Unstarred(rest)[..k] == rest[..k] && Unstarred(rest)[k..] == Unstarred(rest[k..])
    ensures Unstarred(before + rest[..k]) == Unstarred(before) + rest[..k]
  {
    IdByText(pattern, before, rest, k);
    IdTextCharacters(pattern, rest[..k]);
    assert rest[0] == rest[..k][0];
    SteadyWhereClean(pattern, before, rest);
    UnstarredPrefix(rest, k);
    UnstarredJoin(before, rest[..k]);
    NothingToDelete(rest[..k]);
  }

  // --- Hits are exactly the matches ---------------------------------------------------

  /** The pattern matches `text` at the head of `rest`. */
  predicate MatchesText(pattern: Pattern, before: string, rest: string, text: string) {
    text != "" && text <= rest && IdLength(pattern, before, rest) == |text|
  }

  predicate HoldsAt(p: (string, string, string) -> bool, before: string, rest: string, h: Hit) {
    && |before| <= h.at <= |before| + |rest|
    && p(before + rest[..h.at - |before|], rest[h.at - |before|..], h.text)
  }

  /** The hit is a match at its place in the line `before + rest`. */
  predicate MatchAt(pattern: Pattern, before: string, rest: string, h: Hit) {
    HoldsAt((b, r, t) => MatchesText(pattern, b, r, t), before, rest, h)
  }

  /** A line may be split further right without moving a hit. */
  lemma HoldsShift(p: (string, string, string) -> bool, before: string, rest: string, m: nat, h: Hit)
    requires m <= |rest| && |before| + m <= h.at
    ensures HoldsAt(p, before, rest, h) <==> HoldsAt(p, before + rest[..m], rest[m..], h)
  {
    var i := h.at - |before|;
    if i <= |rest| {
      assert before + rest[..m] + rest[m..][..i - m] == before + rest[..i];
      assert rest[m..][i - m..] == rest[i..];
    }
  }

  lemma MatchShift(pattern: Pattern, before: string, rest: string, m: nat, h: Hit)
    requires m <= |rest| && |before| + m <= h.at
    ensures MatchAt(pattern, before, rest, h) <==> MatchAt(pattern, before + rest[..m], rest[m..], h)
  {
    HoldsShift((b, r, t) => MatchesText(pattern, b, r, t), before, rest, m, h);
  }

  lemma MatchHere(pattern: Pattern, before: string, rest: string, h: Hit)
    requires h.at == |before| && rest != ""
    ensures MatchAt(pattern, before, rest, h) <==>
      IdLength(pattern, before, rest) > 0 && h == Hit(|before|, rest[..Stretch(pattern, before, rest)])
  {
    assert before + rest[..0] == before && rest[0..] == rest;
  }

  lemma NoMatchInside(pattern: Pattern, before: string, rest: string, h: Hit)
    requires rest != "" && |before| < h.at < |before| + Stretch(pattern, before, rest)
    ensures !MatchAt(pattern, before, rest, h)
  {
    InsideStretch(pattern, before, rest, h.at - |before|);
  }

  lemma InsideStretch(pattern: Pattern, before: string, rest: string, i: nat)
    requires rest != "" && 0 < i < Stretch(pattern, before, rest)
    ensures IdLength(pattern, before + rest[..i], rest[i..]) == 0
  {
    var k := IdLength(pattern, before, rest);
    var t := rest[..k];
    IdByText(pattern, before, rest, k);
    NoIdInside(pattern, before, t, i, rest[k..]);
    assert t[..i] == rest[..i] && t[i..] + rest[k..] == rest[i..];
  }

  /** The hits of a line are those after the next stretch, and the stretch itself if it is an id. */
  lemma NextHits(pattern: Pattern, before: string, rest: string)
    requires rest != ""
    ensures var m := Stretch(pattern, before, rest);
      var later := Hits(pattern, before + rest[..m], rest[m..]);
      Hits(pattern, before, rest) ==
        if IdLength(pattern, before, rest) > 0 then [Hit(|before|, rest[..m])] + later else later
  {
    assert rest[..1] == [rest[0]];
  }

  /** One stretch further the hits are the same but for the one here. */
  lemma HitsStep(pattern: Pattern, before: string, rest: string, h: Hit)
    requires rest != ""
    ensures var m := Stretch(pattern, before, rest);
      h in Hits(pattern, before, rest) <==>
        h in Hits(pattern, before + rest[..m], rest[m..]) || (h.at == |before| && MatchAt(pattern, before, rest, h))
  {
    NextHits(pattern, before, rest);
    if h.at == |before| {
      MatchHere(pattern, before, rest, h);
    }
  }

  /** The hits of a line are exactly its matches. */
  lemma {:induction false} HitsAreMatches(pattern: Pattern, before: string, rest: string, h: Hit)
    ensures h in Hits(pattern, before, rest) <==> MatchAt(pattern, before, rest, h)
    decreases |rest|
  {
    if rest != "" {
      var m := Stretch(pattern, before, rest);
      HitsAreMatches(pattern, before + rest[..m], rest[m..], h);
      HitsStep(pattern, before, rest, h);
      if h.at >= |before| + m {
        MatchShift(pattern, before, rest, m, h);
      } else if h.at > |before| {
        NoMatchInside(pattern, before, rest, h);
      }
    }
  }

  lemma MatchOfLine(pattern: Pattern, line: string, h: Hit)
    ensures h in Hits(pattern, "", line) <==>
      h.at <= |line| && MatchesText(pattern, line[..h.at], line[h.at..], h.text)
  {
    HitsAreMatches(pattern, "", line, h);
    if h.at <= |line| {
      assert "" + line[..h.at] == line[..h.at];
    }
  }

  // --- Deleting asterisks is harmless exactly on clean lines --------------------------

  lemma SplitUnstarred(line: string, i: nat)
    requires i <= |line|
    ensures var at := |Unstarred(line[..i])|;
      && at <= |Unstarred(line)|
      && Unstarred(line)[..at] == Unstarred(line[..i]) && Unstarred(line)[at..] == Unstarred(line[i..])
  {
    assert line == line[..i] + line[i..];
    UnstarredJoin(line[..i], line[i..]);
  }

  /** Two characters that stay have different places in the starless line. */
  lemma PlacesDiffer(line: string, a: nat, b: nat)
    requires a < b <= |line| && line[a] != '*'
    ensures |Unstarred(line[..a])| < |Unstarred(line[..b])|
  {
    assert line[..b] == line[..a] + ([line[a]] + line[a + 1..b]);
    UnstarredJoin(line[..a], [line[a]] + line[a + 1..b]);
  }

  lemma KeptNotJoined(pattern: Pattern, line: string, i: nat)
    requires i <= |line| && Kept(pattern, "", line)
    ensures NotJoined(pattern, line[..i], line[i..])
  {
    var rest := line[i..];
    var k := IdLength(pattern, line[..i], rest);
    if k > 0 {
      MatchOfLine(pattern, line, Hit(i, rest[..k]));
      MovedIsHit(pattern, line, Hit(i, rest[..k]));
      MatchOfLine(pattern, Unstarred(line), Moved(line, Hit(i, rest[..k])));
      SplitUnstarred(line, i);
      IdByText(pattern, line[..i], rest, k);
      IdTextCharacters(pattern, rest[..k]);
      UnstarredPrefix(rest, k);
      IdByText(pattern, Unstarred(line[..i]), Unstarred(rest), k);
    }
  }

  lemma MovedIsHit(pattern: Pattern, line: string, h: Hit)
    requires Kept(pattern, "", line) && h in Hits(pattern, "", line)
    ensures Moved(line, h) in Hits(pattern, "", Unstarred(line))
  {
    assert "" + line == line && Unstarred("") == "";
    var hits := Hits(pattern, "", line);
    var k :| 0 <= k < |hits| && hits[k] == h;
    assert AllMoved(line, hits)[k] == Moved(line, h);
  }

  lemma HitWasMoved(pattern: Pattern, line: string, g: Hit) returns (h: Hit)
    requires Kept(pattern, "", line) && g in Hits(pattern, "", Unstarred(line))
    ensures h in Hits(pattern, "", line) && Moved(line, h) == g
  {
    assert "" + line == line && Unstarred("") == "";
    var hits := Hits(pattern, "", line);
    var k :| 0 <= k < |hits| && AllMoved(line, hits)[k] == g;
    h := hits[k];
  }

  lemma MovedBack(pattern: Pattern, line: string, i: nat, t: string)
    requires i < |line| && line[i] != '*' && Kept(pattern, "", line)
    requires MatchesText(pattern, Unstarred(line[..i]), Unstarred(line[i..]), t)
    ensures Hit(i, t) in Hits(pattern, "", line)
  {
    var g := Hit(|Unstarred(line[..i])|, t);
    SplitUnstarred(line, i);
    MatchOfLine(pattern, Unstarred(line), g);
    var h := HitWasMoved(pattern, line, g);
    HitStartsWithLetter(pattern, line, h);
    SamePlace(line, h.at, i);
  }

  lemma KeptNotInterrupted(pattern: Pattern, line: string, i: nat)
    requires i <= |line| && Kept(pattern, "", line)
    ensures NotInterrupted(pattern, line[..i], line[i..])
  {
    var rest := line[i..];
    var m := IdLength(pattern, Unstarred(line[..i]), Unstarred(rest));
    if rest != "" && rest[0] != '*' && m > 0 {
      var t := Unstarred(rest)[..m];
      MovedBack(pattern, line, i, t);
      HitStartsWithLetter(pattern, line, Hit(i, t));
    }
  }

  lemma SamePlace(line: string, a: nat, b: nat)
    requires a < |line| && b < |line| && line[a] != '*' && line[b] != '*'
    requires |Unstarred(line[..a])| == |Unstarred(line[..b])|
    ensures a == b
  {
    if a < b {
      PlacesDiffer(line, a, b);
    } else if b < a {
      PlacesDiffer(line, b, a);
    }
  }

  lemma HitStartsWithLetter(pattern: Pattern, line: string, h: Hit)
    requires h in Hits(pattern, "", line)
    ensures h.at < |line| && line[h.at] != '*' && '*' !in h.text
    ensures h.text <= line[h.at..]
  {
    MatchOfLine(pattern, line, h);
    MatchStartsWithLetter(pattern, line[..h.at], line[h.at..], h.text);
  }

  lemma MatchStartsWithLetter(pattern: Pattern, before: string, rest: string, text: string)
    requires MatchesText(pattern, before, rest, text)
    ensures rest != "" && rest[0] != '*' && '*' !in text && IsIdText(pattern, text)
  {
    assert rest[..|text|] == text;
    IdByText(pattern, before, rest, |text|);
    IdTextCharacters(pattern, text);
  }

  /**
   Deleting a line's asterisks leaves its sequence of matches as it was, moved, if and only
   if no id touches asterisks with a word character behind them and none is interrupted.
   */
  lemma DeletionKeepsHitsExactly(pattern: Pattern, line: string)
    ensures Hits(pattern, "", Unstarred(line)) == AllMoved(line, Hits(pattern, "", line)) <==> Clean(pattern, "", line)
  {
    assert "" + line == line && Unstarred("") == "";
    if Clean(pattern, "", line) {
      CleanKeepsHits(pattern, "", line);
    }
    if Kept(pattern, "", line) {
      forall i | 0 <= i <= |line| ensures CleanAt(pattern, "" + line[..i], line[i..]) {
        assert "" + line[..i] == line[..i];
        KeptNotJoined(pattern, line, i);
        KeptNotInterrupted(pattern, line, i);
      }
    }
  }

  /** A line without asterisks is clean. */
  lemma StarlessIsClean(pattern: Pattern, line: string)
    requires '*' !in line
    ensures Clean(pattern, "", line)
  {
    forall i | 0 <= i <= |line| ensures CleanAt(pattern, "" + line[..i], line[i..]) {
      assert "" + line[..i] == line[..i];
      CleanWithoutStars(pattern, line[..i], line[i..]);
    }
  }

  lemma CleanWithoutStars(pattern: Pattern, before: string, rest: string)
    requires '*' !in before && '*' !in rest
    ensures CleanAt(pattern, before, rest)
  {
    var k := IdLength(pattern, before, rest);
    NothingToDelete(before);
    NothingToDelete(rest);
    NothingToDelete(rest[k..]);
    if k > 0 {
      IdByText(pattern, before, rest, k);
    }
  }
}
