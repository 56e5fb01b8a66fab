/**
 Row (e)'s population of a file, on the characters of its lines: which padded ids it counts,
 and which of them are left once paths and unresolvable ids are out.
 */
module RowEReading {
  import opened Finditer
  import opened LineScan
  import opened Sequences
  import opened Text
  import opened TextLaws
  import opened PaddedIds
  import opened Asterisks
  import opened PaddedScanners
  import opened PathTexts
  import opened CitationTexts

  // --- The padded ids of a line -------------------------------------------------------

  /** An id with leading zeros, five digits in all. */
  ghost predicate IsPaddedId(t: string) { exists prefix, zeros: nat, n: nat :: SpellsPadded(t, prefix, zeros, n) }

  predicate SpellsPadded(t: string, prefix: string, zeros: nat, n: nat) {
    Spells(t, prefix, zeros, n) && zeros > 0 && zeros + |Numeral(n)| == 5
  }

  /** It stands at `at`. */
  ghost predicate PaddedStands(line: string, at: nat, t: string) { StandsAt(line, at, t) && IsPaddedId(t) }

  /** The places before `at` where one stands. */
  ghost function PaddedBefore(line: string, at: nat): set<nat> {
    set i: nat | i < at && HasPadded(line, i)
  }

  ghost predicate HasPadded(line: string, at: nat) { exists t :: PaddedStands(line, at, t) }

  /** It is the `k`-th one of the line, counted from zero. */
  ghost predicate Nth(line: string, k: nat, at: nat, t: string) {
    PaddedStands(line, at, t) && |PaddedBefore(line, at)| == k
  }

  lemma PaddedIdExactly(t: string)
    ensures IsIdText(ExactlyPadded, t) <==> IsPaddedId(t)
  {
    if IsIdText(ExactlyPadded, t) {
      var prefix, zeros, n := IdIsSpelled(t);
      SpelledIsId(t, prefix, zeros, n);
      assert SpellsPadded(t, prefix, zeros, n);
    }
    if prefix, zeros: nat, n: nat :| SpellsPadded(t, prefix, zeros, n) {
      SpelledIsId(t, prefix, zeros, n);
    }
  }

  lemma PaddedHitExactly(line: string, at: nat, t: string)
    ensures Hit(at, t) in Hits(ExactlyPadded, "", line) <==> PaddedStands(line, at, t)
  {
    HitsExactly(ExactlyPadded, line, at, t);
    PaddedIdExactly(t);
  }

  /** The places of the first `k` hits. */
  function PlacesOf(hits: seq<Hit>, k: nat): set<nat>
    requires k <= |hits|
  {
    set i: nat | i < k :: hits[i].at
  }

  lemma OnePlaceMore(hits: seq<Hit>, k: nat)
    requires Ascend(hits, 0) && k < |hits|
    ensures PlacesOf(hits, k + 1) == PlacesOf(hits, k) + {hits[k].at} && hits[k].at !in PlacesOf(hits, k)
  {}

  lemma {:induction false} PlacesCounted(hits: seq<Hit>, k: nat)
    requires Ascend(hits, 0) && k <= |hits|
    ensures |PlacesOf(hits, k)| == k
  {
    if k == 0 {
      assert PlacesOf(hits, 0) == {};
    } else {
      PlacesCounted(hits, k - 1);
      OnePlaceMore(hits, k - 1);
    }
  }

  /** The hits are the padded ids of the line, in the order of their places. */
  ghost predicate Scans(line: string, hits: seq<Hit>) {
    Ascend(hits, 0) && forall at: nat, t :: Hit(at, t) in hits <==> PaddedStands(line, at, t)
  }

  lemma PaddedScan(line: string)
    ensures Scans(line, Hits(ExactlyPadded, "", line))
  {
    HitsAscend(ExactlyPadded, "", line);
    forall at: nat, t ensures Hit(at, t) in Hits(ExactlyPadded, "", line) <==> PaddedStands(line, at, t) {
      PaddedHitExactly(line, at, t);
    }
  }

  lemma HitStands(line: string, hits: seq<Hit>, i: nat)
    requires Scans(line, hits) && i < |hits|
    ensures PaddedStands(line, hits[i].at, hits[i].text)
  {
    assert hits[i] in hits && hits[i] == Hit(hits[i].at, hits[i].text);
  }

  lemma PlacesAreBefore(line: string, hits: seq<Hit>, k: nat, at: nat)
    requires Scans(line, hits) && k <= |hits|
    requires (forall i: nat | i < k :: hits[i].at < at) && forall i: nat | k <= i < |hits| :: hits[i].at >= at
    ensures PlacesOf(hits, k) == PaddedBefore(line, at)
  {
    forall p | p in PlacesOf(hits, k) ensures p in PaddedBefore(line, at) {
      var i: nat :| i < k && hits[i].at == p;
      HitStands(line, hits, i);
    }
    forall p | p in PaddedBefore(line, at) ensures p in PlacesOf(hits, k) {
      var t :| PaddedStands(line, p, t);
      var i: nat :| i < |hits| && hits[i] == Hit(p, t);
    }
  }

  lemma HitIsNth(line: string, hits: seq<Hit>, k: nat)
    requires Scans(line, hits) && k < |hits|
    ensures Nth(line, k, hits[k].at, hits[k].text)
  {
    PlacesAreBefore(line, hits, k, hits[k].at);
    PlacesCounted(hits, k);
    HitStands(line, hits, k);
  }

  /** The scan numbers the padded ids of a line in the order of their places. */
  lemma NthExactly(line: string, hits: seq<Hit>, k: nat, at: nat, t: string)
    requires Scans(line, hits)
    ensures Nth(line, k, at, t) <==> k < |hits| && hits[k] == Hit(at, t)
  {
    if k < |hits| && hits[k] == Hit(at, t) {
      HitIsNth(line, hits, k);
    }
    if Nth(line, k, at, t) {
      var i: nat :| i < |hits| && hits[i] == Hit(at, t);
      HitIsNth(line, hits, i);
    }
  }

  /** The number of matches of a line is the number of places where a padded id stands. */
  lemma CountExactly(line: string)
    ensures MatchCount(line) == |PaddedBefore(line, |line|)|
  {
    PaddedScan(line);
    HitsCounted(line, Hits(ExactlyPadded, "", line));
  }

  lemma HitsCounted(line: string, hits: seq<Hit>)
    requires Scans(line, hits)
    ensures |hits| == |PaddedBefore(line, |line|)|
  {
    forall i: nat | i < |hits| ensures hits[i].at < |line| {
      HitStands(line, hits, i);
    }
    PlacesAreBefore(line, hits, |hits|, |line|);
    PlacesCounted(hits, |hits|);
  }

  // --- The hits of a file -------------------------------------------------------------

  /** The line shows the hit: its token stands there as the one of its ordinal, and its line is this one, stripped. */
  ghost predicate Shows(line: string, h: PaddedHit) {
    Core(line, h.line) && exists at: nat :: Nth(line, h.ordinal, at, h.token)
  }

  lemma {:induction false} NumberedMembers(hits: seq<Hit>, line: string, lineNo: nat, k: nat, h: PaddedHit)
    ensures h in Numbered(hits, line, lineNo, k) <==>
      && h.lineNo == lineNo && h.line == Strip(line)
      && k <= h.ordinal < k + |hits| && hits[h.ordinal - k].text == h.token
  {
    if hits != [] {
      NumberedMembers(hits[1..], line, lineNo, k + 1, h);
      assert k < h.ordinal < k + |hits| ==> hits[1..][h.ordinal - (k + 1)] == hits[h.ordinal - k];
    }
  }

  lemma ShownByHits(line: string, hits: seq<Hit>, h: PaddedHit)
    requires Scans(line, hits)
    ensures (exists at: nat :: Nth(line, h.ordinal, at, h.token)) <==>
      h.ordinal < |hits| && hits[h.ordinal].text == h.token
  {
    if h.ordinal < |hits| {
      NthExactly(line, hits, h.ordinal, hits[h.ordinal].at, hits[h.ordinal].text);
    }
    if at: nat :| Nth(line, h.ordinal, at, h.token) {
      NthExactly(line, hits, h.ordinal, at, h.token);
    }
  }

  lemma NumberedShows(line: string, lineNo: nat, hits: seq<Hit>, h: PaddedHit)
    requires Scans(line, hits)
    ensures h in Numbered(hits, line, lineNo, 0) <==> h.lineNo == lineNo && Shows(line, h)
  {
    NumberedMembers(hits, line, lineNo, 0, h);
    CoreExactly(line, h.line);
    ShownByHits(line, hits, h);
  }

  lemma LineHitsExactly(line: string, lineNo: nat, h: PaddedHit)
    ensures h in LineHits(line, lineNo) <==> h.lineNo == lineNo && Shows(line, h)
  {
    PaddedScan(line);
    NumberedShows(line, lineNo, Hits(ExactlyPadded, "", line), h);
  }

  ghost function HitsKept(skip: set<nat>): (string, nat) -> seq<PaddedHit> {
    (line: string, lineNo: nat) => KeptHits(line, lineNo, skip)
  }

  lemma {:induction false} CorpusByLines(lines: seq<string>, skip: set<nat>, n: nat)
    requires n <= |lines|
    ensures Visible(lines, IsFence, (line, lineNo) => KeptHits(line, lineNo, skip), n)
         == Visible(lines, IsFence, HitsKept(skip), n)
  {
    if n > 0 {
      CorpusByLines(lines, skip, n - 1);
    }
  }

  /** The line shows the hit and is not skipped. */
  ghost predicate ShowsUnskipped(line: string, skip: set<nat>, h: PaddedHit) {
    (h.lineNo > 0 ==> h.lineNo - 1 !in skip) && Shows(line, h)
  }

  ghost function ShowsIt(skip: set<nat>, h: PaddedHit): string -> bool { line => ShowsUnskipped(line, skip, h) }

  lemma LinesKeep(lines: seq<string>, skip: set<nat>, h: PaddedHit)
    ensures forall j: nat | j < |lines| :: SaidBy(lines, HitsKept(skip), h, h.lineNo, ShowsIt(skip, h), j)
  {
    forall j: nat | j < |lines| ensures SaidBy(lines, HitsKept(skip), h, h.lineNo, ShowsIt(skip, h), j) {
      LineHitsExactly(lines[j], j + 1, h);
    }
  }

  lemma FencesExactly()
    ensures SameLines(IsFence, FenceLine)
  {
    forall line ensures IsFence(line) <==> FenceLine(line) {
      FenceExactly(line);
    }
  }

  lemma CorpusIsVisible(lines: seq<string>, skip: set<nat>)
    ensures CorpusHits(lines, skip) == Visible(lines, IsFence, HitsKept(skip), |lines|)
  {
    CorpusByLines(lines, skip, |lines|);
  }

  /** A visible line has the number and says it. */
  ghost predicate SaidThere(lines: seq<string>, fence: string -> bool, number: nat, says: string -> bool) {
    1 <= number <= |lines| && OutsideFences(lines, fence, number - 1) && says(lines[number - 1])
  }

  lemma VisibleSaidThere<T>(
      lines: seq<string>, marker: string -> bool, fence: string -> bool, f: (string, nat) -> seq<T>,
      x: T, number: nat, says: string -> bool)
    requires SameLines(marker, fence)
    requires forall j: nat | j < |lines| :: SaidBy(lines, f, x, number, says, j)
    ensures x in Visible(lines, marker, f, |lines|) <==> SaidThere(lines, fence, number, says)
  {
    VisibleSaid(lines, marker, fence, f, x, number, says, |lines|);
  }

  lemma KeptWhereSaid(lines: seq<string>, skip: set<nat>, h: PaddedHit)
    ensures h in CorpusHits(lines, skip) <==> SaidThere(lines, FenceLine, h.lineNo, ShowsIt(skip, h))
  {
    CorpusIsVisible(lines, skip);
    FencesExactly();
    LinesKeep(lines, skip, h);
    VisibleSaidThere(lines, IsFence, FenceLine, HitsKept(skip), h, h.lineNo, ShowsIt(skip, h));
  }

  /** A line outside every fence has the number, shows the hit and is not skipped. */
  ghost predicate ShownIn(lines: seq<string>, skip: set<nat>, h: PaddedHit) {
    && 1 <= h.lineNo <= |lines| && OutsideFences(lines, FenceLine, h.lineNo - 1)
    && ShowsUnskipped(lines[h.lineNo - 1], skip, h)
  }

  lemma SaidIsShown(lines: seq<string>, skip: set<nat>, h: PaddedHit)
    requires SaidThere(lines, FenceLine, h.lineNo, ShowsIt(skip, h))
    ensures ShowsUnskipped(lines[h.lineNo - 1], skip, h)
  {}

  lemma ShownIsSaid(lines: seq<string>, skip: set<nat>, h: PaddedHit)
    requires 1 <= h.lineNo <= |lines| && OutsideFences(lines, FenceLine, h.lineNo - 1)
    requires ShowsUnskipped(lines[h.lineNo - 1], skip, h)
    ensures SaidThere(lines, FenceLine, h.lineNo, ShowsIt(skip, h))
  {}

  lemma ShownWhereSaid(lines: seq<string>, skip: set<nat>, h: PaddedHit)
    ensures SaidThere(lines, FenceLine, h.lineNo, ShowsIt(skip, h)) == ShownIn(lines, skip, h)
  {
    if SaidThere(lines, FenceLine, h.lineNo, ShowsIt(skip, h)) {
      SaidIsShown(lines, skip, h);
    } else if ShownIn(lines, skip, h) {
      ShownIsSaid(lines, skip, h);
    }
  }

  /** Conjunct 0: a padded id is counted if and only if a line outside every fence shows it unskipped. */
  lemma KeptExactly(lines: seq<string>, skip: set<nat>, h: PaddedHit)
    ensures (h in CorpusHits(lines, skip)) == ShownIn(lines, skip, h)
  {
    KeptWhereSaid(lines, skip, h);
    ShownWhereSaid(lines, skip, h);
  }

  // --- Paths and the index ------------------------------------------------------------

  /** The id of this ordinal in the line without asterisks sits in a path. */
  ghost predicate OrdinalInPath(line: string, k: nat) {
    exists at: nat, t :: Nth(Unstarred(line), k, at, t) && InPathAt(Unstarred(line), at, t)
  }

  ghost predicate InPathAt(line: string, at: nat, t: string) {
    at + |t| <= |line| && SitsInPath(line[..at], t, line[at + |t|..])
  }

  lemma PathAtExactly(line: string, at: nat, t: string)
    requires at + |t| <= |line| && line[at..at + |t|] == t
    ensures PathAt(line, at, |t|) <==> InPathAt(line, at, t)
  {
    InPathExactly(line[..at], t, line[at + |t|..]);
  }

  /** The hit of this ordinal, if there is one, is in a path. */
  predicate HitInPath(line: string, hits: seq<Hit>, k: nat) {
    k < |hits| && PathAt(line, hits[k].at, |hits[k].text|)
  }

  lemma OrdinalExactly(line: string, hits: seq<Hit>, k: nat)
    requires Scans(line, hits)
    ensures HitInPath(line, hits, k) <==> exists at: nat, t :: Nth(line, k, at, t) && InPathAt(line, at, t)
  {
    if k < |hits| {
      HitIsNth(line, hits, k);
      PathAtExactly(line, hits[k].at, hits[k].text);
    }
    if at: nat, t :| Nth(line, k, at, t) && InPathAt(line, at, t) {
      NthExactly(line, hits, k, at, t);
    }
  }

  lemma ProseIs(h: PaddedHit)
    ensures IsProse(h) <==>
      !HitInPath(Unstarred(h.line), Hits(ExactlyPadded, "", Unstarred(h.line)), h.ordinal)
  {}

  /** Conjunct 2: prose is what is in no path when found again by its ordinal. */
  lemma ProseExactly(h: PaddedHit)
    ensures IsProse(h) <==> !OrdinalInPath(h.line, h.ordinal)
  {
    var line := Unstarred(h.line);
    ProseIs(h);
    PaddedScan(line);
    OrdinalExactly(line, Hits(ExactlyPadded, "", line), h.ordinal);
  }

  /** The token's prefix and integer, without padding, are in the index. */
  ghost predicate ResolvesIn(token: string, index: set<string>) {
    exists prefix, zeros: nat, n: nat :: SpellsPadded(token, prefix, zeros, n) && IdOf(prefix, n) in index
  }

  lemma ResolvesExactly(h: PaddedHit, index: set<string>)
    requires IsPaddedId(h.token)
    ensures Resolves(h, index) <==> ResolvesIn(h.token, index)
  {
    var prefix, zeros: nat, n: nat :| SpellsPadded(h.token, prefix, zeros, n);
    SpelledIsId(h.token, prefix, zeros, n);
    if p, z: nat, m: nat :| SpellsPadded(h.token, p, z, m) && IdOf(p, m) in index {
      SpelledIsId(h.token, p, z, m);
    }
  }

  /**
   Row (e) reports a padded id if and only if its line is outside every fence and not skipped,
   it is in no path when found again by its ordinal, and its id is in the index.
   */
  lemma RowEReportsExactly(lines: seq<string>, skip: set<nat>, index: set<string>, h: PaddedHit)
    ensures h in Filter(Filter(CorpusHits(lines, skip), IsProse), (x: PaddedHit) => Resolves(x, index)) <==>
      ShownIn(lines, skip, h) && !OrdinalInPath(h.line, h.ordinal) && ResolvesIn(h.token, index)
  {
    FilterMembers(CorpusHits(lines, skip), IsProse);
    FilterMembers(Filter(CorpusHits(lines, skip), IsProse), (x: PaddedHit) => Resolves(x, index));
    KeptExactly(lines, skip, h);
    ProseExactly(h);
    if ShownIn(lines, skip, h) {
      ResolvesExactly(h, index);
    }
  }
}
