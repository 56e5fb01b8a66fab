/**
 The padding rule over a whole file: the padded ids row (e) keeps against those check 32
 reports. They part exactly where only one of the two scans a line or an id (the fence rules,
 the skipped lines, the links), or where the two judge differently what is in a path.
 */
module PaddedFiles {
  import opened FiniteSums
  import opened Sequences
  import opened Wrappers
  import opened Text
  import opened Finditer
  import opened LineScan
  import opened PaddedIds
  import opened Asterisks
  import opened PaddedScanners
  import opened PaddingAgreement

  // --- One line -----------------------------------------------------------------------

  /** Where no id stands, the scan for exactly padded ones moves on by a character. */
  lemma NoExactHere(before: string, rest: string)
    requires rest != "" && IdLength(AnyId, before, rest) == 0
    ensures Hits(ExactlyPadded, before, rest) == Hits(ExactlyPadded, before + rest[..1], rest[1..])
  {
    ExactWhereAny(before, rest);
    NextHits(ExactlyPadded, before, rest);
  }

  lemma Further(before: string, rest: string, i: nat)
    requires i < |rest|
    ensures before + rest[..i] + rest[i..][..1] == before + rest[..i + 1] && rest[i..][1..] == rest[i + 1..]
  {}

  lemma {:induction false} NoExactInside(before: string, rest: string, i: nat)
    requires rest != "" && 0 < i <= Stretch(AnyId, before, rest)
    requires IdLength(ExactlyPadded, before, rest) == 0
    ensures Hits(ExactlyPadded, before, rest) == Hits(ExactlyPadded, before + rest[..i], rest[i..])
    decreases i
  {
    if i == 1 {
      NextHits(ExactlyPadded, before, rest);
    } else {
      NoExactInside(before, rest, i - 1);
      InsideStretch(AnyId, before, rest, i - 1);
      NoExactHere(before + rest[..i - 1], rest[i - 1..]);
      Further(before, rest, i - 1);
    }
  }

  /** An exactly padded id is an id of the same length. */
  lemma ExactWhereAny(before: string, rest: string)
    ensures IdLength(ExactlyPadded, before, rest) > 0 ==>
      IdLength(AnyId, before, rest) == IdLength(ExactlyPadded, before, rest)
    ensures var k := IdLength(AnyId, before, rest);
      k > 0 ==> (IdLength(ExactlyPadded, before, rest) == k <==> IsIdText(ExactlyPadded, rest[..k]))
  {
    var k, j := IdLength(AnyId, before, rest), IdLength(ExactlyPadded, before, rest);
    if j > 0 {
      IdByText(ExactlyPadded, before, rest, j);
      ExactIsAnyId(rest[..j]);
      IdByText(AnyId, before, rest, j);
    }
    if k > 0 {
      IdByText(AnyId, before, rest, k);
      IdByText(ExactlyPadded, before, rest, k);
    }
  }

  predicate IsExact(h: Hit) { IsIdText(ExactlyPadded, h.text) }

  /** One stretch of the scan for any id, as the scan for exactly padded ones takes it. */
  lemma ExactStretch(before: string, rest: string)
    requires rest != ""
    ensures var m := Stretch(AnyId, before, rest);
      var here := Hit(|before|, rest[..m]);
      var later := Hits(ExactlyPadded, before + rest[..m], rest[m..]);
      Hits(ExactlyPadded, before, rest) ==
        if IdLength(AnyId, before, rest) > 0 && IsExact(here) then [here] + later else later
  {
    ExactWhereAny(before, rest);
    if IdLength(ExactlyPadded, before, rest) > 0 {
      NextHits(ExactlyPadded, before, rest);
    } else {
      NoExactInside(before, rest, Stretch(AnyId, before, rest));
    }
  }

  /** In order, the exactly padded hits are the exactly padded ones among all ids. */
  lemma {:induction false} ExactAmongAny(before: string, rest: string)
    ensures Hits(ExactlyPadded, before, rest) == Filter(Hits(AnyId, before, rest), IsExact)
    decreases |rest|
  {
    if rest != "" {
      var m := Stretch(AnyId, before, rest);
      ExactAmongAny(before + rest[..m], rest[m..]);
      NextHits(AnyId, before, rest);
      ExactStretch(before, rest);
      FilterHead(Hit(|before|, rest[..m]), Hits(AnyId, before + rest[..m], rest[m..]),
                 IdLength(AnyId, before, rest) > 0, IsExact);
    }
  }

  /** The problem of a padded id in prose that resolves. */
  function InProse(line: string, lineNo: nat, index: set<string>, h: Hit): Option<Problem> {
    if h.at <= |line| && !Check32Path(line, h) && Canonical(h.text) in index then Some(Padded(lineNo, h.text))
    else None
  }

  function Shown(hit: PaddedHit): Problem { Padded(hit.lineNo, hit.token) }

  /** The hits that survive conjuncts 2 and 3. */
  function Accepted(hits: seq<PaddedHit>, index: set<string>): seq<PaddedHit> {
    Filter(Filter(hits, IsProse), (h: PaddedHit) => Resolves(h, index))
  }

  /** And as problems. */
  function Survivors(hits: seq<PaddedHit>, index: set<string>): seq<Problem> { Mapped(Accepted(hits, index), Shown) }

  lemma KeptOfLine(line: string, lineNo: nat, index: set<string>)
    requires Clean(ExactlyPadded, "", line)
    ensures Survivors(LineHits(line, lineNo), index)
         == Collect(Hits(ExactlyPadded, "", line), (h: Hit) => InProse(line, lineNo, index, h))
  {
    var hits, found := Hits(ExactlyPadded, "", line), LineHits(line, lineNo);
    var f := (h: Hit) => InProse(line, lineNo, index, h);
    NumberedLength(hits, line, lineNo, 0);
    forall k | 0 <= k < |hits|
      ensures f(hits[k]) ==
        if IsProse(found[k]) && Resolves(found[k], index) then Some(Shown(found[k])) else None
    {
      NumberedAt(hits, line, lineNo, 0, k);
      KeptUnfolded(line, lineNo, index, k);
    }
    SelectedAlike(found, hits, IsProse, (h: PaddedHit) => Resolves(h, index), Shown, f);
  }

  predicate IsPadded(p: Problem) { p.Padded? }

  function InProseUnlinked(line: string, lineNo: nat, index: set<string>, h: Hit): Option<Problem> {
    if InLink(Links(0, line), h.at) then None else InProse(line, lineNo, index, h)
  }

  lemma OnlyPaddedIsExact(line: string, lineNo: nat, index: set<string>, h: Hit)
    requires h in Hits(AnyId, "", line)
    ensures var p := OutsideLinks(line, lineNo, index, h);
      (if IsExact(h) then InProseUnlinked(line, lineNo, index, h) else None)
        == if p.Some? && IsPadded(p.value) then p else None
  {
    ReportUnfolded(line, lineNo, index, h);
  }

  lemma NoPaddedLinks(links: seq<Link>, lineNo: nat)
    ensures Filter(Collect(links, (l: Link) => LinkProblem(lineNo, l)), IsPadded) == []
  {
    var f := (l: Link) => LinkProblem(lineNo, l);
    var none: Link -> Option<Problem> := _ => None;
    FilterCollect(links, f, IsPadded, none);
    CollectsNothing(links, none);
  }

  lemma ReportedOfLine(line: string, lineNo: nat, index: set<string>)
    ensures Filter(LineProblems(line, lineNo, index), IsPadded)
         == Collect(Hits(ExactlyPadded, "", line), (h: Hit) => InProseUnlinked(line, lineNo, index, h))
  {
    var all := Hits(AnyId, "", line);
    var f := (h: Hit) => OutsideLinks(line, lineNo, index, h);
    var shown := (h: Hit) => InProseUnlinked(line, lineNo, index, h);
    var exact := (h: Hit) => if IsExact(h) then shown(h) else None;
    forall h | h in all ensures exact(h) == if f(h).Some? && IsPadded(f(h).value) then f(h) else None {
      OnlyPaddedIsExact(line, lineNo, index, h);
    }
    FilterCollect(all, f, IsPadded, exact);
    CollectSelected(all, IsExact, exact);
    FilterMembers(all, IsExact);
    CollectAlike(Filter(all, IsExact), exact, shown);
    ExactAmongAny("", line);
    NoPaddedLinks(Links(0, line), lineNo);
    FilterAppend(Collect(all, f), Collect(Links(0, line), (l: Link) => LinkProblem(lineNo, l)), IsPadded);
  }

  // --- One file -----------------------------------------------------------------------

  /** The file's padded ids that row (e) is left with, in order. */
  function RowEKeeps(lines: seq<string>, skip: set<nat>, index: set<string>): seq<Problem> {
    Survivors(CorpusHits(lines, skip), index)
  }

  /** And those check 32 reports as padded. */
  function Check32Reports(lines: seq<string>, index: set<string>): seq<Problem> {
    Filter(FileProblems(lines, index), IsPadded)
  }

  lemma AcceptedJoin(a: seq<PaddedHit>, b: seq<PaddedHit>, index: set<string>)
    ensures Accepted(a + b, index) == Accepted(a, index) + Accepted(b, index)
  {
    var resolves := (h: PaddedHit) => Resolves(h, index);
    FilterAppend(a, b, IsProse);
    FilterAppend(Filter(a, IsProse), Filter(b, IsProse), resolves);
  }

  lemma SurvivorsJoin(a: seq<PaddedHit>, b: seq<PaddedHit>, index: set<string>)
    ensures Survivors(a + b, index) == Survivors(a, index) + Survivors(b, index)
  {
    AcceptedJoin(a, b, index);
  }

  function KeptOn(line: string, lineNo: nat, skip: set<nat>, index: set<string>): seq<Problem> {
    Survivors(KeptHits(line, lineNo, skip), index)
  }

  function ReportedOn(line: string, lineNo: nat, index: set<string>): seq<Problem> {
    Filter(LineProblems(line, lineNo, index), IsPadded)
  }

  lemma RowEByLine(lines: seq<string>, skip: set<nat>, index: set<string>)
    ensures RowEKeeps(lines, skip, index)
         == Visible(lines, IsFence, (line, k) => KeptOn(line, k, skip, index), |lines|)
  {
    forall a, b ensures Survivors(a + b, index) == Survivors(a, index) + Survivors(b, index) {
      SurvivorsJoin(a, b, index);
    }
    VisibleThrough(lines, IsFence, (line, k) => KeptHits(line, k, skip),
                   (hits: seq<PaddedHit>) => Survivors(hits, index),
                   (line, k) => KeptOn(line, k, skip, index), |lines|);
  }

  lemma Check32ByLine(lines: seq<string>, index: set<string>)
    ensures Check32Reports(lines, index)
         == Visible(lines, IsTickFence, (line, k) => ReportedOn(line, k, index), |lines|)
  {
    forall a, b ensures Filter<Problem>(a + b, IsPadded) == Filter(a, IsPadded) + Filter(b, IsPadded) {
      FilterAppend(a, b, IsPadded);
    }
    VisibleThrough(lines, IsTickFence, (line, k) => LineProblems(line, k, index),
                   (found: seq<Problem>) => Filter(found, IsPadded),
                   (line, k) => ReportedOn(line, k, index), |lines|);
  }

  // --- The exact difference -----------------------------------------------------------

  predicate ScannedByRowE(lines: seq<string>, skip: set<nat>, i: nat)
    requires i < |lines|
  {
    !Hidden(lines, IsFence, i) && i !in skip
  }

  predicate ScannedByCheck32(lines: seq<string>, i: nat, h: Hit)
    requires i < |lines|
  {
    !Hidden(lines, IsTickFence, i) && !InLink(Links(0, lines[i]), h.at)
  }

  /** Whoever reads the line: row (e) keeps an occurrence and check 32 reports it, or neither. */
  lemma SameOnLine(line: string, lineNo: nat, index: set<string>, byE: bool, by32: bool)
    requires Clean(ExactlyPadded, "", line)
    ensures (if byE then Survivors(LineHits(line, lineNo), index) else [])
         == (if by32 then ReportedOn(line, lineNo, index) else [])
      <==> forall h | h in Hits(ExactlyPadded, "", line) && InProse(line, lineNo, index, h).Some? ::
        byE == (by32 && !InLink(Links(0, line), h.at))
  {
    var hits := Hits(ExactlyPadded, "", line);
    var f := (h: Hit) => InProse(line, lineNo, index, h);
    var g := (h: Hit) => InProseUnlinked(line, lineNo, index, h);
    KeptOfLine(line, lineNo, index);
    ReportedOfLine(line, lineNo, index);
    CollectsNothing(hits, f);
    CollectsNothing(hits, g);
    CollectNarrower(hits, f, (h: Hit) => InLink(Links(0, line), h.at), g);
  }

  /** The same question put to each occurrence that row (e) keeps. */
  ghost predicate ScannedAlike(lines: seq<string>, skip: set<nat>, index: set<string>, i: nat)
    requires i < |lines| && |LineHits(lines[i], i + 1)| == |Hits(ExactlyPadded, "", lines[i])|
  {
    forall k | 0 <= k < |LineHits(lines[i], i + 1)| && KeptByRowE(lines[i], i + 1, index, k) ::
      ScannedByRowE(lines, skip, i) == ScannedByCheck32(lines, i, Hits(ExactlyPadded, "", lines[i])[k])
  }

  lemma SameOnLineOfFile(lines: seq<string>, skip: set<nat>, index: set<string>, i: nat)
    requires i < |lines| && Clean(ExactlyPadded, "", lines[i])
    ensures |LineHits(lines[i], i + 1)| == |Hits(ExactlyPadded, "", lines[i])|
    ensures Part(lines, IsFence, (line, k) => KeptOn(line, k, skip, index), i)
         == Part(lines, IsTickFence, (line, k) => ReportedOn(line, k, index), i)
      <==> ScannedAlike(lines, skip, index, i)
  {
    KeptIsInProse(lines[i], i + 1, index);
    SameOnLine(lines[i], i + 1, index, ScannedByRowE(lines, skip, i), !Hidden(lines, IsTickFence, i));
  }

  lemma KeptIsInProse(line: string, lineNo: nat, index: set<string>)
    requires Clean(ExactlyPadded, "", line)
    ensures var hits := Hits(ExactlyPadded, "", line);
      && |LineHits(line, lineNo)| == |hits|
      && forall k | 0 <= k < |hits| ::
          hits[k] in hits && (InProse(line, lineNo, index, hits[k]).Some? <==> KeptByRowE(line, lineNo, index, k))
  {
    var hits := Hits(ExactlyPadded, "", line);
    NumberedLength(hits, line, lineNo, 0);
    forall k | 0 <= k < |hits|
      ensures InProse(line, lineNo, index, hits[k]).Some? <==> KeptByRowE(line, lineNo, index, k)
    {
      KeptUnfolded(line, lineNo, index, k);
    }
  }

  /**
   Over a file of clean lines row (e) keeps, in order and with their line numbers, exactly the
   padded ids that check 32 reports, if and only if each one row (e)'s predicate accepts is
   scanned by both or by neither: the fence rules, the skipped lines and the links decide.
   */
  lemma CleanFilesAgreeExactly(lines: seq<string>, skip: set<nat>, index: set<string>)
    requires forall i | 0 <= i < |lines| :: Clean(ExactlyPadded, "", lines[i])
    ensures forall i | 0 <= i < |lines| :: |LineHits(lines[i], i + 1)| == |Hits(ExactlyPadded, "", lines[i])|
    ensures RowEKeeps(lines, skip, index) == Check32Reports(lines, index) <==>
      forall i | 0 <= i < |lines| :: ScannedAlike(lines, skip, index, i)
  {
    var number := (p: Problem) => p.lineNo;
    var kept, reported := (line, k) => KeptOn(line, k, skip, index), (line, k) => ReportedOn(line, k, index);
    RowEByLine(lines, skip, index);
    Check32ByLine(lines, index);
    KeptAreNumbered(skip, index);
    ReportedAreNumbered(index);
    SameByLine(lines, IsFence, kept, IsTickFence, reported, number, |lines|);
    forall i | 0 <= i < |lines|
      ensures |LineHits(lines[i], i + 1)| == |Hits(ExactlyPadded, "", lines[i])|
      ensures Part(lines, IsFence, kept, i) == Part(lines, IsTickFence, reported, i) <==>
        ScannedAlike(lines, skip, index, i)
    {
      SameOnLineOfFile(lines, skip, index, i);
    }
  }

  lemma KeptAreNumbered(skip: set<nat>, index: set<string>)
    ensures NumbersLines((line, k) => KeptOn(line, k, skip, index), (p: Problem) => p.lineNo)
  {
    forall line, k, p | p in KeptOn(line, k, skip, index) ensures p.lineNo == k {
      SurvivorsAreHits(KeptHits(line, k, skip), index, p);
      NumberedLines(Hits(ExactlyPadded, "", line), line, k, 0);
    }
  }

  lemma SurvivorsAreHits(hits: seq<PaddedHit>, index: set<string>, p: Problem)
    requires p in Survivors(hits, index)
    ensures exists h | h in hits :: p == Shown(h)
  {
    FilterMembers(hits, IsProse);
    FilterMembers(Filter(hits, IsProse), (h: PaddedHit) => Resolves(h, index));
  }

  lemma {:induction false} NumberedLines(hits: seq<Hit>, line: string, lineNo: nat, from: nat)
    ensures forall h | h in Numbered(hits, line, lineNo, from) :: h.lineNo == lineNo
  {
    if hits != [] {
      NumberedLines(hits[1..], line, lineNo, from + 1);
    }
  }

  lemma ReportedAreNumbered(index: set<string>)
    ensures NumbersLines((line, k) => ReportedOn(line, k, index), (p: Problem) => p.lineNo)
  {
    forall line, k, p | p in ReportedOn(line, k, index) ensures p.lineNo == k {
      ReportedOfLine(line, k, index);
      CollectMembers(Hits(ExactlyPadded, "", line), (h: Hit) => InProseUnlinked(line, k, index, h));
    }
  }

  // --- Occurrence by occurrence -------------------------------------------------------

  /** The `ordinal`-th padded id of a line. */
  datatype Occurrence = Occurrence(lineNo: nat, ordinal: nat, token: string)

  function OccurrenceOf(hit: PaddedHit): Occurrence { Occurrence(hit.lineNo, hit.ordinal, hit.token) }

  function Said(o: Occurrence): Problem { Padded(o.lineNo, o.token) }

  function Occurrences(hits: seq<PaddedHit>, index: set<string>): seq<Occurrence> {
    Mapped(Accepted(hits, index), OccurrenceOf)
  }

  function KeptOccurrences(line: string, lineNo: nat, skip: set<nat>, index: set<string>): seq<Occurrence> {
    Occurrences(KeptHits(line, lineNo, skip), index)
  }

  function ReportedAt(line: string, lineNo: nat, index: set<string>, k: nat): Option<Occurrence> {
    var hits := Hits(ExactlyPadded, "", line);
    if k < |hits| && ReportedByCheck32(line, lineNo, index, hits[k]) then Some(Occurrence(lineNo, k, hits[k].text))
    else None
  }

  function ReportedOccurrences(line: string, lineNo: nat, index: set<string>): seq<Occurrence> {
    Collect(Ordinals(|Hits(ExactlyPadded, "", line)|), (k: nat) => ReportedAt(line, lineNo, index, k))
  }

  /** The padded ids of the file that row (e) is left with. */
  function RowEOccurrences(lines: seq<string>, skip: set<nat>, index: set<string>): seq<Occurrence> {
    Occurrences(CorpusHits(lines, skip), index)
  }

  /** And those check 32 reports as padded. */
  function Check32Occurrences(lines: seq<string>, index: set<string>): seq<Occurrence> {
    Visible(lines, IsTickFence, (line, k) => ReportedOccurrences(line, k, index), |lines|)
  }

  lemma ReportedIsSaid(line: string, lineNo: nat, index: set<string>)
    ensures Mapped(ReportedOccurrences(line, lineNo, index), Said) == ReportedOn(line, lineNo, index)
  {
    var hits := Hits(ExactlyPadded, "", line);
    var said := (k: nat) =>
      if k < |hits| then InProseUnlinked(line, lineNo, index, hits[k]) else None;
    forall k | k in Ordinals(|hits|)
      ensures said(k) == match ReportedAt(line, lineNo, index, k) case None => None case Some(o) => Some(Said(o))
    {
      SameOccurrences(line, lineNo, k);
      ReportUnfolded(line, lineNo, index, hits[k]);
    }
    MappedCollect(Ordinals(|hits|), (k: nat) => ReportedAt(line, lineNo, index, k), Said, said);
    CollectPaired(Ordinals(|hits|), hits, said, (h: Hit) => InProseUnlinked(line, lineNo, index, h));
    ReportedOfLine(line, lineNo, index);
  }

  /** What the two say is what their occurrences say, line and token. */
  lemma OccurrencesAreSaid(lines: seq<string>, skip: set<nat>, index: set<string>)
    ensures Mapped(RowEOccurrences(lines, skip, index), Said) == RowEKeeps(lines, skip, index)
    ensures Mapped(Check32Occurrences(lines, index), Said) == Check32Reports(lines, index)
  {
    Check32ByLine(lines, index);
    forall line, k ensures ReportedOn(line, k, index) == Mapped(ReportedOccurrences(line, k, index), Said) {
      ReportedIsSaid(line, k, index);
    }
    VisibleThrough(lines, IsTickFence, (line, k) => ReportedOccurrences(line, k, index),
                   (found: seq<Occurrence>) => Mapped(found, Said), (line, k) => ReportedOn(line, k, index), |lines|);
  }

  lemma OccurrencesJoin(a: seq<PaddedHit>, b: seq<PaddedHit>, index: set<string>)
    ensures Occurrences(a + b, index) == Occurrences(a, index) + Occurrences(b, index)
  {
    AcceptedJoin(a, b, index);
  }

  lemma OccurrencesByLine(lines: seq<string>, skip: set<nat>, index: set<string>)
    ensures RowEOccurrences(lines, skip, index)
         == Visible(lines, IsFence, (line, k) => KeptOccurrences(line, k, skip, index), |lines|)
  {
    forall a, b { OccurrencesJoin(a, b, index); }
    VisibleThrough(lines, IsFence, (line, k) => KeptHits(line, k, skip),
                   (hits: seq<PaddedHit>) => Occurrences(hits, index),
                   (line, k) => KeptOccurrences(line, k, skip, index), |lines|);
  }

  function KeptAt(line: string, lineNo: nat, index: set<string>, k: nat): Option<Occurrence> {
    if k < |LineHits(line, lineNo)| && KeptByRowE(line, lineNo, index, k)
    then Some(Occurrence(lineNo, k, LineHits(line, lineNo)[k].token))
    else None
  }

  lemma KeptOfAnyLine(line: string, lineNo: nat, index: set<string>)
    ensures Occurrences(LineHits(line, lineNo), index)
         == Collect(Ordinals(|Hits(ExactlyPadded, "", line)|), (k: nat) => KeptAt(line, lineNo, index, k))
  {
    var found, hits := LineHits(line, lineNo), Hits(ExactlyPadded, "", line);
    NumberedLength(hits, line, lineNo, 0);
    forall k | 0 <= k < |hits| ensures found[k].ordinal == k && found[k].lineNo == lineNo {
      SameOccurrences(line, lineNo, k);
    }
    SelectedAlike(found, Ordinals(|hits|), IsProse, (h: PaddedHit) => Resolves(h, index), OccurrenceOf,
                  (k: nat) => KeptAt(line, lineNo, index, k));
  }

  /** An id that resolves: scanned and taken for prose by both, or not by either. */
  predicate AgreeAt(lines: seq<string>, skip: set<nat>, index: set<string>, i: nat, k: nat)
    requires i < |lines|
  {
    var line, hits := lines[i], Hits(ExactlyPadded, "", lines[i]);
    k < |hits| && k < |LineHits(line, i + 1)| && hits[k].at <= |line| && Canonical(hits[k].text) in index ==>
      (ScannedByRowE(lines, skip, i) && IsProse(LineHits(line, i + 1)[k]))
      == (ScannedByCheck32(lines, i, hits[k]) && !Check32Path(line, hits[k]))
  }

  function KeptIf(lines: seq<string>, skip: set<nat>, index: set<string>, i: nat): nat -> Option<Occurrence>
    requires i < |lines|
  {
    (k: nat) => if ScannedByRowE(lines, skip, i) then KeptAt(lines[i], i + 1, index, k) else None
  }

  function ReportedIf(lines: seq<string>, index: set<string>, i: nat): nat -> Option<Occurrence>
    requires i < |lines|
  {
    (k: nat) => if !Hidden(lines, IsTickFence, i) then ReportedAt(lines[i], i + 1, index, k) else None
  }

  lemma AgreeAtUnfolded(lines: seq<string>, skip: set<nat>, index: set<string>, i: nat, k: nat)
    requires i < |lines| && k < |Hits(ExactlyPadded, "", lines[i])|
    ensures AgreeAt(lines, skip, index, i, k) <==> KeptIf(lines, skip, index, i)(k) == ReportedIf(lines, index, i)(k)
  {
    SameOccurrences(lines[i], i + 1, k);
    ReportUnfolded(lines[i], i + 1, index, Hits(ExactlyPadded, "", lines[i])[k]);
  }

  lemma RowEPart(lines: seq<string>, skip: set<nat>, index: set<string>, i: nat)
    requires i < |lines|
    ensures Part(lines, IsFence, (line, k) => KeptOccurrences(line, k, skip, index), i)
         == Collect(Ordinals(|Hits(ExactlyPadded, "", lines[i])|), KeptIf(lines, skip, index, i))
  {
    var ordinals := Ordinals(|Hits(ExactlyPadded, "", lines[i])|);
    var kept := (k: nat) => KeptAt(lines[i], i + 1, index, k);
    KeptOfAnyLine(lines[i], i + 1, index);
    if ScannedByRowE(lines, skip, i) {
      CollectAlike(ordinals, KeptIf(lines, skip, index, i), kept);
    } else {
      CollectsNothing(ordinals, KeptIf(lines, skip, index, i));
    }
  }

  lemma Check32Part(lines: seq<string>, index: set<string>, i: nat)
    requires i < |lines|
    ensures Part(lines, IsTickFence, (line, k) => ReportedOccurrences(line, k, index), i)
         == Collect(Ordinals(|Hits(ExactlyPadded, "", lines[i])|), ReportedIf(lines, index, i))
  {
    var ordinals := Ordinals(|Hits(ExactlyPadded, "", lines[i])|);
    if Hidden(lines, IsTickFence, i) {
      CollectsNothing(ordinals, ReportedIf(lines, index, i));
    } else {
      CollectAlike(ordinals, ReportedIf(lines, index, i), (k: nat) => ReportedAt(lines[i], i + 1, index, k));
    }
  }

  lemma SameOccurrencesOnLine(lines: seq<string>, skip: set<nat>, index: set<string>, i: nat)
    requires i < |lines|
    ensures Part(lines, IsFence, (line, k) => KeptOccurrences(line, k, skip, index), i)
         == Part(lines, IsTickFence, (line, k) => ReportedOccurrences(line, k, index), i)
      <==> forall k: nat | k < |Hits(ExactlyPadded, "", lines[i])| :: AgreeAt(lines, skip, index, i, k)
  {
    RowEPart(lines, skip, index, i);
    Check32Part(lines, index, i);
    SameTagged(|Hits(ExactlyPadded, "", lines[i])|, KeptIf(lines, skip, index, i), ReportedIf(lines, index, i),
               (o: Occurrence) => o.ordinal);
    forall k: nat | k < |Hits(ExactlyPadded, "", lines[i])| { AgreeAtUnfolded(lines, skip, index, i, k); }
  }

  /**
   Over any file row (e) is left with exactly the padded ids that check 32 reports, in order,
   if and only if each one that resolves is scanned and taken for prose by both or by neither.
   */
  lemma FileAgreementExactly(lines: seq<string>, skip: set<nat>, index: set<string>)
    ensures RowEOccurrences(lines, skip, index) == Check32Occurrences(lines, index) <==>
      forall i: nat, k: nat | i < |lines| && k < |Hits(ExactlyPadded, "", lines[i])| ::
        AgreeAt(lines, skip, index, i, k)
  {
    var number := (o: Occurrence) => o.lineNo;
    var kept, reported :=
      (line, k) => KeptOccurrences(line, k, skip, index), (line, k) => ReportedOccurrences(line, k, index);
    OccurrencesByLine(lines, skip, index);
    OccurrencesAreNumbered(skip, index);
    SameByLine(lines, IsFence, kept, IsTickFence, reported, number, |lines|);
    forall i | 0 <= i < |lines| { SameOccurrencesOnLine(lines, skip, index, i); }
  }

  lemma OccurrencesAreNumbered(skip: set<nat>, index: set<string>)
    ensures NumbersLines((line, k) => KeptOccurrences(line, k, skip, index), (o: Occurrence) => o.lineNo)
    ensures NumbersLines((line, k) => ReportedOccurrences(line, k, index), (o: Occurrence) => o.lineNo)
  {
    forall line, k, o | o in KeptOccurrences(line, k, skip, index) ensures o.lineNo == k {
      KeptOfAnyLine(line, k, index);
      CollectMembers(Ordinals(|Hits(ExactlyPadded, "", line)|), (j: nat) => KeptAt(line, k, index, j));
    }
    forall line, k, o | o in ReportedOccurrences(line, k, index) ensures o.lineNo == k {
      CollectMembers(Ordinals(|Hits(ExactlyPadded, "", line)|), (j: nat) => ReportedAt(line, k, index, j));
    }
  }

  // --- Two fence rules ----------------------------------------------------------------

  lemma IdIsPlainLine(t: string)
    requires IsIdText(ExactlyPadded, t)
    ensures '*' !in t && '[' !in t && !IsFence(t) && !IsTickFence(t)
  {
    IdTextCharacters(ExactlyPadded, t);
    SpanUnique(t, IsSpace, 0);
    assert t[0..] == t;
    forall i | 0 <= i < |t| ensures t[i] != '[' {
      IdTextAlphabet(t, i);
    }
  }

  lemma IdIsNoPath(t: string)
    requires IsIdText(ExactlyPadded, t)
    ensures !Check32Path(t, Hit(0, t))
  {
    IdTextCharacters(ExactlyPadded, t);
    assert "" + t + "" == t;
    StarlessPath("", t, "");
    assert LeftPart("") == "" && RightPart("") == "" && "" + t + "" == t;
    forall i | 0 <= i < |t| ensures t[i] != '/' && t[i] != '.' {
      IdTextAlphabet(t, i);
    }
    WordIsNoPath(t);
  }

  lemma IdLineIsKept(t: string, lineNo: nat, index: set<string>) returns (k: nat)
    requires IsIdText(ExactlyPadded, t) && Canonical(t) in index
    ensures k < |LineHits(t, lineNo)| == |Hits(ExactlyPadded, "", t)|
    ensures Hits(ExactlyPadded, "", t)[k] == Hit(0, t) && KeptByRowE(t, lineNo, index, k)
  {
    assert "" + t + "" == t;
    IdStands(ExactlyPadded, "", t, "");
    k :| 0 <= k < |Hits(ExactlyPadded, "", t)| && Hits(ExactlyPadded, "", t)[k] == Hit(0, t);
    IdIsPlainLine(t);
    StarlessIsClean(ExactlyPadded, t);
    IdIsNoPath(t);
    KeptUnfolded(t, lineNo, index, k);
  }

  /** Who scans an id on the line after `open`. */
  lemma ScannedBehind(open: string, t: string)
    requires IsIdText(ExactlyPadded, t)
    ensures ScannedByRowE([open, t], {}, 1) == !IsFence(open)
    ensures ScannedByCheck32([open, t], 1, Hit(0, t)) == !IsTickFence(open)
  {
    var lines := [open, t];
    IdIsPlainLine(t);
    NoBracketNoLink(0, t);
    assert Markers(lines, IsFence, 1) == if IsFence(open) then 1 else 0;
    assert Markers(lines, IsTickFence, 1) == if IsTickFence(open) then 1 else 0;
  }

  /** A kept id that only one of the two scans parts the populations. */
  lemma PartedBy(lines: seq<string>, skip: set<nat>, index: set<string>, i: nat, k: nat)
    requires forall j | 0 <= j < |lines| :: Clean(ExactlyPadded, "", lines[j])
    requires i < |lines| && k < |LineHits(lines[i], i + 1)| == |Hits(ExactlyPadded, "", lines[i])|
    requires KeptByRowE(lines[i], i + 1, index, k)
    requires ScannedByRowE(lines, skip, i) != ScannedByCheck32(lines, i, Hits(ExactlyPadded, "", lines[i])[k])
    ensures RowEKeeps(lines, skip, index) != Check32Reports(lines, index)
  {
    CleanFilesAgreeExactly(lines, skip, index);
    assert !ScannedAlike(lines, skip, index, i);
  }

  /** The id alone on its line. */
  lemma PartedById(lines: seq<string>, skip: set<nat>, index: set<string>, i: nat, t: string)
    requires forall j | 0 <= j < |lines| :: Clean(ExactlyPadded, "", lines[j])
    requires i < |lines| && lines[i] == t && IsIdText(ExactlyPadded, t) && Canonical(t) in index
    requires ScannedByRowE(lines, skip, i) != ScannedByCheck32(lines, i, Hit(0, t))
    ensures RowEKeeps(lines, skip, index) != Check32Reports(lines, index)
  {
    var k := IdLineIsKept(t, i + 1, index);
    PartedBy(lines, skip, index, i, k);
  }

  lemma TwoCleanLines(open: string, t: string)
    requires '*' !in open && IsIdText(ExactlyPadded, t)
    ensures forall i | 0 <= i < 2 :: Clean(ExactlyPadded, "", [open, t][i])
  {
    StarlessIsClean(ExactlyPadded, open);
    IdIsPlainLine(t);
    StarlessIsClean(ExactlyPadded, t);
  }

  /** An opening line that is a fence to one scanner alone parts the two populations. */
  lemma FencesPartTheScanners(open: string, t: string, index: set<string>)
    requires '*' !in open && IsFence(open) != IsTickFence(open)
    requires IsIdText(ExactlyPadded, t) && Canonical(t) in index
    ensures RowEKeeps([open, t], {}, index) != Check32Reports([open, t], index)
  {
    ScannedBehind(open, t);
    TwoCleanLines(open, t);
    PartedById([open, t], {}, index, 1, t);
  }

  lemma ScannedAlone(t: string)
    requires IsIdText(ExactlyPadded, t)
    ensures !ScannedByRowE([t], {0}, 0) && ScannedByCheck32([t], 0, Hit(0, t))
  {
    IdIsPlainLine(t);
    NoBracketNoLink(0, t);
    assert Markers([t], IsTickFence, 0) == 0;
  }

  lemma OneCleanLine(t: string)
    requires IsIdText(ExactlyPadded, t)
    ensures forall i | 0 <= i < 1 :: Clean(ExactlyPadded, "", [t][i])
  {
    IdIsPlainLine(t);
    StarlessIsClean(ExactlyPadded, t);
  }

  /** So does a line that row (e) skips. */
  lemma SkippedLinesPartTheScanners(t: string, index: set<string>)
    requires IsIdText(ExactlyPadded, t) && Canonical(t) in index
    ensures RowEKeeps([t], {0}, index) != Check32Reports([t], index)
  {
    ScannedAlone(t);
    OneCleanLine(t);
    PartedById([t], {0}, index, 0, t);
  }

  /** Tildes fence for row (e) alone, a deeply indented backtick fence for check 32 alone. */
  lemma TheTwoFenceRulesDiffer()
    ensures IsFence("~~~") && !IsTickFence("~~~")
    ensures !IsFence("    ```") && IsTickFence("    ```")
  {
    SpanUnique("~~~", IsSpace, 0);
    SpanUnique("    ```", IsSpace, 4);
    assert "    ```"[4..] == "```";
  }
}
