/**
 The two scanners of the padding rule: row (e) of the migration's verification, and check
 32 of the documentation audit.
 */
module PaddedScanners {
  import opened LeftmostScan
  import opened LineScan
  import opened Finditer
  import opened Text
  import opened Wrappers
  import opened Sequences
  import opened PaddedIds
  import opened Asterisks

  /** `PL-01240` -> `PL-1240`: the prefix and the integer. */
  function Canonical(token: string): string {
    var n := Span(token, IsUpper);
    if n == 0 || n + 1 >= |token| || token[n] != '-' || !AllDigits(token[n + 1..]) then token
    else token[..n + 1] + Numeral(ParseNat(token[n + 1..]))
  }

  predicate PathAt(line: string, at: nat, length: nat) {
    at + length <= |line| && InPath(line[..at], line[at..at + length], line[at + length..])
  }

  // --- Row (e) ------------------------------------------------------------------------

  datatype PaddedHit = PaddedHit(lineNo: nat, token: string, line: string, ordinal: nat)

  /** The hits of one line, numbered from `k`, each with the line stripped. */
  function Numbered(hits: seq<Hit>, line: string, lineNo: nat, k: nat): seq<PaddedHit> {
    if hits == [] then []
    else [PaddedHit(lineNo, hits[0].text, Strip(line), k)] + Numbered(hits[1..], line, lineNo, k + 1)
  }

  function LineHits(line: string, lineNo: nat): seq<PaddedHit> {
    Numbered(Hits(ExactlyPadded, "", line), line, lineNo, 0)
  }

  /** Conjunct 1: the number of matches on a line. */
  function MatchCount(line: string): nat { |Hits(ExactlyPadded, "", line)| }

  /** Conjunct 0: the hits of a line that is not skipped. */
  function KeptHits(line: string, lineNo: nat, skip: set<nat>): seq<PaddedHit> {
    if lineNo - 1 in skip then [] else LineHits(line, lineNo)
  }

  function CorpusHits(lines: seq<string>, skip: set<nat>): seq<PaddedHit> {
    Visible(lines, IsFence, (line, lineNo) => KeptHits(line, lineNo, skip), |lines|)
  }

  /** Conjunct 2: the hit, found again by its ordinal in the starless line, is in no path. */
  predicate IsProse(hit: PaddedHit) {
    var cleaned := Unstarred(hit.line);
    var hits := Hits(ExactlyPadded, "", cleaned);
    !(hit.ordinal < |hits| && PathAt(cleaned, hits[hit.ordinal].at, |hits[hit.ordinal].text|))
  }

  predicate Resolves(hit: PaddedHit, resolvable: set<string>) { Canonical(hit.token) in resolvable }

  method Select(hits: seq<PaddedHit>, p: PaddedHit -> bool) returns (out: seq<PaddedHit>)
    ensures out == Filter(hits, p)
  {
    out := [];
    for k := 0 to |hits|
      invariant out == Filter(hits[..k], p)
    {
      assert hits[..k + 1][..k] == hits[..k];
      if p(hits[k]) {
        out := out + [hits[k]];
      }
    }
    assert hits[..|hits|] == hits;
  }

  /** `padded_hits`, for one file: the population after each conjunct. */
  method PaddedHits(lines: seq<string>, skip: set<nat>, resolvable: set<string>)
    returns (total: nat, afterCorpus: seq<PaddedHit>, afterPath: seq<PaddedHit>, afterIndex: seq<PaddedHit>)
    ensures total == Tallied(lines, IsFence, MatchCount, |lines|)
    ensures afterCorpus == CorpusHits(lines, skip)
    ensures afterPath == Filter(afterCorpus, IsProse)
    ensures afterIndex == Filter(afterPath, (h: PaddedHit) => Resolves(h, resolvable))
  {
    total, afterCorpus := ScanLines(lines, IsFence, MatchCount, (line, lineNo) => KeptHits(line, lineNo, skip));
    afterPath := Select(afterCorpus, IsProse);
    afterIndex := Select(afterPath, (h: PaddedHit) => Resolves(h, resolvable));
  }

  // --- Check 32 -----------------------------------------------------------------------

  datatype Problem =
    | Unresolved(lineNo: nat, id: string)
    | Padded(lineNo: nat, token: string)
    | ShortPadded(lineNo: nat, token: string)
    | LinkMismatch(lineNo: nat, textId: string, targetId: string)

  /** A markdown link at a place in the line. */
  datatype Link = Link(at: nat, text: string, target: string)

  function LinkLength(text: string, target: string): nat { |text| + |target| + 4 }

  /** `\[([^\]]*)\]\(([^)]+)\)` at the head of `rest`. */
  function LinkHere(at: nat, rest: string): (r: Option<Link>)
    ensures r.Some? ==> LinkLength(r.value.text, r.value.target) <= |rest|
  {
    if rest == "" || rest[0] != '[' then None
    else
      var n := Span(rest[1..], c => c != ']');
      if n + 2 >= |rest| || rest[n + 2] != '(' then None
      else
        var m := Span(rest[n + 3..], c => c != ')');
        if m == 0 || n + 3 + m >= |rest| then None
        else Some(Link(at, rest[1..n + 1], rest[n + 3..n + 3 + m]))
  }

  function LinkSize(l: Link): nat { LinkLength(l.text, l.target) }

  /** `_MD_LINK_RE.finditer(line)`. */
  function Links(at: nat, rest: string): seq<Link> { Scanned(LinkHere, LinkSize, at, rest) }

  predicate InLink(links: seq<Link>, at: nat) {
    exists k | 0 <= k < |links| :: links[k].at <= at < links[k].at + LinkLength(links[k].text, links[k].target)
  }

  /** What check 32 makes of an id, from the four questions it asks in turn. */
  function Judged(lineNo: nat, text: string, canon: string, resolves: bool, inPath: bool, exact: bool)
    : Option<Problem>
  {
    if !resolves then Some(Unresolved(lineNo, canon))
    else if text == canon then None
    else if inPath then None
    else if exact then Some(Padded(lineNo, text))
    else Some(ShortPadded(lineNo, text))
  }

  /** Check 32's path test of a hit, on the line without asterisks. */
  predicate Check32Path(line: string, h: Hit)
    requires h.at <= |line|
  {
    PathAt(Unstarred(line), |Unstarred(line[..h.at])|, |Unstarred(h.text)|)
  }

  /** The problem with one id outside links, if there is one. */
  function HitProblem(line: string, lineNo: nat, index: set<string>, h: Hit): Option<Problem>
    requires h.at <= |line|
  {
    var canon := Canonical(h.text);
    Judged(lineNo, h.text, canon, canon in index, Check32Path(line, h), IsIdText(ExactlyPadded, h.text))
  }

  function OutsideLinks(line: string, lineNo: nat, index: set<string>, h: Hit): Option<Problem> {
    if h.at > |line| || InLink(Links(0, line), h.at) then None else HitProblem(line, lineNo, index, h)
  }

  /** The first id of a text, in canonical form. */
  function FirstId(text: string): Option<string> {
    var hits := Hits(AnyId, "", text);
    if hits == [] then None else Some(Canonical(hits[0].text))
  }

  function LinkProblem(lineNo: nat, l: Link): Option<Problem> {
    match (FirstId(l.text), FirstId(l.target))
    case (Some(a), Some(b)) => if a != b then Some(LinkMismatch(lineNo, a, b)) else None
    case _ => None
  }

  function LineProblems(line: string, lineNo: nat, index: set<string>): seq<Problem> {
    Collect(Hits(AnyId, "", line), (h: Hit) => OutsideLinks(line, lineNo, index, h))
    + Collect(Links(0, line), (l: Link) => LinkProblem(lineNo, l))
  }

  /** `^\s*` before a backtick fence: check 32's own, wider and narrower, fence rule. */
  predicate IsTickFence(line: string) { "```" <= line[Span(line, IsSpace)..] }

  function FileProblems(lines: seq<string>, index: set<string>): seq<Problem> {
    Visible(lines, IsTickFence, (line, lineNo) => LineProblems(line, lineNo, index), |lines|)
  }

  /** `citation_problems_in_file`. */
  method CitationProblems(lines: seq<string>, index: set<string>) returns (problems: seq<Problem>)
    ensures problems == FileProblems(lines, index)
  {
    var _, found := ScanLines(lines, IsTickFence, _ => 0, (line, lineNo) => LineProblems(line, lineNo, index));
    problems := found;
  }
}
