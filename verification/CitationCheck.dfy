/**
 What check 32 reports about a file, on the characters of its lines: exactly the ids outside
 links that do not resolve, that are padded outside a path, and the links whose two ids differ.
 */
module CitationCheck {
  import opened Finditer
  import opened LineScan
  import opened Sequences
  import opened Text
  import opened TextLaws
  import opened Wrappers
  import opened PaddedIds
  import opened Asterisks
  import opened PaddedScanners
  import opened PathTexts
  import opened CitationTexts

  // --- Ids outside links --------------------------------------------------------------

  /** The line cites an id at `at`, outside every link. */
  ghost predicate Cited(line: string, at: nat, prefix: string, zeros: nat, n: nat) {
    CitesAt(line, at, prefix, zeros, n) && !InsideLink(line, at)
  }

  ghost predicate InsideLink(line: string, at: nat) {
    exists ls :: ReadsLinks(line, ls) && Covers(ls, at)
  }

  ghost predicate Covers(ls: seq<Link>, at: nat) {
    exists k | 0 <= k < |ls| :: ls[k].at <= at < ls[k].at + |ls[k].text| + |ls[k].target| + 4
  }

  lemma InsideExactly(line: string, at: nat)
    ensures InLink(Links(0, line), at) <==> InsideLink(line, at)
  {
    LinksExactly(line, Links(0, line));
    if ls :| ReadsLinks(line, ls) && Covers(ls, at) {
      LinksExactly(line, ls);
    }
  }

  /** The text at `at` of length `k` sits in a path once all asterisks are off. */
  ghost predicate PathWithoutStars(line: string, at: nat, k: nat)
    requires at + k <= |line|
  {
    SitsInPath(Unstarred(line[..at]), line[at..at + k], Unstarred(line[at + k..]))
  }

  lemma StarlessPath(line: string, at: nat, t: string)
    requires StandsAt(line, at, t) && '*' !in t
    ensures Check32Path(line, Hit(at, t)) <==> PathWithoutStars(line, at, |t|)
  {
    var end := at + |t|;
    assert line == line[..at] + t + line[end..];
    ThreeParts(line[..at], t, line[end..]);
    InPathExactly(Unstarred(line[..at]), t, Unstarred(line[end..]));
  }

  lemma ThreeParts(before: string, t: string, after: string)
    requires '*' !in t
    ensures Unstarred(t) == t && Unstarred(before + t + after) == Unstarred(before) + t + Unstarred(after)
    ensures var line, at := Unstarred(before + t + after), |Unstarred(before)|;
      line[..at] == Unstarred(before) && line[at..at + |t|] == t && line[at + |t|..] == Unstarred(after)
  {
    NothingToDelete(t);
    UnstarredJoin(before, t);
    UnstarredJoin(before + t, after);
  }

  lemma SpelledHasNoStar(t: string, prefix: string, zeros: nat, n: nat)
    requires Spells(t, prefix, zeros, n)
    ensures '*' !in t
  {
    SpelledIsId(t, prefix, zeros, n);
    IdTextCharacters(AnyId, t);
  }

  // --- What is said about one id ------------------------------------------------------

  /** An id that is not in the index. */
  ghost predicate Dangling(line: string, index: set<string>, at: nat, prefix: string, zeros: nat, n: nat) {
    Cited(line, at, prefix, zeros, n) && IdOf(prefix, n) !in index
  }

  /** A padded id of the index, outside every path, at `at`. */
  ghost predicate PaddedAt(line: string, index: set<string>, at: nat, prefix: string, zeros: nat, n: nat) {
    && Cited(line, at, prefix, zeros, n) && IdOf(prefix, n) in index && zeros > 0
    && !PathWithoutStars(line, at, |prefix + "-" + Zeros(zeros) + Numeral(n)|)
  }

  /** The problem with a cited id, from its padding, the index and the path test. */
  function Complaint(lineNo: nat, t: string, prefix: string, zeros: nat, n: nat, known: bool, inPath: bool)
    : Option<Problem>
  {
    if !known then Some(Unresolved(lineNo, IdOf(prefix, n)))
    else if zeros == 0 || inPath then None
    else if zeros + |Numeral(n)| == 5 then Some(Padded(lineNo, t))
    else Some(ShortPadded(lineNo, t))
  }

  lemma HitComplaint(
      line: string, lineNo: nat, index: set<string>, at: nat, t: string, prefix: string, zeros: nat, n: nat)
    requires Spells(t, prefix, zeros, n) && StandsAt(line, at, t)
    ensures OutsideLinks(line, lineNo, index, Hit(at, t)) ==
      if InsideLink(line, at) then None
      else Complaint(lineNo, t, prefix, zeros, n, IdOf(prefix, n) in index, PathWithoutStars(line, at, |t|))
  {
    SpelledIsId(t, prefix, zeros, n);
    SpelledHasNoStar(t, prefix, zeros, n);
    StarlessPath(line, at, t);
    InsideExactly(line, at);
  }

  /** Some cited id makes this problem. */
  ghost predicate Complains(line: string, lineNo: nat, index: set<string>, p: Problem) {
    exists at: nat, prefix, zeros: nat, n: nat :: ComplainsAt(line, lineNo, index, p, at, prefix, zeros, n)
  }

  ghost predicate ComplainsAt(
      line: string, lineNo: nat, index: set<string>, p: Problem, at: nat, prefix: string, zeros: nat, n: nat) {
    && Cited(line, at, prefix, zeros, n)
    && var t := prefix + "-" + Zeros(zeros) + Numeral(n);
       var c := Complaint(lineNo, t, prefix, zeros, n, IdOf(prefix, n) in index, PathWithoutStars(line, at, |t|));
       c.Some? && c.value == p
  }

  lemma HitsComplain(line: string, lineNo: nat, index: set<string>, p: Problem)
    ensures (exists h :: h in Hits(AnyId, "", line) && OutsideLinks(line, lineNo, index, h) == Some(p)) <==>
      Complains(line, lineNo, index, p)
  {
    if h :| h in Hits(AnyId, "", line) && OutsideLinks(line, lineNo, index, h) == Some(p) {
      CitedExactly(line, h.at, h.text);
      var prefix, zeros, n :| Spells(h.text, prefix, zeros, n) && CitesAt(line, h.at, prefix, zeros, n);
      HitComplaint(line, lineNo, index, h.at, h.text, prefix, zeros, n);
      assert ComplainsAt(line, lineNo, index, p, h.at, prefix, zeros, n);
    }
    if at, prefix, zeros, n :| ComplainsAt(line, lineNo, index, p, at, prefix, zeros, n) {
      var t := prefix + "-" + Zeros(zeros) + Numeral(n);
      CitedExactly(line, at, t);
      HitComplaint(line, lineNo, index, at, t, prefix, zeros, n);
      assert Hit(at, t) in Hits(AnyId, "", line) && OutsideLinks(line, lineNo, index, Hit(at, t)) == Some(p);
    }
  }

  // --- What is said about a line ------------------------------------------------------

  /** An id of the line, outside links, has no entry in the index. */
  ghost predicate LacksEntry(line: string, index: set<string>, id: string) {
    exists at: nat, prefix, zeros: nat, n: nat :: Dangling(line, index, at, prefix, zeros, n) && id == IdOf(prefix, n)
  }

  /** The line writes an id of the index with leading zeros, outside links and paths; `exact`: five digits in all. */
  ghost predicate WritesPadded(line: string, index: set<string>, token: string, exact: bool) {
    exists at: nat, prefix, zeros: nat, n: nat :: WritesPaddedAt(line, index, token, exact, at, prefix, zeros, n)
  }

  ghost predicate WritesPaddedAt(
      line: string, index: set<string>, token: string, exact: bool, at: nat, prefix: string, zeros: nat, n: nat) {
    && PaddedAt(line, index, at, prefix, zeros, n) && token == prefix + "-" + Zeros(zeros) + Numeral(n)
    && (exact <==> zeros + |Numeral(n)| == 5)
  }

  /** A link of the line cites one id in its text and another in its target. */
  ghost predicate LinksAcross(line: string, a: string, b: string) {
    a != b && exists ls, l: Link ::
      ReadsLinks(line, ls) && l in ls && FirstCites(l.text, a) && FirstCites(l.target, b)
  }

  ghost predicate Says(line: string, index: set<string>, p: Problem) {
    match p
    case Unresolved(_, id) => LacksEntry(line, index, id)
    case Padded(_, token) => WritesPadded(line, index, token, true)
    case ShortPadded(_, token) => WritesPadded(line, index, token, false)
    case LinkMismatch(_, a, b) => LinksAcross(line, a, b)
  }

  lemma ComplaintsSay(line: string, lineNo: nat, index: set<string>, p: Problem)
    ensures Complains(line, lineNo, index, p) <==> p.lineNo == lineNo && !p.LinkMismatch? && Says(line, index, p)
  {
    if at, prefix, zeros, n :| ComplainsAt(line, lineNo, index, p, at, prefix, zeros, n) {
      ComplaintSays(line, lineNo, index, p, at, prefix, zeros, n);
    }
    if p.lineNo == lineNo && !p.LinkMismatch? && Says(line, index, p) {
      SaidIsComplaint(line, lineNo, index, p);
    }
  }

  lemma ComplaintSays(
      line: string, lineNo: nat, index: set<string>, p: Problem, at: nat, prefix: string, zeros: nat, n: nat)
    requires ComplainsAt(line, lineNo, index, p, at, prefix, zeros, n)
    ensures p.lineNo == lineNo && !p.LinkMismatch? && Says(line, index, p)
  {
    if IdOf(prefix, n) in index {
      var token := prefix + "-" + Zeros(zeros) + Numeral(n);
      assert WritesPaddedAt(line, index, token, zeros + |Numeral(n)| == 5, at, prefix, zeros, n);
    } else {
      assert Dangling(line, index, at, prefix, zeros, n);
    }
  }

  lemma SaidIsComplaint(line: string, lineNo: nat, index: set<string>, p: Problem)
    requires p.lineNo == lineNo && !p.LinkMismatch? && Says(line, index, p)
    ensures Complains(line, lineNo, index, p)
  {
    match p
    case Unresolved(_, id) =>
      var at, prefix, zeros, n :| Dangling(line, index, at, prefix, zeros, n) && id == IdOf(prefix, n);
      assert ComplainsAt(line, lineNo, index, p, at, prefix, zeros, n);
    case Padded(_, token) => PaddedIsComplaint(line, lineNo, index, token, true);
    case ShortPadded(_, token) => PaddedIsComplaint(line, lineNo, index, token, false);
  }

  lemma ComplaintOfPadded(lineNo: nat, t: string, prefix: string, zeros: nat, n: nat, exact: bool)
    requires zeros > 0 && (exact <==> zeros + |Numeral(n)| == 5)
    ensures var c := Complaint(lineNo, t, prefix, zeros, n, true, false);
      c.Some? && c.value == if exact then Padded(lineNo, t) else ShortPadded(lineNo, t)
  {}

  lemma PaddedComplains(
      line: string, lineNo: nat, index: set<string>, token: string, exact: bool,
      at: nat, prefix: string, zeros: nat, n: nat)
    requires WritesPaddedAt(line, index, token, exact, at, prefix, zeros, n)
    ensures ComplainsAt(line, lineNo, index, if exact then Padded(lineNo, token) else ShortPadded(lineNo, token),
                        at, prefix, zeros, n)
  {
    ComplaintOfPadded(lineNo, token, prefix, zeros, n, exact);
  }

  lemma PaddedIsComplaint(line: string, lineNo: nat, index: set<string>, token: string, exact: bool)
    requires WritesPadded(line, index, token, exact)
    ensures Complains(line, lineNo, index, if exact then Padded(lineNo, token) else ShortPadded(lineNo, token))
  {
    var at: nat, prefix, zeros: nat, n: nat :| WritesPaddedAt(line, index, token, exact, at, prefix, zeros, n);
    PaddedComplains(line, lineNo, index, token, exact, at, prefix, zeros, n);
  }

  lemma LinkProblemIs(lineNo: nat, l: Link, p: Problem)
    ensures LinkProblem(lineNo, l) == Some(p) <==>
      && p.LinkMismatch? && p.lineNo == lineNo && p.textId != p.targetId
      && FirstId(l.text) == Some(p.textId) && FirstId(l.target) == Some(p.targetId)
  {}

  lemma LinkReported(lineNo: nat, l: Link, p: Problem)
    ensures LinkProblem(lineNo, l) == Some(p) <==>
      && p.LinkMismatch? && p.lineNo == lineNo && p.textId != p.targetId
      && FirstCites(l.text, p.textId) && FirstCites(l.target, p.targetId)
  {
    LinkProblemIs(lineNo, l, p);
    if p.LinkMismatch? {
      FirstIdExactly(l.text, p.textId);
      FirstIdExactly(l.target, p.targetId);
    }
  }

  lemma LinksReport(line: string, lineNo: nat, p: Problem)
    ensures (exists l :: l in Links(0, line) && LinkProblem(lineNo, l) == Some(p)) <==>
      p.LinkMismatch? && p.lineNo == lineNo && LinksAcross(line, p.textId, p.targetId)
  {
    LinksExactly(line, Links(0, line));
    if l :| l in Links(0, line) && LinkProblem(lineNo, l) == Some(p) {
      LinkReported(lineNo, l, p);
    }
    if p.LinkMismatch? && p.lineNo == lineNo && LinksAcross(line, p.textId, p.targetId) {
      var ls, l: Link :|
        ReadsLinks(line, ls) && l in ls && FirstCites(l.text, p.textId) && FirstCites(l.target, p.targetId);
      LinksExactly(line, ls);
      LinkReported(lineNo, l, p);
    }
  }

  lemma LineReportsExactly(line: string, lineNo: nat, index: set<string>, p: Problem)
    ensures p in LineProblems(line, lineNo, index) <==> p.lineNo == lineNo && Says(line, index, p)
  {
    CollectMembers(Hits(AnyId, "", line), (h: Hit) => OutsideLinks(line, lineNo, index, h));
    CollectMembers(Links(0, line), (l: Link) => LinkProblem(lineNo, l));
    HitsComplain(line, lineNo, index, p);
    ComplaintsSay(line, lineNo, index, p);
    LinksReport(line, lineNo, p);
  }

  // --- The report on a file -----------------------------------------------------------

  /** What check 32 says about one line of a file. */
  ghost function ProblemsOf(index: set<string>): (string, nat) -> seq<Problem> {
    (line: string, lineNo: nat) => LineProblems(line, lineNo, index)
  }

  lemma {:induction false} FileByLines(lines: seq<string>, index: set<string>, n: nat)
    requires n <= |lines|
    ensures Visible(lines, IsTickFence, (line, lineNo) => LineProblems(line, lineNo, index), n)
         == Visible(lines, IsTickFence, ProblemsOf(index), n)
  {
    if n > 0 {
      FileByLines(lines, index, n - 1);
    }
  }

  lemma TicksExactly()
    ensures SameLines(IsTickFence, TickLine)
  {
    forall line ensures IsTickFence(line) <==> TickLine(line) {
      TickExactly(line);
    }
  }

  ghost function SaysIt(index: set<string>, p: Problem): string -> bool { line => Says(line, index, p) }

  lemma LinesReport(lines: seq<string>, index: set<string>, p: Problem)
    ensures forall j: nat | j < |lines| :: SaidBy(lines, ProblemsOf(index), p, p.lineNo, SaysIt(index, p), j)
  {
    forall j: nat | j < |lines| ensures SaidBy(lines, ProblemsOf(index), p, p.lineNo, SaysIt(index, p), j) {
      LineReportsExactly(lines[j], j + 1, index, p);
    }
  }

  /**
   Check 32 reports a problem if and only if the line it names stands outside every fence and
   says it: an id without an entry, a padded one, or a link between two different ids.
   */
  lemma ReportedExactly(lines: seq<string>, index: set<string>, p: Problem)
    ensures p in FileProblems(lines, index) <==>
      && 1 <= p.lineNo <= |lines| && OutsideFences(lines, TickLine, p.lineNo - 1)
      && Says(lines[p.lineNo - 1], index, p)
  {
    FileByLines(lines, index, |lines|);
    TicksExactly();
    LinesReport(lines, index, p);
    VisibleSaid(lines, IsTickFence, TickLine, ProblemsOf(index), p, p.lineNo, SaysIt(index, p), |lines|);
  }
}
