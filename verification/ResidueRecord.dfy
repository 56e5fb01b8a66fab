/**
 The governed record as text: the classes its rows may name, and the table reader.
 */
module ResidueRecord {
  import opened ControlPaths
  import opened ResidueCeiling
  import opened Text
  import opened Wrappers

  // --- The class registry -------------------------------------------------------------

  const LEGACY_FORM_COUNT: nat := 13

  const G2_CAUSES: seq<string> := [
    "other",
    "cause1-foreign-frontmatter",
    "cause2a-range-citation",
    "cause2b-notes-stub-relative-link",
    "cause3-legacy-path-citation",
    "cause4-compound-token-adjacent-uppercase",
    "cause5-fixture-corpus-old-form-ids",
    "cause6-pycache-build-artifact",
    "new-frontmatter-stamp-no-move (unassigned \U{2014} reported, not investigated)",
    "slash-compound-citation (unassigned \U{2014} reported, not investigated)",
    "unmapped-work-slice-key (named elsewhere, reported here by shape)"
  ]

  function DRowClass(index: nat): string { "d" + Numeral(index) }

  function G2Class(cause: string): string { "g2-" + cause }

  function H1Class(checkNo: string): string { "h1-check" + checkNo }

  predicate IsCheckNumber(s: string) { s != "" && AllDigits(s) }

  /** `^h1-check\d+$`: the `$` also lets one trailing newline through. */
  predicate MatchesH1(cls: string) {
    && "h1-check" <= cls
    && var rest := cls[8..];
       IsCheckNumber(rest) || (rest != "" && rest[|rest| - 1] == '\n' && IsCheckNumber(rest[..|rest| - 1]))
  }

  /** `known_w37_11_class`. */
  predicate KnownClass(cls: string) {
    if exists i | 1 <= i <= LEGACY_FORM_COUNT :: cls == DRowClass(i) then true
    else if "g2-" <= cls then cls[3..] in G2_CAUSES
    else MatchesH1(cls)
  }

  /** The extractors and the classes each of them builds. */
  datatype Extractor = DRow(index: nat) | RowG | RowH1

  ghost predicate Emits(x: Extractor, cls: string) {
    match x
    case DRow(i) => 1 <= i <= LEGACY_FORM_COUNT && cls == "d" + Numeral(i)
    case RowG => exists cause :: cause in G2_CAUSES && cls == "g2-" + cause
    case RowH1 => exists n :: IsCheckNumber(n) && cls == "h1-check" + n
  }

  /** No two extractors build the same class. */
  lemma ExtractorsNeverShareAClass(x: Extractor, y: Extractor, cls: string)
    requires Emits(x, cls) && Emits(y, cls)
    ensures x == y
  {
    match x
    case DRow(i) =>
      assert cls[0] == 'd';
      match y {
        case DRow(j) =>
          assert Numeral(i) == cls[1..] == Numeral(j);
          ParseNumeral(i);
          ParseNumeral(j);
        case _ =>
      }
    case RowG =>
      assert cls[0] == 'g';
    case RowH1 =>
      assert cls[0] == 'h';
  }

  ghost predicate Produced(cls: string) { exists x :: Emits(x, cls) }

  lemma KnownH1(cls: string)
    requires MatchesH1(cls)
    ensures Emits(RowH1, cls) || (cls != "" && cls[|cls| - 1] == '\n' && Emits(RowH1, cls[..|cls| - 1]))
  {
    var rest := cls[8..];
    assert cls == "h1-check" + rest;
    if IsCheckNumber(rest) {
      assert cls == H1Class(rest);
    } else {
      assert cls[..|cls| - 1] == H1Class(rest[..|rest| - 1]);
    }
  }

  lemma KnownIsProduced(cls: string)
    requires KnownClass(cls)
    ensures Produced(cls) || (cls != "" && cls[|cls| - 1] == '\n' && Emits(RowH1, cls[..|cls| - 1]))
  {
    if i :| 1 <= i <= LEGACY_FORM_COUNT && cls == DRowClass(i) {
      assert Emits(DRow(i), cls);
    } else if "g2-" <= cls {
      assert cls == G2Class(cls[3..]);
      assert Emits(RowG, cls);
    } else {
      KnownH1(cls);
    }
  }

  lemma ProducedIsKnown(x: Extractor, cls: string)
    requires Emits(x, cls)
    ensures KnownClass(cls)
  {
    match x
    case DRow(i) => assert cls == DRowClass(i);
    case RowG =>
      var cause :| cause in G2_CAUSES && cls == "g2-" + cause;
      assert cls[3..] == cause;
    case RowH1 =>
      var n :| IsCheckNumber(n) && cls == "h1-check" + n;
      assert cls[8..] == n && cls[0] == 'h';
  }

  lemma NewlineIsKnown(cls: string)
    requires cls != "" && cls[|cls| - 1] == '\n' && Emits(RowH1, cls[..|cls| - 1])
    ensures KnownClass(cls)
  {
    var n :| IsCheckNumber(n) && cls[..|cls| - 1] == "h1-check" + n;
    assert cls == "h1-check" + n + "\n";
    assert cls[8..] == n + "\n";
    assert cls[8..][..|n|] == n;
    assert cls[0] == 'h';
  }

  /**
   The registry accepts exactly what the extractors build, and one thing more: an h1 class
   followed by a newline.
   */
  lemma KnownExactly(cls: string)
    ensures KnownClass(cls) <==>
      Produced(cls) || (cls != "" && cls[|cls| - 1] == '\n' && Emits(RowH1, cls[..|cls| - 1]))
  {
    if KnownClass(cls) {
      KnownIsProduced(cls);
    }
    if x :| Emits(x, cls) {
      ProducedIsKnown(x, cls);
    }
    if cls != "" && cls[|cls| - 1] == '\n' && Emits(RowH1, cls[..|cls| - 1]) {
      NewlineIsKnown(cls);
    }
  }

  /** Each h1 class with a newline behind it is accepted, and no extractor builds it. */
  lemma NewlineClassIsAccepted(n: string)
    requires IsCheckNumber(n)
    ensures KnownClass(H1Class(n) + "\n") && !Produced(H1Class(n) + "\n")
  {
    var cls := H1Class(n) + "\n";
    assert cls[..|cls| - 1] == H1Class(n);
    NewlineIsKnown(cls);
    assert cls[0] == 'h' && cls[|cls| - 1] == '\n';
    if x :| Emits(x, cls) {
      EmittedShape(x, cls);
    }
  }

  lemma H1ClassEndsInDigit(n: string)
    requires IsCheckNumber(n)
    ensures var cls := H1Class(n); IsDigit(cls[|cls| - 1])
  {
    assert H1Class(n)[|H1Class(n)| - 1] == n[|n| - 1];
  }

  lemma EmittedShape(x: Extractor, cls: string)
    requires Emits(x, cls)
    ensures cls != "" && (cls[0] == 'd' || cls[0] == 'g' || IsDigit(cls[|cls| - 1]))
  {
    match x
    case DRow(i) => assert cls[0] == 'd';
    case RowG => assert cls[0] == 'g';
    case RowH1 =>
      var n :| IsCheckNumber(n) && cls == "h1-check" + n;
      H1ClassEndsInDigit(n);
  }

  /** In a stripped table cell the extra case cannot occur. */
  lemma KnownCellsAreProduced(cls: string)
    requires Trimmed(cls, IsSpace)
    ensures KnownClass(cls) <==> Produced(cls)
  {
    KnownExactly(cls);
  }

  // --- Merging the rows' residues -----------------------------------------------------

  /** One computed row: who measured, and what. */
  datatype MeasuredRow = MeasuredRow(source: Extractor, residue: map<Key, int>)

  /** `VerifyResult.measured_residue`: later rows overwrite earlier ones. */
  method MeasuredResidue(rows: seq<MeasuredRow>) returns (combined: map<Key, int>)
    ensures combined == Merged(rows)
  {
    combined := map[];
    for i := 0 to |rows|
      invariant combined == Merged(rows[..i])
    {
      assert rows[..i + 1][..i] == rows[..i];
      combined := combined + rows[i].residue;
    }
    assert rows[..|rows|] == rows;
  }

  ghost function Merged(rows: seq<MeasuredRow>): map<Key, int> {
    if rows == [] then map[] else Merged(rows[..|rows| - 1]) + rows[|rows| - 1].residue
  }

  /** Each row measures its own classes, and no two rows come from one extractor. */
  ghost predicate OwnClasses(rows: seq<MeasuredRow>) {
    && (forall r, k | r in rows && k in r.residue :: Emits(r.source, k.cls))
    && (forall i, j | 0 <= i < j < |rows| :: rows[i].source != rows[j].source)
  }

  lemma {:induction false} MergedKeys(rows: seq<MeasuredRow>)
    ensures forall k | k in Merged(rows) :: exists r :: r in rows && k in r.residue
  {
    if rows != [] {
      var init, last := rows[..|rows| - 1], rows[|rows| - 1];
      assert rows == init + [last];
      MergedKeys(init);
      forall k | k in Merged(rows) ensures exists r :: r in rows && k in r.residue {
        if k in last.residue {
          assert last in rows;
        } else {
          assert k in Merged(init);
          var r :| r in init && k in r.residue;
          assert r in rows;
        }
      }
    }
  }

  /** Then the merge overwrites nothing: every row's every count survives it. */
  lemma {:induction false} MergeOverwritesNothing(rows: seq<MeasuredRow>)
    requires OwnClasses(rows)
    ensures forall r, k | r in rows && k in r.residue :: k in Merged(rows) && Merged(rows)[k] == r.residue[k]
    ensures forall k | k in Merged(rows) :: exists r :: r in rows && k in r.residue
  {
    MergedKeys(rows);
    if rows != [] {
      var n := |rows| - 1;
      var init, last := rows[..n], rows[n];
      assert rows == init + [last];
      MergeOverwritesNothing(init);
      forall r | r in init ensures r.source != last.source {
        var i :| 0 <= i < n && rows[i] == r;
      }
      forall r, k | r in rows && k in r.residue
        ensures k in Merged(rows) && Merged(rows)[k] == r.residue[k]
      {
        if r in init && k in last.residue {
          ExtractorsNeverShareAClass(r.source, last.source, k.cls);
          assert false;
        }
      }
    }
  }

  // --- The table ----------------------------------------------------------------------

  predicate IsPipe(c: char) { c == '|' }

  const HEADER_CELLS: seq<string> := ["path", "cls", "count", "reason", "owner"]

  const RULE_CELLS: seq<string> := ["---", "---", "---", "---", "---"]

  function CellsOf(line: string): seq<string> {
    StripAll(SplitOn(Trim(line, IsPipe), '|'))
  }

  predicate IsTableLine(line: string) {
    line != "" && line[0] == '|' && line[|line| - 1] == '|'
  }

  datatype LineResult = Skipped | Entry(entry: ResidueEntry) | UnknownClass(cls: string)

  /** What one line of the record contributes. */
  function ReadLine(raw: string): LineResult {
    var line := Strip(raw);
    if IsTableLine(line) then ReadCells(CellsOf(line)) else Skipped
  }

  predicate IsRule(cell: string) {
    forall i | 0 <= i < |cell| :: cell[i] == '-' || cell[i] == ' '
  }

  function ReadCells(cells: seq<string>): LineResult {
    if |cells| != 5 || cells == HEADER_CELLS then Skipped
    else if IsRule(cells[0]) then Skipped
    else if cells[0] == "" || cells[1] == "" || !IsCheckNumber(cells[2]) then Skipped
    else if !KnownClass(cells[1]) then UnknownClass(cells[1])
    else Entry(ResidueEntry(cells[0], cells[1], ParseNat(cells[2]), cells[3], cells[4]))
  }

  /** `load_w37_11_record`: a malformed row is skipped, an unknown class is fatal. */
  method LoadRecord(lines: seq<string>) returns (r: Result<seq<ResidueEntry>, string>)
    ensures r == RecordOf(lines)
  {
    var entries: seq<ResidueEntry> := [];
    for i := 0 to |lines|
      invariant RecordOf(lines[..i]) == Success(entries)
    {
      assert lines[..i + 1][..i] == lines[..i];
      match ReadLine(lines[i])
      case Skipped =>
      case Entry(e) => entries := entries + [e];
      case UnknownClass(cls) =>
        FirstUnknownStops(lines, i + 1);
        return Failure(cls);
    }
    assert lines[..|lines|] == lines;
    return Success(entries);
  }

  ghost function RecordOf(lines: seq<string>): Result<seq<ResidueEntry>, string> {
    if lines == [] then Success([])
    else
      match RecordOf(lines[..|lines| - 1])
      case Failure(cls) => Failure(cls)
      case Success(entries) =>
        match ReadLine(lines[|lines| - 1])
        case Skipped => Success(entries)
        case Entry(e) => Success(entries + [e])
        case UnknownClass(cls) => Failure(cls)
  }

  lemma {:induction false} FirstUnknownStops(lines: seq<string>, n: nat)
    requires n <= |lines| && RecordOf(lines[..n]).Failure?
    ensures RecordOf(lines) == RecordOf(lines[..n])
    decreases |lines|
  {
    if n == |lines| {
      assert lines[..n] == lines;
    } else {
      var init := lines[..|lines| - 1];
      assert init[..n] == lines[..n];
      FirstUnknownStops(init, n);
    }
  }

  /** A cell the table can carry: trimmed, and free of the separator. */
  predicate IsCell(s: string) { Trimmed(s, IsSpace) && '|' !in s }

  function Padded(cells: seq<string>): (r: seq<string>)
    ensures |r| == |cells| && forall i | 0 <= i < |r| :: r[i] == " " + cells[i] + " "
  {
    seq(|cells|, i requires 0 <= i < |cells| => " " + cells[i] + " ")
  }

  function RenderCells(cells: seq<string>): string {
    "|" + JoinWith(Padded(cells), '|') + "|"
  }

  function RenderEntry(e: ResidueEntry): string
    requires e.count >= 0
  {
    RenderCells([e.path, e.cls, Numeral(e.count), e.reason, e.owner])
  }

  lemma PaddedCellsRead(cells: seq<string>)
    requires forall i | 0 <= i < |cells| :: IsCell(cells[i])
    ensures StripAll(Padded(cells)) == cells
    ensures forall i | 0 <= i < |cells| :: '|' !in Padded(cells)[i]
  {
    forall i | 0 <= i < |cells| ensures Strip(Padded(cells)[i]) == cells[i] && '|' !in Padded(cells)[i] {
      TrimPadded(" ", cells[i], " ", IsSpace);
    }
  }

  /** A joined row starts and ends in a blank, so trimming the bars takes exactly the two outer ones. */
  lemma MiddleKept(cells: seq<string>)
    requires |cells| > 0
    ensures var middle := JoinWith(Padded(cells), '|');
      middle != "" && middle[0] == ' ' && middle[|middle| - 1] == ' '
  {
    if |cells| > 1 {
      JoinEnds(Padded(cells), '|');
    }
  }

  /** Reading a rendered row gives its cells back. */
  lemma RenderedCells(cells: seq<string>)
    requires |cells| > 0 && forall i | 0 <= i < |cells| :: IsCell(cells[i])
    ensures var line := RenderCells(cells); Strip(line) == line && IsTableLine(line) && CellsOf(line) == cells
  {
    MiddleKept(cells);
    TrimTrimmed(RenderCells(cells), IsSpace);
    TrimPadded("|", JoinWith(Padded(cells), '|'), "|", IsPipe);
    PaddedCellsRead(cells);
    SplitJoin(Padded(cells), '|');
  }

  /** An entry the table can carry. */
  ghost predicate Renderable(e: ResidueEntry) {
    && e.count >= 0
    && IsCell(e.path) && IsCell(e.cls) && IsCell(e.reason) && IsCell(e.owner)
    && KnownClass(e.cls)
    && !IsRule(e.path)
  }

  lemma RenderedLine(cells: seq<string>)
    requires |cells| > 0 && forall i | 0 <= i < |cells| :: IsCell(cells[i])
    ensures ReadLine(RenderCells(cells)) == ReadCells(cells)
  {
    RenderedCells(cells);
  }

  lemma KnownClassStart(cls: string)
    requires KnownClass(cls)
    ensures cls != ""
  {
    KnownExactly(cls);
    if x :| Emits(x, cls) {
      assert cls[0] == 'd' || cls[0] == 'g' || cls[0] == 'h';
    }
  }

  /** Five cells whose third starts with a digit are no heading. */
  lemma CountIsNoHeading(cells: seq<string>)
    requires |cells| == 5 && cells[2] != "" && IsDigit(cells[2][0])
    ensures cells != HEADER_CELLS
  {
    assert HEADER_CELLS[2][0] == 'c';
  }

  lemma NumeralIsCell(n: nat)
    ensures IsCell(Numeral(n)) && IsDigit(Numeral(n)[0])
  {}

  lemma EntryCells(e: ResidueEntry)
    requires Renderable(e)
    ensures ReadCells([e.path, e.cls, Numeral(e.count), e.reason, e.owner]) == Entry(e)
  {
    NumeralIsCell(e.count);
    CountIsNoHeading([e.path, e.cls, Numeral(e.count), e.reason, e.owner]);
    KnownClassStart(e.cls);
    ParseNumeral(e.count);
  }

  lemma RenderedEntry(e: ResidueEntry)
    requires Renderable(e)
    ensures ReadLine(RenderEntry(e)) == Entry(e)
  {
    NumeralIsCell(e.count);
    RenderedLine([e.path, e.cls, Numeral(e.count), e.reason, e.owner]);
    EntryCells(e);
  }

  function RenderTable(entries: seq<ResidueEntry>): seq<string>
    requires forall e | e in entries :: e.count >= 0
  {
    if entries == [] then [RenderCells(HEADER_CELLS), RenderCells(RULE_CELLS)]
    else RenderTable(entries[..|entries| - 1]) + [RenderEntry(entries[|entries| - 1])]
  }

  lemma HeaderCells()
    ensures forall i | 0 <= i < 5 :: IsCell(HEADER_CELLS[i])
    ensures forall i | 0 <= i < 5 :: IsCell(RULE_CELLS[i])
  {
    assert IsCell("path") && IsCell("cls") && IsCell("count") && IsCell("reason") && IsCell("owner");
    assert IsCell("---");
  }

  lemma RenderedHeader()
    ensures RecordOf([RenderCells(HEADER_CELLS), RenderCells(RULE_CELLS)]) == Success([])
  {
    HeaderCells();
    RenderedLine(HEADER_CELLS);
    RenderedLine(RULE_CELLS);
    RecordStep([], RenderCells(HEADER_CELLS));
    RecordStep([RenderCells(HEADER_CELLS)], RenderCells(RULE_CELLS));
  }

  lemma RecordStep(lines: seq<string>, line: string)
    requires RecordOf(lines).Success?
    ensures RecordOf(lines + [line]) ==
      match ReadLine(line)
      case Skipped => RecordOf(lines)
      case Entry(e) => Success(RecordOf(lines).value + [e])
      case UnknownClass(cls) => Failure(cls)
  {
    assert (lines + [line])[..|lines|] == lines;
  }

  lemma EntryAppended(lines: seq<string>, entries: seq<ResidueEntry>, e: ResidueEntry)
    requires Renderable(e) && RecordOf(lines) == Success(entries)
    ensures RecordOf(lines + [RenderEntry(e)]) == Success(entries + [e])
  {
    RenderedEntry(e);
    RecordStep(lines, RenderEntry(e));
  }

  /** Writing entries as a table and loading the table gives the same entries in order. */
  lemma {:induction false} TableRoundTrip(entries: seq<ResidueEntry>)
    requires forall e | e in entries :: e.count >= 0 && Renderable(e)
    ensures RecordOf(RenderTable(entries)) == Success(entries)
  {
    if entries == [] {
      RenderedHeader();
    } else {
      var init, last := entries[..|entries| - 1], entries[|entries| - 1];
      assert init + [last] == entries;
      TableRoundTrip(init);
      EntryAppended(RenderTable(init), init, last);
    }
  }
}
