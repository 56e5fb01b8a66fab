/**
 What the lines of the governed record say, on their characters: which are rows of the table
 and what they carry, and that every other line may stand anywhere without changing the record.
 */
module RecordTexts {
  import opened ResidueCeiling
  import opened ResidueRecord
  import opened Text
  import opened TextLaws
  import opened Wrappers

  // --- Rows ---------------------------------------------------------------------------

  /** Bars at both ends, the text between them parted by bars, each cell between blanks. */
  ghost predicate IsRow(raw: string, cells: seq<string>) {
    exists line, parts :: Core(raw, line) && Parts(line, parts) && AreCores(parts, cells)
  }

  ghost predicate Parts(line: string, parts: seq<string>) {
    && |parts| > 0 && (forall i | 0 <= i < |parts| :: '|' !in parts[i])
    && Trimmed(JoinWith(parts, '|'), IsPipe)
    && exists front, back :: Barred(line, front, JoinWith(parts, '|'), back)
  }

  /** The text between bars, with one at both ends. */
  ghost predicate Barred(line: string, front: string, middle: string, back: string) {
    && AllDropped(front, IsPipe) && AllDropped(back, IsPipe)
    && line == front + middle + back && "|" <= line && line[|line| - 1] == '|'
  }

  ghost predicate AreCores(parts: seq<string>, cells: seq<string>) {
    |parts| == |cells| && forall i | 0 <= i < |parts| :: Core(parts[i], cells[i])
  }

  lemma PartsExactly(line: string, parts: seq<string>)
    ensures Parts(line, parts) <==> IsTableLine(line) && SplitOn(Trim(line, IsPipe), '|') == parts
  {
    SplitExactly(Trim(line, IsPipe), '|', parts);
    if Parts(line, parts) {
      var middle := JoinWith(parts, '|');
      var front, back :| Barred(line, front, middle, back);
      TrimPadded(front, middle, back, IsPipe);
    }
    if IsTableLine(line) && SplitOn(Trim(line, IsPipe), '|') == parts {
      var front, middle, back := TrimParts(line, IsPipe);
      assert Barred(line, front, middle, back);
    }
  }

  lemma CoresExactly(parts: seq<string>, cells: seq<string>)
    ensures AreCores(parts, cells) <==> StripAll(parts) == cells
  {
    if |parts| == |cells| {
      forall i | 0 <= i < |parts| { CoreExactly(parts[i], cells[i]); }
    }
  }

  lemma RowExactly(raw: string, cells: seq<string>)
    ensures IsRow(raw, cells) <==> IsTableLine(Strip(raw)) && CellsOf(Strip(raw)) == cells
  {
    if line, parts :| Core(raw, line) && Parts(line, parts) && AreCores(parts, cells) {
      CoreExactly(raw, line);
      PartsExactly(line, parts);
      CoresExactly(parts, cells);
    }
    if IsTableLine(Strip(raw)) && CellsOf(Strip(raw)) == cells {
      var line := Strip(raw);
      var parts := SplitOn(Trim(line, IsPipe), '|');
      CoreExactly(raw, line);
      PartsExactly(line, parts);
      CoresExactly(parts, cells);
    }
  }

  /** A path that is no rule: some character of it is neither a hyphen nor a blank. */
  predicate NamesAFile(path: string) { exists i | 0 <= i < |path| :: path[i] != '-' && path[i] != ' ' }

  /** A row of five cells that names a file, a class and a number of residual items. */
  ghost predicate IsDataRow(raw: string, path: string, cls: string, number: string, reason: string, owner: string) {
    && IsRow(raw, [path, cls, number, reason, owner])
    && NamesAFile(path) && cls != "" && IsNumber(number)
  }

  lemma DataRow(path: string, cls: string, number: string, reason: string, owner: string)
    ensures var cells := [path, cls, number, reason, owner];
      ReadCells(cells).Skipped? <==> !(NamesAFile(path) && cls != "" && IsNumber(number))
  {
    var cells := [path, cls, number, reason, owner];
    if IsNumber(number) {
      CountIsNoHeading(cells);
    }
  }

  lemma FiveCells(cells: seq<string>)
    requires |cells| == 5
    ensures cells == [cells[0], cells[1], cells[2], cells[3], cells[4]]
  {}

  lemma NotSkipped(raw: string) returns (cells: seq<string>)
    requires !ReadLine(raw).Skipped?
    ensures IsRow(raw, cells) && |cells| == 5 && ReadLine(raw) == ReadCells(cells)
    ensures IsDataRow(raw, cells[0], cells[1], cells[2], cells[3], cells[4])
  {
    cells := CellsOf(Strip(raw));
    RowExactly(raw, cells);
    FiveCells(cells);
    DataRow(cells[0], cells[1], cells[2], cells[3], cells[4]);
  }

  lemma CellsTrimmed(raw: string, cells: seq<string>)
    requires IsRow(raw, cells)
    ensures forall i | 0 <= i < |cells| :: Trimmed(cells[i], IsSpace)
  {}

  lemma DataRowRead(raw: string, path: string, cls: string, number: string, reason: string, owner: string)
    requires IsDataRow(raw, path, cls, number, reason, owner)
    ensures ReadLine(raw) ==
      if KnownClass(cls) then Entry(ResidueEntry(path, cls, ParseNat(number), reason, owner)) else UnknownClass(cls)
    ensures KnownClass(cls) <==> Produced(cls)
  {
    var cells := [path, cls, number, reason, owner];
    RowExactly(raw, cells);
    DataRow(path, cls, number, reason, owner);
    CellsTrimmed(raw, cells);
    assert Trimmed(cells[1], IsSpace);
    KnownCellsAreProduced(cls);
  }

  /** The line is a row that carries the entry: an extractor's class, and the number of its digits. */
  ghost predicate CarriesEntry(raw: string, e: ResidueEntry) {
    Produced(e.cls) && e.count >= 0 && exists k: nat :: CarriesBehindZeros(raw, e, k)
  }

  ghost predicate CarriesBehindZeros(raw: string, e: ResidueEntry, k: nat)
    requires e.count >= 0
  {
    IsDataRow(raw, e.path, e.cls, Zeros(k) + Numeral(e.count), e.reason, e.owner)
  }

  /** The line is a row that names a class no extractor builds. */
  ghost predicate NamesUnknown(raw: string, cls: string) {
    !Produced(cls) && exists path, number, reason, owner :: IsDataRow(raw, path, cls, number, reason, owner)
  }

  lemma EntryReadExactly(raw: string, e: ResidueEntry)
    ensures ReadLine(raw) == Entry(e) <==> CarriesEntry(raw, e)
  {
    if CarriesEntry(raw, e) {
      var k: nat :| CarriesBehindZeros(raw, e, k);
      DataRowRead(raw, e.path, e.cls, Zeros(k) + Numeral(e.count), e.reason, e.owner);
      ZerosAndNumeral(k, e.count);
    }
    if ReadLine(raw) == Entry(e) {
      var cells := NotSkipped(raw);
      DataRowRead(raw, cells[0], cells[1], cells[2], cells[3], cells[4]);
      var k := DigitsAreNumeral(cells[2]);
      assert CarriesBehindZeros(raw, e, k);
    }
  }

  lemma UnknownReadExactly(raw: string, cls: string)
    ensures ReadLine(raw) == UnknownClass(cls) <==> NamesUnknown(raw, cls)
  {
    if NamesUnknown(raw, cls) {
      var path, number, reason, owner :| IsDataRow(raw, path, cls, number, reason, owner);
      DataRowRead(raw, path, cls, number, reason, owner);
    }
    if ReadLine(raw) == UnknownClass(cls) {
      var cells := NotSkipped(raw);
      DataRowRead(raw, cells[0], cells[1], cells[2], cells[3], cells[4]);
    }
  }

  /** Everything else is passed over. */
  ghost predicate IsProse(raw: string) {
    forall path, cls, number, reason, owner :: !IsDataRow(raw, path, cls, number, reason, owner)
  }

  lemma ProseExactly(raw: string)
    ensures ReadLine(raw).Skipped? <==> IsProse(raw)
  {
    if !ReadLine(raw).Skipped? {
      var cells := NotSkipped(raw);
      assert IsDataRow(raw, cells[0], cells[1], cells[2], cells[3], cells[4]);
    }
    forall path, cls, number, reason, owner
      ensures IsDataRow(raw, path, cls, number, reason, owner) ==> !ReadLine(raw).Skipped?
    {
      if IsDataRow(raw, path, cls, number, reason, owner) {
        DataRowRead(raw, path, cls, number, reason, owner);
      }
    }
  }

  // --- Records ------------------------------------------------------------------------

  /** The entries the lines carry, in order, prose apart. */
  ghost predicate CarryEntries(lines: seq<string>, entries: seq<ResidueEntry>) {
    if lines == [] then entries == []
    else
      var init, last := lines[..|lines| - 1], lines[|lines| - 1];
      || (IsProse(last) && CarryEntries(init, entries))
      || (entries != [] && CarriesEntry(last, entries[|entries| - 1]) && CarryEntries(init, entries[..|entries| - 1]))
  }

  lemma LastAndInit<T>(s: seq<T>, init: seq<T>, last: T)
    requires s == init + [last]
    ensures s != [] && s[|s| - 1] == last && s[..|s| - 1] == init
  {}

  /** The record a table makes: its rows' entries and no others, in order. */
  lemma {:induction false} RecordReadExactly(lines: seq<string>, entries: seq<ResidueEntry>)
    ensures RecordOf(lines) == Success(entries) <==> CarryEntries(lines, entries)
  {
    if lines != [] {
      var init, last := lines[..|lines| - 1], lines[|lines| - 1];
      ProseExactly(last);
      RecordReadExactly(init, entries);
      if entries != [] {
        var e := entries[|entries| - 1];
        EntryReadExactly(last, e);
        RecordReadExactly(init, entries[..|entries| - 1]);
        assert entries == entries[..|entries| - 1] + [e];
      }
      if RecordOf(lines) == Success(entries) && ReadLine(last).Entry? {
        LastAndInit(entries, RecordOf(init).value, ReadLine(last).entry);
      }
    }
  }

  ghost predicate IsRefused(raw: string) { exists cls :: NamesUnknown(raw, cls) }

  lemma RefusedLine(raw: string)
    ensures IsRefused(raw) <==> ReadLine(raw).UnknownClass?
  {
    if cls :| NamesUnknown(raw, cls) {
      UnknownReadExactly(raw, cls);
    }
    match ReadLine(raw)
    case UnknownClass(cls) => UnknownReadExactly(raw, cls);
    case _ =>
  }

  ghost predicate NoneRefused(lines: seq<string>, n: nat)
    requires n <= |lines|
  {
    forall j | 0 <= j < n :: !IsRefused(lines[j])
  }

  /** Line `i` names a class no extractor builds, and no line before it does. */
  ghost predicate FirstUnknown(lines: seq<string>, i: nat, cls: string) {
    i < |lines| && NamesUnknown(lines[i], cls) && NoneRefused(lines, i)
  }

  ghost predicate UnknownFrom(lines: seq<string>, cls: string) { exists i: nat :: FirstUnknown(lines, i, cls) }

  lemma SameFront(lines: seq<string>, i: nat)
    requires lines != [] && i < |lines|
    ensures NoneRefused(lines, i) <==> NoneRefused(lines[..|lines| - 1], i)
  {
    var init := lines[..|lines| - 1];
    assert forall j | 0 <= j < i :: init[j] == lines[j];
  }

  lemma UnknownInInit(lines: seq<string>, cls: string)
    requires lines != []
    ensures var init, last := lines[..|lines| - 1], lines[|lines| - 1];
      UnknownFrom(lines, cls) <==>
        UnknownFrom(init, cls) || (NamesUnknown(last, cls) && NoneRefused(init, |init|))
  {
    var n := |lines| - 1;
    var init := lines[..n];
    SameFront(lines, n);
    if i: nat :| FirstUnknown(lines, i, cls) {
      SameFront(lines, i);
      if i < n {
        assert FirstUnknown(init, i, cls);
      }
    }
    if i: nat :| FirstUnknown(init, i, cls) {
      SameFront(lines, i);
      assert FirstUnknown(lines, i, cls);
    }
    if NamesUnknown(lines[n], cls) && NoneRefused(init, n) {
      assert FirstUnknown(lines, n, cls);
    }
  }

  lemma {:induction false} NoUnknownExactly(lines: seq<string>)
    ensures RecordOf(lines).Success? <==> NoneRefused(lines, |lines|)
  {
    if lines != [] {
      var n := |lines| - 1;
      NoUnknownExactly(lines[..n]);
      SameFront(lines, n);
      RefusedLine(lines[n]);
      assert NoneRefused(lines, |lines|) <==> NoneRefused(lines, n) && !IsRefused(lines[n]);
    }
  }

  /** A record is refused exactly at its first row that names a class no extractor builds. */
  lemma {:induction false} RecordRefusedExactly(lines: seq<string>, cls: string)
    ensures RecordOf(lines) == Failure(cls) <==> UnknownFrom(lines, cls)
  {
    if lines != [] {
      var init, last := lines[..|lines| - 1], lines[|lines| - 1];
      RecordRefusedExactly(init, cls);
      UnknownInInit(lines, cls);
      UnknownReadExactly(last, cls);
      NoUnknownExactly(init);
    }
  }

  /** The record with one line more. */
  function NextRecord(r: Result<seq<ResidueEntry>, string>, line: LineResult): Result<seq<ResidueEntry>, string> {
    match r
    case Failure(cls) => Failure(cls)
    case Success(entries) =>
      match line
      case Skipped => Success(entries)
      case Entry(e) => Success(entries + [e])
      case UnknownClass(cls) => Failure(cls)
  }

  lemma RecordNext(lines: seq<string>, line: string)
    ensures RecordOf(lines + [line]) == NextRecord(RecordOf(lines), ReadLine(line))
  {
    LastAndInit(lines + [line], lines, line);
  }

  lemma BehindTheLast(a: seq<string>, rest: seq<string>)
    requires rest != []
    ensures a + rest == a + rest[..|rest| - 1] + [rest[|rest| - 1]]
  {}

  /** What is read after two stretches of lines depends on the first one only through its record. */
  lemma {:induction false} SameRecordBefore(a: seq<string>, b: seq<string>, rest: seq<string>)
    requires RecordOf(a) == RecordOf(b)
    ensures RecordOf(a + rest) == RecordOf(b + rest)
    decreases |rest|
  {
    if rest == [] {
      assert a + rest == a && b + rest == b;
    } else {
      var init, last := rest[..|rest| - 1], rest[|rest| - 1];
      SameRecordBefore(a, b, init);
      BehindTheLast(a, rest);
      BehindTheLast(b, rest);
      RecordNext(a + init, last);
      RecordNext(b + init, last);
    }
  }

  /** Prose may stand anywhere: it changes neither the entries nor the refusal. */
  lemma ProseChangesNothing(before: seq<string>, line: string, after: seq<string>)
    requires IsProse(line)
    ensures RecordOf(before + [line] + after) == RecordOf(before + after)
  {
    ProseExactly(line);
    LastAndInit(before + [line], before, line);
    SameRecordBefore(before + [line], before, after);
  }

  // --- What is prose ------------------------------------------------------------------

  /** The text between the blanks does not both start and end with a bar. */
  lemma UnbarredIsProse(raw: string, line: string)
    requires Core(raw, line) && (line == "" || line[0] != '|' || line[|line| - 1] != '|')
    ensures IsProse(raw)
  {
    CoreExactly(raw, line);
    ProseExactly(raw);
  }

  /** A row without five cells, the heading, the rule, a row without file or class, and one without a number. */
  lemma OddRowIsProse(raw: string, cells: seq<string>)
    requires IsRow(raw, cells)
    requires
      || |cells| != 5 || cells == ["path", "cls", "count", "reason", "owner"]
      || !NamesAFile(cells[0]) || cells[1] == "" || cells[2] == "" || !AllDigits(cells[2])
    ensures IsProse(raw)
  {
    RowExactly(raw, cells);
    ProseExactly(raw);
    if |cells| == 5 {
      FiveCells(cells);
      DataRow(cells[0], cells[1], cells[2], cells[3], cells[4]);
    }
  }

  // --- Round trip ---------------------------------------------------------------------

  /** The entries' rendered rows in order, with prose before, between and after them. */
  ghost predicate Weaves(lines: seq<string>, entries: seq<ResidueEntry>) {
    if lines == [] then entries == []
    else
      var init, last := lines[..|lines| - 1], lines[|lines| - 1];
      || (IsProse(last) && Weaves(init, entries))
      || (entries != [] && Renderable(entries[|entries| - 1]) && last == RenderEntry(entries[|entries| - 1])
          && Weaves(init, entries[..|entries| - 1]))
  }

  /** Written as rows among any prose, entries are loaded as they were. */
  lemma {:induction false} WovenTableRoundTrip(lines: seq<string>, entries: seq<ResidueEntry>)
    requires Weaves(lines, entries)
    ensures RecordOf(lines) == Success(entries)
  {
    if lines != [] {
      var init, last := lines[..|lines| - 1], lines[|lines| - 1];
      ProseExactly(last);
      if IsProse(last) && Weaves(init, entries) {
        WovenTableRoundTrip(init, entries);
      } else {
        var e := entries[|entries| - 1];
        WovenTableRoundTrip(init, entries[..|entries| - 1]);
        RenderedEntry(e);
        assert entries == entries[..|entries| - 1] + [e];
      }
    }
  }
}
