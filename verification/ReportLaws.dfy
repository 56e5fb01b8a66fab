/**
 What the printer and the reader of the failure report promise together: every message
 lands on one side, and reading the printed text gives back what was printed. The two
 readers resolve file tokens against corpora of their own; `Corpora` says what follows.
 */
module ReportLaws {
  import opened ControlPaths
  import opened FailureReport
  import opened FiniteSums
  import opened ResidueCeiling
  import opened Sequences
  import opened Text
  import opened Wrappers

  // --- Which side a message lands on --------------------------------------------------

  /** What the partition returns when it does not raise. */
  ghost function PartitionOf(
      failures: seq<string>, record: seq<ResidueEntry>, known: set<string>, m: RedirectMaps): Split {
    if record == [] then Split(failures, []) else SplitOf(failures, record, known, m)
  }

  /** The message carries control key `j`. */
  ghost predicate Carries(msg: string, known: set<string>, m: RedirectMaps, j: Key) {
    match ResidueKey(msg, known)
    case None => false
    case Some(k) => ResolveKey(m, k) == j
  }

  lemma MappedMembers<K(!new), J(!new)>(keys: seq<K>, f: K -> J, j: J)
    ensures j in Mapped(keys, f) <==> exists k :: k in keys && f(k) == j
  {
    if k :| k in keys && f(k) == j {
      var i :| 0 <= i < |keys| && keys[i] == k;
      assert Mapped(keys, f)[i] == j;
    }
    if j in Mapped(keys, f) {
      var i :| 0 <= i < |keys| && Mapped(keys, f)[i] == j;
      assert keys[i] in keys;
    }
  }

  /** The population counts exactly the control keys that occur, each at least once. */
  lemma PopulationKeys(failures: seq<string>, known: set<string>, m: RedirectMaps, j: Key)
    ensures j in Population(failures, known, m) <==> exists msg :: msg in failures && Carries(msg, known, m, j)
    ensures j in Population(failures, known, m) ==> Population(failures, known, m)[j] >= 1
  {
    var keys := KeysOf(failures, known);
    var resolver := Resolver(m);
    CollectMembers(failures, Keyer(known));
    MappedMembers(keys, resolver, j);
    TallyCounts(Mapped(keys, resolver), j);
    if msg :| msg in failures && Carries(msg, known, m, j) {
      var k := ResidueKey(msg, known).value;
      assert Keyer(known)(msg) == Some(k);
      assert k in keys && resolver(k) == j;
    }
    if j in Population(failures, known, m) {
      var k :| k in keys && resolver(k) == j;
      var msg :| msg in failures && Keyer(known)(msg) == Some(k);
      assert Carries(msg, known, m, j);
    }
  }

  /** And each as often as a failure carries it. */
  lemma PopulationCounts(failures: seq<string>, known: set<string>, m: RedirectMaps, j: Key)
    ensures Count(Population(failures, known, m), j) == |Filter(failures, msg => Carries(msg, known, m, j))|
  {
    var keys := Mapped(KeysOf(failures, known), Resolver(m));
    var control: string -> Option<Key> := msg =>
      match ResidueKey(msg, known) case None => None case Some(k) => Some(ResolveKey(m, k));
    MappedCollect(failures, Keyer(known), Resolver(m), control);
    CollectCount(failures, control, j, msg => Carries(msg, known, m, j));
    TallyCounts(keys, j);
  }

  /**
   All messages of one control key land on one side: disclosed exactly when the record
   names the key at or above its whole population. Unkeyed messages are always counted.
   */
  lemma OneKeyOneSide(
      failures: seq<string>, record: seq<ResidueEntry>, known: set<string>, m: RedirectMaps, msg: string)
    requires msg in failures && record != []
    ensures var split := PartitionOf(failures, record, known, m);
      && (msg in split.disclosed <==> msg !in split.counted)
      && (ResidueKey(msg, known).None? ==> msg in split.counted)
      && (forall j | Carries(msg, known, m, j) ::
            msg in split.disclosed <==> Covered(Population(failures, known, m), record, j))
  {
    var keys := Disclosed(Population(failures, known, m), record);
    FilterMembers(failures, x => !HasKeyIn(x, known, m, keys));
    FilterMembers(failures, x => HasKeyIn(x, known, m, keys));
    forall j | Carries(msg, known, m, j)
      ensures HasKeyIn(msg, known, m, keys) <==> Covered(Population(failures, known, m), record, j)
    {
      PopulationKeys(failures, known, m, j);
    }
  }

  /** The two sides together are the whole list of failures. */
  lemma PartitionLosesNothing(
      failures: seq<string>, record: seq<ResidueEntry>, known: set<string>, m: RedirectMaps)
    ensures var split := PartitionOf(failures, record, known, m);
      multiset(split.counted) + multiset(split.disclosed) == multiset(failures)
  {
    if record != [] {
      var keys := Disclosed(Population(failures, known, m), record);
      FilterPartitions(failures, x => !HasKeyIn(x, known, m, keys), x => HasKeyIn(x, known, m, keys));
    }
  }

  // --- Reading the report back --------------------------------------------------------

  predicate NewlineFree(lines: seq<string>) {
    forall i | 0 <= i < |lines| :: '\n' !in lines[i]
  }

  lemma {:induction false} PrintedSplits(lines: seq<string>)
    requires NewlineFree(lines)
    ensures SplitOn(Printed(lines), '\n') == lines + [""]
  {
    if lines == [] {
    } else {
      var first, rest := lines[0], lines[1..];
      PrintedSplits(rest);
      PrintedAppend([first], rest);
      PrintedSnoc([], first);
      assert [] + [first] == [first] && [first] + rest == lines;
      assert Printed(lines) == first + "\n" + Printed(rest);
      SplitCons(first, '\n', Printed(rest));
    }
  }

  lemma {:induction false} FailureLinesAppend(a: seq<string>, b: seq<string>)
    ensures FailureLines(a + b) == FailureLines(a) + FailureLines(b)
    decreases |b|
  {
    if b == [] {
      assert a + b == a;
    } else {
      FailureLinesAppend(a, b[..|b| - 1]);
      assert (a + b)[..|a + b| - 1] == a + b[..|b| - 1];
    }
  }

  lemma FailureLinesOne(line: string)
    requires !("  - " <= line)
    ensures FailureLines([line]) == []
  {
    assert [line][..0] == [];
  }

  lemma {:induction false} FailureLinesBullets(msgs: seq<string>)
    ensures FailureLines(Bullets(msgs)) == msgs
  {
    if msgs != [] {
      var init, last := msgs[..|msgs| - 1], msgs[|msgs| - 1];
      FailureLinesBullets(init);
      assert Bullets(msgs)[..|msgs| - 1] == Bullets(init);
      assert Bullets(msgs)[|msgs| - 1][4..] == last;
    }
  }

  lemma {:induction false} FirstLineIs(lines: seq<string>, p: string -> bool, i: nat)
    requires i <= |lines|
    requires forall k | 0 <= k < i :: !p(lines[k])
    requires i < |lines| ==> p(lines[i])
    ensures FirstLine(lines, p) == i
  {
    if i > 0 {
      FirstLineIs(lines[1..], p, i - 1);
    }
  }

  lemma TailMessages(heading: string, after: seq<string>)
    requires !("  - " <= heading)
    ensures FailureLines([heading] + after + [""]) == FailureLines(after)
  {
    FailureLinesAppend([heading] + after, [""]);
    FailureLinesAppend([heading], after);
    FailureLinesOne(heading);
    FailureLinesOne("");
  }

  lemma TailFrom(body: seq<string>, i: nat)
    requires i < |body| && !("  - " <= body[i])
    ensures FailureLines((body + [""])[i..]) == FailureLines(body[i + 1..])
  {
    TailMessages(body[i], body[i + 1..]);
    assert (body + [""])[i..] == [body[i]] + body[i + 1..] + [""];
  }

  /** A report read from its first heading on gives the messages below that heading. */
  lemma ReadFromHeading(body: seq<string>, i: nat, p: string -> bool)
    requires NewlineFree(body) && i < |body|
    requires forall k | 0 <= k < i :: !p(body[k])
    requires p(body[i]) && !("  - " <= body[i])
    ensures MessagesFrom(Printed(body), p) == FailureLines(body[i + 1..])
  {
    PrintedSplits(body);
    FirstLineIs(body + [""], p, i);
    TailFrom(body, i);
  }

  lemma ReadWithoutHeading(lines: seq<string>, p: string -> bool)
    requires NewlineFree(lines)
    requires !p("") && forall i | 0 <= i < |lines| :: !p(lines[i])
    ensures MessagesFrom(Printed(lines), p) == []
  {
    PrintedSplits(lines);
    var all := lines + [""];
    FirstLineIs(all, p, |all|);
    assert all[|all|..] == [];
  }

  lemma NumeralFree(n: nat)
    ensures '\n' !in Numeral(n)
  {}

  lemma NewlineFreeText(s: string, t: string)
    requires '\n' !in s && '\n' !in t
    ensures '\n' !in s + t
  {}

  lemma FailedIsRecognised(n: nat)
    ensures IsFailedHeader(FailedHeader(n)) && '\n' !in FailedHeader(n) && FailedHeader(n)[0] == 'F'
  {
    var f := FailedHeader(n);
    assert f[8..|f| - 2] == Numeral(n) && f[|f| - 2..] == "):" && f[..8] == "FAILED (";
    NumeralFree(n);
    NewlineFreeText("FAILED (", Numeral(n));
    NewlineFreeText("FAILED (" + Numeral(n), "):");
  }

  lemma DisclosedIsRecognised(n: nat)
    ensures IsDisclosedHeader(DisclosedHeader(n)) && '\n' !in DisclosedHeader(n) && DisclosedHeader(n)[0] == 'D'
  {
    var d := DisclosedHeader(n);
    assert d[11..|d| - |CEILING_TAIL|] == Numeral(n);
    assert d[|d| - |CEILING_TAIL|..] == CEILING_TAIL && d[..11] == "DISCLOSED (";
    NumeralFree(n);
    NewlineFreeText("DISCLOSED (", Numeral(n));
    NewlineFreeText("DISCLOSED (" + Numeral(n), CEILING_TAIL);
  }

  /** A heading is told from the other, and from a bullet, by its first character. */
  lemma HeadTells(line: string)
    requires line != ""
    ensures IsFailedHeader(line) ==> line[0] == 'F'
    ensures IsDisclosedHeader(line) ==> line[0] == 'D'
    ensures "  - " <= line ==> line[0] == ' '
  {
    if IsFailedHeader(line) {
      assert line[..8][0] == 'F';
    }
    if IsDisclosedHeader(line) {
      assert line[..11][0] == 'D';
    }
  }

  lemma HeadingsAreRecognised(n: nat)
    ensures IsFailedHeader(FailedHeader(n)) && !IsDisclosedHeader(FailedHeader(n))
    ensures IsDisclosedHeader(DisclosedHeader(n)) && !IsFailedHeader(DisclosedHeader(n))
    ensures '\n' !in FailedHeader(n) && '\n' !in DisclosedHeader(n)
    ensures !("  - " <= FailedHeader(n)) && !("  - " <= DisclosedHeader(n))
  {
    FailedIsRecognised(n);
    DisclosedIsRecognised(n);
    HeadTells(FailedHeader(n));
    HeadTells(DisclosedHeader(n));
  }

  /** Lines that start with a space, and the closing lines, are no headings. */
  lemma NoHeading(line: string)
    requires line == "" || line[0] == ' ' || line[0] == 'A'
    ensures !IsAnyHeader(line)
  {
    if |line| >= 11 {
      assert line[..8][0] == line[0] && line[..11][0] == line[0];
    }
  }

  lemma BlocksAreNewlineFree(notes: seq<string>, split: Split)
    requires NewlineFree(notes) && NewlineFree(split.counted) && NewlineFree(split.disclosed)
    ensures NewlineFree(Indented(notes))
    ensures NewlineFree(DisclosedBlock(split.disclosed))
    ensures NewlineFree(CountedBlock(split.counted))
  {
    HeadingsAreRecognised(|split.disclosed|);
    HeadingsAreRecognised(|split.counted|);
    assert '\n' !in PASSED;
  }

  lemma NotesAreNoHeadings(notes: seq<string>)
    ensures forall i | 0 <= i < |notes| :: !IsAnyHeader(Indented(notes)[i])
  {
    forall i | 0 <= i < |notes| ensures !IsAnyHeader(Indented(notes)[i]) {
      NoHeading(Indented(notes)[i]);
    }
  }

  lemma DisclosedBlockIsNotFailed(disclosed: seq<string>)
    ensures forall i | 0 <= i < |DisclosedBlock(disclosed)| :: !IsFailedHeader(DisclosedBlock(disclosed)[i])
  {
    HeadingsAreRecognised(|disclosed|);
    forall i | 0 <= i < |DisclosedBlock(disclosed)| ensures !IsFailedHeader(DisclosedBlock(disclosed)[i]) {
      if i != 1 {
        NoHeading(DisclosedBlock(disclosed)[i]);
      }
    }
  }

  /** The lines of the counted block below its blank line hold exactly its messages. */
  lemma CountedMessages(counted: seq<string>)
    ensures FailureLines(CountedBlock(counted)) == counted
  {
    HeadingsAreRecognised(|counted|);
    FailureLinesOne("");
    if counted == [] {
      assert PASSED[0] == 'A';
      FailureLinesOne(PASSED);
      FailureLinesAppend([""], [PASSED]);
      assert [""] + [PASSED] == ["", PASSED];
    } else {
      var heading := FailedHeader(|counted|);
      FailureLinesOne(heading);
      FailureLinesAppend([""], [heading]);
      assert [""] + [heading] == ["", heading];
      FailureLinesAppend(["", heading], Bullets(counted));
      FailureLinesBullets(counted);
    }
  }

  /** The verdict side reads exactly the counted messages. */
  lemma CountedReadBack(notes: seq<string>, split: Split)
    requires NewlineFree(notes) && NewlineFree(split.counted) && NewlineFree(split.disclosed)
    ensures MessagesFrom(Printed(ReportLines(notes, split)), IsFailedHeader) == split.counted
  {
    var before := Indented(notes) + DisclosedBlock(split.disclosed);
    BlocksAreNewlineFree(notes, split);
    NotesAreNoHeadings(notes);
    DisclosedBlockIsNotFailed(split.disclosed);
    NoHeading("");
    if split.counted == [] {
      NoHeading(PASSED);
      ReadWithoutHeading(before + CountedBlock([]), IsFailedHeader);
    } else {
      var heading := FailedHeader(|split.counted|);
      HeadingsAreRecognised(|split.counted|);
      var above := before + [""];
      assert before + CountedBlock(split.counted) == above + [heading] + Bullets(split.counted);
      ReadFromHeading(before + CountedBlock(split.counted), |above|, IsFailedHeader);
      FailureLinesBullets(split.counted);
    }
  }

  lemma DisclosedLayout(notes: seq<string>, split: Split)
    requires split.disclosed != []
    ensures ReportLines(notes, split) ==
      Indented(notes) + [""] + [DisclosedHeader(|split.disclosed|)]
      + (Bullets(split.disclosed) + CountedBlock(split.counted))
  {}

  lemma DisclosedReadFirst(notes: seq<string>, split: Split)
    requires NewlineFree(ReportLines(notes, split)) && split.disclosed != []
    ensures MessagesFrom(Printed(ReportLines(notes, split)), IsAnyHeader) == split.disclosed + split.counted
  {
    var above := Indented(notes) + [""];
    var heading := DisclosedHeader(|split.disclosed|);
    var below := Bullets(split.disclosed) + CountedBlock(split.counted);
    NotesAreNoHeadings(notes);
    NoHeading("");
    HeadingsAreRecognised(|split.disclosed|);
    DisclosedLayout(notes, split);
    ReadFromHeading(ReportLines(notes, split), |above|, IsAnyHeader);
    FailureLinesAppend(Bullets(split.disclosed), CountedBlock(split.counted));
    FailureLinesBullets(split.disclosed);
    CountedMessages(split.counted);
  }

  lemma CountedLayout(notes: seq<string>, split: Split)
    requires split.disclosed == [] && split.counted != []
    ensures ReportLines(notes, split) ==
      Indented(notes) + [""] + [FailedHeader(|split.counted|)] + Bullets(split.counted)
  {}

  lemma CountedReadAlone(notes: seq<string>, split: Split)
    requires NewlineFree(ReportLines(notes, split)) && split.disclosed == [] && split.counted != []
    ensures MessagesFrom(Printed(ReportLines(notes, split)), IsAnyHeader) == split.counted
  {
    var above := Indented(notes) + [""];
    var heading := FailedHeader(|split.counted|);
    NotesAreNoHeadings(notes);
    NoHeading("");
    HeadingsAreRecognised(|split.counted|);
    CountedLayout(notes, split);
    ReadFromHeading(ReportLines(notes, split), |above|, IsAnyHeader);
    FailureLinesBullets(split.counted);
  }

  /** The measuring side reads every printed message, the disclosed ones first. */
  lemma AllReadBack(notes: seq<string>, split: Split)
    requires NewlineFree(notes) && NewlineFree(split.counted) && NewlineFree(split.disclosed)
    ensures MessagesFrom(Printed(ReportLines(notes, split)), IsAnyHeader) == split.disclosed + split.counted
  {
    BlocksAreNewlineFree(notes, split);
    if split.disclosed != [] {
      DisclosedReadFirst(notes, split);
    } else if split.counted != [] {
      CountedReadAlone(notes, split);
      assert [] + split.counted == split.counted;
    } else {
      NotesAreNoHeadings(notes);
      NoHeading("");
      NoHeading(PASSED);
      ReadWithoutHeading(ReportLines(notes, split), IsAnyHeader);
    }
  }

  lemma {:induction false} MessagesAreSingleLines(lines: seq<string>)
    requires NewlineFree(lines)
    ensures NewlineFree(FailureLines(lines))
  {
    if lines != [] {
      var last := lines[|lines| - 1];
      MessagesAreSingleLines(lines[..|lines| - 1]);
      assert "  - " <= last ==> forall c | c in last[4..] :: c in last;
    }
  }

  /** Every printed message is read back exactly when no message spans two lines. */
  lemma ReadBackExactly(notes: seq<string>, split: Split)
    requires NewlineFree(notes)
    ensures MessagesFrom(Printed(ReportLines(notes, split)), IsAnyHeader) == split.disclosed + split.counted <==>
      NewlineFree(split.disclosed + split.counted)
  {
    var out := Printed(ReportLines(notes, split));
    var all := split.disclosed + split.counted;
    if MessagesFrom(out, IsAnyHeader) == all {
      SplitPartsFree(out, '\n');
      var lines := SplitOn(out, '\n');
      MessagesAreSingleLines(lines[FirstLine(lines, IsAnyHeader)..]);
    }
    if NewlineFree(all) {
      forall i | 0 <= i < |split.disclosed| ensures '\n' !in split.disclosed[i] {
        assert all[i] == split.disclosed[i];
      }
      forall i | 0 <= i < |split.counted| ensures '\n' !in split.counted[i] {
        assert all[|split.disclosed| + i] == split.counted[i];
      }
      AllReadBack(notes, split);
    }
  }

  // --- The instrument and the audit together -----------------------------------------

  ghost function ReportOf(notes: seq<string>, split: Split): string { Printed(ReportLines(notes, split)) }

  /** The residue the instrument extracts from a report. */
  ghost function ResidueRead(out: string, known: set<string>, m: RedirectMaps): map<Key, int> {
    Resolution(Tally(KeysOf(MessagesFrom(out, IsAnyHeader), known)), m)
  }

  lemma SplitIsNewlineFree(
      failures: seq<string>, record: seq<ResidueEntry>, known: set<string>, m: RedirectMaps)
    requires NewlineFree(failures)
    ensures var split := PartitionOf(failures, record, known, m);
      NewlineFree(split.counted) && NewlineFree(split.disclosed)
  {
    var split := PartitionOf(failures, record, known, m);
    PartitionLosesNothing(failures, record, known, m);
    assert forall msg | msg in failures :: '\n' !in msg;
    forall i | 0 <= i < |split.counted| ensures '\n' !in split.counted[i] {
      assert split.counted[i] in multiset(split.counted) + multiset(split.disclosed);
    }
    forall i | 0 <= i < |split.disclosed| ensures '\n' !in split.disclosed[i] {
      assert split.disclosed[i] in multiset(split.counted) + multiset(split.disclosed);
    }
  }

  /**
   The instrument's residue is the population of all the failures under its own corpus and
   redirects: what the audit discloses, under its own, changes where a failure is printed
   and never what is measured.
   */
  lemma InstrumentMeasuresThePopulation(
      notes: seq<string>, failures: seq<string>, record: seq<ResidueEntry>,
      audited: set<string>, m: RedirectMaps, measured: set<string>, n: RedirectMaps)
    requires NewlineFree(notes) && NewlineFree(failures)
    ensures ResidueRead(ReportOf(notes, PartitionOf(failures, record, audited, m)), measured, n) ==
      Population(failures, measured, n)
  {
    var split := PartitionOf(failures, record, audited, m);
    SplitIsNewlineFree(failures, record, audited, m);
    AllReadBack(notes, split);
    PartitionLosesNothing(failures, record, audited, m);
    var printed := split.disclosed + split.counted;
    assert multiset(printed) == multiset(failures);
    CollectMultiset(printed, failures, Keyer(measured));
    TallyMultiset(KeysOf(printed, measured), KeysOf(failures, measured));
    RegroupTally(KeysOf(failures, measured), Resolver(n));
  }

  /** The verdict side counts every counted failure once, under its own check. */
  lemma VerdictCountsTheCounted(
      notes: seq<string>, failures: seq<string>, record: seq<ResidueEntry>, known: set<string>, m: RedirectMaps)
    requires NewlineFree(notes) && NewlineFree(failures)
    ensures var split := PartitionOf(failures, record, known, m);
      var counter := Tally(Mapped(MessagesFrom(ReportOf(notes, split), IsFailedHeader), CheckClass));
      && Total(counter) == |split.counted|
      && forall cls :: Count(counter, cls) == multiset(Mapped(split.counted, CheckClass))[cls]
  {
    var split := PartitionOf(failures, record, known, m);
    SplitIsNewlineFree(failures, record, known, m);
    CountedReadBack(notes, split);
    TallyTotal(Mapped(split.counted, CheckClass));
    forall cls { TallyCounts(Mapped(split.counted, CheckClass), cls); }
  }

  /** Every message carries a check number: what has a key at all does not depend on a corpus. */
  predicate AllKeyed(failures: seq<string>) {
    forall msg | msg in failures :: CheckNumber(msg).Some?
  }

  lemma FilterEmpty<T(!new)>(s: seq<T>, p: T -> bool)
    ensures Filter(s, p) == [] <==> forall x | x in s :: !p(x)
  {
    FilterMembers(s, p);
    if Filter(s, p) != [] {
      assert Filter(s, p)[0] in Filter(s, p);
    }
  }

  lemma AllDisclosedExactly(
      failures: seq<string>, record: seq<ResidueEntry>, known: set<string>, m: RedirectMaps)
    ensures var population := Population(failures, known, m);
      (forall msg | msg in failures :: HasKeyIn(msg, known, m, Disclosed(population, record))) <==>
      AllKeyed(failures) && forall j | j in population :: Covered(population, record, j)
  {
    var population := Population(failures, known, m);
    var keys := Disclosed(population, record);
    forall j { PopulationKeys(failures, known, m, j); }
    if forall msg | msg in failures :: HasKeyIn(msg, known, m, keys) {
      forall j | j in population ensures Covered(population, record, j) {
        var msg :| msg in failures && Carries(msg, known, m, j);
        assert HasKeyIn(msg, known, m, keys);
      }
    }
    if AllKeyed(failures) && forall j | j in population :: Covered(population, record, j) {
      forall msg | msg in failures ensures HasKeyIn(msg, known, m, keys) {
        assert Carries(msg, known, m, ResolveKey(m, ResidueKey(msg, known).value));
      }
    }
  }

  lemma SomethingKeyedIsPopulated(failures: seq<string>, known: set<string>, m: RedirectMaps)
    requires failures != [] && AllKeyed(failures)
    ensures Population(failures, known, m) != map[]
  {
    var j := ResolveKey(m, ResidueKey(failures[0], known).value);
    assert Carries(failures[0], known, m, j);
    PopulationKeys(failures, known, m, j);
  }

  /** Nothing is counted exactly when every failure has a key and every key is covered. */
  lemma NothingCounted(
      failures: seq<string>, record: seq<ResidueEntry>, known: set<string>, m: RedirectMaps)
    ensures PartitionOf(failures, record, known, m).counted == [] <==>
      && AllKeyed(failures)
      && forall j | j in Population(failures, known, m) :: Covered(Population(failures, known, m), record, j)
  {
    var population := Population(failures, known, m);
    if record == [] {
      if failures != [] && AllKeyed(failures) {
        SomethingKeyedIsPopulated(failures, known, m);
        var j :| j in population;
        assert !Covered(population, record, j);
      } else if failures == [] {
        forall j { PopulationKeys(failures, known, m, j); }
      }
    } else {
      AllDisclosedExactly(failures, record, known, m);
      FilterEmpty(failures, msg => !HasKeyIn(msg, known, m, Disclosed(population, record)));
    }
  }

  /** The audit passes on failures exactly when all are keyed and their population is governed. */
  lemma AuditPassesExactly(
      failures: seq<string>, record: seq<ResidueEntry>, known: set<string>, m: RedirectMaps)
    requires failures != []
    ensures PartitionOf(failures, record, known, m).counted == [] <==>
      AllKeyed(failures) && FullyGoverned(Population(failures, known, m), record)
  {
    NothingCounted(failures, record, known, m);
    forall j { PopulationKeys(failures, known, m, j); }
    if AllKeyed(failures) {
      SomethingKeyedIsPopulated(failures, known, m);
    }
  }
}
