/**
 Two readers, two corpora: the audit resolves the file token of a failure against one set of
 files, the instrument that re-reads its report against another. When the two measure the
 same, when their gates agree, and an input on which they do not.
 */
module Corpora {
  import opened ControlPaths
  import opened FailureReport
  import opened FiniteSums
  import opened ReportLaws
  import opened ResidueCeiling
  import opened ResidueRecord
  import opened Sequences
  import opened Text
  import opened Wrappers

  /** The control key of a message under one corpus. */
  ghost function Controller(known: set<string>, m: RedirectMaps): string -> Option<Key> {
    msg => match ResidueKey(msg, known)
           case None => None
           case Some(k) => Some(ResolveKey(m, k))
  }

  /** The key of a message of the same check that names no file. */
  ghost function Unlocated(m: RedirectMaps): Key -> Key {
    (k: Key) => ResolveKey(m, Key(UNLOCATED_PATH, k.cls))
  }

  /** The message names a file of the corpus. */
  predicate Located(msg: string, known: set<string>) {
    LocationToken(msg).Some? && LocationToken(msg).value in known
  }

  /** Only the first corpus has the file the message names, and the resolver can tell. */
  ghost function OnlyIn(a: set<string>, b: set<string>, m: RedirectMaps): string -> bool {
    msg => Located(msg, a) && !Located(msg, b) && Controller(a, m)(msg) != Controller(b, m)(msg)
  }

  /** What a corpus does to one message's key. */
  lemma KeyUnder(msg: string, known: set<string>, m: RedirectMaps)
    ensures LocationToken(msg).Some? ==> CheckNumber(msg).Some?
    ensures Controller(known, m)(msg) ==
      if CheckNumber(msg).None? then None
      else Some(ResolveKey(m, Key(if Located(msg, known) then LocationToken(msg).value else UNLOCATED_PATH,
                                  H1Class(CheckNumber(msg).value))))
  {}

  /** A message is keyed differently only when exactly one corpus has the file it names. */
  lemma OneSideGivesUp(msg: string, a: set<string>, b: set<string>, m: RedirectMaps)
    ensures OnlyIn(a, b, m)(msg) ==>
      var k := Controller(a, m)(msg);
      k.Some? && Controller(b, m)(msg) == Some(Unlocated(m)(k.value)) && Unlocated(m)(k.value) != k.value
    ensures !OnlyIn(a, b, m)(msg) && !OnlyIn(b, a, m)(msg) ==> Controller(a, m)(msg) == Controller(b, m)(msg)
    ensures !(OnlyIn(a, b, m)(msg) && OnlyIn(b, a, m)(msg))
  {
    KeyUnder(msg, a, m);
    KeyUnder(msg, b, m);
  }

  lemma CorporaGiveUpApart(a: set<string>, b: set<string>, m: RedirectMaps)
    ensures GiveUpApart(Controller(a, m), Controller(b, m), OnlyIn(a, b, m), OnlyIn(b, a, m), Unlocated(m))
  {
    forall msg ensures
        && (OnlyIn(a, b, m)(msg) ==>
              var k := Controller(a, m)(msg);
              k.Some? && Controller(b, m)(msg) == Some(Unlocated(m)(k.value)) && Unlocated(m)(k.value) != k.value)
        && (OnlyIn(b, a, m)(msg) ==>
              var k := Controller(b, m)(msg);
              k.Some? && Controller(a, m)(msg) == Some(Unlocated(m)(k.value)) && Unlocated(m)(k.value) != k.value)
        && (!OnlyIn(a, b, m)(msg) && !OnlyIn(b, a, m)(msg) ==> Controller(a, m)(msg) == Controller(b, m)(msg))
        && !(OnlyIn(a, b, m)(msg) && OnlyIn(b, a, m)(msg))
    {
      OneSideGivesUp(msg, a, b, m);
      OneSideGivesUp(msg, b, a, m);
    }
  }

  // --- When the two measurements are the same -----------------------------------------

  lemma PopulationIsCollected(failures: seq<string>, known: set<string>, m: RedirectMaps)
    ensures Population(failures, known, m) == Tally(Collect(failures, Controller(known, m)))
  {
    MappedCollect(failures, Keyer(known), Resolver(m), Controller(known, m));
  }

  /** The control keys of the messages only the first corpus locates. */
  ghost function OnlyKeys(failures: seq<string>, a: set<string>, b: set<string>, m: RedirectMaps): seq<Key> {
    Collect(Filter(failures, OnlyIn(a, b, m)), Controller(a, m))
  }

  /** Each key given up by one corpus is given up as often by the other. */
  ghost predicate Balanced(failures: seq<string>, a: set<string>, b: set<string>, m: RedirectMaps) {
    multiset(OnlyKeys(failures, a, b, m)) == multiset(OnlyKeys(failures, b, a, m))
  }

  /**
   The two corpora measure the same exactly when, key by key, as many messages are located
   by the first alone as by the second alone.
   */
  lemma SamePopulationExactly(failures: seq<string>, a: set<string>, b: set<string>, m: RedirectMaps)
    ensures Population(failures, a, m) == Population(failures, b, m) <==> Balanced(failures, a, b, m)
  {
    PopulationIsCollected(failures, a, m);
    PopulationIsCollected(failures, b, m);
    TallyDetermines(Collect(failures, Controller(a, m)), Collect(failures, Controller(b, m)));
    CorporaGiveUpApart(a, b, m);
    SameCollection(failures, Controller(a, m), Controller(b, m), OnlyIn(a, b, m), OnlyIn(b, a, m), Unlocated(m));
  }

  /** No message of the list is located by the first corpus alone. */
  ghost predicate NoneOnlyIn(failures: seq<string>, a: set<string>, b: set<string>, m: RedirectMaps) {
    forall msg | msg in failures :: !OnlyIn(a, b, m)(msg)
  }

  lemma NoOnlyKeys(failures: seq<string>, a: set<string>, b: set<string>, m: RedirectMaps)
    ensures OnlyKeys(failures, a, b, m) == [] <==> NoneOnlyIn(failures, a, b, m)
  {
    var only := Filter(failures, OnlyIn(a, b, m));
    FilterMembers(failures, OnlyIn(a, b, m));
    CollectMembers(only, Controller(a, m));
    if msg :| msg in failures && OnlyIn(a, b, m)(msg) {
      OneSideGivesUp(msg, a, b, m);
      assert msg in only && Controller(a, m)(msg).value in OnlyKeys(failures, a, b, m);
    }
    if OnlyKeys(failures, a, b, m) != [] {
      assert OnlyKeys(failures, a, b, m)[0] in OnlyKeys(failures, a, b, m);
    }
  }

  /**
   When the second corpus locates nothing the first does not, as a filtered file list does,
   the measurements agree exactly when no failure names a file of the first alone.
   */
  lemma FilteredCorpusExactly(failures: seq<string>, a: set<string>, b: set<string>, m: RedirectMaps)
    requires NoneOnlyIn(failures, b, a, m)
    ensures Population(failures, a, m) == Population(failures, b, m) <==> NoneOnlyIn(failures, a, b, m)
  {
    SamePopulationExactly(failures, a, b, m);
    NoOnlyKeys(failures, a, b, m);
    NoOnlyKeys(failures, b, a, m);
    var keys := OnlyKeys(failures, a, b, m);
    if keys != [] {
      assert keys[0] in multiset(keys);
    }
  }

  /** Corpora that locate the same tokens, up to tokens resolved alike, are balanced. */
  lemma AlikeIsBalanced(failures: seq<string>, a: set<string>, b: set<string>, m: RedirectMaps)
    requires NoneOnlyIn(failures, a, b, m) && NoneOnlyIn(failures, b, a, m)
    ensures Balanced(failures, a, b, m)
  {
    NoOnlyKeys(failures, a, b, m);
    NoOnlyKeys(failures, b, a, m);
  }

  // --- When the two gates agree -------------------------------------------------------

  /** The audit passes exactly when the residue the instrument reads back is governed. */
  ghost predicate GatesMeet(notes: seq<string>, failures: seq<string>, record: seq<ResidueEntry>,
                            audited: set<string>, measured: set<string>, m: RedirectMaps) {
    var split := PartitionOf(failures, record, audited, m);
    split.counted == [] <==> FullyGoverned(ResidueRead(ReportOf(notes, split), measured, m), record)
  }

  predicate NoneKeyed(failures: seq<string>) { forall msg | msg in failures :: CheckNumber(msg).None? }

  lemma NothingPopulated(failures: seq<string>, known: set<string>, m: RedirectMaps)
    ensures Population(failures, known, m) == map[] <==> NoneKeyed(failures)
  {
    if msg :| msg in failures && CheckNumber(msg).Some? {
      var j := ResolveKey(m, ResidueKey(msg, known).value);
      assert Carries(msg, known, m, j);
      PopulationKeys(failures, known, m, j);
    }
    if j :| j in Population(failures, known, m) {
      PopulationKeys(failures, known, m, j);
    }
  }

  /** The audit compares its population with the record and refuses the unkeyed; the instrument only compares. */
  lemma GatesCompare(notes: seq<string>, failures: seq<string>, record: seq<ResidueEntry>,
                     audited: set<string>, measured: set<string>, m: RedirectMaps)
    requires NewlineFree(notes) && NewlineFree(failures) && failures != []
    ensures GatesMeet(notes, failures, record, audited, measured, m) <==>
      (AllKeyed(failures) && FullyGoverned(Population(failures, audited, m), record) <==>
       FullyGoverned(Population(failures, measured, m), record))
  {
    InstrumentMeasuresThePopulation(notes, failures, record, audited, m, measured, m);
    AuditPassesExactly(failures, record, audited, m);
  }

  /** The record that allows exactly these counts. */
  ghost function RowsFor(counts: map<Key, int>): seq<ResidueEntry>
    decreases |counts|
  {
    if counts == map[] then []
    else
      var k :| k in counts;
      RowsFor(counts - {k}) + [ResidueEntry(k.path, k.cls, counts[k], "", "")]
  }

  lemma RowIsNew(rows: seq<ResidueEntry>, e: ResidueEntry)
    requires DistinctKeys(rows) && EntryKey(e) !in CeilingOf(rows)
    ensures DistinctKeys(rows + [e])
  {
    CeilingIsTheRow(rows);
    forall i | 0 <= i < |rows| ensures EntryKey(rows[i]) != EntryKey(e) {
      assert rows[i] in rows;
    }
  }

  lemma RowsForStep(counts: map<Key, int>) returns (k: Key)
    requires counts != map[]
    ensures k in counts
    ensures RowsFor(counts) == RowsFor(counts - {k}) + [ResidueEntry(k.path, k.cls, counts[k], "", "")]
  {
    k :| k in counts && RowsFor(counts) == RowsFor(counts - {k}) + [ResidueEntry(k.path, k.cls, counts[k], "", "")];
  }

  lemma {:induction false} RowsForAllow(counts: map<Key, int>)
    ensures DistinctKeys(RowsFor(counts)) && CeilingOf(RowsFor(counts)) == counts
    decreases |counts|
  {
    if counts != map[] {
      var k := RowsForStep(counts);
      var e := ResidueEntry(k.path, k.cls, counts[k], "", "");
      RowsForAllow(counts - {k});
      RowIsNew(RowsFor(counts - {k}), e);
      CeilingSnoc(RowsFor(counts - {k}), e);
      assert (counts - {k})[k := counts[k]] == counts;
    }
  }

  /** The record that allows exactly one measurement governs it. */
  lemma OwnRecordGoverns(counts: map<Key, int>)
    requires counts != map[]
    ensures FullyGoverned(counts, RowsFor(counts))
  {
    RowsForAllow(counts);
  }

  /** And refuses any other that is somewhere larger. */
  lemma OwnRecordRefuses(counts: map<Key, int>, other: map<Key, int>, k: Key)
    requires k in other && other[k] > 0 && Count(counts, k) < other[k]
    ensures !FullyGoverned(other, RowsFor(counts))
  {
    RowsForAllow(counts);
    assert !Covered(other, RowsFor(counts), k);
  }

  lemma CountsDiffer(a: map<Key, int>, b: map<Key, int>) returns (k: Key)
    requires a != b
    requires (forall j | j in a :: a[j] >= 1) && (forall j | j in b :: b[j] >= 1)
    ensures (k in a && Count(b, k) < a[k]) || (k in b && Count(a, k) < b[k])
  {
    if forall j :: Count(a, j) == Count(b, j) {
      forall j ensures j in a <==> j in b {
        assert Count(a, j) == Count(b, j);
      }
      SameCounts(a, b);
    }
    k :| Count(a, k) != Count(b, k);
  }

  ghost predicate AlwaysMeet(
      notes: seq<string>, failures: seq<string>, audited: set<string>, measured: set<string>, m: RedirectMaps) {
    forall record | DistinctKeys(record) :: GatesMeet(notes, failures, record, audited, measured, m)
  }

  lemma KeyedGatesMeet(
      notes: seq<string>, failures: seq<string>, audited: set<string>, measured: set<string>, m: RedirectMaps)
    requires NewlineFree(notes) && NewlineFree(failures) && failures != [] && AllKeyed(failures)
    ensures AlwaysMeet(notes, failures, audited, measured, m) <==> Balanced(failures, audited, measured, m)
  {
    var a, b := Population(failures, audited, m), Population(failures, measured, m);
    SamePopulationExactly(failures, audited, measured, m);
    forall record ensures GatesMeet(notes, failures, record, audited, measured, m) <==>
        (FullyGoverned(a, record) <==> FullyGoverned(b, record)) {
      GatesCompare(notes, failures, record, audited, measured, m);
    }
    if a != b {
      SomeRecordTellsApart(failures, audited, measured, m);
      var record :| DistinctKeys(record) && FullyGoverned(a, record) != FullyGoverned(b, record);
      assert !GatesMeet(notes, failures, record, audited, measured, m);
    }
  }

  /** An unkeyed failure always fails the audit, and the instrument does not see it. */
  lemma UnkeyedGatesMeet(
      notes: seq<string>, failures: seq<string>, audited: set<string>, measured: set<string>, m: RedirectMaps)
    requires NewlineFree(notes) && NewlineFree(failures) && !AllKeyed(failures)
    ensures AlwaysMeet(notes, failures, audited, measured, m) <==> NoneKeyed(failures)
  {
    var b := Population(failures, measured, m);
    NothingPopulated(failures, measured, m);
    forall record ensures GatesMeet(notes, failures, record, audited, measured, m) <==> !FullyGoverned(b, record) {
      GatesCompare(notes, failures, record, audited, measured, m);
    }
    if b != map[] {
      OwnRecordGoverns(b);
      RowsForAllow(b);
      assert !GatesMeet(notes, failures, RowsFor(b), audited, measured, m);
    }
  }

  lemma NoFailureGates(notes: seq<string>, audited: set<string>, measured: set<string>, m: RedirectMaps)
    requires NewlineFree(notes)
    ensures !GatesMeet(notes, [], [], audited, measured, m)
  {
    InstrumentMeasuresThePopulation(notes, [], [], audited, m, measured, m);
    NothingPopulated([], measured, m);
  }

  /**
   The gates agree under every record exactly when there are failures, and either all are
   keyed and the two corpora are balanced on them, or none is keyed.
   */
  lemma GatesAgreeExactly(
      notes: seq<string>, failures: seq<string>, audited: set<string>, measured: set<string>, m: RedirectMaps)
    requires NewlineFree(notes) && NewlineFree(failures)
    ensures AlwaysMeet(notes, failures, audited, measured, m) <==>
      && failures != []
      && if AllKeyed(failures) then Balanced(failures, audited, measured, m) else NoneKeyed(failures)
  {
    if failures == [] {
      NoFailureGates(notes, audited, measured, m);
    } else if AllKeyed(failures) {
      KeyedGatesMeet(notes, failures, audited, measured, m);
    } else {
      UnkeyedGatesMeet(notes, failures, audited, measured, m);
    }
  }

  lemma SomeRecordTellsApart(failures: seq<string>, audited: set<string>, measured: set<string>, m: RedirectMaps)
    requires failures != [] && AllKeyed(failures)
    requires Population(failures, audited, m) != Population(failures, measured, m)
    ensures var a, b := Population(failures, audited, m), Population(failures, measured, m);
      exists record | DistinctKeys(record) :: FullyGoverned(a, record) != FullyGoverned(b, record)
  {
    var a, b := Population(failures, audited, m), Population(failures, measured, m);
    SomethingKeyedIsPopulated(failures, audited, m);
    SomethingKeyedIsPopulated(failures, measured, m);
    forall j { PopulationKeys(failures, audited, m, j); }
    forall j { PopulationKeys(failures, measured, m, j); }
    var k := CountsDiffer(a, b);
    RowsForAllow(a);
    RowsForAllow(b);
    OwnRecordGoverns(a);
    OwnRecordGoverns(b);
    if k in a && Count(b, k) < a[k] {
      OwnRecordRefuses(b, a, k);
    } else {
      OwnRecordRefuses(a, b, k);
    }
  }

  // --- Where they do not --------------------------------------------------------------

  ghost function NoRedirects(): RedirectMaps { MapsOf(TableOf([])) }

  lemma NothingMoves(k: Key)
    ensures ResolveKey(NoRedirects(), k) == k
  {
    assert TableOf([]).edges == {};
    assert News({}) == {} && Olds({}) == {};
  }

  lemma OneFailurePopulation(msg: string, known: set<string>, k: Key)
    requires ResidueKey(msg, known) == Some(k)
    ensures Population([msg], known, NoRedirects()) == map[k := 1]
  {
    var m := NoRedirects();
    NothingMoves(k);
    PopulationIsCollected([msg], known, m);
    CollectSnoc([], msg, Controller(known, m));
    assert [] + [msg] == [msg];
    assert Collect([msg], Controller(known, m)) == [k];
    TallySnoc([], k);
    assert [] + [k] == [k];
  }

  /** One failure at its own recorded ceiling is disclosed. */
  lemma OneFailureDisclosed(msg: string, known: set<string>, e: ResidueEntry)
    requires ResidueKey(msg, known) == Some(EntryKey(e)) && e.count == 1
    ensures PartitionOf([msg], [e], known, NoRedirects()) == Split([], [msg])
  {
    var m := NoRedirects();
    var split := PartitionOf([msg], [e], known, m);
    OneFailurePopulation(msg, known, EntryKey(e));
    OneRowAllows(e);
    NothingMoves(EntryKey(e));
    assert Disclosed(map[EntryKey(e) := 1], [e]) == {EntryKey(e)};
    assert HasKeyIn(msg, known, m, {EntryKey(e)});
    OneFiltered(msg, x => HasKeyIn(x, known, m, {EntryKey(e)}));
    OneFiltered(msg, x => !HasKeyIn(x, known, m, {EntryKey(e)}));
  }

  lemma OneFiltered<T>(x: T, p: T -> bool)
    ensures Filter([x], p) == if p(x) then [x] else []
  {
    assert [x][..0] == [];
  }

  lemma OneRowAllows(e: ResidueEntry)
    ensures CeilingOf([e]) == map[EntryKey(e) := e.count]
  {
    CeilingSnoc([], e);
    assert [] + [e] == [e];
  }

  /** What the two readers measure on a failure naming a file only the first corpus has. */
  lemma SweptPopulations(msg: string, check: string, path: string, audited: set<string>, measured: set<string>)
    requires CheckNumber(msg) == Some(check) && LocationToken(msg) == Some(path)
    requires path in audited && path !in measured
    ensures Population([msg], audited, NoRedirects()) == map[Key(path, H1Class(check)) := 1]
    ensures Population([msg], measured, NoRedirects()) == map[Key(UNLOCATED_PATH, H1Class(check)) := 1]
  {
    OneFailurePopulation(msg, audited, Key(path, H1Class(check)));
    OneFailurePopulation(msg, measured, Key(UNLOCATED_PATH, H1Class(check)));
  }

  lemma OneRowGoverns(e: ResidueEntry, k: Key)
    requires e.count == 1
    ensures FullyGoverned(map[k := 1], [e]) <==> k == EntryKey(e)
  {
    OneRowAllows(e);
    var counts := map[k := 1];
    assert k in counts && counts[k] == 1;
    if k != EntryKey(e) {
      assert !Covered(counts, [e], k);
    }
  }

  /**
   A failure that names a file the audit tracks and the instrument has swept out: with the
   file recorded at one, the audit discloses it and passes, while the instrument measures a
   failure without a file, which no row governs.
   */
  lemma SweptFileSplitsTheGates(
      notes: seq<string>, msg: string, check: string, path: string, audited: set<string>, measured: set<string>)
    requires NewlineFree(notes) && '\n' !in msg
    requires CheckNumber(msg) == Some(check) && LocationToken(msg) == Some(path)
    requires path in audited && path !in measured && path != UNLOCATED_PATH
    ensures var m := NoRedirects();
      var record := [ResidueEntry(path, H1Class(check), 1, "", "")];
      && PartitionOf([msg], record, audited, m) == Split([], [msg])
      && !FullyGoverned(Population([msg], measured, m), record)
      && !GatesMeet(notes, [msg], record, audited, measured, m)
  {
    var e := ResidueEntry(path, H1Class(check), 1, "", "");
    SweptPopulations(msg, check, path, audited, measured);
    OneFailureDisclosed(msg, audited, e);
    OneRowGoverns(e, Key(UNLOCATED_PATH, H1Class(check)));
    SplitIsRefused(notes, msg, e, audited, measured);
  }

  /** Disclosed by the audit, and not governed as the instrument measures it. */
  lemma SplitIsRefused(
      notes: seq<string>, msg: string, e: ResidueEntry, audited: set<string>, measured: set<string>)
    requires NewlineFree(notes) && '\n' !in msg
    requires PartitionOf([msg], [e], audited, NoRedirects()) == Split([], [msg])
    requires !FullyGoverned(Population([msg], measured, NoRedirects()), [e])
    ensures !GatesMeet(notes, [msg], [e], audited, measured, NoRedirects())
  {
    InstrumentMeasuresThePopulation(notes, [msg], [e], audited, NoRedirects(), measured, NoRedirects());
  }

  lemma SweptFileUnbalances(msg: string, check: string, path: string, audited: set<string>, measured: set<string>)
    requires CheckNumber(msg) == Some(check) && LocationToken(msg) == Some(path)
    requires path in audited && path !in measured && path != UNLOCATED_PATH
    ensures !Balanced([msg], audited, measured, NoRedirects())
  {
    SweptPopulations(msg, check, path, audited, measured);
    assert Key(path, H1Class(check)) !in Population([msg], measured, NoRedirects());
    SamePopulationExactly([msg], audited, measured, NoRedirects());
  }

  const SWEPT: string := "docs/process/residue-ceiling-record.md"
  const SWEPT_FAILURE: string := CHECK + "1" + ": " + SWEPT + ":" + " broken link to x"

  lemma NumberOf(n: string, rest: string)
    requires IsCheckNumber(n)
    ensures CheckNumber(CHECK + n + ":" + rest) == Some(n)
  {
    var msg := CHECK + n + ":" + rest;
    assert msg[6..] == n + ":" + rest;
    SpanUnique(msg[6..], IsDigit, |n|);
    assert msg[6..][..|n|] == n;
  }

  lemma TokenOf(n: string, path: string, rest: string)
    requires IsCheckNumber(n) && path != "" && forall i | 0 <= i < |path| :: IsTokenChar(path[i])
    ensures LocationToken(CHECK + n + ":" + (" " + path + ":" + rest)) == Some(path)
  {
    var tail := " " + path + ":" + rest;
    var msg := CHECK + n + ":" + tail;
    NumberOf(n, tail);
    assert msg[6 + |n| + 1..] == tail;
    assert tail[1..] == path + ":" + rest;
    SpanUnique(tail[1..], IsTokenChar, |path|);
    assert tail[1..1 + |path|] == path;
  }

  /** A check number, a file and the rest, as the audit writes them. */
  lemma WrittenFailure(n: string, path: string, rest: string)
    requires IsCheckNumber(n) && path != "" && forall i | 0 <= i < |path| :: IsTokenChar(path[i])
    ensures var msg := CHECK + n + ": " + path + ":" + rest;
      CheckNumber(msg) == Some(n) && LocationToken(msg) == Some(path)
  {
    NumberOf(n, " " + path + ":" + rest);
    TokenOf(n, path, rest);
    assert CHECK + n + ": " + path + ":" + rest == CHECK + n + ":" + (" " + path + ":" + rest);
  }

  /** The gates disagree on a broken link in a governance record, which only the sweep drops. */
  lemma GatesCanDisagree()
    ensures CheckNumber(SWEPT_FAILURE) == Some("1") && LocationToken(SWEPT_FAILURE) == Some(SWEPT)
    ensures !GatesMeet([], [SWEPT_FAILURE], [ResidueEntry(SWEPT, H1Class("1"), 1, "", "")], {SWEPT}, {}, NoRedirects())
    ensures !Balanced([SWEPT_FAILURE], {SWEPT}, {}, NoRedirects())
  {
    SweptIsAToken();
    WrittenFailure("1", SWEPT, " broken link to x");
    SweptIsOneLine();
    SweptFileSplitsTheGates([], SWEPT_FAILURE, "1", SWEPT, {SWEPT}, {});
    SweptFileUnbalances(SWEPT_FAILURE, "1", SWEPT, {SWEPT}, {});
  }

  lemma SweptIsAToken()
    ensures SWEPT != "" && forall i | 0 <= i < |SWEPT| :: IsTokenChar(SWEPT[i])
    ensures SWEPT != UNLOCATED_PATH
  {
    assert SWEPT[0] == 'd' && UNLOCATED_PATH[0] == '(';
  }

  lemma SweptIsOneLine()
    ensures '\n' !in SWEPT_FAILURE
  {
    SweptIsAToken();
    forall i | 0 <= i < |SWEPT| ensures SWEPT[i] != '\n' {
      assert IsTokenChar(SWEPT[i]);
    }
    NewlineFreeText(CHECK + "1" + ": ", SWEPT);
    NewlineFreeText(CHECK + "1" + ": " + SWEPT, ":");
    NewlineFreeText(CHECK + "1" + ": " + SWEPT + ":", " broken link to x");
  }
}
