/**
 Row (h1)'s verdict on a failing audit: what is outside the exempt checks must be governed,
 key by key, by the record. When that ends in DISCLOSE.
 */
module H1Verdict {
  import opened ControlPaths
  import opened Corpora
  import opened FailureReport
  import opened FiniteSums
  import opened ReportLaws
  import opened ResidueCeiling
  import opened ResidueRecord
  import opened Wrappers

  datatype Verdict = Pass | Fail | Disclose

  /** The checks another workstream owns: never fatal here. */
  const EXEMPT := {"29", "30", "35"}

  /** The check a residue class belongs to. */
  function CheckOf(cls: string): string { if |cls| < 8 then "" else cls[8..] }

  predicate Owned(cls: string) { CheckOf(cls) !in EXEMPT }

  function OwnedResidue(residue: map<Key, int>): map<Key, int> {
    map k | k in residue && Owned(k.cls) :: residue[k]
  }

  ghost function VerdictOf(otherTotal: int, residue: map<Key, int>, record: seq<ResidueEntry>): Verdict {
    if otherTotal == 0 then Pass
    else if FullyGoverned(OwnedResidue(residue), record) then Disclose
    else Fail
  }

  /** `_h1_verdict`. */
  method Verdict1(otherTotal: int, residue: map<Key, int>, record: seq<ResidueEntry>)
    returns (r: Result<Verdict, DuplicateRows>)
    ensures r.Failure? <==> otherTotal != 0 && OwnedResidue(residue) != map[] && !DistinctKeys(record)
    ensures r.Failure? ==> NamesEveryDuplicate(record, r.error)
    ensures r.Success? ==> r.value == VerdictOf(otherTotal, residue, record)
  {
    if otherTotal == 0 {
      return Success(Pass);
    }
    var owned := OwnedResidue(residue);
    if owned == map[] {
      return Success(Fail);
    }
    var governed := ResidueFullyGoverned(owned, record);
    match governed {
      case Failure(d) => return Failure(d);
      case Success(yes) => return Success(if yes then Disclose else Fail);
    }
  }

  /** The counted failures outside the exempt checks: what the verdict's total adds up. */
  ghost function OtherTotal(out: string): int {
    Total(Where(Tally(Mapped(MessagesFrom(out, IsFailedHeader), CheckClass)), (cls: string) => cls !in EXEMPT))
  }

  /** The message is of a check this row answers for. */
  predicate OwnCheck(msg: string) { CheckNumber(msg).Some? && CheckNumber(msg).value !in EXEMPT }
  predicate Unkeyed(msg: string) { CheckNumber(msg).None? }

  // --- The total ----------------------------------------------------------------------

  lemma {:induction false} PositiveTotal(m: map<string, int>, p: string -> bool)
    requires forall k | k in m :: m[k] >= 1
    ensures Total(Where(m, p)) >= 0
    ensures Total(Where(m, p)) == 0 <==> forall k | k in m :: !p(k)
    decreases |m|
  {
    if m == map[] {
      assert Where(m, p) == map[];
    } else {
      var k :| k in m;
      var fewer := m - {k};
      PositiveTotal(fewer, p);
      TotalWhereUpdate(fewer, p, k, m[k]);
      assert fewer[k := m[k]] == m;
    }
  }

  lemma UnclassifiedIsNotExempt()
    ensures "unclassified" !in EXEMPT
  {}

  /** The total is zero exactly when every counted message is of an exempt check. */
  lemma OtherTotalZero(msgs: seq<string>)
    ensures var counter := Tally(Mapped(msgs, CheckClass));
      Total(Where(counter, (cls: string) => cls !in EXEMPT)) == 0 <==>
      forall msg | msg in msgs :: !OwnCheck(msg) && !Unkeyed(msg)
  {
    var classes := Mapped(msgs, CheckClass);
    var counter := Tally(classes);
    UnclassifiedIsNotExempt();
    forall k ensures k in counter <==> k in classes { TallyCounts(classes, k); }
    forall k | k in counter ensures counter[k] >= 1 { TallyCounts(classes, k); }
    PositiveTotal(counter, (cls: string) => cls !in EXEMPT);
    forall k { MappedMembers(msgs, CheckClass, k); }
    forall msg | msg in msgs
      ensures CheckClass(msg) in counter && (CheckClass(msg) !in EXEMPT <==> OwnCheck(msg) || Unkeyed(msg))
    {
      MappedMembers(msgs, CheckClass, CheckClass(msg));
    }
  }

  // --- The residue --------------------------------------------------------------------

  lemma CarriedClass(msg: string, known: set<string>, m: RedirectMaps, j: Key)
    requires Carries(msg, known, m, j)
    ensures CheckNumber(msg).Some? && CheckOf(j.cls) == CheckNumber(msg).value
    ensures Owned(j.cls) <==> OwnCheck(msg)
  {
    var n := CheckNumber(msg).value;
    assert H1Class(n)[8..] == n;
  }

  lemma CarriesSome(msg: string, known: set<string>, m: RedirectMaps)
    requires CheckNumber(msg).Some?
    ensures Carries(msg, known, m, ResolveKey(m, ResidueKey(msg, known).value))
  {}

  /** The row's own residue is governed exactly when it is not empty and none of it is over a ceiling. */
  lemma OwnedGoverned(failures: seq<string>, record: seq<ResidueEntry>, known: set<string>, m: RedirectMaps)
    ensures var population := Population(failures, known, m);
      FullyGoverned(OwnedResidue(population), record) <==>
      && (exists msg :: msg in failures && OwnCheck(msg))
      && (forall msg, j | msg in failures && OwnCheck(msg) && Carries(msg, known, m, j) ::
            Covered(population, record, j))
  {
    var population := Population(failures, known, m);
    var owned := OwnedResidue(population);
    forall j { PopulationKeys(failures, known, m, j); }
    forall msg, j | msg in failures && OwnCheck(msg) && Carries(msg, known, m, j) ensures j in owned {
      CarriedClass(msg, known, m, j);
    }
    forall j | j in owned ensures exists msg :: msg in failures && OwnCheck(msg) && Carries(msg, known, m, j) {
      var msg :| msg in failures && Carries(msg, known, m, j);
      CarriedClass(msg, known, m, j);
    }
    forall j | j in owned ensures Covered(owned, record, j) <==> Covered(population, record, j) {}
    if msg :| msg in failures && OwnCheck(msg) {
      CarriesSome(msg, known, m);
      assert ResolveKey(m, ResidueKey(msg, known).value) in owned;
    }
    if owned != map[] {
      var j :| j in owned;
    }
  }

  /** A keyed failure is counted exactly when no key it carries is covered. */
  lemma CountedIsUncovered(
      failures: seq<string>, record: seq<ResidueEntry>, known: set<string>, m: RedirectMaps, msg: string)
    requires msg in failures && CheckNumber(msg).Some?
    ensures msg in PartitionOf(failures, record, known, m).counted <==>
      forall j | Carries(msg, known, m, j) :: !Covered(Population(failures, known, m), record, j)
  {
    var j := ResolveKey(m, ResidueKey(msg, known).value);
    CarriesSome(msg, known, m);
    if record != [] {
      OneKeyOneSide(failures, record, known, m, msg);
    } else {
      assert !Covered(Population(failures, known, m), record, j);
    }
  }

  lemma CountedAreFailures(failures: seq<string>, record: seq<ResidueEntry>, known: set<string>, m: RedirectMaps)
    ensures forall msg | msg in PartitionOf(failures, record, known, m).counted :: msg in failures
    ensures forall msg | msg in failures && Unkeyed(msg) :: msg in PartitionOf(failures, record, known, m).counted
  {
    var split := PartitionOf(failures, record, known, m);
    PartitionLosesNothing(failures, record, known, m);
    forall msg | msg in split.counted ensures msg in failures {
      assert msg in multiset(split.counted);
      assert msg in multiset(failures);
    }
    if record != [] {
      forall msg | msg in failures && Unkeyed(msg) ensures msg in split.counted {
        OneKeyOneSide(failures, record, known, m, msg);
      }
    }
  }

  // --- When the verdict is DISCLOSE ---------------------------------------------------

  lemma TotalRead(notes: seq<string>, split: Split)
    requires NewlineFree(notes) && NewlineFree(split.counted) && NewlineFree(split.disclosed)
    ensures OtherTotal(ReportOf(notes, split)) == 0 <==>
      forall msg | msg in split.counted :: !OwnCheck(msg) && !Unkeyed(msg)
  {
    CountedReadBack(notes, split);
    OtherTotalZero(split.counted);
  }

  /** The row's own residue is governed exactly when some own failure exists and none is counted. */
  lemma GovernedMeansUncounted(
      failures: seq<string>, record: seq<ResidueEntry>, known: set<string>, m: RedirectMaps)
    ensures FullyGoverned(OwnedResidue(Population(failures, known, m)), record) <==>
      && (exists msg :: msg in failures && OwnCheck(msg))
      && (forall msg | msg in PartitionOf(failures, record, known, m).counted :: !OwnCheck(msg))
  {
    var counted := PartitionOf(failures, record, known, m).counted;
    OwnedGoverned(failures, record, known, m);
    CountedAreFailures(failures, record, known, m);
    forall msg | msg in failures && OwnCheck(msg) ensures msg in counted <==>
        forall j | Carries(msg, known, m, j) :: !Covered(Population(failures, known, m), record, j) {
      CountedIsUncovered(failures, record, known, m, msg);
    }
    forall msg | msg in failures && OwnCheck(msg) ensures exists j :: Carries(msg, known, m, j) {
      CarriesSome(msg, known, m);
    }
  }

  /** What a reader of the failures goes by: the record, its corpus, its redirects. */
  datatype Reader = Reader(record: seq<ResidueEntry>, corpus: set<string>, maps: RedirectMaps)

  /** What is left to count when the reader splits the failures. */
  ghost function Counted(failures: seq<string>, r: Reader): seq<string> {
    PartitionOf(failures, r.record, r.corpus, r.maps).counted
  }

  /** The verdict on the report that one reader prints, as the other measures it. */
  ghost function VerdictOn(notes: seq<string>, failures: seq<string>, audit: Reader, instrument: Reader): Verdict {
    var out := ReportOf(notes, PartitionOf(failures, audit.record, audit.corpus, audit.maps));
    VerdictOf(OtherTotal(out), ResidueRead(out, instrument.corpus, instrument.maps), instrument.record)
  }

  /**
   When the verdict is DISCLOSE, the audit and the instrument each with a record, a corpus and
   redirects of its own: exactly when the audit leaves something to count that the row answers
   for or that has no number, some failure is of the row's own checks, and the instrument,
   splitting for itself, would have counted none of those.
   */
  lemma DiscloseExactly(notes: seq<string>, failures: seq<string>, audit: Reader, instrument: Reader)
    requires NewlineFree(notes) && NewlineFree(failures)
    ensures VerdictOn(notes, failures, audit, instrument) == Disclose <==>
      && (exists msg :: msg in Counted(failures, audit) && (OwnCheck(msg) || Unkeyed(msg)))
      && (exists msg :: msg in failures && OwnCheck(msg))
      && (forall msg | msg in Counted(failures, instrument) :: !OwnCheck(msg))
  {
    SplitIsNewlineFree(failures, audit.record, audit.corpus, audit.maps);
    TotalRead(notes, PartitionOf(failures, audit.record, audit.corpus, audit.maps));
    InstrumentMeasuresThePopulation(
      notes, failures, audit.record, audit.corpus, audit.maps, instrument.corpus, instrument.maps);
    GovernedMeansUncounted(failures, instrument.record, instrument.corpus, instrument.maps);
  }

  /** When the two go by the same: exactly when all that keeps the row from PASS has no number. */
  lemma OneReaderDiscloseExactly(notes: seq<string>, failures: seq<string>, r: Reader)
    requires NewlineFree(notes) && NewlineFree(failures)
    ensures VerdictOn(notes, failures, r, r) == Disclose <==>
      && (exists msg :: msg in Counted(failures, r) && Unkeyed(msg))
      && (forall msg | msg in Counted(failures, r) :: !OwnCheck(msg))
      && (exists msg :: msg in failures && OwnCheck(msg))
  {
    DiscloseExactly(notes, failures, r, r);
  }

  /** So there a run whose failures are all keyed never gets DISCLOSE from its own report. */
  lemma KeyedNeverDisclose(notes: seq<string>, failures: seq<string>, r: Reader)
    requires NewlineFree(notes) && NewlineFree(failures) && AllKeyed(failures)
    ensures VerdictOn(notes, failures, r, r) != Disclose
  {
    OneReaderDiscloseExactly(notes, failures, r);
    CountedAreFailures(failures, r.record, r.corpus, r.maps);
  }

  /**
   With two corpora it can: a keyed failure in a file only the instrument's corpus has is
   counted by the audit and governed for the instrument.
   */
  lemma KeyedCanDisclose(msg: string, check: string, path: string)
    requires '\n' !in msg && CheckNumber(msg) == Some(check) && LocationToken(msg) == Some(path)
    requires check !in EXEMPT && path != UNLOCATED_PATH
    ensures var record := [ResidueEntry(path, H1Class(check), 1, "", "")];
      VerdictOn([], [msg], Reader(record, {}, NoRedirects()), Reader(record, {path}, NoRedirects())) == Disclose
  {
    var e := ResidueEntry(path, H1Class(check), 1, "", "");
    SweptPopulations(msg, check, path, {path}, {});
    OneRowGoverns(e, Key(UNLOCATED_PATH, H1Class(check)));
    AuditPassesExactly([msg], [e], {}, NoRedirects());
    CountedAreFailures([msg], [e], {}, NoRedirects());
    var counted := Counted([msg], Reader([e], {}, NoRedirects()));
    assert counted[0] in counted;
    OneFailureDisclosed(msg, {path}, e);
    assert msg in [msg];
    DiscloseExactly([], [msg], Reader([e], {}, NoRedirects()), Reader([e], {path}, NoRedirects()));
  }
}
