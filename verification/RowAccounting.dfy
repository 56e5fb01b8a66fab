/**
 Row (f): the product identifier's line counts before and after the migration, compared in
 total and file by file through the redirect map.
 */
module RowAccounting {
  import opened FiniteSums

  /** A file that carries the identifier, with its number of lines. */
  datatype Carrier = Carrier(path: string, lines: nat)

  datatype Disagreement = Disagreement(path: string, before: int, after: int)

  datatype Verdict =
    | EmptyPopulation
    | DeadPredicate
    | TotalMoved(control: int, migrated: int)
    | DoesNotClose(residual: int)
    | ClosesSplit(disagreements: nat)
    | Unchanged

  function Route(redirect: map<string, string>, path: string): string {
    if path in redirect then redirect[path] else path
  }

  function LineTotal(carriers: seq<Carrier>): nat {
    if carriers == [] then 0 else LineTotal(carriers[..|carriers| - 1]) + carriers[|carriers| - 1].lines
  }

  /** The control counts under their new paths; a later carrier overwrites an earlier one. */
  function Mapped(carriers: seq<Carrier>, redirect: map<string, string>): map<string, int> {
    if carriers == [] then map[]
    else
      var last := carriers[|carriers| - 1];
      Mapped(carriers[..|carriers| - 1], redirect)[Route(redirect, last.path) := last.lines]
  }

  method MapCarriers(carriers: seq<Carrier>, redirect: map<string, string>) returns (mapped: map<string, int>)
    ensures mapped == Mapped(carriers, redirect)
  {
    mapped := map[];
    for i := 0 to |carriers|
      invariant mapped == Mapped(carriers[..i], redirect)
    {
      assert carriers[..i + 1][..i] == carriers[..i];
      mapped := mapped[Route(redirect, carriers[i].path) := carriers[i].lines];
    }
    assert carriers[..|carriers|] == carriers;
  }

  function Residual(ds: seq<Disagreement>): int {
    if ds == [] then 0 else Residual(ds[..|ds| - 1]) + ds[|ds| - 1].after - ds[|ds| - 1].before
  }

  /** Every path of either side, once each, as the sorted union lists them. */
  ghost predicate Lists(paths: seq<string>, mapped: map<string, int>, migrated: map<string, int>) {
    && (forall p :: p in paths <==> p in mapped || p in migrated)
    && (forall i, j | 0 <= i < j < |paths| :: paths[i] != paths[j])
  }

  /** What the counts of the first paths add up to. */
  function Listed(paths: seq<string>, counts: map<string, int>): int {
    if paths == [] then 0 else Listed(paths[..|paths| - 1], counts) + Count(counts, paths[|paths| - 1])
  }

  /** The listed paths whose counts differ, in order. */
  function Differing(paths: seq<string>, mapped: map<string, int>, migrated: map<string, int>): seq<Disagreement> {
    if paths == [] then []
    else
      var p := paths[|paths| - 1];
      var before := Differing(paths[..|paths| - 1], mapped, migrated);
      if Count(mapped, p) == Count(migrated, p) then before
      else before + [Disagreement(p, Count(mapped, p), Count(migrated, p))]
  }

  method Disagreements(paths: seq<string>, mapped: map<string, int>, migrated: map<string, int>)
    returns (ds: seq<Disagreement>)
    ensures ds == Differing(paths, mapped, migrated)
  {
    ds := [];
    for i := 0 to |paths|
      invariant ds == Differing(paths[..i], mapped, migrated)
    {
      assert paths[..i + 1][..i] == paths[..i];
      var before, after := Count(mapped, paths[i]), Count(migrated, paths[i]);
      if before != after {
        ds := ds + [Disagreement(paths[i], before, after)];
      }
    }
    assert paths[..|paths|] == paths;
  }

  // --- What the residual is -----------------------------------------------------------

  lemma ResidualSnoc(ds: seq<Disagreement>, d: Disagreement)
    ensures Residual(ds + [d]) == Residual(ds) + d.after - d.before
  {
    assert (ds + [d])[..|ds|] == ds;
  }

  /** The disagreements sum to the difference of what the two sides list. */
  lemma {:induction false} ResidualOfDiffering(paths: seq<string>, mapped: map<string, int>, migrated: map<string, int>)
    ensures Residual(Differing(paths, mapped, migrated)) == Listed(paths, migrated) - Listed(paths, mapped)
  {
    if paths != [] {
      var init, p := paths[..|paths| - 1], paths[|paths| - 1];
      ResidualOfDiffering(init, mapped, migrated);
      ResidualSnoc(Differing(init, mapped, migrated), Disagreement(p, Count(mapped, p), Count(migrated, p)));
    }
  }

  predicate Agree(paths: seq<string>, mapped: map<string, int>, migrated: map<string, int>) {
    forall p | p in paths :: Count(mapped, p) == Count(migrated, p)
  }

  lemma AgreeSnoc(init: seq<string>, last: string, mapped: map<string, int>, migrated: map<string, int>)
    ensures Agree(init + [last], mapped, migrated) <==>
      Agree(init, mapped, migrated) && Count(mapped, last) == Count(migrated, last)
  {
    assert last in init + [last];
    forall p | p in init ensures p in init + [last] {}
  }

  /** There is none exactly when the two sides agree on every listed path. */
  lemma {:induction false} NoneDiffer(paths: seq<string>, mapped: map<string, int>, migrated: map<string, int>)
    ensures Differing(paths, mapped, migrated) == [] <==> Agree(paths, mapped, migrated)
  {
    if paths != [] {
      var init, last := paths[..|paths| - 1], paths[|paths| - 1];
      assert paths == init + [last];
      NoneDiffer(init, mapped, migrated);
      AgreeSnoc(init, last, mapped, migrated);
    }
  }

  /** Listing every key of a map once adds up to its total. */
  lemma {:induction false} ListedTotal(paths: seq<string>, counts: map<string, int>)
    requires forall i, j | 0 <= i < j < |paths| :: paths[i] != paths[j]
    requires forall p | p in counts :: p in paths
    ensures Listed(paths, counts) == Total(counts)
  {
    if paths == [] {
      assert counts == map[];
    } else {
      var init, p := paths[..|paths| - 1], paths[|paths| - 1];
      var less := counts - {p};
      forall q | q in less ensures q in init {
        var k :| 0 <= k < |paths| && paths[k] == q;
        assert init[k] == q;
      }
      ListedTotal(init, less);
      SameListed(init, counts, less);
      if p in counts {
        TotalRemove(counts, p);
      } else {
        assert less == counts;
      }
    }
  }

  lemma {:induction false} SameListed(paths: seq<string>, a: map<string, int>, b: map<string, int>)
    requires forall i | 0 <= i < |paths| :: Count(a, paths[i]) == Count(b, paths[i])
    ensures Listed(paths, a) == Listed(paths, b)
  {
    if paths != [] {
      SameListed(paths[..|paths| - 1], a, b);
    }
  }

  /** The disagreements always sum to the migrated total minus the mapped control total. */
  lemma ResidualIsTheDifference(paths: seq<string>, mapped: map<string, int>, migrated: map<string, int>)
    requires Lists(paths, mapped, migrated)
    ensures Residual(Differing(paths, mapped, migrated)) == Total(migrated) - Total(mapped)
    ensures Differing(paths, mapped, migrated) == [] <==> forall p :: Count(mapped, p) == Count(migrated, p)
  {
    ResidualOfDiffering(paths, mapped, migrated);
    ListedTotal(paths, migrated);
    ListedTotal(paths, mapped);
    NoneDiffer(paths, mapped, migrated);
  }

  /** Two carriers arrive in one file. */
  predicate Merges(carriers: seq<Carrier>, redirect: map<string, string>) {
    exists i, j | 0 <= i < j < |carriers| :: Route(redirect, carriers[i].path) == Route(redirect, carriers[j].path)
  }

  lemma {:induction false} MappedKeys(carriers: seq<Carrier>, redirect: map<string, string>, p: string)
    ensures p in Mapped(carriers, redirect) <==>
      exists i | 0 <= i < |carriers| :: Route(redirect, carriers[i].path) == p
  {
    if carriers != [] {
      var init := carriers[..|carriers| - 1];
      MappedKeys(init, redirect, p);
      if i :| 0 <= i < |carriers| && Route(redirect, carriers[i].path) == p {
        if i < |init| {
          assert Route(redirect, init[i].path) == p;
        }
      }
    }
  }

  /** The path goes to `p`: by its redirect, or as it is when it has none. */
  predicate GoesTo(redirect: map<string, string>, path: string, p: string) {
    (path in redirect && redirect[path] == p) || (path !in redirect && path == p)
  }

  /** Carrier `i` is the last one that goes to `p`. */
  ghost predicate LastTo(carriers: seq<Carrier>, redirect: map<string, string>, p: string, i: nat) {
    && i < |carriers| && GoesTo(redirect, carriers[i].path, p)
    && forall j | i < j < |carriers| :: !GoesTo(redirect, carriers[j].path, p)
  }

  /** The count under a new path is that of the last carrier that goes there. */
  lemma {:induction false} MappedExactly(carriers: seq<Carrier>, redirect: map<string, string>, p: string, n: int)
    ensures (p in Mapped(carriers, redirect) && Mapped(carriers, redirect)[p] == n) <==>
      exists i: nat | LastTo(carriers, redirect, p, i) :: carriers[i].lines == n
  {
    if carriers != [] {
      var k := |carriers| - 1;
      var init := carriers[..k];
      MappedExactly(init, redirect, p, n);
      if GoesTo(redirect, carriers[k].path, p) {
        assert LastTo(carriers, redirect, p, k);
      } else {
        LastToInit(carriers, redirect, p);
      }
    }
  }

  lemma LastToInit(carriers: seq<Carrier>, redirect: map<string, string>, p: string)
    requires carriers != [] && !GoesTo(redirect, carriers[|carriers| - 1].path, p)
    ensures forall i: nat :: LastTo(carriers, redirect, p, i) <==> LastTo(carriers[..|carriers| - 1], redirect, p, i)
  {
    var init := carriers[..|carriers| - 1];
    assert forall i | 0 <= i < |init| :: init[i] == carriers[i];
  }

  lemma {:induction false} MappedPositive(carriers: seq<Carrier>, redirect: map<string, string>)
    requires forall i | 0 <= i < |carriers| :: carriers[i].lines > 0
    ensures forall p | p in Mapped(carriers, redirect) :: Mapped(carriers, redirect)[p] > 0
  {
    if carriers != [] {
      MappedPositive(carriers[..|carriers| - 1], redirect);
    }
  }

  lemma MergesSnoc(carriers: seq<Carrier>, redirect: map<string, string>)
    requires carriers != []
    ensures var init, last := carriers[..|carriers| - 1], carriers[|carriers| - 1];
      Merges(carriers, redirect) <==> Merges(init, redirect) || Route(redirect, last.path) in Mapped(init, redirect)
  {
    var init, last := carriers[..|carriers| - 1], carriers[|carriers| - 1];
    MappedKeys(init, redirect, Route(redirect, last.path));
    if Merges(init, redirect) {
      var i, j :| 0 <= i < j < |init| && Route(redirect, init[i].path) == Route(redirect, init[j].path);
      assert carriers[i] == init[i] && carriers[j] == init[j];
    }
    if i :| 0 <= i < |init| && Route(redirect, init[i].path) == Route(redirect, last.path) {
      assert carriers[i] == init[i] && carriers[|init|] == last;
    }
    if Merges(carriers, redirect) {
      var i, j :| 0 <= i < j < |carriers| && Route(redirect, carriers[i].path) == Route(redirect, carriers[j].path);
      assert carriers[i] == init[i];
      if j < |init| {
        assert carriers[j] == init[j];
      }
    }
  }

  /** Mapping the carriers keeps every line if and only if no two of them are merged. */
  lemma {:induction false} MappingKeepsLines(carriers: seq<Carrier>, redirect: map<string, string>)
    requires forall i | 0 <= i < |carriers| :: carriers[i].lines > 0
    ensures Total(Mapped(carriers, redirect)) <= LineTotal(carriers)
    ensures Total(Mapped(carriers, redirect)) == LineTotal(carriers) <==> !Merges(carriers, redirect)
  {
    if carriers != [] {
      var init, last := carriers[..|carriers| - 1], carriers[|carriers| - 1];
      MappingKeepsLines(init, redirect);
      MappedPositive(init, redirect);
      MergesSnoc(carriers, redirect);
      TotalUpdate(Mapped(init, redirect), Route(redirect, last.path), last.lines);
    }
  }

  // --- The row ------------------------------------------------------------------------

  /** The branches, from the number of files, the two totals and the disagreements. */
  function Judged(files: nat, control: int, total: int, ds: seq<Disagreement>): Verdict {
    if files == 0 then EmptyPopulation
    else if control == 0 then DeadPredicate
    else if total != control then TotalMoved(control, total)
    else if Residual(ds) != 0 then DoesNotClose(Residual(ds))
    else if ds != [] then ClosesSplit(|ds|)
    else Unchanged
  }

  /** The row's verdict on both sides' counts, `paths` being the sorted union of their files. */
  ghost function VerdictF(files: nat, carriers: seq<Carrier>, migrated: map<string, int>,
                          redirect: map<string, string>, paths: seq<string>): Verdict {
    Judged(files, LineTotal(carriers), Total(migrated), Differing(paths, Mapped(carriers, redirect), migrated))
  }

  /** `row_f`. */
  method RowF(files: nat, carriers: seq<Carrier>, migrated: map<string, int>, total: int,
              redirect: map<string, string>, paths: seq<string>)
    returns (verdict: Verdict)
    requires total == Total(migrated)
    ensures verdict == VerdictF(files, carriers, migrated, redirect, paths)
  {
    var mapped := MapCarriers(carriers, redirect);
    var ds := Disagreements(paths, mapped, migrated);
    var residual := Residual(ds);
    if files == 0 {
      return EmptyPopulation;
    }
    if LineTotal(carriers) == 0 {
      return DeadPredicate;
    }
    if total != LineTotal(carriers) {
      return TotalMoved(LineTotal(carriers), total);
    }
    if residual != 0 {
      return DoesNotClose(residual);
    }
    if ds != [] {
      return ClosesSplit(|ds|);
    }
    return Unchanged;
  }

  /** With equal, nonzero totals: which of the three verdicts of conjunct 2 is given when. */
  lemma ConjunctTwoExactly(files: nat, carriers: seq<Carrier>, migrated: map<string, int>,
                           redirect: map<string, string>, paths: seq<string>)
    requires forall i | 0 <= i < |carriers| :: carriers[i].lines > 0
    requires Lists(paths, Mapped(carriers, redirect), migrated)
    requires files > 0 && LineTotal(carriers) > 0 && Total(migrated) == LineTotal(carriers)
    ensures var verdict := VerdictF(files, carriers, migrated, redirect, paths);
      var same := forall p :: Count(Mapped(carriers, redirect), p) == Count(migrated, p);
      && (verdict.DoesNotClose? <==> Merges(carriers, redirect))
      && (verdict.ClosesSplit? <==> !Merges(carriers, redirect) && !same)
      && (verdict.Unchanged? <==> !Merges(carriers, redirect) && same)
      && (verdict.DoesNotClose? ==> verdict.residual == Total(migrated) - Total(Mapped(carriers, redirect)) > 0)
  {
    ResidualIsTheDifference(paths, Mapped(carriers, redirect), migrated);
    MappingKeepsLines(carriers, redirect);
  }

  lemma {:induction false} LineTotalZero(carriers: seq<Carrier>)
    ensures LineTotal(carriers) == 0 <==> forall i | 0 <= i < |carriers| :: carriers[i].lines == 0
  {
    if carriers != [] {
      LineTotalZero(carriers[..|carriers| - 1]);
    }
  }

  /** What conjunct 1 and the two guards before it say, and that conjunct 2 is only asked when they say nothing. */
  lemma ConjunctOneExactly(files: nat, carriers: seq<Carrier>, migrated: map<string, int>,
                           redirect: map<string, string>, paths: seq<string>)
    ensures var verdict := VerdictF(files, carriers, migrated, redirect, paths);
      var carried := exists i :: 0 <= i < |carriers| && carriers[i].lines != 0;
      && (verdict.EmptyPopulation? <==> files == 0)
      && (verdict.DeadPredicate? <==> files != 0 && !carried)
      && (verdict.TotalMoved? <==> files != 0 && carried && Total(migrated) != LineTotal(carriers))
      && (verdict.TotalMoved? ==> verdict == TotalMoved(LineTotal(carriers), Total(migrated)))
      && (verdict.DoesNotClose? || verdict.ClosesSplit? || verdict.Unchanged? <==>
            files != 0 && carried && Total(migrated) == LineTotal(carriers))
  {
    LineTotalZero(carriers);
  }

  /** How many split disagreements are reported: the listed paths whose counts differ. */
  lemma SplitCountsDiffering(files: nat, carriers: seq<Carrier>, migrated: map<string, int>,
                             redirect: map<string, string>, paths: seq<string>)
    requires Lists(paths, Mapped(carriers, redirect), migrated)
    ensures var verdict := VerdictF(files, carriers, migrated, redirect, paths);
      verdict.ClosesSplit? ==> verdict.disagreements == |DifferingPaths(paths, Mapped(carriers, redirect), migrated)|
  {
    DifferingCounted(paths, Mapped(carriers, redirect), migrated);
  }

  /** The paths on which the two sides differ. */
  function DifferingPaths(paths: seq<string>, mapped: map<string, int>, migrated: map<string, int>): set<string> {
    set p | p in paths && Count(mapped, p) != Count(migrated, p)
  }

  lemma {:induction false} DifferingCounted(paths: seq<string>, mapped: map<string, int>, migrated: map<string, int>)
    requires forall i, j | 0 <= i < j < |paths| :: paths[i] != paths[j]
    ensures |Differing(paths, mapped, migrated)| == |DifferingPaths(paths, mapped, migrated)|
  {
    if paths != [] {
      var init, last := paths[..|paths| - 1], paths[|paths| - 1];
      DifferingCounted(init, mapped, migrated);
      assert paths == init + [last];
      var before := DifferingPaths(init, mapped, migrated);
      assert last !in init;
      if Count(mapped, last) == Count(migrated, last) {
        assert DifferingPaths(paths, mapped, migrated) == before;
      } else {
        assert DifferingPaths(paths, mapped, migrated) == before + {last};
      }
    } else {
      assert DifferingPaths(paths, mapped, migrated) == {};
    }
  }

  // --- Where the verdict misleads -----------------------------------------------------

  lemma MappedPair(a: Carrier, b: Carrier, redirect: map<string, string>)
    ensures Mapped([a, b], redirect) == map[][Route(redirect, a.path) := a.lines][Route(redirect, b.path) := b.lines]
    ensures LineTotal([a, b]) == a.lines + b.lines
  {
    assert [a, b][..1] == [a] && [a][..0] == [];
    assert Mapped([a], redirect) == map[][Route(redirect, a.path) := a.lines] && LineTotal([a]) == a.lines;
  }

  lemma TotalOfPair(p: string, n: int, q: string, m: int)
    requires p != q
    ensures Total(map[p := n][q := m]) == n + m && Total(map[p := n]) == n
  {
    assert map[p := n] == map[][p := n];
    TotalUpdate(map[], p, n);
    TotalUpdate(map[p := n], q, m);
  }

  /** Two files merged into one that has all their lines: reported as an identifier gone. */
  lemma MergedFilesDoNotClose()
    ensures var redirect := map["a" := "n", "b" := "n"];
      VerdictF(1, [Carrier("a", 1), Carrier("b", 1)], map["n" := 2], redirect, ["n"]) == DoesNotClose(1)
  {
    var redirect := map["a" := "n", "b" := "n"];
    var carriers := [Carrier("a", 1), Carrier("b", 1)];
    MappedPair(carriers[0], carriers[1], redirect);
    assert Mapped(carriers, redirect) == map["n" := 1];
    TotalOfPair("n", 2, "m", 0);
    TotalOfPair("n", 1, "m", 0);
    assert Merges(carriers, redirect);
    ConjunctTwoExactly(1, carriers, map["n" := 2], redirect, ["n"]);
  }

  /** One line moved from a file to another: accepted as a split. */
  lemma MovedLineCloses()
    ensures VerdictF(2, [Carrier("a", 2), Carrier("b", 1)], map["a" := 1, "b" := 2], map[], ["a", "b"]).ClosesSplit?
  {
    var carriers := [Carrier("a", 2), Carrier("b", 1)];
    var migrated := map["a" := 1, "b" := 2];
    MappedPair(carriers[0], carriers[1], map[]);
    assert Mapped(carriers, map[]) == map["a" := 2, "b" := 1];
    assert migrated == map["a" := 1]["b" := 2];
    TotalOfPair("a", 1, "b", 2);
    assert !Merges(carriers, map[]);
    assert Count(Mapped(carriers, map[]), "a") != Count(migrated, "a");
    ConjunctTwoExactly(2, carriers, migrated, map[], ["a", "b"]);
  }
}
