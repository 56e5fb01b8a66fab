# The document-governance engine, verified

This project models the scripts that govern the repository's documents and proves what their
comments and docstrings promise. It covers these parts:

- **The control-path resolver** (`ControlPaths`, `ControlPathLaws`, `SlugTexts`): the redirect
  table of one migration run, with its splits and merges, turned back into keys that do not
  depend on the run's allocation of ids.
- **The residue ceiling** (`ResidueCeiling`, `ResidueRecord`, `RecordTexts`): the governed
  `(path, class) -> count` record, its table, and the three readers of one ceiling.
- **The failure report** (`FailureReport`, `ReportTexts`, `ReportLaws`, `Corpora`, `H1Verdict`):
  the audit splits its failures against the record and prints them; the verification re-reads the
  text, measures all of them under a corpus of its own, and gives row (h1)'s verdict. `Corpora`
  says exactly when the two corpora measure the same and the two gates agree.
- **The citation inverse** (`TokenSubstitution`, `TokenBounds`, `CitationInverse`,
  `StampedCitations`, `StampTexts`): a bounded, single-pass rewrite of whole identifiers and
  paths, the inverse that undoes it, and the predicate that excuses a stamped and rewritten file.
- **The freeze rule** (`Freeze`): what a frozen document may show over its history.
- **The header grammar** (`HeaderGrammar`, `LineFold`, `DateTexts`, `HeaderTexts`,
  `HeaderReading`, `HeaderLaws`, `HeaderValues`, `HeaderLists`, `HeaderDocuments`,
  `HeaderPrinter`): which text has which header, which headers are refused and where, and the
  round trips.
- **The padding rule** (`Finditer`, `LeftmostScan`, `LineScan`, `PaddedIds`, `PathTexts`,
  `Asterisks`, `PaddedScanners`, `CitationTexts`, `CitationCheck`, `RowEReading`,
  `PaddingAgreement`, `PaddedFiles`): two scanners of padded ids, what each of them reports about a
  file, and exactly where the two agree on a line and over a file.
- **The slot protocol** (`SlotProtocol`, `SlotOutcomes`, `SlotLaws`, `SlotDeadlocks`,
  `SlotDiscipline`, `SlotNesting`, `SlotSession`): lock files, announcements, scan, wait and
  release as a transition system over all interleavings; what becomes of each process, what the
  system always keeps, exactly when it locks up, and a discipline under which it never does.
- **Row (f) and check 31** (`RowAccounting`, `IdSequence`): per-file accounting of the product
  identifier, and the sequence clauses over document numbers.

`Text`, `TextLaws`, `FiniteSums`, `Sequences` and `Wrappers` hold what the parts share. Loops of
the scripts are methods proved against specification functions; the laws are lemmas about those
functions. What an operation does is also said without it: `TokenBounds`, `HeaderReading`,
`RecordTexts`, `CitationCheck`, `RowEReading`, `ReportTexts`, `StampTexts`, `PathTexts` and
`SlugTexts` give its result, in both directions, on the characters of its input, and
`SlotOutcomes` on the events of a run.

## Where the code and its documentation disagree

The model follows the code. In each case lemmas give an input and the exact condition.

- A merge target is said to resolve to itself. It does not when it is also a split source with a
  part cell (`MergeTargetCanMove`, `MergeTargetStandsForItself`).
- The resolver is said not to depend on row order. It does when rows of one new path carry
  different part cells that are read (`AnOrderShows`, `OrderIndependentExactly`).
- An accepted class is said to be one an extractor can produce. `$` also accepts a trailing
  newline (`NewlineClassIsAccepted`, `KnownExactly`); no table cell can carry one
  (`KnownCellsAreProduced`).
- The instrument and the audit are said to agree on the key of a message. They resolve its file
  against different corpora, and one may pass what the other refuses (`GatesCanDisagree`,
  `SamePopulationExactly`, `GatesAgreeExactly`).
- Row (h1) is said to close by DISCLOSE when all its residue is governed. When the audit and the
  instrument go by the same record, corpus and redirects and every failure is keyed, it never does
  (`KeyedNeverDisclose`); with two corpora it can (`KeyedCanDisclose`, and `DiscloseExactly` for
  any two readers).
- Stripping asterisks is said never to add or remove a match. It can do either
  (`DeletionCanRemoveAMatch`, `DeletionCanAddAMatch`, `DeletionKeepsHitsExactly`).
- Row (e) and check 32 are said to be one rule. They part inside links, on the lines row (e)
  skips, behind a line that only one of them takes for a fence, and where an asterisk moves the
  count of matches so that only one of them sees a path (`LinkedIdsDiffer`,
  `SkippedLinesPartTheScanners`, `FencesPartTheScanners`, `StarredPathsDiffer`); exactly when is
  `OneRuleTwoScanners` for a line and `FileAgreementExactly` for a file.
- Row (f)'s residual is said to catch an identifier that left one file without arriving in
  another. With equal totals it fires on two merged files that lost nothing and passes a line
  that moved (`MergedFilesDoNotClose`, `MovedLineCloses`, `ConjunctTwoExactly`).
- The announcement is said to remove the self-deadlock. It does for wrapped runs; a bare run that
  starts another bare run can block on its own lock, with any number of slots
  (`NestedBareRunDeadlocks`, `NestedBareRunCanDeadlock`; exactly when it does:
  `StuckExactlyOnSelfWait`, `QuietHasEndedExactly`).

## Model

| member | source | states |
|---|---|---|
| `ControlPaths.ReadRows` | scripts/_docid.py:1987-2015 | all rows read in order: the indexes by old path and by new path hold exactly the moves, and each new path keeps the part cell of its last row |
| `ControlPaths.Invert` | scripts/_docid.py:2016-2020 | only a new path with exactly one source is turned back, to that source; a merge target is not |
| `ControlPaths.SiblingCollisions` | scripts/_docid.py:2025-2034 | the groups of siblings under one part cell, each group complete, no singleton group |
| `ControlPaths.FindCollisions` | scripts/_docid.py:2021-2034 | every split control path whose siblings share a part cell is named, with all of them, and no other |
| `ControlPaths.LoadRedirectMaps` | scripts/_docid.py:1979-2042 | the table is refused if and only if some split is ambiguous, naming every collision; otherwise the three maps are those of the table |
| `ControlPaths.SumResolved` | scripts/_docid.py:1955-1960 | the summing loop computes the regrouping of the counts by resolved key |
| `ControlPaths.ResolveToControlPaths` | scripts/_docid.py:1894-1960 | fails exactly when something is measured and the table is ambiguous; else gives the regrouped counts |
| `ControlPaths.ResolveKeysToControlPaths` | scripts/_docid.py:1963-1976 | fails exactly when a key is asked for and the table is ambiguous; else gives each key its own resolution |
| `ControlPathLaws.CompositeInjective` | scripts/_docid.py:1851-1860 | for control paths without `#`, equal composite keys have equal control paths and equal parts |
| `ControlPathLaws.KeyIs` | scripts/_docid.py:2045-2054 | the key is the only source (or the path itself) joined with the part cell exactly when that source splits |
| `ControlPathLaws.KeysCollideExactly` | scripts/_docid.py:1996-2054 | two different paths of an accepted table share a key if and only if one is the other's control path, still stands for itself, and the part cells do not tell them apart |
| `ControlPathLaws.MovedPathsKeepApart` | scripts/_docid.py:1996-2054 | paths with exactly one source each never share a key, in any mix of splits and merges |
| `ControlPathLaws.HashBreaksInjectivity` | scripts/_docid.py:1851-1860 | the assumption on `#` is needed: three rows the loader accepts, under which two moved paths share a key |
| `ControlPathLaws.MergeTargetStandsForItself` | scripts/_docid.py:1933-1954 | a merge target resolves to itself if and only if it is not also a split source with a part cell |
| `ControlPathLaws.MergeTargetCanMove` | scripts/_docid.py:1933-1954 | three rows the loader accepts, with a merge target that does not resolve to itself |
| `ControlPathLaws.AgreeingRowsHaveNoOrder` | scripts/_docid.py:1987-2020 | rows that agree on every part cell make the same table in every order |
| `ControlPathLaws.OrderFreeSuffices` | scripts/_docid.py:1987-2042 | under the row condition every reordering is accepted and gives every path the same key |
| `ControlPathLaws.OrderIndependentExactly` | scripts/_docid.py:1987-2042 | for an accepted table: no reordering changes the verdict or any key if and only if siblings never share a part cell in any row and every part cell that is read is given once |
| `ControlPathLaws.AnOrderShows` | scripts/_docid.py:1987-2042 | three rows the loader accepts that another order resolves otherwise or refuses |
| `ControlPathLaws.KeyAcrossAllocations` | scripts/_docid.py:1777-1801 | under another run's names a moved file keeps its key if and only if it has no siblings or its part cell is the same |
| `ControlPathLaws.KeysSurviveReallocation` | scripts/_docid.py:1915-1926 | with the part column, renaming all migrated files changes neither the refusal nor any moved file's key |
| `ControlPathLaws.SlugKeysSurviveExactly` | scripts/_docid.py:1810-1831 | without the column a split part keeps its key if and only if the new file name has the same slug |
| `SlugTexts.SlugExactly` | scripts/_docid.py:1807-1829 | the slug is the last component that counts, without an upper-case prefix, hyphen, digits and hyphen if it has them |
| `SlugTexts.PartExactly` | scripts/_docid.py:2001-2015 | a row's part identity is its cell as it stands, blank or not, and the slug only in a table without the column |
| `ControlPathLaws.ResolutionConservesClasses` | scripts/_docid.py:1955-1960 | the summed count of each class is unchanged by the resolution |
| `ControlPathLaws.ResolutionAgreesPerItem` | scripts/_docid.py:1963-1976 | the count at a resolved key is the sum over exactly the items whose own resolution is that key |
| `ResidueCeiling.BuildCeiling` | scripts/_docid.py:1661-1683 | succeeds if and only if row keys are distinct; a failure names every duplicated key with all of its rows |
| `ResidueCeiling.CeilingIsTheRow` | scripts/_docid.py:1661-1683 | for distinct rows the ceiling has exactly the rows' keys, each at its own count |
| `ResidueCeiling.CheckResidueCeiling` | scripts/_docid.py:1686-1732 | the changes are exactly the expected ones: regressions above or outside the record in governed classes, and rows that now measure zero; one change a key at most |
| `ResidueCeiling.DisclosedByRecord` | scripts/_docid.py:1757-1774 | the disclosed keys are exactly those at or under a recorded ceiling |
| `ResidueCeiling.ResidueFullyGoverned` | scripts/_docverify.py:4031-4064 | true exactly on non-empty residue whose positive keys are all at or under a ceiling; fails only on duplicate rows, and never on empty residue |
| `ResidueCeiling.FatalIsRegression` | scripts/_docid.py:1704-1722 | a key has a fatal change if and only if it is positive, its class governed, and it is above or outside the record |
| `ResidueCeiling.ReadersAgree` | scripts/_docverify.py:4031-4064 | the three readers agree: fully governed iff no fatal change and all positive classes governed, iff every positive key is disclosed |
| `ResidueCeiling.LoweringIsNeverFatal` | scripts/_docid.py:1695-1697 | lowering any counts never creates a fatal change |
| `ResidueCeiling.ShrinkingIsSafe` | scripts/_docid.py:1698-1700 | dropping every row reported as able to shrink leaves a record that calls for no change at all |
| `ResidueRecord.ExtractorsNeverShareAClass` | scripts/_docid.py:1446-1466 | the class constructors of rows (d), (g) and (h1) have disjoint images, and distinct (d) rows distinct classes |
| `ResidueRecord.KnownExactly` | scripts/_docid.py:1471-1490 | the accepted classes are exactly the produced ones and an (h1) class followed by one newline |
| `ResidueRecord.NewlineClassIsAccepted` | scripts/_docid.py:1480-1490 | every (h1) class with a newline behind it is accepted though no extractor produces it |
| `ResidueRecord.KnownCellsAreProduced` | scripts/_docid.py:1480-1490 | among trimmed cells, which is what the loader passes, the accepted classes are exactly the produced ones |
| `ResidueRecord.MeasuredResidue` | scripts/_docverify.py:4147-4155 | the merge loop computes the union of the rows' residue |
| `ResidueRecord.MergeOverwritesNothing` | scripts/_docverify.py:4147-4155 | when each row uses its own classes, every entry of every row survives the merge and nothing else appears |
| `ResidueRecord.LoadRecord` | scripts/_docid.py:1583-1628 | the entries in order, or the first unknown class; malformed rows are skipped |
| `ResidueRecord.RenderedEntry` | scripts/_docid.py:1606-1627 | a rendered entry is read back as that entry |
| `ResidueRecord.TableRoundTrip` | scripts/_docid.py:1583-1628 | loading a rendered table gives the same entries in the same order |
| `RecordTexts.EntryReadExactly` | scripts/_docid.py:1604-1626 | a line carries an entry if and only if it is, on its characters, a row of five trimmed cells: a file, an extractor's class, and the digits of the count behind any zeros |
| `RecordTexts.UnknownReadExactly` | scripts/_docid.py:1604-1622 | a line is fatal if and only if it is such a row with a class no extractor builds |
| `RecordTexts.UnbarredIsProse` | scripts/_docid.py:1606-1608 | a line that, stripped, does not both start and end with a bar is no row |
| `RecordTexts.OddRowIsProse` | scripts/_docid.py:1609-1615 | no more is a row without five cells, the heading, the rule, a row without file or class, or one without a number |
| `RecordTexts.ProseChangesNothing` | scripts/_docid.py:1606-1615 | such a line may stand anywhere: with and without it the entries and the refusal are the same |
| `RecordTexts.RecordReadExactly` | scripts/_docid.py:1603-1628 | the record is loaded as exactly the entries its rows carry, in order |
| `RecordTexts.RecordRefusedExactly` | scripts/_docid.py:1616-1622 | the record is refused if and only if some row names a class no extractor builds, at the first such row |
| `RecordTexts.WovenTableRoundTrip` | scripts/_docid.py:1583-1628 | entries written as rows, with prose before, between and after them, are loaded as they were |
| `FailureReport.CheckNumberExactly` | scripts/_docid.py:1505 | a message has a check number if and only if it starts with `check`, those digits and a colon |
| `FailureReport.Partition` | scripts/audit-docs.py:3654-3696 | the split of the failures by control key and recorded ceiling; fails exactly on an ambiguous table with keyed failures, naming every collision, or else on duplicate record rows, naming every duplicate; everything is counted under an empty record |
| `FailureReport.CountResolved` | scripts/audit-docs.py:3684-3687 | the counting loop tallies the resolved keys |
| `FailureReport.SplitMessages` | scripts/audit-docs.py:3689-3696 | each side keeps its messages in order |
| `FailureReport.PrintReport` | scripts/audit-docs.py:4228-4245 | the report text line by line, and status 0 exactly when nothing is counted |
| `FailureReport.ClassifyFailures` | scripts/_docverify.py:3042-3052 | the buckets tally the messages from the FAILED heading on |
| `FailureReport.H1ResidueByFile` | scripts/_docverify.py:3105-3197 | the residue is the resolved tally of the keyed messages from the first heading of either kind on |
| `ReportTexts.TokenExactly` | scripts/_docid.py:1495-1495 | a message names a file if and only if `check`, a number, a token and both colons stand first |
| `ReportTexts.KeyExactly` | scripts/_docid.py:1523-1544 | a message stands under its check and the known file it names, or under no file; without a number it has no key |
| `ReportTexts.BucketExactly` | scripts/_docverify.py:3042-3052 | the bucket of a message is its number, or `unclassified` if it has none |
| `ReportTexts.CountedReadExactly` | scripts/_docverify.py:3031-3048 | the counted messages of a text are the bullets below its first FAILED heading, headings and bullets said on their characters |
| `ReportTexts.ResidueReadExactly` | scripts/_docverify.py:3105-3185 | the same from the first heading of either kind |
| `ReportTexts.PrintedReport` | scripts/audit-docs.py:4228-4245 | the printed text line by line: notes, disclosed messages under their number, counted messages under theirs or that all checks passed |
| `ReportLaws.PopulationKeys` | scripts/audit-docs.py:3678-3687 | a key is in the population exactly when some failure carries it |
| `ReportLaws.PopulationCounts` | scripts/audit-docs.py:3684-3687 | and each key is counted as often as a failure carries it |
| `ReportLaws.OneKeyOneSide` | scripts/audit-docs.py:3688-3696 | all messages with one resolved key land on the same side, the disclosed one exactly when the whole population is at or under its ceiling; unkeyed messages are counted |
| `ReportLaws.PartitionLosesNothing` | scripts/audit-docs.py:3689-3696 | the two sides together are the failures, as multisets |
| `ReportLaws.CountedReadBack` | scripts/_docverify.py:3046-3048 | the verdict reader recovers exactly the counted messages in order from the printed report |
| `ReportLaws.AllReadBack` | scripts/_docverify.py:3170-3176 | the residue reader recovers exactly the disclosed and then the counted messages |
| `ReportLaws.ReadBackExactly` | scripts/_docverify.py:3033-3034 | printing and reading gives every message back if and only if no message has a newline |
| `ReportLaws.InstrumentMeasuresThePopulation` | scripts/_docverify.py:3157-3197 | re-reading a report that was split under one corpus and table measures the population of all failures under the reader's own, not the counted half |
| `ReportLaws.VerdictCountsTheCounted` | scripts/_docverify.py:3042-3052 | the verdict's buckets total the counted messages and agree per class |
| `ReportLaws.NothingCounted` | scripts/audit-docs.py:3622-3635 | nothing is counted if and only if every failure is keyed and every key of the population is covered |
| `ReportLaws.AuditPassesExactly` | scripts/audit-docs.py:3622-3635 | the audit passes on failures if and only if all are keyed and their population is fully governed |
| `Corpora.SamePopulationExactly` | scripts/_docverify.py:3157-3197 | under two corpora the same failures measure the same if and only if, control key by control key, as many name a file of the first alone as of the second alone; files the resolver keys alike do not count |
| `Corpora.FilteredCorpusExactly` | scripts/_docverify.py:443-456 | when the second corpus locates no failure that the first does not, the measurements agree if and only if no failure names a file of the first alone, up to files keyed alike |
| `Corpora.AlikeIsBalanced` | scripts/_docid.py:1532-1537 | corpora that locate the same tokens, up to tokens resolved alike, measure the same |
| `Corpora.GatesAgreeExactly` | scripts/_docverify.py:3178-3185 | the audit passes exactly when the re-read residue is governed, under every record, if and only if there are failures and either all are keyed and the corpora are balanced on them, or none is keyed |
| `Corpora.SweptFileSplitsTheGates` | scripts/_docverify.py:443-456 | for every failure that names a file only the audit has: recorded at one it is disclosed and the audit passes, while the instrument measures an ungoverned failure without a file |
| `Corpora.GatesCanDisagree` | scripts/_docid.py:1532-1537 | one such failure, in the governance record itself |
| `H1Verdict.Verdict1` | scripts/_docverify.py:3055-3084 | the verdict from the total, the residue and the record; fails only on duplicate rows it has to read, naming them |
| `H1Verdict.DiscloseExactly` | scripts/_docverify.py:3055-3084 | audit and instrument each with a record, a corpus and redirects of its own: DISCLOSE if and only if the audit counts something unkeyed or of a non-exempt check, some failure is of a non-exempt check, and the instrument splitting for itself would count none of those |
| `H1Verdict.OneReaderDiscloseExactly` | scripts/_docverify.py:3055-3084 | when the two go by the same: if and only if an unkeyed failure is counted, no keyed one of a non-exempt check is, and some failure of a non-exempt check exists |
| `H1Verdict.KeyedNeverDisclose` | scripts/_docverify.py:3055-3062 | so there, with all failures keyed, the verdict is never DISCLOSE, though the docstring describes it as how a governed run closes |
| `H1Verdict.KeyedCanDisclose` | scripts/_docid.py:1532-1537 | with two corpora it can be: for every keyed failure in a file only the instrument has |
| `TokenSubstitution.Pick` | scripts/audit-docs.py:2214-2215 | the alternative taken is an admissible token; none is taken only when none is admissible |
| `TokenSubstitution.LongestIsTaken` | scripts/audit-docs.py:2345-2353 | longest first takes the longest admissible token |
| `TokenSubstitution.LongestFirstIsOrderFree` | scripts/audit-docs.py:2377-2378 | any two longest-first orders of the same tokens give the same text, whatever the tokens |
| `TokenSubstitution.OneIdentifierMatches` | scripts/_docid.py:113 | at most one identifier matches at a position: a token and its extension never both |
| `TokenSubstitution.IdentifiersAreOrderFree` | scripts/audit-docs.py:2345-2353 | for identifiers every alternation order gives the same text |
| `TokenSubstitution.NoMatchNoChange` | scripts/audit-docs.py:2377-2379 | a text without a match comes back unchanged, whatever the tokens |
| `TokenSubstitution.ContinuedTokenNeverMatches` | scripts/audit-docs.py:2355-2368 | a token continued by `-` or `/` and a digit, as in `NFR-775/14`, is not a match |
| `TokenBounds.MatchesExactly` | scripts/audit-docs.py:2214-2215 | a token matches if and only if the characters before it are free (an escaped wrap, or neither a word character nor a field hyphen) and those behind it are (nothing, or a separator that no digit continues) |
| `TokenBounds.SubstituteExactly` | scripts/audit-docs.py:2195-2215 | the substitution is, on the characters: at each place the longest token standing there is replaced, and every other character stays |
| `TokenBounds.SentenceFinalIdentifier` | scripts/_docid.py:97-100 | an identifier at the end of a sentence is replaced and the full stop stays |
| `CitationInverse.MatchedInOriginal` | scripts/audit-docs.py:2355-2368 | a token that matches the rewritten text where none was placed, and that no placed token continues, already matched the original |
| `CitationInverse.PlacedTokenMatches` | scripts/audit-docs.py:2196-2215 | a placed token matches, as a whole, where it was placed |
| `CitationInverse.InverseRestores` | scripts/audit-docs.py:2310-2320 | for tables mixing identifiers and paths: the inverse gives the text back if every new token in it is also an old one and none is put together from a beginning in the text and a placed token |
| `CitationInverse.SeparateIsUnassembled` | scripts/audit-docs.py:2345-2353 | in tables whose tokens keep apart (none may start inside another, or is bounded as its beginning) none is ever put together |
| `CitationInverse.StrayTokenIsRewritten` | scripts/audit-docs.py:2355-2368 | there a new token that is no old one, already in the text, is turned into something else |
| `CitationInverse.InverseUndoesRewriteExactly` | scripts/audit-docs.py:2310-2379 | there, rewriting forward and back gives the text if and only if every new token standing in it as a whole is an old token |
| `CitationInverse.IdentifiersMigrate` | scripts/audit-docs.py:2196-2215 | every one-to-one table of identifiers is such a table |
| `CitationInverse.MixedTableMigrates` | scripts/audit-docs.py:2345-2353 | and so is one with a path beside an identifier |
| `StampedCitations.SubstituteAfterNewlines` | scripts/audit-docs.py:2379 | newlines further left change no substitution |
| `StampedCitations.OuterNewlines` | scripts/audit-docs.py:2376-2379 | outer newlines pass through a substitution, so stripping them before or after is the same |
| `StampedCitations.StampIsStripped` | scripts/audit-docs.py:2272-2299 | of a stamped document exactly the header block goes and the body stays, but for its last newline; a block that is not this run's stays |
| `StampedCitations.JoinedLines` | scripts/audit-docs.py:2295-2297 | joining the split lines gives the text without one final newline |
| `StampedCitations.MatchesIsOneRule` | scripts/audit-docs.py:2375-2379 | the branch for an empty inverse is the same comparison as the other one |
| `StampedCitations.StampedRewriteAcceptedExactly` | scripts/audit-docs.py:2302-2379 | for tables whose tokens keep apart: stamping a file and rewriting its citations is accepted if and only if every new token that stood in it as a whole is an old token |
| `StampedCitations.MixedRewriteAccepted` | scripts/audit-docs.py:2302-2379 | for any mixed table: it is accepted when moreover none is put together in the file |
| `StampedCitations.UnmatchedTextMustBeUnchanged` | scripts/audit-docs.py:2355-2379 | when no redirect token matches, the file is accepted if and only if the texts agree up to outer newlines |
| `StampedCitations.VerdictIsOrderFree` | scripts/audit-docs.py:2377 | the verdict does not depend on how equally long tokens are ordered |
| `StampTexts.StripExactly` | scripts/audit-docs.py:2218-2299 | the leading block goes if and only if it reads as a header whose id this run allocated, or one without id on a path this run stamped; any other text stays |
| `StampTexts.AcceptedExactly` | scripts/audit-docs.py:2302-2379 | the allowance passes a file if and only if its text, stamp off and longest tokens inverted, is the merge-base text up to outer newlines |
| `Freeze.PermittedExactly` | scripts/audit-docs.py:2142-2192 | a diff is permitted if and only if body and unnamed fields stay, a terminal status stays, corrections grow at the end, and plans grow at the end on ledgers and stay elsewhere |
| `Freeze.RefusalNamesFirstRule` | scripts/audit-docs.py:2164-2192 | a refusal names the first rule broken: the rules before it hold and its own does not; a changed field is the first one that changed |
| `Freeze.PermittedIsTransitive` | scripts/audit-docs.py:2142-2192 | permitted diffs compose |
| `Freeze.HistoryIsPermitted` | scripts/audit-docs.py:2127-2141 | along a history of permitted commits every later version is permitted against every earlier one |
| `Freeze.FrozenOverHistory` | scripts/audit-docs.py:2148-2162 | over any history: body and family constant, terminal status never left, corrections a growing prefix, plans as above |
| `Freeze.LivingStatusMayChange` | scripts/audit-docs.py:2169-2171 | a change of status alone is permitted if and only if it leaves no `closed`, `retired` or `superseded` |
| `Freeze.ChangedExactly` | scripts/audit-docs.py:2186-2190 | a field counts as changed exactly when putting the old value back makes a difference |
| `Freeze.EndsDoNotShowTheSteps` | scripts/audit-docs.py:2142-2147 | a permitted merge-base diff does not imply permitted commits in between |
| `HeaderValues.DateReadExactly` | scripts/_docid.py:867-880 | a text is read as a date if and only if it is three numbers between two hyphens that name a day of the calendar, and as that day |
| `HeaderGrammar.Closing` | scripts/_docid.py:951-956 | the closing line is the first `---` after the opening one |
| `LineFold.Fold` | scripts/_docid.py:852-887 | a loop that stops at the first refused line computes the fold |
| `LineFold.FoldedExactly` | scripts/_docid.py:846-849 | a step that refuses exactly the offending lines gives a fold that stops at the first of them and otherwise says all lines |
| `HeaderGrammar.ParseFrontMatterBody` | scripts/_docid.py:840-887 | the loop reads the block: the dict, or the first refused line |
| `HeaderLaws.BlockReadExactly` | scripts/_docid.py:840-887 | a block is refused exactly at its first line that is indented, shapeless, repeats a key, or holds a bad list or date; otherwise the dict says what the lines say and nothing else |
| `HeaderLaws.HeaderRefusedExactly` | scripts/_docid.py:938-963 | a text is refused if and only if it opens a block that is never closed or holds such a line |
| `HeaderValues.ScalarSurvivesExactly` | scripts/_docid.py:812-826 | the scalars read back as written are exactly the non-empty trimmed ones that are not `~` and hold no ` #` |
| `HeaderValues.ListRoundTrip` | scripts/_docid.py:829-837 | a list of trimmed comma-free items that prints without a comment is read back from `[a, b]`, empty items included |
| `HeaderLists.ListSurvivesExactly` | scripts/_docid.py:829-837 | and no other list is: the lists read back as written are exactly these, but for the one that holds a single empty item |
| `HeaderValues.DateRoundTrip` | scripts/_docid.py:871-874 | every calendar day is read back from its ISO form |
| `HeaderDocuments.ValueRoundTrip` | scripts/_docid.py:867-886 | each kind of value is read back under a key of that kind |
| `HeaderDocuments.BlockRoundTrip` | scripts/_docid.py:840-887 | a block of written fields with distinct keys reads as exactly those fields |
| `HeaderDocuments.HeaderIgnoresBody` | scripts/_docid.py:948-987 | the header depends on the block alone, never on the text under it |
| `HeaderDocuments.HeaderRoundTrip` | scripts/_docid.py:938-987 | written in any field order, with default fields spelled out or left out, above any text, a header is read back |
| `HeaderPrinter.PrintedHeaderIsReadBack` | scripts/_docid.py:743-766 | every header with plain values is read back from its own print, extras included |
| `HeaderTexts.ScalarReadExactly` | scripts/_docid.py:812-826 | a scalar reads as what stands between the blanks and in front of a comment, and as null for nothing or a tilde |
| `HeaderTexts.ListReadExactly` | scripts/_docid.py:829-837 | a list reads as the trimmed parts between its brackets and commas, whatever comment follows; without brackets it is refused |
| `DateTexts.DayReadExactly` | scripts/_docid.py:871-885 | a text is a date if and only if three numbers stand between two hyphens (blanks, a plus sign, zeros and single underscores allowed) and name a day of the calendar |
| `HeaderTexts.ValueReadExactly` | scripts/_docid.py:871-898 | each kind of key reads exactly its own kind of value |
| `HeaderTexts.CommentedValueRoundTrip` | scripts/_docid.py:812-837 | every kind of value is read back from in front of blanks and a comment |
| `HeaderTexts.EntryExactly` | scripts/_docid.py:808-808 | a line is `key: value` if and only if a name, a colon and at most one blank or tab stand in front of the value |
| `HeaderTexts.LineReadExactly` | scripts/_docid.py:855-899 | what one accepted line adds to the dict: nothing if blank, else its new key with what its text means |
| `HeaderTexts.LineRefusedExactly` | scripts/_docid.py:855-899 | why a line is refused: indented, no `key: value`, a repeated key, a text that means no list or no date |
| `HeaderReading.HeaderReadExactly` | scripts/_docid.py:938-990 | a text has a header if and only if its lines open a block whose lines, one after the other, make a dict that carries that header |
| `HeaderReading.HeaderErrorExactly` | scripts/_docid.py:948-961 | which text is refused, at which line and why: an unclosed block at line 1, or the first line refused |
| `HeaderReading.NoHeaderExactly` | scripts/_docid.py:948-950 | a text has no header if and only if its first line is no fence |
| `TextLaws.LinesExactly` | scripts/_docid.py:948-948 | the lines of a text are what stands between its newlines; a last line counts without one unless it is empty |
| `HeaderReading.CommentedHeaderRoundTrip` | scripts/_docid.py:938-990 | written in any field order, with any comment behind any field and above any text, a header is read back as it was |
| `PaddedIds.FencedLineNumbers` | scripts/_docid.py:505-522 | the lines inside fences, markers included; an unclosed fence runs to the end |
| `LineScan.ScanLines` | scripts/_docverify.py:1984-1995 | one pass with the fence toggle yields exactly the visible lines' hits and tallies every unmarked line |
| `PaddedIds.TokenStart` | scripts/_docid.py:702-704 | the leftward walk ends at the start of the enclosing token |
| `PaddedIds.TokenEnd` | scripts/_docid.py:705-707 | the rightward walk ends at its end |
| `PaddedIds.InPathContext` | scripts/_docid.py:693-710 | the walk decides whether the enclosing token, read as a whole, is a path |
| `PathTexts.SansLocatorExactly` | scripts/_docid.py:690-690 | exactly one trailing `:12` or `:12-34` comes off; without one the word stays |
| `PathTexts.InPathExactly` | scripts/_docid.py:693-710 | a text is in a path if and only if the word between the nearest boundaries holds a slash or ends in an extension, with or without a locator |
| `Asterisks.IdByText` | scripts/_docid.py:662-664 | the pattern matches exactly an id text between two sides that are free of word characters |
| `Asterisks.HitsAreMatches` | scripts/_docid.py:662-664 | the left-to-right hits of a line are exactly the positions where the pattern matches |
| `Asterisks.CleanKeepsHits` | scripts/_docverify.py:1999-2004 | on a clean line deleting asterisks moves the matches and nothing else |
| `Asterisks.DeletionKeepsHitsExactly` | scripts/_docverify.py:1999-2004 | deleting asterisks keeps the sequence of matches if and only if no id is joined to a word character across asterisks and none is interrupted by them |
| `Asterisks.StarlessIsClean` | scripts/_docverify.py:1999-2004 | a line without asterisks is clean, so the agreement below covers it |
| `PaddingAgreement.DeletionCanRemoveAMatch` | scripts/_docverify.py:2000-2002 | the claim that stripping asterisks never removes a match is false: a padded id behind a word character and an asterisk |
| `PaddingAgreement.DeletionCanAddAMatch` | scripts/_docverify.py:2000-2002 | nor is it true that it never adds one: any padded id with an asterisk inside |
| `PaddedScanners.PaddedHits` | scripts/_docverify.py:1973-2010 | the four populations of row (e) for one file, each filtered from the one before |
| `RowEReading.CountExactly` | scripts/_docverify.py:1973-2010 | the number of matches of a line is the number of places where an id with leading zeros, five digits in all, stands between no word characters |
| `RowEReading.RowEReportsExactly` | scripts/_docverify.py:1973-2010 | row (e) is left with a padded id if and only if its line is outside every fence and not skipped, the id of the same ordinal in the starless line is in no path, and its prefix and integer are in the index |
| `PaddedScanners.CitationProblems` | scripts/audit-docs.py:1857-1942 | check 32's problems of one file, in order, outside its own fences |
| `CitationTexts.CitedExactly` | scripts/_docid.py:67-67 | the ids found in a line are exactly the prefixes, hyphens and digits that stand between no word characters |
| `CitationTexts.LinksExactly` | scripts/audit-docs.py:1854-1854 | the links of a line are the leftmost ones, each behind the one before, and no others |
| `CitationTexts.HiddenExactly` | scripts/audit-docs.py:1880-1885 | a line is passed over if and only if it is a fence or an odd number of fences stands above it |
| `CitationCheck.ReportedExactly` | scripts/audit-docs.py:1857-1942 | a problem is reported if and only if its line is outside every fence and says it: an id outside links without an entry, one padded outside paths (five digits or not), or a link whose two first ids differ |
| `PaddingAgreement.ExactHits` | scripts/audit-docs.py:1909-1921 | the exactly padded hits are the id hits whose text is exactly padded |
| `PaddingAgreement.RelocatedAlike` | scripts/_docverify.py:1999-2007 | re-locating a hit by ordinal in the stripped line and by prefix length in the whole one gives the same occurrence and the same path verdict |
| `PaddingAgreement.OneRuleTwoScanners` | scripts/audit-docs.py:1887-1921 | on any line: check 32 reports an occurrence as padded exactly when row (e) keeps it and it stands in no link, if and only if it is in a link, or does not resolve, or the two judge alike whether it is in a path |
| `PaddingAgreement.CleanLinesAgree` | scripts/audit-docs.py:1891-1921 | on a line whose asterisks neither join nor interrupt a padded id they judge alike |
| `PaddingAgreement.StarredPathsDiffer` | scripts/_docverify.py:2000-2007 | a padded id behind a path and an asterisk, as in `docs/x*PL-01240`: row (e) keeps it as prose, check 32 takes it for a path |
| `PaddingAgreement.StarredLineHasNoLink` | scripts/audit-docs.py:1887-1889 | and no link is needed for it |
| `PaddingAgreement.OnlyPaddedHitsReported` | scripts/audit-docs.py:1921-1925 | on any line check 32 reports no other occurrence as padded |
| `PaddingAgreement.LinkedIdsDiffer` | scripts/audit-docs.py:1887-1889 | a padded id as the text of any link: row (e) keeps it, check 32 does not report it |
| `PaddedFiles.ExactAmongAny` | scripts/audit-docs.py:1909-1921 | in order and number, the exactly padded hits are the exactly padded ones among all id hits |
| `PaddedFiles.FileAgreementExactly` | scripts/_docverify.py:1984-2010 | over any file row (e) and check 32 are left with the same padded ids, in order, if and only if each one that resolves is scanned and taken for prose by both or by neither |
| `PaddedFiles.OccurrencesAreSaid` | scripts/audit-docs.py:1921-1925 | what the two say, line and token, is what their occurrences say |
| `PaddedFiles.CleanFilesAgreeExactly` | scripts/_docverify.py:1984-2010 | over a file of clean lines what they say is the same if and only if each padded id row (e)'s predicate accepts is scanned by both or by neither: outside row (e)'s fences and skipped lines, against outside check 32's fences and the links |
| `PaddedFiles.FencesPartTheScanners` | scripts/audit-docs.py:1855 | an opening line that is a fence to one scanner alone parts the two on the padded id under it |
| `PaddedFiles.SkippedLinesPartTheScanners` | scripts/_docverify.py:1992-1993 | so does a line row (e) skips |
| `PaddedFiles.TheTwoFenceRulesDiffer` | scripts/_docverify.py:1918 | tildes are such a line one way, a backtick fence indented by four the other |
| `SlotProtocol.StepKeeps` | conftest.py:106-140 | every step of a started process keeps the invariant: locks exclusive, held only in the body, environments as inherited |
| `SlotOutcomes.HistoryTells` | conftest.py:106-150 | over every run the events of a process determine its phase, its lock and its end: files tried in order, the wait only after all of them |
| `SlotOutcomes.EndedRunsRan` | conftest.py:140-155 | a run or an exempt process that has ended was in its body |
| `SlotOutcomes.EndedExactly` | scripts/run-small.sh:27-65 | an ended process went through its body unless it is a wrapper that refused or gave up, and only a timing-out wrapper gives up |
| `SlotOutcomes.TrustsTheAnnouncement` | conftest.py:145-149 | an announced run tries nothing, waits for nothing and holds nothing, and goes straight to its body |
| `SlotOutcomes.RunHoldsWhatItTried` | conftest.py:106-137 | an unannounced run in its body holds the slot it tried last, or slot 1 after it tried and waited |
| `SlotOutcomes.TryTakesTheFree` | conftest.py:111-123 | a try takes the next file if and only if no process holds it |
| `SlotOutcomes.AnnouncedExactly` | conftest.py:70-72 | a live process is announced the lock of the nearest wrapper above it, and nothing without one |
| `SlotProtocol.SpawnKeeps` | conftest.py:26-34 | starting a process keeps it too |
| `SlotProtocol.RunsKeepInv` | scripts/_docverify.py:4223-4269 | so does every run, for any number of processes and any interleaving |
| `SlotLaws.BudgetHolds` | conftest.py:16-25 | over every run: at most one holder a lock file, at most `n` self-locked runs in their body, and no holder seeks a lock |
| `SlotLaws.AnnouncedByAncestor` | conftest.py:147-150 | an announcement in force names a lock that a wrapper up the tree holds |
| `SlotLaws.BodyIsCovered` | conftest.py:144-153 | over every run each subject process in its body holds a lock or carries the announcement of an ancestor that does |
| `SlotDeadlocks.KnotIsForEver` | conftest.py:26-34 | a set of processes that wait without limit, each for a file held above another of the set, persists through every continuation, whatever is started meanwhile |
| `SlotDeadlocks.SelfWaitNeverEnds` | conftest.py:26-34 | a process that waits for a file its own ancestor holds waits for ever, and no run ends everything |
| `SlotDeadlocks.StuckIsKnot` | conftest.py:126-133 | where nothing can step and something lives, the waiting processes are such a set |
| `SlotDeadlocks.QuietHasEndedExactly` | conftest.py:126-140 | where nothing can step, all have ended if and only if there is no such set |
| `SlotDeadlocks.QuietRunEndsExactly` | conftest.py:126-140 | once nothing new is started every schedule is finite, and one that cannot go on has ended everything if and only if no knot is left; a knot at the start is one at the end |
| `SlotDeadlocks.KnotIsSelfWait` | scripts/_docverify.py:4237-4245 | when all unlimited waits are for one file, such a set exists if and only if some process waits for its own ancestor |
| `SlotDeadlocks.RunsWaitOnSlotOne` | conftest.py:126-133 | that is so when every wrapper's wait times out: runs wait for slot 1 |
| `SlotDeadlocks.StuckExactlyOnSelfWait` | conftest.py:26-34 | then, for any number of slots: some own step is possible while anything lives, or all have ended, exactly unless a process waits for its own ancestor |
| `SlotDeadlocks.KnotAcrossTwoFiles` | conftest.py:16-25 | with two files the wider condition is needed: two wrappers that each start a wait for the other's file |
| `SlotDiscipline.DisciplinedRuns` | conftest.py:26-34 | runs in which no self-locking run starts a slot-seeking process, and no wrapper that locks regardless is started under an announcement, keep that discipline and the invariant |
| `SlotDiscipline.SeekerHasNoHoldingAncestor` | scripts/_docverify.py:4237-4245 | then no process seeks or waits while an ancestor holds a lock |
| `SlotDiscipline.DisciplinedHasNoKnot` | conftest.py:26-34 | so no knot, of any number of processes and files, can form |
| `SlotDiscipline.WaiterIsNeverStuck` | scripts/_docverify.py:4256-4263 | then for every waiter the lock can be granted, or the holder or someone below it can step |
| `SlotDiscipline.SomeoneCanStep` | conftest.py:126-133 | then some started process can step as long as any is live |
| `SlotDiscipline.EveryQuietRunEnds` | conftest.py:126-140 | then, once nothing new is started, every schedule is finite, and it cannot go on if and only if all have ended |
| `SlotDiscipline.NestedBareRunDeadlocks` | conftest.py:26-34 | without the discipline: a run with one slot reaches a state where a bare run waits for the lock of the bare run that started it, and in no continuation does everything end |
| `SlotNesting.SlotsCanFill` | conftest.py:106-124 | from any state other runs can come to hold every free slot, leaving those already started where they are |
| `SlotNesting.NestedBareRunCanDeadlock` | conftest.py:26-34 | for any number of slots: once a run that holds slot 1 has started a bare run, some continuation has the child wait for its own ancestor, for ever |
| `SlotNesting.DeadlockIsReachable` | conftest.py:26-34 | so with any number of slots such a state can be reached from nothing |
| `SlotLaws.ScanIsShort` | conftest.py:111-124 | over any run a process tries each of its files at most once |
| `SlotSession.IsBareFullRun` | conftest.py:79-103 | bare if and only if every token is an option other than `-k` and `-m` forms |
| `SlotSession.ScanSlots` | conftest.py:106-133 | the first free slot, or slot 1 after all were found busy, with the number of tries |
| `SlotSession.ScanIsTheProtocols` | scripts/_docverify.py:4248-4263 | the scan is the transition system's: same slot for the same outcomes |
| `SlotSession.PytestSession.Configure` | conftest.py:144-153 | locks exactly for a bare, executing, unannounced run, and otherwise changes nothing |
| `SlotSession.PytestSession.Unconfigure` | conftest.py:136-158 | gives back exactly what is held, and holds nothing after |
| `SlotSession.AcquireVerifySlot` | scripts/_docverify.py:4223-4263 | no handle if and only if a slot is announced; otherwise the scan's slot |
| `RowAccounting.MapCarriers` | scripts/_docverify.py:2113 | the control counts under their new paths, a later file overwriting an earlier one |
| `RowAccounting.MappedExactly` | scripts/_docverify.py:2112-2113 | the count under a new path is that of the last carrier that goes there, by its redirect or as it is without one |
| `RowAccounting.Disagreements` | scripts/_docverify.py:2114-2118 | exactly the paths whose two counts differ, with both counts |
| `RowAccounting.ResidualIsTheDifference` | scripts/_docverify.py:2119 | the residual is the migrated total minus the mapped control total |
| `RowAccounting.MappingKeepsLines` | scripts/_docverify.py:2112-2113 | mapping keeps every line if and only if no two carriers go to one path |
| `RowAccounting.RowF` | scripts/_docverify.py:2106-2151 | the loops and branches compute the verdict function |
| `RowAccounting.ConjunctOneExactly` | scripts/_docverify.py:2121-2126 | which of the first three verdicts is given when, and that conjunct 2 is asked exactly when none is |
| `RowAccounting.SplitCountsDiffering` | scripts/_docverify.py:2134-2139 | the disclosed number is the number of paths whose counts differ |
| `RowAccounting.ConjunctTwoExactly` | scripts/_docverify.py:2119-2148 | with equal nonzero totals: the residual branch fires if and only if two carriers merge; otherwise unchanged if and only if every path has its count, and a disclosed split if not |
| `RowAccounting.MergedFilesDoNotClose` | scripts/_docverify.py:2128-2134 | two files merged into one that has all their lines are reported as an identifier that arrived nowhere |
| `RowAccounting.MovedLineCloses` | scripts/_docverify.py:2135-2148 | a line moved from one file to another is accepted as a split |
| `IdSequence.CheckClaims` | scripts/audit-docs.py:1809-1818 | the findings are the repeated claims in order, each against the first claim of its number |
| `IdSequence.RepeatedExactly` | scripts/audit-docs.py:1809-1818 | no repeated claim if and only if the numbers are distinct |
| `IdSequence.CheckGaps` | scripts/audit-docs.py:1833-1836 | the findings are the gaps between neighbours, in order |
| `IdSequence.CheckDates` | scripts/audit-docs.py:1839-1845 | the findings are the neighbours of different number that run backwards, in order |
| `IdSequence.CheckSequence` | scripts/audit-docs.py:1809-1845 | the three clauses over the sorted lists of one set of documents |
| `IdSequence.ClaimedExactly` | scripts/audit-docs.py:1809-1818 | a claim is reported if and only if it repeats one, against the first claim of its number |
| `IdSequence.GapExactly` | scripts/audit-docs.py:1831-1836 | a gap is reported if and only if both its ends are claimed, a number lies between them and none of those is claimed |
| `IdSequence.BackdatedExactly` | scripts/audit-docs.py:1839-1845 | a date is reported if and only if the greater number has the earlier day and no dated document stands between the two |
| `IdSequence.GapsDecideInterval` | scripts/audit-docs.py:1833-1836 | no gap if and only if the claimed numbers fill an interval |
| `IdSequence.DatesDecideAllPairs` | scripts/audit-docs.py:1839-1845 | no backdated neighbour if and only if every pair with smaller and larger number is in date order |

## Left out

- Text is ASCII where a pattern says `\d`, `\w` or `[A-Z]`: the other digits and letters Python accepts there are not modelled; white space is Python's full set.
- Lines end in `\n` only: the other separators of `str.splitlines` are not modelled.
- Files, git, archives, CSV quoting and the environment are inputs: the redirect rows, the record's lines, the corpus, the announcement and each lock attempt's outcome.
- The redirect table is read once a call instead of once an item, and dictionary order is not modelled: changes and messages keep the order of the list they come from where there is one, and are sets otherwise.
- Error texts are reduced to what they name; exit codes other than the report's are not modelled.
- HeaderValues.DateReadExactly: a year too large for a machine integer raises `OverflowError` in Python instead of `HeaderError`; the model refuses it as a bad date.
- CitationInverse.InverseUndoesRewriteExactly: tokens start with a letter, `_` or a dot, end in a word character, and end alike in both directions; where one token may start inside another, as an id in a new path, only the sufficient condition of `InverseRestores` is stated. The forward rewrite is the bounded substitution the inverse's docstring describes; `doc-id.py` itself is not part of this model.
- TokenSubstitution.NoMatchNoChange, and with it TokenBounds.SubstituteExactly and StampTexts.AcceptedExactly: the empty token, which no redirect table holds, is excluded.
- StampedCitations.StampedRewriteAcceptedExactly: the redirects are one-to-one, as an inverse mapping is.
- PaddedScanners.PaddedHits: one file at a time; the corpus result is the concatenation over its files.
- Corpora.GatesAgreeExactly: both sides are given one record and one redirect table; the verification may read its record at another commit, which `H1Verdict.DiscloseExactly` allows for.
- SlotProtocol.RunsKeepInv: a process ends only after those it started; kills, detached children, and the second lock family a process may also seek are not modelled. Every wrapper announces its lock to what it starts; `scripts/run-small.sh` also refuses under an announcement, the gate wrapper of the hook's docstring is not described as refusing, and either's wait may time out, so a wrapper says whether it does each.
- SlotDiscipline.EveryQuietRunEnds: no fairness among waiters is claimed; starting new runs forever is not excluded by the protocol.
- SlotSession.ScanSlots: the outcome of each try is an input, since it depends on the other processes; the system-wide claims are those of the transition system.
- IdSequence.CheckSequence: the branch before the migration; after it the gap clause reads its numbers from the index instead. Dates are day numbers.
- Checks 1 to 30 and 33 to 36 beyond the parts above, the row verdicts other than (e), (f) and the (h1) readers, `diff_verdicts`, and the exit code: they add tables and joins, not hard properties.
