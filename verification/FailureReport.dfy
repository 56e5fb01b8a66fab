/**
 The audit's failure report and the instrument that reads it back: one script splits its
 failures against the governed record and prints them, the other re-parses the text.
 */
module FailureReport {
  import opened ControlPaths
  import opened FiniteSums
  import opened ResidueCeiling
  import opened ResidueRecord
  import opened Sequences
  import opened Text
  import opened Wrappers

  // --- Keying one message -------------------------------------------------------------

  const CHECK: string := "check "
  const UNLOCATED_PATH: string := "(no file named in message)"

  predicate IsTokenChar(c: char) { !IsSpace(c) && c != ':' }

  /** `^check (\d+):` */
  function CheckNumber(msg: string): (n: Option<string>)
    ensures n.Some? ==> IsCheckNumber(n.value)
  {
    if CHECK <= msg then
      var rest := msg[6..];
      var d := Span(rest, IsDigit);
      if 0 < d < |rest| && rest[d] == ':' then Some(rest[..d]) else None
    else None
  }

  /** A message has a number exactly when it is written first, as digits up to a colon. */
  lemma CheckNumberExactly(msg: string, n: string)
    ensures CheckNumber(msg) == Some(n) <==> IsCheckNumber(n) && CHECK + n + ":" <= msg
  {
    if IsCheckNumber(n) && CHECK + n + ":" <= msg {
      var rest := msg[6..];
      assert rest[..|n|] == n && rest[|n|] == ':' by {
        assert msg[..6 + |n| + 1] == CHECK + n + ":";
      }
      SpanUnique(rest, IsDigit, |n|);
    }
    if CheckNumber(msg) == Some(n) {
      var rest := msg[6..];
      assert rest[..|n|] == n && rest[|n|] == ':';
      assert msg[..6 + |n| + 1] == CHECK + n + ":";
    }
  }

  /** `^check (\d+): ([^\s:]+):`, the second group. */
  function LocationToken(msg: string): Option<string> {
    match CheckNumber(msg)
    case None => None
    case Some(n) =>
      var rest := msg[6 + |n| + 1..];
      if rest == "" || rest[0] != ' ' then None
      else
        var t := Span(rest[1..], IsTokenChar);
        if 0 < t < |rest| - 1 && rest[1 + t] == ':' then Some(rest[1..1 + t]) else None
  }

  /** `residue_key_for_failure`: a token names a file only if the corpus has it. */
  function ResidueKey(msg: string, known: set<string>): Option<Key> {
    match CheckNumber(msg)
    case None => None
    case Some(n) =>
      match LocationToken(msg)
      case Some(path) => Some(Key(if path in known then path else UNLOCATED_PATH, H1Class(n)))
      case None => Some(Key(UNLOCATED_PATH, H1Class(n)))
  }

  function Keyer(known: set<string>): string -> Option<Key> { msg => ResidueKey(msg, known) }

  /** The keys of the messages that have one, in order. */
  function KeysOf(msgs: seq<string>, known: set<string>): seq<Key> { Collect(msgs, Keyer(known)) }

  // --- The partition ------------------------------------------------------------------

  /** The population of each control key among the failures. */
  ghost function Population(failures: seq<string>, known: set<string>, m: RedirectMaps): map<Key, int> {
    Tally(Mapped(KeysOf(failures, known), Resolver(m)))
  }

  ghost predicate HasKeyIn(msg: string, known: set<string>, m: RedirectMaps, keys: set<Key>) {
    match ResidueKey(msg, known)
    case None => false
    case Some(k) => ResolveKey(m, k) in keys
  }

  datatype Split = Split(counted: seq<string>, disclosed: seq<string>)

  ghost function SplitOf(
      failures: seq<string>, record: seq<ResidueEntry>, known: set<string>, m: RedirectMaps): Split {
    var keys := Disclosed(Population(failures, known, m), record);
    Split(Filter(failures, msg => !HasKeyIn(msg, known, m, keys)),
          Filter(failures, msg => HasKeyIn(msg, known, m, keys)))
  }

  datatype PartitionError = SplitParts(refusal: Refusal) | RecordRows(duplicates: DuplicateRows)

  /** `_partition_by_w37_11_record`. */
  method Partition(failures: seq<string>, record: seq<ResidueEntry>, known: set<string>, rows: seq<Row>)
      returns (r: Result<Split, PartitionError>)
    ensures record == [] ==> r == Success(Split(failures, []))
    ensures r.Failure? <==>
      record != [] && ((KeysOf(failures, known) != [] && Ambiguous(TableOf(rows))) || !DistinctKeys(record))
    ensures r.Failure? ==>
      (r.error.SplitParts? <==> KeysOf(failures, known) != [] && Ambiguous(TableOf(rows)))
    ensures r.Failure? ==>
      match r.error
      case SplitParts(refusal) => NamesEveryCollision(TableOf(rows), refusal)
      case RecordRows(duplicates) => NamesEveryDuplicate(record, duplicates)
    ensures r.Success? && record != [] ==> r.value == SplitOf(failures, record, known, MapsOf(TableOf(rows)))
  {
    if record == [] {
      return Success(Split(failures, []));
    }
    ghost var m := MapsOf(TableOf(rows));
    var keys := KeysOf(failures, known);
    var keySet := set k | k in keys;
    assert keys != [] ==> keys[0] in keySet;
    var resolvedKeys := ResolveKeysToControlPaths(keySet, rows);
    if resolvedKeys.Failure? {
      return Failure(SplitParts(resolvedKeys.error));
    }
    var measured := CountResolved(keys, resolvedKeys.value, m);
    var disclosedKeys := DisclosedByRecord(measured, record);
    if disclosedKeys.Failure? {
      return Failure(RecordRows(disclosedKeys.error));
    }
    var counted, disclosed := SplitMessages(failures, known, resolvedKeys.value, disclosedKeys.value, m);
    return Success(Split(counted, disclosed));
  }

  method CountResolved(keys: seq<Key>, byKey: map<Key, Key>, ghost m: RedirectMaps) returns (measured: map<Key, int>)
    requires forall k | k in keys :: k in byKey && byKey[k] == Resolver(m)(k)
    ensures measured == Tally(Mapped(keys, Resolver(m)))
  {
    measured := map[];
    for i := 0 to |keys|
      invariant measured == Tally(Mapped(keys[..i], Resolver(m)))
    {
      MappedSnoc(keys, i, Resolver(m));
      var k := byKey[keys[i]];
      measured := measured[k := Count(measured, k) + 1];
    }
    assert keys[..|keys|] == keys;
  }

  method SplitMessages(
      failures: seq<string>, known: set<string>, byKey: map<Key, Key>, keys: set<Key>, ghost m: RedirectMaps)
      returns (counted: seq<string>, disclosed: seq<string>)
    requires forall k | k in KeysOf(failures, known) :: k in byKey && byKey[k] == ResolveKey(m, k)
    ensures counted == Filter(failures, msg => !HasKeyIn(msg, known, m, keys))
    ensures disclosed == Filter(failures, msg => HasKeyIn(msg, known, m, keys))
  {
    counted, disclosed := [], [];
    for i := 0 to |failures|
      invariant counted == Filter(failures[..i], msg => !HasKeyIn(msg, known, m, keys))
      invariant disclosed == Filter(failures[..i], msg => HasKeyIn(msg, known, m, keys))
    {
      var msg := failures[i];
      assert failures[..i + 1][..i] == failures[..i];
      var key := ResidueKey(msg, known);
      if key.Some? {
        CollectListed(failures, Keyer(known), i);
      }
      if key.Some? && byKey[key.value] in keys {
        disclosed := disclosed + [msg];
      } else {
        counted := counted + [msg];
      }
    }
    assert failures[..|failures|] == failures;
  }

  lemma MappedSnoc<T, K>(keys: seq<T>, i: nat, f: T -> K)
    requires i < |keys|
    ensures Tally(Mapped(keys[..i + 1], f)) ==
      var before := Tally(Mapped(keys[..i], f));
      before[f(keys[i]) := Count(before, f(keys[i])) + 1]
  {
    assert Mapped(keys[..i + 1], f)[..i] == Mapped(keys[..i], f);
  }

  // --- The printer --------------------------------------------------------------------

  const CEILING_TAIL: string := ", at or under the W37-11 residue ceiling):"

  /** `w37_11_disclosed_header`. */
  function DisclosedHeader(count: nat): string { "DISCLOSED (" + Numeral(count) + CEILING_TAIL }

  function FailedHeader(count: nat): string { "FAILED (" + Numeral(count) + "):" }

  const PASSED: string := "All checks passed."

  function Bullets(msgs: seq<string>): (r: seq<string>)
    ensures |r| == |msgs| && forall i | 0 <= i < |r| :: r[i] == "  - " + msgs[i]
  {
    seq(|msgs|, i requires 0 <= i < |msgs| => "  - " + msgs[i])
  }

  function Indented(notes: seq<string>): (r: seq<string>)
    ensures |r| == |notes| && forall i | 0 <= i < |r| :: r[i] == "  " + notes[i]
  {
    seq(|notes|, i requires 0 <= i < |notes| => "  " + notes[i])
  }

  function DisclosedBlock(disclosed: seq<string>): seq<string> {
    if disclosed == [] then [] else ["", DisclosedHeader(|disclosed|)] + Bullets(disclosed)
  }

  function CountedBlock(counted: seq<string>): seq<string> {
    if counted == [] then ["", PASSED] else ["", FailedHeader(|counted|)] + Bullets(counted)
  }

  function ReportLines(notes: seq<string>, split: Split): seq<string> {
    Indented(notes) + DisclosedBlock(split.disclosed) + CountedBlock(split.counted)
  }

  /** The text `print` leaves behind: every line followed by a newline. */
  function Printed(lines: seq<string>): string {
    if lines == [] then "" else Printed(lines[..|lines| - 1]) + lines[|lines| - 1] + "\n"
  }

  lemma PrintedSnoc(a: seq<string>, line: string)
    ensures Printed(a + [line]) == Printed(a) + line + "\n"
  {
    assert (a + [line])[..|a|] == a;
  }

  lemma {:induction false} PrintedAppend(a: seq<string>, b: seq<string>)
    ensures Printed(a + b) == Printed(a) + Printed(b)
    decreases |b|
  {
    if b == [] {
      assert a + b == a;
    } else {
      var init, last := b[..|b| - 1], b[|b| - 1];
      PrintedAppend(a, init);
      assert a + b == (a + init) + [last];
      PrintedSnoc(a + init, last);
    }
  }

  /** A block is its blank line, its heading and its bullets. */
  lemma PrintedBlock(heading: string, msgs: seq<string>)
    ensures Printed(["", heading] + Bullets(msgs)) == "\n" + heading + "\n" + Printed(Bullets(msgs))
  {
    PrintedSnoc([], "");
    PrintedSnoc([""], heading);
    assert [] + [""] == [""] && [""] + [heading] == ["", heading];
    PrintedAppend(["", heading], Bullets(msgs));
  }

  method PrintBullets(before: string, msgs: seq<string>) returns (out: string)
    ensures out == before + Printed(Bullets(msgs))
  {
    out := before;
    for i := 0 to |msgs|
      invariant out == before + Printed(Bullets(msgs)[..i])
    {
      assert Bullets(msgs)[..i + 1][..i] == Bullets(msgs)[..i];
      out := out + "  - " + msgs[i] + "\n";
    }
    assert Bullets(msgs)[..|msgs|] == Bullets(msgs);
  }

  method PrintNotes(notes: seq<string>) returns (out: string)
    ensures out == Printed(Indented(notes))
  {
    out := "";
    for i := 0 to |notes|
      invariant out == Printed(Indented(notes)[..i])
    {
      assert Indented(notes)[..i + 1][..i] == Indented(notes)[..i];
      out := out + "  " + notes[i] + "\n";
    }
    assert Indented(notes)[..|notes|] == Indented(notes);
  }

  method PrintBlock(before: string, heading: string, msgs: seq<string>) returns (out: string)
    ensures out == before + Printed(["", heading] + Bullets(msgs))
  {
    PrintedBlock(heading, msgs);
    out := PrintBullets(before + "\n" + heading + "\n", msgs);
  }

  method PrintDisclosed(before: string, disclosed: seq<string>) returns (out: string)
    ensures out == before + Printed(DisclosedBlock(disclosed))
  {
    out := before;
    if disclosed != [] {
      out := PrintBlock(before, DisclosedHeader(|disclosed|), disclosed);
    }
  }

  method PrintVerdict(before: string, counted: seq<string>) returns (out: string, status: int)
    ensures out == before + Printed(CountedBlock(counted))
    ensures status == 0 <==> counted == []
  {
    if counted != [] {
      out := PrintBlock(before, FailedHeader(|counted|), counted);
      return out, 1;
    }
    PrintedBlock(PASSED, []);
    assert ["", PASSED] + Bullets([]) == ["", PASSED];
    return before + "\n" + PASSED + "\n", 0;
  }

  /** The end of `main`: what it prints and the exit status it returns. */
  method PrintReport(notes: seq<string>, split: Split) returns (out: string, status: int)
    ensures out == Printed(ReportLines(notes, split))
    ensures status == 0 <==> split.counted == []
  {
    PrintedAppend(Indented(notes), DisclosedBlock(split.disclosed));
    PrintedAppend(Indented(notes) + DisclosedBlock(split.disclosed), CountedBlock(split.counted));
    out := PrintNotes(notes);
    out := PrintDisclosed(out, split.disclosed);
    out, status := PrintVerdict(out, split.counted);
  }

  // --- The reader ---------------------------------------------------------------------

  /** `^FAILED \(\d+\):$` on one line. */
  predicate IsFailedHeader(line: string) {
    && |line| > 10 && line[..8] == "FAILED (" && line[|line| - 2..] == "):"
    && IsCheckNumber(line[8..|line| - 2])
  }

  predicate IsDisclosedHeader(line: string) {
    && |line| > 11 + |CEILING_TAIL| && line[..11] == "DISCLOSED (" && line[|line| - |CEILING_TAIL|..] == CEILING_TAIL
    && IsCheckNumber(line[11..|line| - |CEILING_TAIL|])
  }

  /** The index of the first line satisfying `p`, or the number of lines. */
  function FirstLine(lines: seq<string>, p: string -> bool): (i: nat)
    ensures i <= |lines|
    ensures forall k | 0 <= k < i :: !p(lines[k])
    ensures i < |lines| ==> p(lines[i])
  {
    if lines == [] || p(lines[0]) then 0 else 1 + FirstLine(lines[1..], p)
  }

  /** `^  - (.*)$` over the lines of a tail, the captured messages in order. */
  function FailureLines(lines: seq<string>): seq<string> {
    if lines == [] then []
    else
      var last := lines[|lines| - 1];
      FailureLines(lines[..|lines| - 1]) + if "  - " <= last then [last[4..]] else []
  }

  /** The messages after the first line satisfying `p`; none when there is no such line. */
  function MessagesFrom(out: string, p: string -> bool): seq<string> {
    var lines := SplitOn(out, '\n');
    FailureLines(lines[FirstLine(lines, p)..])
  }

  predicate IsAnyHeader(line: string) { IsFailedHeader(line) || IsDisclosedHeader(line) }

  function CheckClass(msg: string): string {
    match CheckNumber(msg)
    case Some(n) => n
    case None => "unclassified"
  }

  /** `_classify_failures`: one bucket per check, over the counted block only. */
  method ClassifyFailures(out: string) returns (counter: map<string, int>)
    ensures counter == Tally(Mapped(MessagesFrom(out, IsFailedHeader), CheckClass))
  {
    var msgs := MessagesFrom(out, IsFailedHeader);
    counter := map[];
    for i := 0 to |msgs|
      invariant counter == Tally(Mapped(msgs[..i], CheckClass))
    {
      MappedSnoc(msgs, i, CheckClass);
      var cls := CheckClass(msgs[i]);
      counter := counter[cls := Count(counter, cls) + 1];
    }
    assert msgs[..|msgs|] == msgs;
  }

  /** One count per key, in a pass over the messages. */
  method CountKeys<K>(msgs: seq<string>, keyer: string -> Option<K>) returns (residue: map<K, int>)
    ensures residue == Tally(Collect(msgs, keyer))
  {
    residue := map[];
    for i := 0 to |msgs|
      invariant residue == Tally(Collect(msgs[..i], keyer))
    {
      assert msgs[..i + 1] == msgs[..i] + [msgs[i]];
      CollectSnoc(msgs[..i], msgs[i], keyer);
      var key := keyer(msgs[i]);
      var before := Collect(msgs[..i], keyer);
      assert before + [] == before;
      if key.Some? {
        TallySnoc(before, key.value);
        residue := residue[key.value := Count(residue, key.value) + 1];
      }
    }
    assert msgs[..|msgs|] == msgs;
  }

  /** `_h1_residue_by_file`: per-key counts over both blocks, re-keyed by control path. */
  method H1ResidueByFile(out: string, known: set<string>, rows: seq<Row>)
      returns (r: Result<map<Key, int>, Refusal>)
    ensures r.Failure? <==>
      KeysOf(MessagesFrom(out, IsAnyHeader), known) != [] && Ambiguous(TableOf(rows))
    ensures r.Success? ==>
      r.value == Resolution(Tally(KeysOf(MessagesFrom(out, IsAnyHeader), known)), MapsOf(TableOf(rows)))
  {
    var msgs := MessagesFrom(out, IsAnyHeader);
    var residue := CountKeys(msgs, Keyer(known));
    if KeysOf(msgs, known) != [] {
      TallyCounts(KeysOf(msgs, known), KeysOf(msgs, known)[0]);
    }
    r := ResolveToControlPaths(residue, rows);
  }
}
