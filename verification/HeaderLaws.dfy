/**
 Which header blocks the parser refuses: exactly an unclosed one, and one with an offending
 line, at the first of them. A block without one is read as exactly its lines' entries.
 */
module HeaderLaws {
  import opened LineFold
  import opened Text
  import opened Wrappers
  import opened HeaderGrammar

  // --- Which blocks are refused -------------------------------------------------------

  /** The entry a line carries: neither blank, nor indented, nor shapeless. */
  function EntryOf(line: string): Option<Entry> {
    if IsBlank(line) || IsIndented(line) then None else SplitEntry(line)
  }

  predicate Names(line: string, key: string) { EntryOf(line).Some? && EntryOf(line).value.key == key }

  ghost predicate Repeats(lines: seq<string>, i: nat)
    requires i < |lines|
  {
    EntryOf(lines[i]).Some? && exists j | 0 <= j < i :: Names(lines[j], EntryOf(lines[i]).value.key)
  }

  predicate Unreadable(e: Entry) { ReadValue(e.key, e.raw).Failure? }

  /** A line no block may hold at this place. */
  ghost predicate Offends(lines: seq<string>, i: nat)
    requires i < |lines|
  {
    && !IsBlank(lines[i])
    && (EntryOf(lines[i]).None? || Repeats(lines, i) || Unreadable(EntryOf(lines[i]).value))
  }

  predicate IsUnder(e: Option<Entry>, key: string) { e.Some? && e.value.key == key }

  /** The dict holds what the first `n` entries say, and nothing else. */
  ghost predicate SaysEntries(b: Body, entry: nat -> Option<Entry>, readsAs: (Entry, Value) -> bool, n: nat) {
    && (forall key :: key in b ==> exists j: nat | j < n :: IsUnder(entry(j), key))
    && (forall j: nat | j < n && entry(j).Some? ::
          entry(j).value.key in b && readsAs(entry(j).value, b[entry(j).value.key]))
  }

  lemma EntryAdded(b: Body, entry: nat -> Option<Entry>, readsAs: (Entry, Value) -> bool, n: nat, v: Value)
    requires SaysEntries(b, entry, readsAs, n)
    requires entry(n).Some? && entry(n).value.key !in b && readsAs(entry(n).value, v)
    ensures SaysEntries(b[entry(n).value.key := v], entry, readsAs, n + 1)
  {
    var key := entry(n).value.key;
    var after := b[key := v];
    assert IsUnder(entry(n), key);
    forall k ensures k in after ==> exists j: nat | j < n + 1 :: IsUnder(entry(j), k) {
      if k in b {
        var j: nat :| j < n && IsUnder(entry(j), k);
      }
    }
  }

  ghost function EntriesOf(lines: seq<string>): nat -> Option<Entry> {
    (i: nat) => if i < |lines| then EntryOf(lines[i]) else None
  }

  predicate Reads(e: Entry, v: Value) { ReadValue(e.key, e.raw) == Success(v) }

  /** The dict says what the first `n` lines say, and nothing else. */
  ghost predicate SaysLines(b: Body, lines: seq<string>, n: nat)
    requires n <= |lines|
  {
    SaysEntries(b, EntriesOf(lines), Reads, n)
  }

  lemma LineAccepted(b: Body, lines: seq<string>, n: nat)
    requires n < |lines| && SaysLines(b, lines, n)
    ensures ReadLine(b, lines[n]).Failure? <==> Offends(lines, n)
  {
    if EntryOf(lines[n]).Some? {
      KeyIsRepeated(b, lines, n, EntryOf(lines[n]).value.key);
    }
  }

  lemma KeyIsRepeated(b: Body, lines: seq<string>, n: nat, key: string)
    requires n <= |lines| && SaysLines(b, lines, n)
    ensures key in b <==> exists j | 0 <= j < n :: Names(lines[j], key)
  {
    var entry := EntriesOf(lines);
    if key in b {
      var j: nat :| j < n && IsUnder(entry(j), key);
      assert Names(lines[j], key);
    }
    if j :| 0 <= j < n && Names(lines[j], key) {
      assert entry(j).Some?;
    }
  }

  lemma NothingAdded(b: Body, entry: nat -> Option<Entry>, readsAs: (Entry, Value) -> bool, n: nat)
    requires SaysEntries(b, entry, readsAs, n) && entry(n).None?
    ensures SaysEntries(b, entry, readsAs, n + 1)
  {
    forall k ensures k in b ==> exists j: nat | j < n + 1 :: IsUnder(entry(j), k) {
      if k in b {
        var j: nat :| j < n && IsUnder(entry(j), k);
      }
    }
  }

  lemma LineSaid(b: Body, lines: seq<string>, n: nat, after: Body)
    requires n < |lines| && SaysLines(b, lines, n) && ReadLine(b, lines[n]) == Success(after)
    ensures SaysLines(after, lines, n + 1)
  {
    assert EntriesOf(lines)(n) == EntryOf(lines[n]);
    match EntryOf(lines[n])
    case None => NothingAdded(b, EntriesOf(lines), Reads, n);
    case Some(e) => EntryAdded(b, EntriesOf(lines), Reads, n, after[e.key]);
  }

  /** One line more: refused if it offends, otherwise said by the dict. */
  lemma OneMoreLine(b: Body, lines: seq<string>, n: nat)
    requires n < |lines| && SaysLines(b, lines, n)
    ensures OneMore(ReadLine(b, lines[n]), Says(lines), Offending(lines), n)
  {
    LineAccepted(b, lines, n);
    match ReadLine(b, lines[n])
    case Failure(_) =>
    case Success(after) => LineSaid(b, lines, n, after);
  }

  ghost function Says(lines: seq<string>): (Body, nat) -> bool {
    (b: Body, k: nat) => k <= |lines| && SaysLines(b, lines, k)
  }

  ghost function Offending(lines: seq<string>): nat -> bool {
    (k: nat) => k < |lines| && Offends(lines, k)
  }

  /**
   A block is refused if and only if some line offends (indented, not `key: value`, a key
   given before, a malformed list or date), at the first such line; otherwise the dict is
   exactly what the lines say.
   */
  lemma BlockReadExactly(lines: seq<string>)
    ensures Verdict(ReadBlock(lines), Says(lines), Offending(lines), |lines|)
  {
    forall b, k: nat | k < |lines| && Says(lines)(b, k)
      ensures OneMore(ReadLine(b, lines[k]), Says(lines), Offending(lines), k)
    {
      OneMoreLine(b, lines, k);
    }
    FoldedExactly(lines, |lines|, ReadLine, map[], Says(lines), Offending(lines));
  }

  lemma BlockRefused(lines: seq<string>)
    ensures ReadBlock(lines).Failure? <==> exists i: nat :: Offending(lines)(i)
  {
    BlockReadExactly(lines);
    match ReadBlock(lines)
    case Failure(e) => assert Offending(lines)(e.line);
    case Success(b) => forall i: nat ensures !Offending(lines)(i) {}
  }

  /** A text is refused exactly when it opens a block that is never closed or holds an offending line. */
  lemma HeaderRefusedExactly(text: string)
    ensures var lines := Lines(text);
      ParseHeader(text).Failure? <==>
        && lines != [] && lines[0] == FENCE
        && match Closing(lines, 1)
           case None => true
           case Some(c) => exists i: nat :: Offending(lines[1..c])(i)
  {
    var lines := Lines(text);
    if lines != [] && lines[0] == FENCE {
      match Closing(lines, 1)
      case None =>
      case Some(c) => BlockRefused(lines[1..c]);
    }
  }
}
