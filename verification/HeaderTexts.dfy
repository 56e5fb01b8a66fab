/**
 What a header line says, on its characters: blanks and an inline comment are off, a key and a
 colon are on, and each kind of key reads its own kind of value. A comment changes nothing.
 */
module HeaderTexts {
  import opened DateTexts
  import opened Text
  import opened TextLaws
  import opened Wrappers
  import opened HeaderGrammar
  import opened HeaderValues
  import opened HeaderDocuments

  // --- Comments and blanks off --------------------------------------------------------

  lemma NoCommentTail(r: string)
    ensures NoComment(r) ==> NoComment(r[if r == "" then 0 else 1..])
  {
    if r != "" && NoComment(r) {
      forall i | 0 <= i < |r[1..]| - 1 ensures !(r[1..][i] == ' ' && r[1..][i + 1] == '#') {
        assert r[1..][i] == r[i + 1] && r[1..][i + 1] == r[i + 1 + 1];
      }
    }
  }

  /** The text before the first ` #`, or all of it. */
  lemma {:induction false} CommentCut(v: string)
    ensures var r := StripComment(v); NoComment(r) && (r == v || r + " #" <= v)
  {
    if v != "" && !(|v| >= 2 && v[0] == ' ' && v[1] == '#') {
      CommentCut(v[1..]);
      var r := StripComment(v[1..]);
      assert StripComment(v) == [v[0]] + r;
      assert v == [v[0]] + v[1..];
      forall i | 0 <= i < |[v[0]] + r| - 1 ensures !(([v[0]] + r)[i] == ' ' && ([v[0]] + r)[i + 1] == '#') {
        if i > 0 {
          assert ([v[0]] + r)[i] == r[i - 1] && ([v[0]] + r)[i + 1] == r[i - 1 + 1];
        }
      }
      if r + " #" <= v[1..] {
        assert [v[0]] + r + " #" == [v[0]] + (r + " #");
      }
    }
  }

  lemma {:induction false} CutIsFirst(v: string, r: string)
    requires NoComment(r) && r + " #" <= v
    ensures StripComment(v) == r
  {
    var mark := r + " #";
    assert v[|r|] == mark[|r|] == ' ' && v[|r| + 1] == mark[|r| + 1] == '#';
    if r != "" {
      assert v[0] == mark[0] == r[0];
      if |r| >= 2 {
        assert v[1] == mark[1] == r[1];
      }
      NoCommentTail(r);
      assert r[1..] + " #" == mark[1..] && mark[1..] <= v[1..];
      CutIsFirst(v[1..], r[1..]);
      assert [r[0]] + r[1..] == r;
    }
  }

  lemma StripCommentExactly(v: string, r: string)
    ensures StripComment(v) == r <==> NoComment(r) && (r == v || r + " #" <= v)
  {
    CommentCut(v);
    if NoComment(r) {
      if r == v {
        NoCommentKept(v);
      } else if r + " #" <= v {
        CutIsFirst(v, r);
      }
    }
  }

  /** `raw` is `s` between blanks, with or without a comment behind it. */
  ghost predicate Bare(raw: string, s: string) {
    && Trimmed(s, IsSpace)
    && exists u, b :: Around(raw, u, s, b)
  }

  ghost predicate Around(raw: string, u: string, s: string, b: string) {
    && Blanks(u) && Blanks(b) && NoComment(u + s + b)
    && (raw == u + s + b || u + s + b + " #" <= raw)
  }

  lemma BareExactly(raw: string, s: string)
    ensures Strip(StripComment(raw)) == s <==> Bare(raw, s)
  {
    var cut := StripComment(raw);
    CommentCut(raw);
    var u, core, b := TrimParts(cut, IsSpace);
    assert Around(raw, u, core, b);
    if Bare(raw, s) {
      var x, y :| Around(raw, x, s, y);
      StripCommentExactly(raw, x + s + y);
      TrimPadded(x, s, y, IsSpace);
    }
  }

  // --- Values -------------------------------------------------------------------------

  /** A scalar is what stands there, unless that is nothing or a tilde. */
  lemma ScalarReadExactly(raw: string, s: string)
    ensures ParseScalar(raw) == Some(s) <==> s != "" && s != "~" && Bare(raw, s)
    ensures ParseScalar(raw) == None <==> Bare(raw, "") || Bare(raw, "~")
  {
    BareExactly(raw, s);
    BareExactly(raw, "");
    BareExactly(raw, "~");
  }

  /** The parts between the commas, each the item between blanks. */
  ghost predicate PartsOf(inner: string, parts: seq<string>, items: seq<string>) {
    && |parts| == |items| > 0
    && (forall i | 0 <= i < |parts| :: ',' !in parts[i] && Core(parts[i], items[i]))
    && JoinWith(parts, ',') != "" && Core(inner, JoinWith(parts, ','))
  }

  /** What stands between the brackets: nothing, or the items. */
  ghost predicate ListsItems(inner: string, items: seq<string>) {
    if Core(inner, "") then items == [] else exists parts :: PartsOf(inner, parts, items)
  }

  lemma SplitIsParts(inner: string)
    requires Strip(inner) != ""
    ensures var parts := SplitOn(Strip(inner), ','); PartsOf(inner, parts, StripAll(parts))
  {
    var parts := SplitOn(Strip(inner), ',');
    SplitPartsFree(Strip(inner), ',');
    JoinOfSplit(Strip(inner), ',');
    CoreExactly(inner, Strip(inner));
    forall i | 0 <= i < |parts| { CoreExactly(parts[i], StripAll(parts)[i]); }
  }

  lemma PartsAreSplit(inner: string, parts: seq<string>, items: seq<string>)
    requires PartsOf(inner, parts, items)
    ensures Strip(inner) == JoinWith(parts, ',') && SplitOn(Strip(inner), ',') == parts && StripAll(parts) == items
  {
    CoreExactly(inner, JoinWith(parts, ','));
    SplitJoin(parts, ',');
    forall i | 0 <= i < |parts| { CoreExactly(parts[i], items[i]); }
  }

  lemma ItemsExactly(inner: string, items: seq<string>)
    ensures ListsItems(inner, items) <==>
      items == if Strip(inner) == "" then [] else StripAll(SplitOn(Strip(inner), ','))
  {
    CoreExactly(inner, "");
    if Strip(inner) != "" {
      SplitIsParts(inner);
      if parts :| PartsOf(inner, parts, items) {
        PartsAreSplit(inner, parts, items);
      }
    }
  }

  lemma Bracketed(value: string)
    requires |value| >= 2 && value[0] == '[' && value[|value| - 1] == ']'
    ensures value == "[" + value[1..|value| - 1] + "]"
  {}

  lemma BetweenBrackets(value: string)
    ensures forall inner ::
      value == "[" + inner + "]" <==>
        |value| >= 2 && value[0] == '[' && value[|value| - 1] == ']' && inner == value[1..|value| - 1]
  {
    forall inner ensures value == "[" + inner + "]" <==>
      |value| >= 2 && value[0] == '[' && value[|value| - 1] == ']' && inner == value[1..|value| - 1]
    {
      if value == "[" + inner + "]" {
        assert value[1..|value| - 1] == inner;
      }
      if |value| >= 2 && value[0] == '[' && value[|value| - 1] == ']' && inner == value[1..|value| - 1] {
        Bracketed(value);
      }
    }
  }

  /** A list is two brackets, blanks and a comment apart, and the items between them. */
  lemma ListReadExactly(raw: string, items: seq<string>)
    ensures ParseList(raw) == Some(items) <==>
      exists inner :: Bare(raw, "[" + inner + "]") && ListsItems(inner, items)
    ensures ParseList(raw) == None <==> forall inner :: !Bare(raw, "[" + inner + "]")
  {
    var value := Strip(StripComment(raw));
    forall inner ensures Bare(raw, "[" + inner + "]") <==> value == "[" + inner + "]" {
      BareExactly(raw, "[" + inner + "]");
    }
    BetweenBrackets(value);
    if |value| >= 2 && value[0] == '[' && value[|value| - 1] == ']' {
      var inner := value[1..|value| - 1];
      Bracketed(value);
      assert Bare(raw, "[" + inner + "]");
      ItemsExactly(inner, items);
    }
  }

  /** What the text of a key says, by the kind of the key. */
  ghost predicate Means(key: string, raw: string, v: Value) {
    if key == "created" then
      (v.Null? && (Bare(raw, "") || Bare(raw, "~"))) || (v.Day? && SaysDate(raw, v.date))
    else if key == "vendored" then v.Flag? && (v.on <==> Bare(raw, "true"))
    else if key == "plans" || key == "supersedes" || key == "corrected_by" || key == "relates" then
      v.Items? && exists inner :: Bare(raw, "[" + inner + "]") && ListsItems(inner, v.items)
    else
      || (v.Null? && (Bare(raw, "") || Bare(raw, "~")))
      || (v.Word? && v.text != "" && v.text != "~" && Bare(raw, v.text))
  }

  ghost predicate SaysDate(raw: string, date: Date) {
    exists s :: s != "" && s != "~" && Bare(raw, s) && SpellsDate(s, date)
  }

  lemma DateSaidExactly(raw: string, date: Date)
    ensures SaysDate(raw, date) <==> ParseScalar(raw).Some? && ParseDate(ParseScalar(raw).value) == Some(date)
  {
    if s :| s != "" && s != "~" && Bare(raw, s) && SpellsDate(s, date) {
      ScalarReadExactly(raw, s);
      DayReadExactly(s, date);
    }
    if ParseScalar(raw).Some? && ParseDate(ParseScalar(raw).value) == Some(date) {
      var s := ParseScalar(raw).value;
      ScalarReadExactly(raw, s);
      DayReadExactly(s, date);
    }
  }

  lemma DateKeyRead(raw: string, v: Value)
    ensures ReadValue("created", raw) == Success(v) <==> Means("created", raw, v)
  {
    ScalarReadExactly(raw, "");
    if v.Day? {
      DateSaidExactly(raw, v.date);
    }
  }

  lemma ListKeyFrom(key: string, raw: string, v: Value)
    requires key in LIST_FIELDS
    ensures ReadValue(key, raw) == Success(v) <==> v.Items? && ParseList(raw).Some? && ParseList(raw).value == v.items
    ensures Means(key, raw, v) <==>
      v.Items? && exists inner :: Bare(raw, "[" + inner + "]") && ListsItems(inner, v.items)
  {}

  lemma ListKeyRead(key: string, raw: string, v: Value)
    requires key in LIST_FIELDS
    ensures ReadValue(key, raw) == Success(v) <==> Means(key, raw, v)
  {
    ListKeyFrom(key, raw, v);
    if v.Items? {
      ListReadExactly(raw, v.items);
    }
  }

  lemma WordKeyRead(key: string, raw: string, v: Value)
    requires key != "created" && key != "vendored" && key !in LIST_FIELDS
    ensures ReadValue(key, raw) == Success(v) <==> Means(key, raw, v)
  {
    ScalarReadExactly(raw, if v.Word? then v.text else "");
  }

  /** Each kind of key reads exactly its own kind of value. */
  lemma ValueReadExactly(key: string, raw: string, v: Value)
    ensures ReadValue(key, raw) == Success(v) <==> Means(key, raw, v)
  {
    if key == "created" {
      DateKeyRead(raw, v);
    } else if key == "vendored" {
      ScalarReadExactly(raw, "true");
    } else if key in LIST_FIELDS {
      ListKeyRead(key, raw, v);
    } else {
      WordKeyRead(key, raw, v);
    }
  }

  // --- A comment changes nothing ------------------------------------------------------

  /** What stands behind ` #` is not read, whatever the key, and blanks before it neither. */
  lemma CommentChangesNothing(key: string, raw: string, blanks: string, comment: string)
    requires NoComment(raw) && Blanks(blanks)
    ensures ReadValue(key, raw + blanks + " #" + comment) == ReadValue(key, raw)
  {
    var noted := raw + blanks + " #" + comment;
    BlanksHoldNoComment(raw, blanks);
    assert raw + blanks + " #" <= noted;
    StripCommentExactly(noted, raw + blanks);
    StripCommentExactly(raw, raw);
    BlanksBehind(raw, blanks);
    SameReading(key, noted, raw);
  }

  lemma BlanksHoldNoComment(raw: string, blanks: string)
    requires NoComment(raw) && Blanks(blanks)
    ensures NoComment(raw + blanks)
  {
    var s := raw + blanks;
    forall i | 0 <= i < |s| - 1 ensures !(s[i] == ' ' && s[i + 1] == '#') {
      if i + 1 < |raw| {
        assert s[i] == raw[i] && s[i + 1] == raw[i + 1];
      } else {
        assert s[i + 1] == blanks[i + 1 - |raw|];
      }
    }
  }

  lemma BlanksBehind(raw: string, blanks: string)
    requires Blanks(blanks)
    ensures Strip(raw + blanks) == Strip(raw)
  {
    var u, core, b := TrimParts(raw, IsSpace);
    assert raw + blanks == u + core + (b + blanks);
    TrimPadded(u, core, b + blanks, IsSpace);
  }

  /** A value from the scalar and the list that a text reads as. */
  function ValueFrom(key: string, scalar: Option<string>, list: Option<seq<string>>): Result<Value, Cause> {
    if key == "created" && scalar.Some? then
      match ParseDate(scalar.value) case None => Failure(BadDate) case Some(d) => Success(Day(d))
    else if key == "vendored" then Success(Flag(scalar == Some("true")))
    else if key in LIST_FIELDS then match list case None => Failure(BadList) case Some(xs) => Success(Items(xs))
    else match scalar case None => Success(Null) case Some(s) => Success(Word(s))
  }

  lemma ReadFrom(key: string, raw: string, scalar: Option<string>, list: Option<seq<string>>)
    requires ParseScalar(raw) == scalar && ParseList(raw) == list
    ensures ReadValue(key, raw) == ValueFrom(key, scalar, list)
  {
    assert "created" !in LIST_FIELDS;
  }

  lemma SameReading(key: string, a: string, b: string)
    requires Strip(StripComment(a)) == Strip(StripComment(b))
    ensures ReadValue(key, a) == ReadValue(key, b)
  {
    ReadFrom(key, a, ParseScalar(a), ParseList(a));
    ReadFrom(key, b, ParseScalar(b), ParseList(b));
  }

  /** What is printed for a value holds no comment. */
  lemma PrintedHasNoComment(v: Value)
    requires Plain(v)
    ensures NoComment(PrintValue(v))
  {
    match v
    case Null =>
    case Word(s) =>
    case Items(xs) =>
    case Flag(on) =>
    case Day(d) => DateIsPlain(d);
  }

  /** Every kind of value is read back from in front of a comment. */
  lemma CommentedValueRoundTrip(key: string, v: Value, blanks: string, comment: string)
    requires Fits(key, v) && Plain(v) && Blanks(blanks)
    ensures ReadValue(key, PrintValue(v) + blanks + " #" + comment) == Success(v)
  {
    PrintedHasNoComment(v);
    CommentChangesNothing(key, PrintValue(v), blanks, comment);
    ValueRoundTrip(key, v);
  }

  // --- Lines --------------------------------------------------------------------------

  /** Word characters, the first of them no digit. */
  predicate IsName(key: string) {
    key != "" && (IsWord(key[0]) && !IsDigit(key[0])) && (forall i | 0 <= i < |key| :: IsWord(key[i]))
  }

  /** `key:` with one blank or tab off the text behind it, if there is one. */
  ghost predicate Written(line: string, key: string, raw: string) {
    && IsName(key)
    && ( || line == key + ": " + raw || line == key + ":\t" + raw
         || (line == key + ":" + raw && !(" " <= raw) && !("\t" <= raw)))
  }

  lemma NameAndColon(key: string, tail: string)
    requires IsName(key)
    ensures var blank := tail != "" && (tail[0] == ' ' || tail[0] == '\t');
      SplitEntry(key + ":" + tail) == Some(Entry(key, if blank then tail[1..] else tail))
  {
    var line := key + ":" + tail;
    var n := |key|;
    assert line[n] == ':' && line[..n] == key && line[n + 1..] == tail;
    SpanUnique(line, IsKeyChar, n);
  }

  lemma WrittenSplits(line: string, key: string, raw: string)
    requires Written(line, key, raw)
    ensures SplitEntry(line) == Some(Entry(key, raw))
  {
    if line == key + ": " + raw {
      assert line == key + ":" + (" " + raw) && (" " + raw)[1..] == raw;
      NameAndColon(key, " " + raw);
    } else if line == key + ":\t" + raw {
      assert line == key + ":" + ("\t" + raw) && ("\t" + raw)[1..] == raw;
      NameAndColon(key, "\t" + raw);
    } else {
      NameAndColon(key, raw);
    }
  }

  lemma SplitIsWritten(line: string)
    ensures match SplitEntry(line) case None => true case Some(e) => Written(line, e.key, e.raw)
  {
    match SplitEntry(line)
    case None =>
    case Some(e) =>
      var n := Span(line, IsKeyChar);
      var tail := line[n + 1..];
      assert line == e.key + ":" + tail;
      if tail != "" && (tail[0] == ' ' || tail[0] == '\t') {
        assert tail == [tail[0]] + e.raw;
      }
  }

  /** Which lines are `key: value`. */
  lemma EntryExactly(line: string, key: string, raw: string)
    ensures SplitEntry(line) == Some(Entry(key, raw)) <==> Written(line, key, raw)
    ensures SplitEntry(line).None? <==> forall k, r :: !Written(line, k, r)
  {
    SplitIsWritten(line);
    if Written(line, key, raw) {
      WrittenSplits(line, key, raw);
    }
    if SplitEntry(line).None? {
      forall k, r ensures !Written(line, k, r) {
        if Written(line, k, r) {
          WrittenSplits(line, k, r);
        }
      }
    }
  }

  lemma BlankExactly(line: string)
    ensures IsBlank(line) <==> Blanks(line)
  {
    CoreExactly(line, "");
    if Blanks(line) {
      assert line == line + "" + "" && Blanks("");
    }
    if Core(line, "") {
      var u, b :| Blanks(u) && Blanks(b) && line == u + "" + b;
    }
  }

  predicate Starts(line: string) { " " <= line || "\t" <= line }

  lemma NamedIsNoBlank(line: string, key: string, raw: string)
    requires Written(line, key, raw)
    ensures line != "" && !Blanks(line) && !Starts(line) && !IsIndented(line)
  {
    assert line[0] == key[0] && IsWord(line[0]);
  }

  /** What one line adds: nothing if it is blank, else a new key with what its text means. */
  ghost predicate Adds(b: Body, line: string, after: Body) {
    || (Blanks(line) && after == b)
    || (exists key, raw, v :: Written(line, key, raw) && key !in b && Means(key, raw, v) && after == b[key := v])
  }

  lemma BlankIsNoEntry(line: string)
    requires Blanks(line)
    ensures forall key, raw :: !Written(line, key, raw)
  {
    forall key, raw ensures !Written(line, key, raw) {
      if Written(line, key, raw) {
        NamedIsNoBlank(line, key, raw);
      }
    }
  }

  lemma WrittenOnce(line: string, e: Entry)
    requires SplitEntry(line) == Some(e)
    ensures forall key, raw :: Written(line, key, raw) <==> key == e.key && raw == e.raw
  {
    forall key, raw ensures Written(line, key, raw) <==> key == e.key && raw == e.raw {
      EntryExactly(line, key, raw);
    }
  }

  lemma EntryReadExactly(b: Body, line: string, e: Entry, after: Body)
    requires !Blanks(line) && !IsBlank(line) && SplitEntry(line) == Some(e)
    ensures ReadLine(b, line) == Success(after) <==> Adds(b, line, after)
  {
    WrittenOnce(line, e);
    assert Written(line, e.key, e.raw);
    NamedIsNoBlank(line, e.key, e.raw);
    forall v ensures ReadValue(e.key, e.raw) == Success(v) <==> Means(e.key, e.raw, v) {
      ValueReadExactly(e.key, e.raw, v);
    }
  }

  lemma LineReadExactly(b: Body, line: string, after: Body)
    ensures ReadLine(b, line) == Success(after) <==> Adds(b, line, after)
  {
    BlankExactly(line);
    if Blanks(line) {
      BlankIsNoEntry(line);
    } else {
      match SplitEntry(line)
      case None => EntryExactly(line, "", "");
      case Some(e) => EntryReadExactly(b, line, e, after);
    }
  }

  /** Under a key of a certain kind, not met before, stands a text that means nothing. */
  ghost predicate Meaningless(b: Body, line: string, list: bool) {
    exists key, raw :: Written(line, key, raw) && key !in b
      && (if list then key == "plans" || key == "supersedes" || key == "corrected_by" || key == "relates"
          else key == "created")
      && forall v :: !Means(key, raw, v)
  }

  /** Why a line is refused. */
  ghost predicate Refuses(b: Body, line: string, cause: Cause) {
    !Blanks(line) &&
    match cause
    case Indented => Starts(line)
    case NotKeyValue => !Starts(line) && forall key, raw :: !Written(line, key, raw)
    case DuplicateKey(key) => key in b && exists raw :: Written(line, key, raw)
    case BadList => Meaningless(b, line, true)
    case BadDate => Meaningless(b, line, false)
    case Unterminated => false
  }

  lemma LineRefusedExactly(b: Body, line: string, cause: Cause)
    ensures ReadLine(b, line) == Failure(cause) <==> Refuses(b, line, cause)
  {
    BlankExactly(line);
    SplitIsWritten(line);
    if !Blanks(line) && !Starts(line) {
      match SplitEntry(line)
      case None => NoEntryRefused(b, line, cause);
      case Some(e) => EntryRefused(b, line, e, cause);
    }
    if Starts(line) {
      StartsIsNoEntry(line);
    }
  }

  lemma StartsIsNoEntry(line: string)
    requires Starts(line)
    ensures forall key, raw :: !Written(line, key, raw)
  {
    forall key, raw ensures !Written(line, key, raw) {
      if Written(line, key, raw) {
        NamedIsNoBlank(line, key, raw);
      }
    }
  }

  lemma NoEntryRefused(b: Body, line: string, cause: Cause)
    requires !Blanks(line) && !IsBlank(line) && !Starts(line) && SplitEntry(line).None?
    ensures ReadLine(b, line) == Failure(cause) <==> Refuses(b, line, cause)
  {
    EntryExactly(line, "", "");
  }

  /** A text without a meaning is a malformed list or date, by the kind of its key. */
  lemma MeaninglessExactly(key: string, raw: string)
    ensures (forall v :: !Means(key, raw, v)) <==> ReadValue(key, raw).Failure?
    ensures ReadValue(key, raw) == Failure(BadList) ==>
      key == "plans" || key == "supersedes" || key == "corrected_by" || key == "relates"
    ensures ReadValue(key, raw) == Failure(BadDate) ==> key == "created"
    ensures ReadValue(key, raw).Failure? ==> ReadValue(key, raw).error in {BadList, BadDate}
  {
    forall v { ValueReadExactly(key, raw, v); }
    match ReadValue(key, raw)
    case Failure(_) =>
    case Success(v) => assert Means(key, raw, v);
  }

  /** Why an entry is refused, once its line is split. */
  predicate RefusesEntry(b: Body, e: Entry, cause: Cause) {
    match cause
    case DuplicateKey(key) => key == e.key && e.key in b
    case BadList => e.key !in b && ReadValue(e.key, e.raw) == Failure(BadList)
    case BadDate => e.key !in b && ReadValue(e.key, e.raw) == Failure(BadDate)
    case _ => false
  }

  lemma EntryMeansNothing(b: Body, line: string, e: Entry, list: bool)
    requires SplitEntry(line) == Some(e)
    ensures Meaningless(b, line, list) <==>
      e.key !in b && ReadValue(e.key, e.raw) == Failure(if list then BadList else BadDate)
  {
    WrittenOnce(line, e);
    assert Written(line, e.key, e.raw);
    MeaninglessExactly(e.key, e.raw);
  }

  lemma EntryRefusal(b: Body, line: string, e: Entry, cause: Cause)
    requires !Blanks(line) && !Starts(line) && SplitEntry(line) == Some(e)
    ensures RefusesEntry(b, e, cause) <==> Refuses(b, line, cause)
  {
    match cause
    case Indented =>
    case NotKeyValue => EntryExactly(line, e.key, e.raw);
    case Unterminated =>
    case BadList => EntryMeansNothing(b, line, e, true);
    case BadDate => EntryMeansNothing(b, line, e, false);
    case DuplicateKey(_) =>
      WrittenOnce(line, e);
      assert Written(line, e.key, e.raw);
  }

  lemma EntryRefused(b: Body, line: string, e: Entry, cause: Cause)
    requires !Blanks(line) && !IsBlank(line) && !Starts(line) && SplitEntry(line) == Some(e)
    ensures ReadLine(b, line) == Failure(cause) <==> Refuses(b, line, cause)
  {
    EntryRefusal(b, line, e, cause);
    MeaninglessExactly(e.key, e.raw);
  }
}
