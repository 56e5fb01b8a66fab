/**
 Whole documents: a block of written entries above any body is read back as its header.
 */
module HeaderDocuments {
  import opened LineFold
  import opened Text
  import opened Wrappers
  import opened HeaderGrammar
  import opened HeaderValues

  datatype Field = Field(key: string, value: Value)

  predicate IsKey(key: string) {
    key != "" && !IsDigit(key[0]) && forall i | 0 <= i < |key| :: IsKeyChar(key[i])
  }

  /** The kind of value each key takes. */
  predicate Fits(key: string, v: Value) {
    if key == "created" then v.Null? || v.Day?
    else if key == "vendored" then v.Flag?
    else if key in LIST_FIELDS then v.Items?
    else v.Null? || v.Word?
  }

  /** The values the grammar can carry. */
  predicate Plain(v: Value) {
    match v
    case Null => true
    case Word(s) => PlainScalar(s) && '\n' !in s
    case Items(xs) => PlainItems(xs)
    case Flag(_) => true
    case Day(d) => IsDate(d)
  }

  predicate Writable(f: Field) { IsKey(f.key) && Fits(f.key, f.value) && Plain(f.value) }

  function PrintField(f: Field): string { f.key + ": " + PrintValue(f.value) }

  lemma WordIsPlain(s: string)
    requires s != "" && forall i | 0 <= i < |s| :: IsLower(s[i])
    ensures PlainScalar(s)
  {
    assert IsLower(s[0]) && IsLower(s[|s| - 1]) && !IsLower("~"[0]);
  }

  lemma FlagRoundTrip(on: bool)
    ensures ParseScalar(PrintValue(Flag(on))) == Some("true") <==> on
  {
    var s := PrintValue(Flag(on));
    WordIsPlain(s);
    ScalarSurvivesExactly(s);
  }

  lemma NullRoundTrip()
    ensures ParseScalar("~") == None
  {
    NoCommentKept("~");
    TrimTrimmed("~", IsSpace);
  }

  lemma ValueRoundTrip(key: string, v: Value)
    requires Fits(key, v) && Plain(v)
    ensures ReadValue(key, PrintValue(v)) == Success(v)
  {
    match v
    case Null => NullRoundTrip();
    case Word(s) => ScalarSurvivesExactly(s);
    case Items(xs) => ListRoundTrip(xs);
    case Flag(on) => FlagRoundTrip(on);
    case Day(d) =>
      DateIsPlain(d);
      ScalarSurvivesExactly(PrintDate(d));
      DateRoundTrip(d);
  }

  lemma {:induction false} TrimRightKeepsHead(s: string, drop: char -> bool)
    requires s != "" && !drop(s[0])
    ensures TrimRight(s, drop) != ""
    decreases |s|
  {
    if |s| > 1 && drop(s[|s| - 1]) {
      TrimRightKeepsHead(s[..|s| - 1], drop);
    }
  }

  lemma FieldSplit(f: Field)
    requires IsKey(f.key)
    ensures SplitEntry(PrintField(f)) == Some(Entry(f.key, PrintValue(f.value)))
  {
    var line := PrintField(f);
    var text := PrintValue(f.value);
    var n := |f.key|;
    SpanUnique(line, IsKeyChar, n);
    assert line[..n] == f.key && line[n] == ':';
    var raw := line[n + 1..];
    assert raw == " " + text;
    assert raw[1..] == text;
  }

  lemma FieldStands(f: Field)
    requires IsKey(f.key)
    ensures !IsBlank(PrintField(f)) && !IsIndented(PrintField(f)) && PrintField(f) != FENCE
  {
    var line := PrintField(f);
    assert line[0] == f.key[0] && IsKeyChar(line[0]);
    assert FENCE[0] == '-';
    SpanUnique(line, IsSpace, 0);
    assert line[0..] == line;
    TrimRightKeepsHead(line, IsSpace);
  }

  lemma FieldRead(b: Body, f: Field)
    requires Writable(f) && f.key !in b
    ensures ReadLine(b, PrintField(f)) == Success(b[f.key := f.value])
  {
    FieldSplit(f);
    FieldStands(f);
    ValueRoundTrip(f.key, f.value);
  }

  // --- Blocks -------------------------------------------------------------------------

  function PrintFields(fields: seq<Field>): (lines: seq<string>)
    ensures |lines| == |fields|
    ensures forall i | 0 <= i < |lines| :: lines[i] == PrintField(fields[i])
  {
    if fields == [] then [] else [PrintField(fields[0])] + PrintFields(fields[1..])
  }

  ghost predicate DistinctKeys(fields: seq<Field>) {
    forall i, j | 0 <= i < j < |fields| :: fields[i].key != fields[j].key
  }

  /** The dict of the first `n` fields. */
  function BodyOf(fields: seq<Field>, n: nat): Body
    requires n <= |fields|
  {
    if n == 0 then map[] else BodyOf(fields, n - 1)[fields[n - 1].key := fields[n - 1].value]
  }

  lemma {:induction false} BodyOfExactly(fields: seq<Field>, n: nat)
    requires n <= |fields| && DistinctKeys(fields)
    ensures forall i | 0 <= i < n ::
      fields[i].key in BodyOf(fields, n) && BodyOf(fields, n)[fields[i].key] == fields[i].value
    ensures forall key | key in BodyOf(fields, n) :: exists i | 0 <= i < n :: fields[i].key == key
  {
    if n > 0 {
      BodyOfExactly(fields, n - 1);
    }
  }

  ghost predicate AllWritable(fields: seq<Field>) {
    DistinctKeys(fields) && forall i | 0 <= i < |fields| :: Writable(fields[i])
  }

  lemma NextKeyIsNew(fields: seq<Field>, n: nat)
    requires n < |fields| && DistinctKeys(fields)
    ensures fields[n].key !in BodyOf(fields, n)
  {
    BodyOfExactly(fields, n);
  }

  /** The dict after so many fields. */
  function BodyAfter(fields: seq<Field>): nat -> Body {
    (k: nat) => if k <= |fields| then BodyOf(fields, k) else map[]
  }

  lemma FieldReadNext(fields: seq<Field>, k: nat)
    requires AllWritable(fields) && k < |fields|
    ensures ReadLine(BodyAfter(fields)(k), PrintField(fields[k])) == Success(BodyAfter(fields)(k + 1))
  {
    NextKeyIsNew(fields, k);
    FieldRead(BodyOf(fields, k), fields[k]);
  }

  lemma FieldsReadOn(fields: seq<Field>)
    requires AllWritable(fields)
    ensures |PrintFields(fields)| == |fields|
    ensures forall k: nat | k < |fields| ::
      ReadLine(BodyAfter(fields)(k), PrintFields(fields)[k]) == Success(BodyAfter(fields)(k + 1))
  {
    forall k: nat | k < |fields| { FieldReadNext(fields, k); }
  }

  /** A block of written fields reads as exactly those fields. */
  lemma BlockRoundTrip(fields: seq<Field>)
    requires AllWritable(fields)
    ensures ReadBlock(PrintFields(fields)) == Success(BodyOf(fields, |fields|))
  {
    FieldsReadOn(fields);
    FoldedAlong(PrintFields(fields), |fields|, ReadLine, map[], BodyAfter(fields));
  }

  // --- Documents ----------------------------------------------------------------------

  /** A block of lines above a body. */
  function Document(block: seq<string>, text: string): string {
    FENCE + "\n" + Joined(block) + FENCE + "\n" + text
  }

  ghost predicate IsBlock(block: seq<string>) {
    FENCE !in block && forall i | 0 <= i < |block| :: '\n' !in block[i]
  }

  lemma Regrouped<T>(a: seq<T>, b: seq<T>, c: seq<T>, d: seq<T>)
    ensures a + b + c + d == a + b + (c + d)
    ensures a + b + d == a + (b + d)
  {}

  lemma JoinedStep(block: seq<string>, rest: string)
    requires block != []
    ensures Joined(block) + rest == block[0] + "\n" + (Joined(block[1..]) + rest)
  {}

  lemma LinesStep(block: seq<string>, rest: string)
    requires block != [] && '\n' !in block[0]
    ensures Lines(Joined(block) + rest) == [block[0]] + Lines(Joined(block[1..]) + rest)
  {
    JoinedStep(block, rest);
    LinesCons(block[0], Joined(block[1..]) + rest);
  }

  lemma HeadAndTail<T>(s: seq<T>, more: seq<T>)
    requires s != []
    ensures [s[0]] + (s[1..] + more) == s + more
  {}

  lemma {:induction false} LinesOfJoined(block: seq<string>, rest: string)
    requires forall i | 0 <= i < |block| :: '\n' !in block[i]
    ensures Lines(Joined(block) + rest) == block + Lines(rest)
  {
    if block == [] {
      assert Joined(block) + rest == rest;
    } else {
      LinesStep(block, rest);
      LinesOfJoined(block[1..], rest);
      HeadAndTail(block, Lines(rest));
    }
  }

  lemma DocumentSplit(block: seq<string>, text: string)
    ensures Document(block, text) == FENCE + "\n" + (Joined(block) + (FENCE + "\n" + text))
  {}

  lemma DocumentLines(block: seq<string>, text: string)
    requires IsBlock(block)
    ensures Lines(Document(block, text)) == [FENCE] + block + [FENCE] + Lines(text)
  {
    var rest := FENCE + "\n" + text;
    LinesCons(FENCE, text);
    LinesOfJoined(block, rest);
    LinesCons(FENCE, Joined(block) + rest);
    DocumentSplit(block, text);
    Regrouped([FENCE], block, [FENCE], Lines(text));
  }

  lemma {:induction false} ClosingIsFirst(lines: seq<string>, from: nat, k: nat)
    requires from <= k < |lines| && lines[k] == FENCE
    requires forall j | from <= j < k :: lines[j] != FENCE
    ensures Closing(lines, from) == Some(k)
    decreases k - from
  {
    if from < k {
      ClosingIsFirst(lines, from + 1, k);
    }
  }

  lemma ClosingFound(block: seq<string>, more: seq<string>)
    requires FENCE !in block
    ensures Closing([FENCE] + block + [FENCE] + more, 1) == Some(|block| + 1)
  {
    var lines := [FENCE] + block + [FENCE] + more;
    forall j | 1 <= j < |block| + 1 ensures lines[j] != FENCE {
      assert lines[j] == block[j - 1];
    }
    ClosingIsFirst(lines, 1, |block| + 1);
  }

  /** The header of a document is the header of its block: what follows does not count. */
  lemma HeaderIgnoresBody(block: seq<string>, text: string)
    requires IsBlock(block)
    ensures ParseHeader(Document(block, text)) == match ReadBlock(block)
      case Failure(e) => Failure(Stop(e.line + 2, e.cause))
      case Success(b) => Success(Some(HeaderOf(b)))
  {
    DocumentLines(block, text);
    ClosingFound(block, Lines(text));
    var lines := [FENCE] + block + [FENCE] + Lines(text);
    assert lines[1..|block| + 1] == block;
  }

  // --- Headers ------------------------------------------------------------------------

  function OptValue(s: Option<string>): Value { if s.Some? then Word(s.value) else Null }
  function TextValue(s: string): Value { if s == "" then Null else Word(s) }
  function DateValue(d: Option<Date>): Value { if d.Some? then Day(d.value) else Null }

  predicate IsDefault(v: Value) { v == Null || v == Items([]) || v == Flag(false) }

  /** The field stands in the block, or is left out where the value is the default. */
  ghost predicate Carries(b: Body, key: string, v: Value) {
    if key in b then b[key] == v else IsDefault(v)
  }

  ghost predicate CarriesNames(b: Body, h: Header) {
    && Carries(b, "id", OptValue(h.id)) && Carries(b, "family", TextValue(h.family))
    && Carries(b, "kind", OptValue(h.kind)) && Carries(b, "title", TextValue(h.title))
    && Carries(b, "status", TextValue(h.status)) && Carries(b, "created", DateValue(h.created))
    && Carries(b, "owner", TextValue(h.owner))
  }

  ghost predicate CarriesPlaces(b: Body, h: Header) {
    && Carries(b, "phase", OptValue(h.phase)) && Carries(b, "work", OptValue(h.work))
    && Carries(b, "slice", OptValue(h.slice)) && Carries(b, "tree", OptValue(h.tree))
    && Carries(b, "was", OptValue(h.was)) && Carries(b, "vendored", Flag(h.vendored))
    && Carries(b, "origin", OptValue(h.origin))
  }

  ghost predicate CarriesLinks(b: Body, h: Header) {
    && Carries(b, "plans", Items(h.plans)) && Carries(b, "supersedes", Items(h.supersedes))
    && Carries(b, "superseded_by", OptValue(h.supersededBy)) && Carries(b, "corrected_by", Items(h.correctedBy))
    && Carries(b, "corrects", OptValue(h.corrects)) && Carries(b, "relates", Items(h.relates))
  }

  ghost predicate CarriesKnown(b: Body, h: Header) {
    CarriesNames(b, h) && CarriesPlaces(b, h) && CarriesLinks(b, h)
  }

  ghost predicate CarriesExtra(b: Body, extra: map<string, string>) {
    && (forall key :: (key in b && key !in KNOWN_KEYS) <==> key in extra)
    && (forall key | key in extra :: b[key] == TextValue(extra[key]))
  }

  /** The dict carries the header: every known field, and the extras verbatim. */
  ghost predicate CarriesHeader(b: Body, h: Header) {
    CarriesKnown(b, h) && CarriesExtra(b, h.extra)
  }

  lemma CarriedNames(b: Body, h: Header)
    requires CarriesNames(b, h)
    ensures OptStrField(b, "id") == h.id && StrField(b, "family") == h.family
    ensures OptStrField(b, "kind") == h.kind && StrField(b, "title") == h.title
    ensures StrField(b, "status") == h.status && DateField(b, "created") == h.created
    ensures StrField(b, "owner") == h.owner
  {}

  lemma CarriedPlaces(b: Body, h: Header)
    requires CarriesPlaces(b, h)
    ensures OptStrField(b, "phase") == h.phase && OptStrField(b, "work") == h.work
    ensures OptStrField(b, "slice") == h.slice && OptStrField(b, "tree") == h.tree
    ensures OptStrField(b, "was") == h.was && BoolField(b, "vendored") == h.vendored
    ensures OptStrField(b, "origin") == h.origin
  {}

  lemma CarriedLinks(b: Body, h: Header)
    requires CarriesLinks(b, h)
    ensures TupleField(b, "plans") == h.plans && TupleField(b, "supersedes") == h.supersedes
    ensures OptStrField(b, "superseded_by") == h.supersededBy && TupleField(b, "corrected_by") == h.correctedBy
    ensures OptStrField(b, "corrects") == h.corrects && TupleField(b, "relates") == h.relates
  {}

  lemma CarriedExtra(b: Body, extra: map<string, string>)
    requires CarriesExtra(b, extra)
    ensures Extras(b) == extra
  {}

  lemma CarriedHeader(b: Body, h: Header)
    requires CarriesHeader(b, h)
    ensures HeaderOf(b) == h
  {
    CarriedNames(b, h);
    CarriedPlaces(b, h);
    CarriedLinks(b, h);
    CarriedExtra(b, h.extra);
  }

  lemma FieldsAreABlock(fields: seq<Field>)
    requires AllWritable(fields)
    ensures IsBlock(PrintFields(fields))
  {
    var block := PrintFields(fields);
    forall i | 0 <= i < |block| ensures '\n' !in block[i] && block[i] != FENCE {
      FieldStands(fields[i]);
      FieldIsOneLine(fields[i]);
    }
  }

  /**
   Written in any field order, with or without its default fields, and above any body, a
   header is read back as it was.
   */
  lemma HeaderRoundTrip(h: Header, fields: seq<Field>, text: string)
    requires AllWritable(fields) && CarriesHeader(BodyOf(fields, |fields|), h)
    ensures ParseHeader(Document(PrintFields(fields), text)) == Success(Some(h))
  {
    FieldsAreABlock(fields);
    BlockRoundTrip(fields);
    HeaderIgnoresBody(PrintFields(fields), text);
    CarriedHeader(BodyOf(fields, |fields|), h);
  }

  lemma FieldIsOneLine(f: Field)
    requires Writable(f)
    ensures '\n' !in PrintField(f)
  {
    assert forall i | 0 <= i < |f.key| :: IsKeyChar(f.key[i]);
    ValueIsOneLine(f.value);
  }

  lemma ValueIsOneLine(v: Value)
    requires Plain(v)
    ensures '\n' !in PrintValue(v)
  {
    match v
    case Null =>
    case Word(_) =>
    case Flag(_) =>
    case Day(d) => DateIsPlain(d);
    case Items(xs) =>
      forall i | 0 <= i < |xs| ensures '\n' !in Spaced(xs)[i] {
        assert xs[i] in xs;
      }
      JoinIsOneLine(Spaced(xs));
  }

  lemma {:induction false} JoinIsOneLine(parts: seq<string>)
    requires forall i | 0 <= i < |parts| :: '\n' !in parts[i]
    ensures '\n' !in JoinWith(parts, ',')
  {
    if |parts| > 1 {
      JoinIsOneLine(parts[1..]);
    }
  }
}
