/**
 The document header: the front-matter block a governed document opens with, its closed
 grammar, and the parser that reads it.
 */
module HeaderGrammar {
  import opened LineFold
  import opened Text
  import opened Wrappers

  datatype Date = Date(year: nat, month: nat, day: nat)

  datatype Value =
    | Null
    | Word(text: string)
    | Items(items: seq<string>)
    | Flag(on: bool)
    | Day(date: Date)

  /** The plain dict a block is read into, keyed as written. */
  type Body = map<string, Value>

  datatype Header = Header(
    id: Option<string>, family: string, kind: Option<string>, title: string, status: string,
    created: Option<Date>, owner: string, phase: Option<string>, work: Option<string>,
    slice: Option<string>, tree: Option<string>, plans: seq<string>, supersedes: seq<string>,
    supersededBy: Option<string>, correctedBy: seq<string>, corrects: Option<string>,
    relates: seq<string>, was: Option<string>, vendored: bool, origin: Option<string>,
    extra: map<string, string>)

  datatype Cause = Unterminated | Indented | NotKeyValue | DuplicateKey(key: string) | BadList | BadDate
  type HeaderError = Stop<Cause>

  const LIST_FIELDS := ["plans", "supersedes", "corrected_by", "relates"]
  const KNOWN_KEYS :=
    [ "id", "family", "kind", "title", "status", "created", "owner", "phase", "work", "slice", "tree",
      "plans", "supersedes", "superseded_by", "corrected_by", "corrects", "relates", "was", "vendored",
      "origin" ]

  // --- Scalars, lists and dates -------------------------------------------------------

  /** `_strip_inline_comment`: everything before the first ` #`. */
  function StripComment(value: string): (r: string)
    ensures r <= value
  {
    if value == "" || (|value| >= 2 && value[0] == ' ' && value[1] == '#') then ""
    else [value[0]] + StripComment(value[1..])
  }

  /** `_parse_scalar`. */
  function ParseScalar(raw: string): Option<string> {
    var value := Strip(StripComment(raw));
    if value == "~" || value == "" then None else Some(value)
  }

  /** `_parse_list`: the items of `[a, b]`. */
  function ParseList(raw: string): Option<seq<string>> {
    var value := Strip(StripComment(raw));
    if |value| < 2 || value[0] != '[' || value[|value| - 1] != ']' then None
    else
      var inner := Strip(value[1..|value| - 1]);
      Some(if inner == "" then [] else StripAll(SplitOn(inner, ',')))
  }

  /** `int(part)`: blanks around, one sign, single underscores between digits. */
  function ParseInt(part: string): Option<nat> {
    var t := Strip(part);
    var digits := if t != "" && t[0] == '+' then t[1..] else t;
    var groups := SplitOn(digits, '_');
    if forall g | g in groups :: g != "" && AllDigits(g) then Some(ParseGroups(groups)) else None
  }

  function ParseGroups(groups: seq<string>): nat
    requires forall g | g in groups :: AllDigits(g)
  {
    ParseNat(Concatenated(groups))
  }

  function Concatenated(groups: seq<string>): (s: string)
    requires forall g | g in groups :: AllDigits(g)
    ensures AllDigits(s)
  {
    if groups == [] then ""
    else
      var rest := Concatenated(groups[1..]);
      assert AllDigits(groups[0]) && AllDigits(rest);
      groups[0] + rest
  }

  predicate IsLeap(year: nat) { year % 4 == 0 && (year % 100 != 0 || year % 400 == 0) }

  function DaysIn(year: nat, month: nat): nat {
    if month == 2 then (if IsLeap(year) then 29 else 28)
    else if month == 4 || month == 6 || month == 9 || month == 11 then 30
    else 31
  }

  /** What `datetime.date` accepts. */
  predicate IsDate(d: Date) {
    1 <= d.year <= 9999 && 1 <= d.month <= 12 && 1 <= d.day <= DaysIn(d.year, d.month)
  }

  function ParseDate(scalar: string): (r: Option<Date>)
    ensures r.Some? ==> IsDate(r.value)
  {
    var parts := SplitOn(scalar, '-');
    if |parts| != 3 then None
    else
      match (ParseInt(parts[0]), ParseInt(parts[1]), ParseInt(parts[2]))
      case (Some(y), Some(m), Some(d)) =>
        if IsDate(Date(y, m, d)) then Some(Date(y, m, d)) else None
      case _ => None
  }

  /** The value of one `key: raw` line, by the kind of its key. */
  function ReadValue(key: string, raw: string): Result<Value, Cause> {
    if key == "created" then
      match ParseScalar(raw)
      case None => Success(Null)
      case Some(s) =>
        match ParseDate(s)
        case None => Failure(BadDate)
        case Some(d) => Success(Day(d))
    else if key == "vendored" then Success(Flag(ParseScalar(raw) == Some("true")))
    else if key in LIST_FIELDS then
      match ParseList(raw)
      case None => Failure(BadList)
      case Some(xs) => Success(Items(xs))
    else
      match ParseScalar(raw)
      case None => Success(Null)
      case Some(s) => Success(Word(s))
  }

  // --- The lines of a block -----------------------------------------------------------

  predicate IsKeyChar(c: char) { IsWord(c) }

  datatype Entry = Entry(key: string, raw: string)

  /** `_KEY_VALUE_RE`. */
  function SplitEntry(line: string): Option<Entry> {
    var n := Span(line, IsKeyChar);
    if n == 0 || IsDigit(line[0]) || n == |line| || line[n] != ':' then None
    else
      var raw := line[n + 1..];
      Some(Entry(line[..n], if raw != "" && (raw[0] == ' ' || raw[0] == '\t') then raw[1..] else raw))
  }

  predicate IsBlank(line: string) { Strip(line) == "" }
  predicate IsIndented(line: string) { line != "" && (line[0] == ' ' || line[0] == '\t') }

  /** One turn of the loop over the lines. */
  function ReadLine(body: Body, line: string): Result<Body, Cause> {
    if IsBlank(line) then Success(body)
    else if IsIndented(line) then Failure(Indented)
    else
      match SplitEntry(line)
      case None => Failure(NotKeyValue)
      case Some(e) =>
        if e.key in body then Failure(DuplicateKey(e.key))
        else
          match ReadValue(e.key, e.raw)
          case Failure(c) => Failure(c)
          case Success(v) => Success(body[e.key := v])
  }

  /** What the first `n` lines of a block read as. */
  function ReadLines(lines: seq<string>, n: nat): Result<Body, HeaderError>
    requires n <= |lines|
  {
    Folded(lines, n, ReadLine, map[])
  }

  function ReadBlock(lines: seq<string>): Result<Body, HeaderError> { ReadLines(lines, |lines|) }

  /** `_parse_front_matter_body`, with line offsets for line numbers. */
  method ParseFrontMatterBody(lines: seq<string>) returns (r: Result<Body, HeaderError>)
    ensures r == ReadBlock(lines)
  {
    r := Fold(lines, ReadLine, map[]);
  }

  // --- The header ---------------------------------------------------------------------

  function StrField(b: Body, key: string): string {
    if key in b && b[key].Word? then b[key].text else ""
  }

  function OptStrField(b: Body, key: string): Option<string> {
    if key in b && b[key].Word? then Some(b[key].text) else None
  }

  function TupleField(b: Body, key: string): seq<string> {
    if key in b && b[key].Items? then b[key].items else []
  }

  function DateField(b: Body, key: string): Option<Date> {
    if key in b && b[key].Day? then Some(b[key].date) else None
  }

  predicate BoolField(b: Body, key: string) { key in b && b[key] == Flag(true) }

  function Extras(b: Body): map<string, string> {
    map key | key in b && key !in KNOWN_KEYS :: if b[key].Word? then b[key].text else ""
  }

  function HeaderOf(b: Body): Header {
    Header(
      OptStrField(b, "id"), StrField(b, "family"), OptStrField(b, "kind"), StrField(b, "title"),
      StrField(b, "status"), DateField(b, "created"), StrField(b, "owner"), OptStrField(b, "phase"),
      OptStrField(b, "work"), OptStrField(b, "slice"), OptStrField(b, "tree"), TupleField(b, "plans"),
      TupleField(b, "supersedes"), OptStrField(b, "superseded_by"), TupleField(b, "corrected_by"),
      OptStrField(b, "corrects"), TupleField(b, "relates"), OptStrField(b, "was"),
      BoolField(b, "vendored"), OptStrField(b, "origin"), Extras(b))
  }

  const FENCE := "---"

  /** `lines.index("---", 1)`. */
  function Closing(lines: seq<string>, from: nat): (r: Option<nat>)
    requires from <= |lines|
    ensures r.Some? ==> from <= r.value < |lines| && lines[r.value] == FENCE
    ensures r.Some? ==> FENCE !in lines[from..r.value]
    ensures r.None? ==> FENCE !in lines[from..]
    decreases |lines| - from
  {
    if from == |lines| then None
    else if lines[from] == FENCE then Some(from)
    else Closing(lines, from + 1)
  }

  /** `parse_header_text`: no header, a header, or the error at its line. */
  function ParseHeader(text: string): Result<Option<Header>, HeaderError> {
    var lines := Lines(text);
    if lines == [] || lines[0] != FENCE then Success(None)
    else
      match Closing(lines, 1)
      case None => Failure(Stop(1, Unterminated))
      case Some(c) =>
        match ReadBlock(lines[1..c])
        case Failure(e) => Failure(Stop(e.line + 2, e.cause))
        case Success(b) => Success(Some(HeaderOf(b)))
  }
}
