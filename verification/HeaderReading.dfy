/**
 What a whole text says about its header: which texts open a block, which blocks read as which
 header, and where and why a text is refused. Comments behind the fields change nothing.
 */
module HeaderReading {
  import opened LineFold
  import opened Text
  import opened TextLaws
  import opened Wrappers
  import opened HeaderGrammar
  import opened HeaderValues
  import opened HeaderDocuments
  import opened HeaderTexts

  // --- Blocks -------------------------------------------------------------------------

  /** The first `n` lines, one after the other, make this dict. */
  ghost predicate ReadsTo(block: seq<string>, n: nat, b: Body)
    requires n <= |block|
  {
    if n == 0 then b == map[]
    else exists before {:trigger ReadsTo(block, n - 1, before)} ::
      ReadsTo(block, n - 1, before) && Adds(before, block[n - 1], b)
  }

  lemma {:induction false} ReadsToExactly(block: seq<string>, n: nat, b: Body)
    requires n <= |block|
    ensures ReadLines(block, n) == Success(b) <==> ReadsTo(block, n, b)
  {
    if n > 0 {
      forall before {:trigger ReadsTo(block, n - 1, before)}
        ensures ReadLines(block, n - 1) == Success(before) <==> ReadsTo(block, n - 1, before)
        ensures ReadLine(before, block[n - 1]) == Success(b) <==> Adds(before, block[n - 1], b)
      {
        ReadsToExactly(block, n - 1, before);
        LineReadExactly(before, block[n - 1], b);
      }
      match ReadLines(block, n - 1)
      case Failure(_) =>
      case Success(before) => assert ReadsTo(block, n - 1, before);
    }
  }

  /** Line `i` of a block is the first one refused, for `cause`. */
  ghost predicate StopsAt(block: seq<string>, i: nat, cause: Cause) {
    i < |block| && exists b :: ReadsTo(block, i, b) && Refuses(b, block[i], cause)
  }

  lemma BlockFails(block: seq<string>, i: nat, cause: Cause)
    ensures ReadBlock(block) == Failure(Stop(i, cause)) <==>
      i < |block| && ReadLines(block, i).Success? && ReadLine(ReadLines(block, i).value, block[i]) == Failure(cause)
  {
    StoppedExactly(block, |block|, ReadLine, map[], i, cause);
  }

  lemma BlockStopsExactly(block: seq<string>, i: nat, cause: Cause)
    ensures ReadBlock(block) == Failure(Stop(i, cause)) <==> StopsAt(block, i, cause)
  {
    BlockFails(block, i, cause);
    if i < |block| {
      forall b {:trigger ReadsTo(block, i, b)}
        ensures ReadLines(block, i) == Success(b) <==> ReadsTo(block, i, b)
        ensures ReadLine(b, block[i]) == Failure(cause) <==> Refuses(b, block[i], cause)
      {
        ReadsToExactly(block, i, b);
        LineRefusedExactly(b, block[i], cause);
      }
      match ReadLines(block, i)
      case Failure(_) =>
      case Success(b) => assert ReadsTo(block, i, b);
    }
  }

  // --- Headers ------------------------------------------------------------------------

  /** The text opens with a fence, and the block runs to the next one. */
  ghost predicate OpensBlock(text: string, block: seq<string>) {
    FENCE !in block && exists rest :: Unlines(text, [FENCE] + block + [FENCE] + rest)
  }

  /** The text opens with a fence and holds no other one. */
  ghost predicate Unclosed(text: string) {
    exists more :: FENCE !in more && Unlines(text, [FENCE] + more)
  }

  /** The text starts with a fence line. */
  predicate Opens(text: string) { text == "---" || "---\n" <= text }

  lemma FrontIsFence(text: string)
    requires Lines(text) != [] && Lines(text)[0] == FENCE
    ensures Opens(text)
  {
    ReadAreLines(text);
    FrontLine(Lines(text), text);
  }

  lemma OpensExactly(text: string)
    ensures Opens(text) <==> Lines(text) != [] && Lines(text)[0] == FENCE
  {
    if text == "---" {
      OneLine(text);
    } else if "---\n" <= text {
      AfterFront(text, FENCE);
    }
    if Lines(text) != [] && Lines(text)[0] == FENCE {
      FrontIsFence(text);
    }
  }

  lemma ClosingBlock(lines: seq<string>, block: seq<string>)
    requires lines != [] && lines[0] == FENCE
    ensures (FENCE !in block && exists rest :: lines == [FENCE] + block + [FENCE] + rest) <==>
      Closing(lines, 1).Some? && lines[1..Closing(lines, 1).value] == block
  {
    if FENCE !in block {
      if rest :| lines == [FENCE] + block + [FENCE] + rest {
        ClosingFound(block, rest);
      }
    }
    match Closing(lines, 1)
    case None =>
    case Some(c) =>
      if lines[1..c] == block {
        assert lines == [FENCE] + block + [FENCE] + lines[c + 1..];
      }
  }

  lemma OpensBlockExactly(text: string, block: seq<string>)
    ensures OpensBlock(text, block) <==>
      Opens(text) && Closing(Lines(text), 1).Some? && Lines(text)[1..Closing(Lines(text), 1).value] == block
  {
    OpensExactly(text);
    ReadAreLines(text);
    if Opens(text) {
      ClosingBlock(Lines(text), block);
    }
    if FENCE !in block {
      if rest :| Unlines(text, [FENCE] + block + [FENCE] + rest) {
        LinesAreRead(text, [FENCE] + block + [FENCE] + rest);
      }
    }
  }

  lemma UnclosedExactly(text: string)
    ensures Unclosed(text) <==> Opens(text) && Closing(Lines(text), 1).None?
  {
    OpensExactly(text);
    ReadAreLines(text);
    if more :| FENCE !in more && Unlines(text, [FENCE] + more) {
      LinesAreRead(text, [FENCE] + more);
    }
    if Opens(text) && Closing(Lines(text), 1).None? {
      assert Lines(text) == [FENCE] + Lines(text)[1..];
    }
  }

  /** A text has no header if and only if its first line is no fence. */
  lemma NoHeaderExactly(text: string)
    ensures ParseHeader(text) == Success(None) <==> !Opens(text)
  {
    OpensExactly(text);
  }

  /** The text opens a block whose line `i` is the first one refused. */
  ghost predicate StopsInBlock(text: string, i: nat, cause: Cause) {
    exists block :: OpensBlock(text, block) && StopsAt(block, i, cause)
  }

  lemma RefusedBlock(text: string, i: nat, cause: Cause)
    ensures StopsInBlock(text, i, cause) <==>
      && Opens(text) && Closing(Lines(text), 1).Some?
      && ReadBlock(Lines(text)[1..Closing(Lines(text), 1).value]) == Failure(Stop(i, cause))
  {
    if block :| OpensBlock(text, block) && StopsAt(block, i, cause) {
      OpensBlockExactly(text, block);
      BlockStopsExactly(block, i, cause);
    }
    if Opens(text) {
      OpensExactly(text);
      match Closing(Lines(text), 1)
      case None =>
      case Some(c) =>
        OpensBlockExactly(text, Lines(text)[1..c]);
        BlockStopsExactly(Lines(text)[1..c], i, cause);
    }
  }

  /** Which texts are refused, at which line (counted from one) and why. */
  lemma HeaderErrorExactly(text: string, line: nat, cause: Cause)
    ensures ParseHeader(text) == Failure(Stop(line, cause)) <==>
      || (line == 1 && cause.Unterminated? && Unclosed(text))
      || (line >= 2 && StopsInBlock(text, line - 2, cause))
  {
    UnclosedExactly(text);
    if line >= 2 {
      RefusedBlock(text, line - 2, cause);
    }
    OpensExactly(text);
    if Opens(text) {
      match Closing(Lines(text), 1)
      case None =>
      case Some(c) => FailureAsRaised(text, c, line, cause);
    }
  }

  lemma FailureAsRaised(text: string, c: nat, line: nat, cause: Cause)
    requires Lines(text) != [] && Lines(text)[0] == FENCE && Closing(Lines(text), 1) == Some(c)
    ensures ParseHeader(text) == Failure(Stop(line, cause)) <==>
      line >= 2 && ReadBlock(Lines(text)[1..c]) == Failure(Stop(line - 2, cause))
  {}

  // --- What the fields of a header say ------------------------------------------------

  /** Every key holds a value of its kind, and no word is empty. */
  ghost predicate OfKind(b: Body) {
    forall key | key in b :: Fits(key, b[key]) && (b[key].Word? ==> b[key].text != "")
  }

  lemma {:induction false} ReadsOfKind(block: seq<string>, n: nat, b: Body)
    requires n <= |block| && ReadsTo(block, n, b)
    ensures OfKind(b)
  {
    if n > 0 {
      var before :| ReadsTo(block, n - 1, before) && Adds(before, block[n - 1], b);
      ReadsOfKind(block, n - 1, before);
    }
  }

  lemma CarriesItsHeader(b: Body)
    requires OfKind(b)
    ensures CarriesHeader(b, HeaderOf(b))
  {
    CarriesItsNames(b, HeaderOf(b));
    CarriesItsPlaces(b, HeaderOf(b));
    CarriesItsLinks(b, HeaderOf(b));
    CarriesItsExtra(b);
  }

  lemma OptCarried(b: Body, key: string)
    requires OfKind(b) && Fits(key, Null) && key != "created"
    ensures Carries(b, key, OptValue(OptStrField(b, key)))
  {}

  lemma TextCarried(b: Body, key: string)
    requires OfKind(b) && Fits(key, Null) && key != "created"
    ensures Carries(b, key, TextValue(StrField(b, key)))
  {}

  lemma ListCarried(b: Body, key: string)
    requires OfKind(b) && key in LIST_FIELDS
    ensures Carries(b, key, Items(TupleField(b, key)))
  {
    assert Fits(key, Items([])) && !Fits(key, Null);
  }

  lemma CarriesItsNames(b: Body, h: Header)
    requires OfKind(b) && h == HeaderOf(b)
    ensures CarriesNames(b, h)
  {
    OptCarried(b, "id");
    OptCarried(b, "kind");
    TextCarried(b, "family");
    TextCarried(b, "title");
    TextCarried(b, "status");
    TextCarried(b, "owner");
  }

  lemma CarriesItsPlaces(b: Body, h: Header)
    requires OfKind(b) && h == HeaderOf(b)
    ensures CarriesPlaces(b, h)
  {
    OptCarried(b, "phase");
    OptCarried(b, "work");
    OptCarried(b, "slice");
    OptCarried(b, "tree");
    OptCarried(b, "was");
    OptCarried(b, "origin");
  }

  lemma CarriesItsLinks(b: Body, h: Header)
    requires OfKind(b) && h == HeaderOf(b)
    ensures CarriesLinks(b, h)
  {
    ListCarried(b, "plans");
    ListCarried(b, "supersedes");
    ListCarried(b, "corrected_by");
    ListCarried(b, "relates");
    OptCarried(b, "superseded_by");
    OptCarried(b, "corrects");
  }

  lemma CarriesItsExtra(b: Body)
    requires OfKind(b)
    ensures CarriesExtra(b, Extras(b))
  {}

  /** The header a dict carries, and no other. */
  lemma CarriedExactly(b: Body, h: Header)
    requires OfKind(b)
    ensures HeaderOf(b) == h <==> CarriesHeader(b, h)
  {
    CarriesItsHeader(b);
    if CarriesHeader(b, h) {
      CarriedHeader(b, h);
    }
  }

  /** A block reads as a header: its lines, one after the other, make a dict that carries it. */
  ghost predicate ReadsAsHeader(block: seq<string>, h: Header) {
    exists b :: ReadsTo(block, |block|, b) && CarriesHeader(b, h)
  }

  lemma BlockHeader(block: seq<string>, h: Header)
    ensures ReadsAsHeader(block, h) <==> ReadBlock(block).Success? && HeaderOf(ReadBlock(block).value) == h
  {
    if b :| ReadsTo(block, |block|, b) && CarriesHeader(b, h) {
      ReadsToExactly(block, |block|, b);
      CarriedHeader(b, h);
    }
    match ReadBlock(block)
    case Failure(_) =>
    case Success(b) =>
      ReadsToExactly(block, |block|, b);
      ReadsOfKind(block, |block|, b);
      CarriedExactly(b, h);
  }

  /** Which text has which header: the whole parser, on the characters of the text. */
  lemma HeaderReadExactly(text: string, h: Header)
    ensures ParseHeader(text) == Success(Some(h)) <==>
      exists block :: OpensBlock(text, block) && ReadsAsHeader(block, h)
  {
    OpensExactly(text);
    if block :| OpensBlock(text, block) && ReadsAsHeader(block, h) {
      OpensBlockExactly(text, block);
      BlockHeader(block, h);
    }
    if Opens(text) {
      match Closing(Lines(text), 1)
      case None =>
      case Some(c) =>
        OpensBlockExactly(text, Lines(text)[1..c]);
        BlockHeader(Lines(text)[1..c], h);
    }
  }

  // --- Headers with comments ----------------------------------------------------------

  /** Nothing, or blanks and a comment, on one line. */
  ghost predicate IsTail(tail: string) {
    '\n' !in tail && (tail == "" || exists u, c :: Blanks(u) && tail == u + " #" + c)
  }

  ghost predicate Tailed(fields: seq<Field>, tails: seq<string>) {
    |tails| == |fields| && forall i | 0 <= i < |tails| :: IsTail(tails[i])
  }

  /** The fields, each with what stands behind it. */
  function PrintTailed(fields: seq<Field>, tails: seq<string>): (lines: seq<string>)
    requires |tails| == |fields|
    ensures |lines| == |fields|
    ensures forall i | 0 <= i < |lines| :: lines[i] == PrintField(fields[i]) + tails[i]
  {
    seq(|fields|, i requires 0 <= i < |fields| => PrintField(fields[i]) + tails[i])
  }

  lemma NothingBehind(s: string)
    ensures s + "" == s
  {}

  lemma Regrouping(s: string, u: string, c: string)
    ensures s + (u + " #" + c) == s + u + " #" + c
  {}

  lemma ValueBeforeTail(key: string, v: Value, tail: string)
    requires Fits(key, v) && Plain(v) && IsTail(tail)
    ensures ReadValue(key, PrintValue(v) + tail) == Success(v)
  {
    if tail == "" {
      NothingBehind(PrintValue(v));
      ValueRoundTrip(key, v);
    } else {
      var u, c :| Blanks(u) && tail == u + " #" + c;
      CommentedValueRoundTrip(key, v, u, c);
      Regrouping(PrintValue(v), u, c);
    }
  }

  lemma TailedLine(f: Field, tail: string)
    requires IsKey(f.key)
    ensures Written(PrintField(f) + tail, f.key, PrintValue(f.value) + tail)
  {
    assert PrintField(f) + tail == f.key + ": " + (PrintValue(f.value) + tail);
  }

  lemma TailedFieldAdds(b: Body, f: Field, tail: string)
    requires Writable(f) && f.key !in b && IsTail(tail)
    ensures Adds(b, PrintField(f) + tail, b[f.key := f.value])
  {
    TailedLine(f, tail);
    ValueBeforeTail(f.key, f.value, tail);
    ValueReadExactly(f.key, PrintValue(f.value) + tail, f.value);
  }

  /** Each line takes one state to the next. */
  ghost predicate AddsAlong(block: seq<string>, state: nat -> Body) {
    forall k: nat {:trigger block[k]} | k < |block| :: Adds(state(k), block[k], state(k + 1))
  }

  lemma NextTailedAdds(fields: seq<Field>, tails: seq<string>, k: nat)
    requires AllWritable(fields) && Tailed(fields, tails) && k < |fields|
    ensures Adds(BodyAfter(fields)(k), PrintTailed(fields, tails)[k], BodyAfter(fields)(k + 1))
  {
    NextKeyIsNew(fields, k);
    TailedFieldAdds(BodyOf(fields, k), fields[k], tails[k]);
  }

  lemma TailedFieldsAdd(fields: seq<Field>, tails: seq<string>)
    requires AllWritable(fields) && Tailed(fields, tails)
    ensures AddsAlong(PrintTailed(fields, tails), BodyAfter(fields))
  {
    forall k: nat | k < |fields| { NextTailedAdds(fields, tails, k); }
  }

  lemma {:induction false} ReadsAlong(block: seq<string>, n: nat, state: nat -> Body)
    requires n <= |block| && state(0) == map[] && AddsAlong(block, state)
    ensures ReadsTo(block, n, state(n))
  {
    if n > 0 {
      ReadsAlong(block, n - 1, state);
      assert Adds(state(n - 1), block[n - 1], state(n - 1 + 1));
    }
  }

  lemma AlongFields(block: seq<string>, fields: seq<Field>)
    requires |block| == |fields| && AddsAlong(block, BodyAfter(fields))
    ensures ReadsTo(block, |block|, BodyOf(fields, |fields|))
  {
    ReadsAlong(block, |block|, BodyAfter(fields));
  }

  lemma TailedAreABlock(fields: seq<Field>, tails: seq<string>)
    requires AllWritable(fields) && Tailed(fields, tails)
    ensures IsBlock(PrintTailed(fields, tails))
  {
    var block := PrintTailed(fields, tails);
    forall i | 0 <= i < |block| ensures '\n' !in block[i] && block[i] != FENCE {
      FieldIsOneLine(fields[i]);
      assert block[i][0] == fields[i].key[0] && IsKeyChar(block[i][0]) && FENCE[0] == '-';
    }
  }

  /**
   Written in any field order, with or without its default fields, any comment behind any
   field, and above any body, a header is read back as it was.
   */
  lemma CommentedHeaderRoundTrip(h: Header, fields: seq<Field>, tails: seq<string>, text: string)
    requires AllWritable(fields) && Tailed(fields, tails)
    requires CarriesHeader(BodyOf(fields, |fields|), h)
    ensures ParseHeader(Document(PrintTailed(fields, tails), text)) == Success(Some(h))
  {
    var block := PrintTailed(fields, tails);
    TailedAreABlock(fields, tails);
    TailedFieldsAdd(fields, tails);
    AlongFields(block, fields);
    ReadsToExactly(block, |block|, BodyOf(fields, |fields|));
    HeaderIgnoresBody(block, text);
    CarriedHeader(BodyOf(fields, |fields|), h);
  }
}
