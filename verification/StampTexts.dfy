/**
 Which block the stamp allowance takes off a text, said on the lines of the text: the leading
 one, if its header has an id this run allocated, or none on a path this run stamped.
 */
module StampTexts {
  import opened Text
  import opened TextLaws
  import opened Wrappers
  import HeaderDocuments
  import opened HeaderGrammar
  import opened HeaderReading
  import opened StampedCitations
  import opened TokenBounds
  import opened TokenSubstitution

  /** The header is of this run: its id is one of the new ones, or it has none and the path was stamped. */
  ghost predicate OfThisRun(h: Header, run: Run, rel: Option<string>) {
    match h.id
    case Some(id) => id in run.newIds
    case None => rel.Some? && rel.value in run.referencePaths
  }

  /** The text opens with a block that reads as a header of this run. */
  ghost predicate OpensWithStamp(text: string, block: seq<string>, run: Run, rel: Option<string>) {
    OpensBlock(text, block) && exists h :: ReadsAsHeader(block, h) && OfThisRun(h, run, rel)
  }

  /** What stands below the stamp, its lines joined. */
  ghost predicate StandsBelow(text: string, run: Run, rel: Option<string>, out: string) {
    exists block, rest :: BelowStamp(text, block, rest, run, rel) && out == JoinWith(rest, '\n')
  }

  ghost predicate BelowStamp(text: string, block: seq<string>, rest: seq<string>, run: Run, rel: Option<string>) {
    && Unlines(text, [FENCE] + block + [FENCE] + rest) && FENCE !in block
    && OpensWithStamp(text, block, run, rel)
  }

  lemma StampedHeader(text: string, run: Run, rel: Option<string>) returns (h: Header)
    requires ThisRunsStampId(text, run, rel).Some?
    ensures ParseHeader(text) == Success(Some(h)) && OfThisRun(h, run, rel)
  {
    h := ParseHeader(text).value.value;
  }

  lemma BlockOfHeader(text: string, h: Header) returns (block: seq<string>)
    requires ParseHeader(text) == Success(Some(h))
    ensures OpensBlock(text, block) && ReadsAsHeader(block, h)
  {
    HeaderReadExactly(text, h);
    block :| OpensBlock(text, block) && ReadsAsHeader(block, h);
  }

  lemma StampIsOfThisRun(text: string, run: Run, rel: Option<string>, h: Header)
    requires ParseHeader(text) == Success(Some(h)) && OfThisRun(h, run, rel)
    ensures ThisRunsStampId(text, run, rel).Some?
  {}

  /** A text is stripped exactly when it opens with a stamp of this run. */
  lemma StampedExactly(text: string, run: Run, rel: Option<string>)
    ensures ThisRunsStampId(text, run, rel).Some? <==> exists block :: OpensWithStamp(text, block, run, rel)
  {
    if ThisRunsStampId(text, run, rel).Some? {
      var h := StampedHeader(text, run, rel);
      var block := BlockOfHeader(text, h);
      assert OpensWithStamp(text, block, run, rel);
    }
    if block :| OpensWithStamp(text, block, run, rel) {
      var h :| ReadsAsHeader(block, h) && OfThisRun(h, run, rel);
      HeaderReadExactly(text, h);
      StampIsOfThisRun(text, run, rel, h);
    }
  }

  lemma ClosingOf(text: string, block: seq<string>, rest: seq<string>)
    requires Unlines(text, [FENCE] + block + [FENCE] + rest) && FENCE !in block
    ensures var lines := Lines(text); Closing(lines, 1).Some? && lines[Closing(lines, 1).value + 1..] == rest
  {
    LinesAreRead(text, [FENCE] + block + [FENCE] + rest);
    HeaderDocuments.ClosingFound(block, rest);
  }

  /** This run's stamp goes, with its two fences; any other text stays as it is. */
  ghost predicate StripsTo(text: string, run: Run, rel: Option<string>, out: string) {
    || StandsBelow(text, run, rel, out)
    || (out == text && forall block :: !OpensWithStamp(text, block, run, rel))
  }

  lemma StripExactly(text: string, run: Run, rel: Option<string>, out: string)
    ensures StripStamp(text, run, rel) == out <==> StripsTo(text, run, rel, out)
  {
    StampedExactly(text, run, rel);
    if ThisRunsStampId(text, run, rel).Some? {
      var block :| OpensWithStamp(text, block, run, rel);
      var rest :| Unlines(text, [FENCE] + block + [FENCE] + rest);
      ClosingOf(text, block, rest);
      assert BelowStamp(text, block, rest, run, rel);
    }
    if block, rest :| BelowStamp(text, block, rest, run, rel) && out == JoinWith(rest, '\n') {
      ClosingOf(text, block, rest);
    }
  }

  // --- The allowance ------------------------------------------------------------------

  /** The two texts are one text between newlines. */
  ghost predicate SameInside(a: string, b: string) {
    exists core, u, v, x, y :: Between(a, core, u, v) && Between(b, core, x, y)
  }

  ghost predicate Between(a: string, core: string, u: string, v: string) {
    AllNewlines(u) && AllNewlines(v) && a == u + core + v
  }

  lemma TrimOfBetween(a: string, core: string, u: string, v: string)
    requires Between(a, core, u, v)
    ensures Trim(a, IsNewline) == Trim(core, IsNewline)
  {
    var front, c, back := TrimParts(core, IsNewline);
    assert a == (u + front) + c + (back + v);
    TrimPadded(u + front, c, back + v, IsNewline);
  }

  lemma SameInsideExactly(a: string, b: string)
    ensures SameInside(a, b) <==> Trim(a, IsNewline) == Trim(b, IsNewline)
  {
    if core, u, v, x, y :| Between(a, core, u, v) && Between(b, core, x, y) {
      TrimOfBetween(a, core, u, v);
      TrimOfBetween(b, core, x, y);
    }
    if Trim(a, IsNewline) == Trim(b, IsNewline) {
      var u, c, v := TrimParts(a, IsNewline);
      var x, d, y := TrimParts(b, IsNewline);
      assert Between(a, c, u, v) && Between(b, c, x, y);
    }
  }

  lemma NothingToInvert(text: string, w: Rewrite)
    requires WellOrdered(w) && w.image == map[]
    ensures Substitute("", text, w) == text
  {
    NoMatchNoChange("", text, w);
  }

  /** The texts as the allowance compares them: stamps off, tokens inverted, newlines apart. */
  ghost predicate ComesBack(before: string, after: string, inverse: Rewrite, run: Run,
                            oldRel: Option<string>, newRel: Option<string>)
    requires "" !in inverse.image
  {
    exists a, b, out ::
      StripsTo(before, run, oldRel, a) && StripsTo(after, run, newRel, b) && Inverts(b, a, inverse, out)
  }

  /** `out` is the inverted `b`, and `a` up to outer newlines. */
  ghost predicate Inverts(b: string, a: string, inverse: Rewrite, out: string)
    requires "" !in inverse.image
  {
    RewrittenTo("", b, inverse, out) && SameInside(out, a)
  }

  /** Which files the allowance lets pass, said without any of its operations. */
  lemma AcceptedExactly(before: string, after: string, inverse: Rewrite, run: Run,
                        oldRel: Option<string>, newRel: Option<string>)
    requires WellOrdered(inverse) && LongestFirst(inverse.order)
    ensures MatchesAfterStamp(before, after, inverse, run, oldRel, newRel) <==>
      ComesBack(before, after, inverse, run, oldRel, newRel)
  {
    var a, b := StripStamp(before, run, oldRel), StripStamp(after, run, newRel);
    var out := Substitute("", b, inverse);
    if inverse.image == map[] {
      NothingToInvert(b, inverse);
    }
    StripExactly(before, run, oldRel, a);
    StripExactly(after, run, newRel, b);
    SubstituteExactly("", b, inverse, out);
    SameInsideExactly(out, a);
    assert Inverts(b, a, inverse, out) <==> SameInside(out, a);
    if x, y, z :| StripsTo(before, run, oldRel, x) && StripsTo(after, run, newRel, y) && Inverts(y, x, inverse, z) {
      StripExactly(before, run, oldRel, x);
      StripExactly(after, run, newRel, y);
      SubstituteExactly("", y, inverse, z);
    }
  }
}
