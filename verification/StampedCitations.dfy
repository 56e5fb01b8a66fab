/**
 The migration's own allowance on frozen files: a file passes when stripping this run's
 header stamp and inverting the token rewrite gives back the merge-base text.
 */
module StampedCitations {
  import opened Text
  import opened Wrappers
  import opened HeaderGrammar
  import opened HeaderDocuments
  import opened TokenSubstitution
  import opened CitationInverse

  predicate IsNewline(c: char) { c == '\n' }

  /** What one run wrote: the ids it allocated and the paths it stamped without an id. */
  datatype Run = Run(newIds: set<string>, referencePaths: set<string>)

  /** `_this_runs_stamp_id`. */
  function ThisRunsStampId(text: string, run: Run, rel: Option<string>): Option<string> {
    var lines := Lines(text);
    if lines == [] || lines[0] != FENCE then None
    else
      match ParseHeader(text)
      case Failure(_) => None
      case Success(None) => None
      case Success(Some(h)) =>
        if h.id.Some? then (if h.id.value in run.newIds then h.id else None)
        else if rel.Some? && rel.value in run.referencePaths then Some("")
        else None
  }

  /** The text without its leading block, when that block is this run's stamp. */
  function StripStamp(text: string, run: Run, rel: Option<string>): string {
    if ThisRunsStampId(text, run, rel).None? then text
    else
      var lines := Lines(text);
      var closing := Closing(lines, 1).value;
      JoinWith(lines[closing + 1..], '\n')
  }

  /** `frozen_file_matches_after_migration_stamp`, for an inverse in longest-first order. */
  predicate MatchesAfterStamp(before: string, after: string, inverse: Rewrite, run: Run,
                              oldRel: Option<string>, newRel: Option<string>)
    requires WellOrdered(inverse) && LongestFirst(inverse.order)
  {
    var oldStripped := StripStamp(before, run, oldRel);
    var stripped := StripStamp(after, run, newRel);
    if inverse.image == map[] then Trim(stripped, IsNewline) == Trim(oldStripped, IsNewline)
    else Trim(Substitute("", stripped, inverse), IsNewline) == Trim(oldStripped, IsNewline)
  }

  // --- Newlines around a text ---------------------------------------------------------

  predicate AllNewlines(s: string) { AllDropped(s, IsNewline) }

  lemma NewlineNeverInside(t: string)
    requires IsToken(t)
    ensures '\n' !in t
  {}

  lemma LeftBoundAfterNewlines(nl: string, before: string)
    requires AllNewlines(nl)
    ensures LeftBound(nl + before) == LeftBound(before)
  {
    var s := nl + before;
    if before != "" {
      assert s[|s| - 1] == before[|before| - 1];
      if |before| >= 2 {
        assert s[|s| - 2] == before[|before| - 2];
      }
    }
  }

  lemma PickAfterNewlines(nl: string, before: string, rest: string, order: seq<string>)
    requires AllNewlines(nl)
    ensures Pick(nl + before, rest, order) == Pick(before, rest, order)
  {
    LeftBoundAfterNewlines(nl, before);
    if order != [] {
      PickAfterNewlines(nl, before, rest, order[1..]);
    }
  }

  /** Newlines further to the left do not change what is substituted. */
  lemma {:induction false} SubstituteAfterNewlines(nl: string, before: string, rest: string, w: Rewrite)
    requires WellOrdered(w) && AllNewlines(nl)
    ensures Substitute(nl + before, rest, w) == Substitute(before, rest, w)
    decreases |rest|
  {
    if rest != "" {
      PickAfterNewlines(nl, before, rest, w.order);
      match Pick(before, rest, w.order) {
        case None =>
          assert nl + before + [rest[0]] == nl + (before + [rest[0]]);
          SubstituteAfterNewlines(nl, before + [rest[0]], rest[1..], w);
        case Some(t) =>
          assert nl + before + t == nl + (before + t);
          SubstituteAfterNewlines(nl, before + t, rest[|t|..], w);
      }
    }
  }

  lemma NoTokenAtNewline(before: string, rest: string, w: Rewrite)
    requires RewritesTokens(w) && rest != "" && rest[0] == '\n'
    ensures Pick(before, rest, w.order).None?
  {
    match Pick(before, rest, w.order)
    case None =>
    case Some(t) =>
      assert false;
  }

  lemma {:induction false} NewlinesStay(before: string, nl: string, w: Rewrite)
    requires RewritesTokens(w) && AllNewlines(nl)
    ensures Substitute(before, nl, w) == nl
    decreases |nl|
  {
    if nl != "" {
      NoTokenAtNewline(before, nl, w);
      NewlinesStay(before + [nl[0]], nl[1..], w);
    }
  }

  lemma NewlineCopied(before: string, rest: string, w: Rewrite)
    requires RewritesTokens(w) && rest != "" && rest[0] == '\n'
    ensures Substitute(before, rest, w) == ['\n'] + Substitute(before + ['\n'], rest[1..], w)
  {
    NoTokenAtNewline(before, rest, w);
  }

  lemma FirstNewline(nl: string, rest: string)
    requires AllNewlines(nl) && nl != ""
    ensures nl + rest != "" && (nl + rest)[0] == '\n' && (nl + rest)[1..] == nl[1..] + rest
    ensures AllNewlines(nl[1..]) && ['\n'] + nl[1..] == nl
  {}

  /** Newlines in front are copied. */
  lemma {:induction false} NewlinesInFront(nl: string, done: string, rest: string, w: Rewrite)
    requires RewritesTokens(w) && AllNewlines(nl) && AllNewlines(done)
    ensures Substitute(done, nl + rest, w) == nl + Substitute("", rest, w)
    decreases |nl|
  {
    var text := nl + rest;
    if nl == "" {
      assert text == rest && done + "" == done;
      SubstituteAfterNewlines(done, "", rest, w);
    } else {
      FirstNewline(nl, rest);
      NewlineCopied(done, text, w);
      NewlinesInFront(nl[1..], done + ['\n'], rest, w);
    }
  }

  /** A text and the same text with newlines behind it start with the same tokens. */
  lemma PrefixOfPadded(t: string, rest: string, nl: string)
    requires AllNewlines(nl)
    ensures t <= rest + nl ==> t <= rest || '\n' in t
  {
    var text := rest + nl;
    if t <= text {
      if |t| > |rest| {
        assert t[|rest|] == text[|rest|] == '\n';
      } else {
        assert t == rest[..|t|];
      }
    }
  }

  /** A text and the same text with newlines after it offer the same tokens. */
  lemma MatchesBeforeNewlines(before: string, rest: string, nl: string, t: string)
    requires IsToken(t) && AllNewlines(nl) && rest != ""
    ensures Matches(before, rest + nl, t) <==> Matches(before, rest, t)
  {
    var text := rest + nl;
    NewlineNeverInside(t);
    PrefixOfPadded(t, rest, nl);
    if t <= rest {
      assert text[|t|..] == rest[|t|..] + nl;
      assert t == text[..|t|];
    }
  }

  lemma PickBeforeNewlines(before: string, rest: string, nl: string, w: Rewrite)
    requires RewritesTokens(w) && AllNewlines(nl) && rest != ""
    ensures Pick(before, rest + nl, w.order) == Pick(before, rest, w.order)
  {
    forall t | t in w.order ensures Matches(before, rest + nl, t) <==> Matches(before, rest, t) {
      MatchesBeforeNewlines(before, rest, nl, t);
    }
    SamePicks(before, rest + nl, before, rest, w.order);
  }

  lemma TailWithNewlines(rest: string, nl: string, k: nat)
    requires k <= |rest|
    ensures (rest + nl)[k..] == rest[k..] + nl && (0 < |rest| ==> (rest + nl)[0] == rest[0])
  {}

  /** Newlines after a text are copied. */
  lemma {:induction false} NewlinesBehind(before: string, rest: string, nl: string, w: Rewrite)
    requires RewritesTokens(w) && AllNewlines(nl)
    ensures Substitute(before, rest + nl, w) == Substitute(before, rest, w) + nl
    decreases |rest|
  {
    if rest == "" {
      assert rest + nl == nl;
      NewlinesStay(before, nl, w);
    } else {
      PickBeforeNewlines(before, rest, nl, w);
      match Pick(before, rest, w.order) {
        case None =>
          TailWithNewlines(rest, nl, 1);
          NewlinesBehind(before + [rest[0]], rest[1..], nl, w);
        case Some(t) =>
          TailWithNewlines(rest, nl, |t|);
          NewlinesBehind(before + t, rest[|t|..], nl, w);
      }
    }
  }

  /** Outer newlines pass through a substitution. */
  lemma OuterNewlines(front: string, core: string, back: string, w: Rewrite)
    requires RewritesTokens(w) && AllNewlines(front) && AllNewlines(back)
    ensures Substitute("", front + core + back, w) == front + Substitute("", core, w) + back
  {
    NewlinesBehind("", front + core, back, w);
    NewlinesInFront(front, "", core, w);
  }

  /** A text without outer newlines stays one. */
  lemma {:induction false} LastStaysNoNewline(before: string, rest: string, w: Rewrite)
    requires RewritesTokens(w) && rest != "" && rest[|rest| - 1] != '\n'
    ensures var out := Substitute(before, rest, w); out != "" && out[|out| - 1] != '\n'
    decreases |rest|
  {
    match Pick(before, rest, w.order) {
      case None =>
        if |rest| > 1 {
          LastStaysNoNewline(before + [rest[0]], rest[1..], w);
        } else {
          assert rest[1..] == "";
        }
      case Some(t) =>
        var n := w.image[t];
        assert IsToken(n) && IsWord(n[|n| - 1]);
        if |t| < |rest| {
          LastStaysNoNewline(before + t, rest[|t|..], w);
        } else {
          assert rest[|t|..] == "";
        }
    }
  }

  lemma CoreStaysTrimmed(core: string, w: Rewrite)
    requires RewritesTokens(w) && Trimmed(core, IsNewline)
    ensures Trimmed(Substitute("", core, w), IsNewline)
    ensures Substitute("", core, w) == "" <==> core == ""
  {
    if core != "" {
      HeadStaysOrIsToken("", core, w);
      LastStaysNoNewline("", core, w);
    }
  }

  // --- The stamp ----------------------------------------------------------------------

  /** A block this run stamps: it parses, and its id is new or its path one stamped without. */
  ghost predicate IsStamp(block: seq<string>, run: Run, rel: Option<string>) {
    && IsBlock(block) && ReadBlock(block).Success?
    && match OptStrField(ReadBlock(block).value, "id")
       case Some(id) => id in run.newIds
       case None => rel.Some? && rel.value in run.referencePaths
  }

  /** `"\n".join(text.splitlines())`: the text without its last newline. */
  function WithoutLastNewline(text: string): string {
    if text != "" && text[|text| - 1] == '\n' then text[..|text| - 1] else text
  }

  lemma JoinCons(line: string, more: seq<string>, c: char)
    requires more != []
    ensures JoinWith([line] + more, c) == line + [c] + JoinWith(more, c)
  {
    assert ([line] + more)[1..] == more;
  }

  lemma LastNewlineCons(line: string, rest: string)
    ensures rest != "" ==> WithoutLastNewline(line + ['\n'] + rest) == line + ['\n'] + WithoutLastNewline(rest)
    ensures rest == "" ==> WithoutLastNewline(line + ['\n'] + rest) == line
  {
    var text := line + ['\n'] + rest;
    if rest != "" {
      assert text[|text| - 1] == rest[|rest| - 1];
    }
  }

  lemma LastNewlineNone(text: string)
    requires '\n' !in text
    ensures WithoutLastNewline(text) == text
  {}

  /** Joining the lines of a text gives the text, but for its last newline. */
  lemma {:induction false} JoinedLines(text: string)
    ensures JoinWith(Lines(text), '\n') == WithoutLastNewline(text)
    ensures Lines(text) == [] <==> text == ""
    decreases |text|
  {
    if text != "" {
      var n := Span(text, NotNewline);
      if n < |text| {
        var line, rest := text[..n], text[n + 1..];
        JoinedLines(rest);
        assert text == line + ['\n'] + rest;
        LastNewlineCons(line, rest);
        if rest != "" {
          JoinCons(line, Lines(rest), '\n');
        }
      } else {
        LastNewlineNone(text);
      }
    }
  }

  /** The stamp is what is stripped: the body under it comes back, but for its last newline. */
  lemma StampIsStripped(block: seq<string>, text: string, run: Run, rel: Option<string>)
    requires IsBlock(block)
    ensures StripStamp(Document(block, text), run, rel)
         == if IsStamp(block, run, rel) then WithoutLastNewline(text) else Document(block, text)
  {
    var doc := Document(block, text);
    var lines := [FENCE] + block + [FENCE] + Lines(text);
    DocumentLines(block, text);
    ClosingFound(block, Lines(text));
    HeaderIgnoresBody(block, text);
    assert lines[|block| + 1 + 1..] == Lines(text);
    JoinedLines(text);
  }

  // --- Which rewrites are accepted ----------------------------------------------------

  /** Losing the last newline leaves a text the same between its outer newlines. */
  lemma LastNewlineIsOuter(front: string, mid: string, back: string) returns (f: string, b: string)
    requires AllNewlines(front) && AllNewlines(back) && Trimmed(mid, IsNewline)
    ensures AllNewlines(f) && AllNewlines(b)
    ensures WithoutLastNewline(front + mid + back) == f + mid + b
  {
    var s := front + mid + back;
    f, b := front, back;
    if back != "" {
      assert s[|s| - 1] == back[|back| - 1];
      b := back[..|back| - 1];
    } else if mid != "" {
      assert s[|s| - 1] == mid[|mid| - 1];
    } else if front != "" {
      assert s == front;
      f := front[..|front| - 1];
    }
  }

  lemma {:induction false} EmptyRewrite(before: string, rest: string, w: Rewrite)
    requires WellOrdered(w) && w.image == map[]
    ensures Substitute(before, rest, w) == rest
    decreases |rest|
  {
    if rest != "" {
      EmptyRewrite(before + [rest[0]], rest[1..], w);
    }
  }

  /** Both branches of the comparison are one: an empty inverse substitutes nothing. */
  lemma MatchesIsOneRule(before: string, after: string, inverse: Rewrite, run: Run,
                         oldRel: Option<string>, newRel: Option<string>)
    requires WellOrdered(inverse) && LongestFirst(inverse.order)
    ensures MatchesAfterStamp(before, after, inverse, run, oldRel, newRel) <==>
      Trim(Substitute("", StripStamp(after, run, newRel), inverse), IsNewline)
        == Trim(StripStamp(before, run, oldRel), IsNewline)
  {
    if inverse.image == map[] {
      EmptyRewrite("", StripStamp(after, run, newRel), inverse);
    }
  }

  /** Comparing up to outer newlines decides whether the inverse gives the text itself back. */
  lemma TrimmedComparison(text: string, w: Rewrite, v: Rewrite)
    requires RewritesTokens(w) && RewritesTokens(v)
    ensures Trim(Substitute("", WithoutLastNewline(Substitute("", text, w)), v), IsNewline) == Trim(text, IsNewline)
      <==> Substitute("", Substitute("", text, w), v) == text
  {
    var front, core, back := TrimParts(text, IsNewline);
    var mid := Substitute("", core, w);
    var again := Substitute("", mid, v);
    OuterNewlines(front, core, back, w);
    CoreStaysTrimmed(core, w);
    CoreStaysTrimmed(mid, v);
    var f, b := LastNewlineIsOuter(front, mid, back);
    OuterNewlines(f, mid, b, v);
    TrimPadded(f, again, b, IsNewline);
    OuterNewlines(front, mid, back, v);
    SameBetween(front, again, core, back);
  }

  lemma SameBetween(front: string, x: string, y: string, back: string)
    ensures front + x + back == front + y + back <==> x == y
  {
    var a, b := front + x + back, front + y + back;
    if a == b {
      assert x == a[|front|..|a| - |back|];
      assert y == b[|front|..|b| - |back|];
    }
  }

  /**
   A frozen file that this run stamped and whose citations it rewrote is accepted if and
   only if every new token that stood in it as a whole identifier is also an old token.
   */
  lemma StampedRewriteAcceptedExactly(before: string, block: seq<string>, w: Rewrite, v: Rewrite, run: Run,
                                      oldRel: Option<string>, newRel: Option<string>)
    requires IsMigration(w, v) && LongestFirst(v.order)
    requires IsStamp(block, run, newRel)
    ensures var text := StripStamp(before, run, oldRel);
      MatchesAfterStamp(before, Document(block, Substitute("", text, w)), v, run, oldRel, newRel) <==>
        NewTokensAreOld("", text, w, v)
  {
    var text := StripStamp(before, run, oldRel);
    var after := Document(block, Substitute("", text, w));
    MatchesIsOneRule(before, after, v, run, oldRel, newRel);
    StampIsStripped(block, Substitute("", text, w), run, newRel);
    TrimmedComparison(text, w, v);
    InverseUndoesRewriteExactly(text, w, v);
  }

  /**
   Whatever tokens the tables mix: such a file is accepted when every new token that stood in
   it is also an old one and none is put together from a beginning and a placed token.
   */
  lemma MixedRewriteAccepted(before: string, block: seq<string>, w: Rewrite, v: Rewrite, run: Run,
                             oldRel: Option<string>, newRel: Option<string>)
    requires Undoable(w, v) && LongestFirst(v.order)
    requires IsStamp(block, run, newRel)
    requires var text := StripStamp(before, run, oldRel);
      NewTokensAreOld("", text, w, v) && Unassembled("", text, w, v)
    ensures var text := StripStamp(before, run, oldRel);
      MatchesAfterStamp(before, Document(block, Substitute("", text, w)), v, run, oldRel, newRel)
  {
    var text := StripStamp(before, run, oldRel);
    MatchesIsOneRule(before, Document(block, Substitute("", text, w)), v, run, oldRel, newRel);
    StampIsStripped(block, Substitute("", text, w), run, newRel);
    TrimmedComparison(text, w, v);
    InverseRestores("", "", text, w, v);
  }

  /** With no whole match of a redirect token left, only an unchanged text passes. */
  lemma UnmatchedTextMustBeUnchanged(before: string, after: string, inverse: Rewrite, run: Run,
                                     oldRel: Option<string>, newRel: Option<string>)
    requires WellOrdered(inverse) && LongestFirst(inverse.order)
    requires NoMatch("", StripStamp(after, run, newRel), inverse)
    ensures MatchesAfterStamp(before, after, inverse, run, oldRel, newRel) <==>
      Trim(StripStamp(after, run, newRel), IsNewline) == Trim(StripStamp(before, run, oldRel), IsNewline)
  {
    NoMatchNoChange("", StripStamp(after, run, newRel), inverse);
  }

  /** The order in which equally long tokens are tried never matters. */
  lemma VerdictIsOrderFree(before: string, after: string, v: Rewrite, u: Rewrite, run: Run,
                           oldRel: Option<string>, newRel: Option<string>)
    requires WellOrdered(v) && WellOrdered(u) && v.image == u.image
    requires LongestFirst(v.order) && LongestFirst(u.order)
    ensures MatchesAfterStamp(before, after, v, run, oldRel, newRel)
        <==> MatchesAfterStamp(before, after, u, run, oldRel, newRel)
  {
    LongestFirstIsOrderFree("", StripStamp(after, run, newRel), v, u);
  }
}
