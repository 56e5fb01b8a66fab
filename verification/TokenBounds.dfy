/**
 When a token matches, said on the characters around it, and that it is then rewritten: at the
 end of a sentence, before a comma or in brackets as much as alone.
 */
module TokenBounds {
  import opened Text
  import opened TokenSubstitution
  import opened Wrappers

  // --- The two sides ------------------------------------------------------------------

  /** What may stand in front: an escaped line wrap, or no word character and no field hyphen. */
  ghost predicate FreeInFront(before: string) {
    || before == "" || before == "-"
    || (exists head :: before == head + "\\n")
    || (exists head, c :: before == head + [c] && !IsWord(c) && c != '-')
    || (exists head, c :: before == head + [c] + "-" && !IsUpper(c) && !IsDigit(c))
  }

  /** What may stand behind: nothing, a separator, or a hyphen or slash that no digit follows. */
  ghost predicate FreeBehind(after: string) {
    || after == "" || after == "-" || after == "/"
    || (exists c, tail :: after == [c] + tail && !IsWord(c) && c != '-' && c != '/')
    || (exists c, d, tail :: after == [c, d] + tail && (c == '-' || c == '/') && !IsDigit(d))
  }

  lemma LeftSideExactly(before: string)
    ensures LeftBound(before) <==> FreeInFront(before)
  {
    var k := |before|;
    if k >= 1 {
      assert before == before[..k - 1] + [before[k - 1]];
    }
    if k >= 2 {
      assert before == before[..k - 2] + [before[k - 2]] + [before[k - 1]];
      assert before == before[..k - 2] + [before[k - 2], before[k - 1]];
    }
  }

  /** What may stand behind a token: behind any other last character than a word's, a word must start. */
  ghost predicate EndsFree(t: string, after: string)
    requires t != ""
  {
    if IsWord(t[|t| - 1]) then FreeBehind(after) else exists c, tail :: after == [c] + tail && IsWord(c)
  }

  lemma RightSideExactly(t: string, after: string)
    requires t != ""
    ensures RightBound(t[|t| - 1], after) <==> EndsFree(t, after)
  {
    if after != "" {
      assert after == [after[0]] + after[1..];
    }
    if |after| >= 2 {
      assert after == [after[0], after[1]] + after[2..];
    }
  }

  // --- The whole substitution ---------------------------------------------------------

  /** The token stands here between two such sides. */
  ghost predicate Stands(before: string, rest: string, t: string) {
    t != "" && t <= rest && FreeInFront(before) && EndsFree(t, rest[|t|..])
  }

  /** The longest token of the table that stands here. */
  ghost predicate LongestHere(before: string, rest: string, w: Rewrite, t: string) {
    && t in w.image && Stands(before, rest, t)
    && forall s | s in w.image && Stands(before, rest, s) :: |s| <= |t|
  }

  /**
   From left to right the longest token that stands at a place is replaced, and the reading goes on
   behind it; where none stands the character stays.
   */
  ghost predicate RewrittenTo(before: string, rest: string, w: Rewrite, out: string)
    requires "" !in w.image
    decreases |rest|
  {
    if rest == "" then out == ""
    else if exists s :: s in w.image && Stands(before, rest, s) then
      exists t, tail :: LongestHere(before, rest, w, t)
        && out == w.image[t] + tail && RewrittenTo(before + t, rest[|t|..], w, tail)
    else out != "" && out[0] == rest[0] && RewrittenTo(before + [rest[0]], rest[1..], w, out[1..])
  }

  lemma StandingMatches(before: string, rest: string, t: string)
    ensures Matches(before, rest, t) <==> Stands(before, rest, t)
  {
    if t != "" && t <= rest {
      assert rest == t + rest[|t|..];
      MatchesExactly(before, t, rest[|t|..]);
    }
  }

  lemma PickIsLongest(before: string, rest: string, w: Rewrite)
    requires WellOrdered(w) && LongestFirst(w.order)
    ensures match Pick(before, rest, w.order)
      case None => forall s | s in w.image :: !Stands(before, rest, s)
      case Some(t) => LongestHere(before, rest, w, t)
  {
    forall s | s in w.image ensures Matches(before, rest, s) <==> Stands(before, rest, s) {
      StandingMatches(before, rest, s);
    }
    LongestIsTaken(before, rest, w.order);
  }

  lemma OneLongest(before: string, rest: string, w: Rewrite, s: string, t: string)
    requires LongestHere(before, rest, w, s) && LongestHere(before, rest, w, t)
    ensures s == t
  {
    assert s == rest[..|s|] && t == rest[..|t|];
  }

  lemma HeadOfJoined(c: char, tail: string, out: string)
    ensures [c] + tail == out <==> out != "" && out[0] == c && tail == out[1..]
  {
    if out != "" && out[0] == c {
      assert out == [c] + out[1..];
    }
  }

  lemma TokenRewritten(before: string, rest: string, w: Rewrite, t: string, out: string)
    requires "" !in w.image && rest != "" && LongestHere(before, rest, w, t)
    ensures RewrittenTo(before, rest, w, out) <==>
      exists tail :: out == w.image[t] + tail && RewrittenTo(before + t, rest[|t|..], w, tail)
  {
    forall s | LongestHere(before, rest, w, s) ensures s == t {
      OneLongest(before, rest, w, s, t);
    }
  }

  /** What the substitution makes of a text is this rewriting, and nothing else is. */
  lemma {:induction false} SubstituteExactly(before: string, rest: string, w: Rewrite, out: string)
    requires WellOrdered(w) && LongestFirst(w.order)
    ensures Substitute(before, rest, w) == out <==> RewrittenTo(before, rest, w, out)
    decreases |rest|
  {
    if rest != "" {
      PickIsLongest(before, rest, w);
      match Pick(before, rest, w.order)
      case None =>
        HeadOfJoined(rest[0], Substitute(before + [rest[0]], rest[1..], w), out);
        if out != "" {
          SubstituteExactly(before + [rest[0]], rest[1..], w, out[1..]);
        }
      case Some(t) =>
        TokenRewritten(before, rest, w, t, out);
        var later := Substitute(before + t, rest[|t|..], w);
        forall tail ensures RewrittenTo(before + t, rest[|t|..], w, tail) <==> later == tail {
          SubstituteExactly(before + t, rest[|t|..], w, tail);
        }
    }
  }

  // --- A match, and what becomes of it ------------------------------------------------

  /** A token matches exactly between two such sides. */
  lemma MatchesExactly(before: string, t: string, after: string)
    requires t != ""
    ensures Matches(before, t + after, t) <==> FreeInFront(before) && EndsFree(t, after)
  {
    assert (t + after)[|t|..] == after;
    LeftSideExactly(before);
    RightSideExactly(t, after);
  }

  /** No longer token of the table stands here. */
  ghost predicate NoneLonger(w: Rewrite, t: string, after: string) {
    forall s, more | s in w.image && |s| > |t| && t + after == s + more :: !FreeBehind(more)
  }

  lemma LongerDoesNotMatch(before: string, w: Rewrite, t: string, after: string, s: string)
    requires RewritesTokens(w) && NoneLonger(w, t, after) && s in w.image && |s| > |t|
    ensures !Matches(before, t + after, s)
  {
    if s <= t + after {
      var more := (t + after)[|s|..];
      assert t + after == s + more;
      MatchesExactly(before, s, more);
    }
  }

  lemma PicksTheLongest(before: string, t: string, after: string, w: Rewrite)
    requires RewritesTokens(w) && LongestFirst(w.order) && t in w.image
    requires FreeInFront(before) && FreeBehind(after) && NoneLonger(w, t, after)
    ensures Pick(before, t + after, w.order) == Some(t)
  {
    var rest := t + after;
    assert t in w.order;
    MatchesExactly(before, t, after);
    LongestIsTaken(before, rest, w.order);
    var s := Pick(before, rest, w.order).value;
    if |s| > |t| {
      LongerDoesNotMatch(before, w, t, after, s);
    }
    assert s == rest[..|s|] && t == rest[..|t|];
  }

  /** The longest token of the table that stands between two such sides is replaced. */
  lemma ReplacedWhereItStands(before: string, t: string, after: string, w: Rewrite)
    requires RewritesTokens(w) && LongestFirst(w.order) && t in w.image
    requires FreeInFront(before) && FreeBehind(after) && NoneLonger(w, t, after)
    ensures Substitute(before, t + after, w) == w.image[t] + Substitute(before + t, after, w)
  {
    PicksTheLongest(before, t, after, w);
    assert (t + after)[|t|..] == after;
  }

  /** No token matches from within the first `k` characters. */
  ghost predicate Untouched(before: string, rest: string, w: Rewrite, k: nat)
    requires k <= |rest|
  {
    forall i, s | 0 <= i < k && s in w.image :: !Matches(before + rest[..i], rest[i..], s)
  }

  lemma UntouchedFurther(before: string, rest: string, w: Rewrite, k: nat)
    requires 0 < k <= |rest| && Untouched(before, rest, w, k)
    ensures Untouched(before + [rest[0]], rest[1..], w, k - 1)
  {
    forall i, s | 0 <= i < k - 1 && s in w.image
      ensures !Matches(before + [rest[0]] + rest[1..][..i], rest[1..][i..], s)
    {
      assert before + [rest[0]] + rest[1..][..i] == before + rest[..i + 1];
      assert rest[1..][i..] == rest[i + 1..];
    }
  }

  lemma OneCopied(before: string, rest: string, w: Rewrite, k: nat)
    requires WellOrdered(w) && 0 < k <= |rest| && Untouched(before, rest, w, k)
    ensures Substitute(before, rest, w) == [rest[0]] + Substitute(before + [rest[0]], rest[1..], w)
  {
    assert before + rest[..0] == before && rest[0..] == rest;
    forall s | s in w.order ensures !Matches(before, rest, s) {
      assert !Matches(before + rest[..0], rest[0..], s);
    }
  }

  lemma OneFurther(before: string, rest: string, k: nat)
    requires 0 < k <= |rest|
    ensures before + [rest[0]] + rest[1..][..k - 1] == before + rest[..k]
    ensures rest[1..][k - 1..] == rest[k..] && [rest[0]] + rest[1..][..k - 1] == rest[..k]
  {}

  /** Up to the first match the text stays as it is. */
  lemma {:induction false} CopiedUpTo(before: string, rest: string, w: Rewrite, k: nat)
    requires WellOrdered(w) && k <= |rest| && Untouched(before, rest, w, k)
    ensures Substitute(before, rest, w) == rest[..k] + Substitute(before + rest[..k], rest[k..], w)
    decreases k
  {
    if k == 0 {
      assert before + rest[..0] == before && rest[0..] == rest;
    } else {
      OneCopied(before, rest, w, k);
      UntouchedFurther(before, rest, w, k);
      CopiedUpTo(before + [rest[0]], rest[1..], w, k - 1);
      OneFurther(before, rest, k);
    }
  }

  lemma FrontAndRest(front: string, rest: string)
    ensures (front + rest)[..|front|] == front && (front + rest)[|front|..] == rest && "" + front == front
  {}

  lemma Associates(a: string, b: string, c: string)
    ensures a + (b + c) == a + b + c
  {}

  /** The first token of a text is replaced, and the text in front of it stays. */
  lemma FirstTokenReplaced(front: string, t: string, after: string, w: Rewrite)
    requires RewritesTokens(w) && LongestFirst(w.order) && t in w.image
    requires FreeInFront(front) && FreeBehind(after) && NoneLonger(w, t, after)
    requires Untouched("", front + (t + after), w, |front|)
    ensures Substitute("", front + (t + after), w) == front + w.image[t] + Substitute(front + t, after, w)
  {
    CopiedUpTo("", front + (t + after), w, |front|);
    FrontAndRest(front, t + after);
    ReplacedWhereItStands(front, t, after, w);
    Associates(front, w.image[t], Substitute(front + t, after, w));
  }

  lemma SentenceUntouched(t: string, w: Rewrite)
    requires RewritesIdentifiers(w) && t in w.image
    ensures Untouched("", "see " + (t + "."), w, 4)
  {
    var text := "see " + (t + ".");
    forall i, s | 0 <= i < 4 && s in w.image ensures !Matches("" + text[..i], text[i..], s) {
      assert IsIdentifier(s);
      if s <= text[i..] {
        BlankInside(text, s, i);
      }
    }
  }

  lemma CharacterOf(text: string, s: string, i: nat, j: nat)
    requires i <= |text| && j < |s|
    ensures s <= text[i..] ==> i + j < |text| && s[j] == text[i + j]
  {}

  /** An identifier has no blank, and ends in a digit. */
  lemma BlankInside(text: string, s: string, i: nat)
    requires IsIdentifier(s) && i < 4 <= |text| && text[..4] == "see "
    ensures !(s <= text[i..])
  {
    assert text[0] == 's' && text[1] == 'e' && text[2] == 'e' && text[3] == ' ';
    CharacterOf(text, s, i, if |s| > 3 - i then 3 - i else |s| - 1);
  }

  lemma IdentifiersAreTokens(w: Rewrite)
    requires RewritesIdentifiers(w)
    ensures RewritesTokens(w)
  {
    forall s | s in w.image ensures IsToken(s) && IsToken(w.image[s]) {
      IdentifierIsToken(s);
      IdentifierIsToken(w.image[s]);
    }
  }

  lemma BlankAndFullStop()
    ensures FreeInFront("see ") && FreeBehind(".")
  {
    assert "see " == "see" + [' '] && "." == ['.'] + "";
  }

  lemma LongerEndsInFullStop(t: string, s: string, more: string)
    requires t + "." == s + more && |s| > |t|
    ensures s[|s| - 1] == '.'
  {
    assert (s + more)[|s| - 1] == s[|s| - 1];
  }

  lemma NeverToFullStop(t: string, s: string, more: string)
    requires IsIdentifier(s) && |s| > |t|
    ensures t + "." != s + more
  {
    if t + "." == s + more {
      LongerEndsInFullStop(t, s, more);
    }
  }

  lemma NoneLongerAtFullStop(t: string, w: Rewrite)
    requires RewritesIdentifiers(w)
    ensures NoneLonger(w, t, ".")
  {
    forall s, more | s in w.image && |s| > |t| { NeverToFullStop(t, s, more); }
  }

  /** An identifier at the end of a sentence is replaced, and the full stop stays. */
  lemma SentenceFinalIdentifier(t: string, w: Rewrite)
    requires RewritesIdentifiers(w) && LongestFirst(w.order) && t in w.image
    ensures Substitute("", "see " + (t + "."), w) == "see " + w.image[t] + "."
  {
    IdentifiersAreTokens(w);
    SentenceUntouched(t, w);
    BlankAndFullStop();
    NoneLongerAtFullStop(t, w);
    FirstTokenReplaced("see ", t, ".", w);
    FullStopStays("see " + t, w);
  }

  lemma FullStopStays(before: string, w: Rewrite)
    requires RewritesTokens(w)
    ensures Substitute(before, ".", w) == "."
  {
    assert forall s | s in w.image :: |s| >= 2;
    assert Pick(before, ".", w.order).None?;
    assert "."[1..] == "";
  }
}
