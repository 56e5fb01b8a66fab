/**
 The citation inverse: when the substitution of the new tokens by the old ones gives back
 the text the migration started from, and when it refuses to.
 */
module CitationInverse {
  import opened Text
  import opened TokenSubstitution
  import opened Wrappers

  /** `v` maps every image of `w` back to the token it replaced. */
  ghost predicate Inverts(v: Rewrite, w: Rewrite) {
    && (forall n :: n in v.image <==> exists t :: t in w.image && w.image[t] == n)
    && (forall t | t in w.image :: v.image[w.image[t]] == t)
  }

  predicate IsField(c: char) { IsUpper(c) || IsDigit(c) }

  /** A hyphen after the one token is a field separator exactly when it is after the other. */
  predicate SameEnd(s: string, t: string)
    requires s != "" && t != ""
  {
    IsField(s[|s| - 1]) == IsField(t[|t| - 1])
  }

  /**
   Tables the inverse can work with, identifiers and paths mixed: tokens end alike in both
   directions, and no new token that begins another is bounded there.
   */
  ghost predicate Undoable(w: Rewrite, v: Rewrite) {
    && RewritesTokens(w) && RewritesTokens(v) && Inverts(v, w)
    && (forall t | t in w.image :: SameEnd(t, w.image[t]))
    && (forall m, n | m in v.image && n in v.image :: StopsIn(m, n))
  }

  // --- Contexts that bound tokens alike ----------------------------------------------

  /** Whatever follows, a token may start behind the one exactly when behind the other. */
  ghost predicate Similar(a: string, b: string) {
    LeftBound(a) == LeftBound(b) && forall c: char :: LeftBound(a + [c]) == LeftBound(b + [c])
  }

  lemma SimilarExtends(a: string, b: string, c: char)
    requires Similar(a, b)
    ensures Similar(a + [c], b + [c])
  {
    forall d: char ensures LeftBound(a + [c] + [d]) == LeftBound(b + [c] + [d]) {
      var x, y := a + [c] + [d], b + [c] + [d];
      assert x[|x| - 1] == y[|y| - 1] == d && x[|x| - 2] == y[|y| - 2] == c;
    }
  }

  lemma NotBoundAfterToken(before: string, t: string)
    requires IsToken(t)
    ensures !LeftBound(before + t)
  {
    var text := before + t;
    assert text[|text| - 1] == t[|t| - 1] && text[|text| - 2] == t[|t| - 2];
  }

  lemma BoundAfterTokenAnd(before: string, t: string, c: char)
    requires IsToken(t)
    ensures LeftBound(before + t + [c]) == (!IsWord(c) && !(c == '-' && IsField(t[|t| - 1])))
  {
    var text := before + t + [c];
    assert text[|text| - 1] == c && text[|text| - 2] == t[|t| - 1];
  }

  lemma SimilarAfterTokens(a: string, b: string, s: string, t: string)
    requires IsToken(s) && IsToken(t) && SameEnd(s, t)
    ensures Similar(a + s, b + t)
  {
    NotBoundAfterToken(a, s);
    NotBoundAfterToken(b, t);
    forall c: char ensures LeftBound(a + s + [c]) == LeftBound(b + t + [c]) {
      BoundAfterTokenAnd(a, s, c);
      BoundAfterTokenAnd(b, t, c);
    }
  }

  /** A position inside a token where some text before it could let another start. */
  predicate MayStart(n: string, k: nat)
    requires 0 < k <= |n|
  {
    LeftBound(n[..k]) || (k == 1 && n[0] == 'n')
  }

  lemma StartsInside(before: string, n: string, k: nat)
    requires IsToken(n) && 0 < k < |n| && LeftBound(before + n[..k])
    ensures MayStart(n, k)
  {
    var text := before + n[..k];
    assert text[|text| - 1] == n[k - 1];
    if k >= 2 {
      assert text[|text| - 2] == n[k - 2];
      assert n[..k][k - 1] == n[k - 1] && n[..k][k - 2] == n[k - 2];
    } else {
      assert n[..1] == [n[0]];
    }
  }

  /** Two texts can stand at one place: one begins the other. */
  predicate Fits(s: string, t: string) { s <= t || t <= s }

  lemma PrefixesFit(s: string, t: string, text: string)
    requires s <= text && t <= text
    ensures Fits(s, t)
  {
    assert s == text[..|s|] && t == text[..|t|];
  }

  // --- The text right of a token -----------------------------------------------------

  lemma FirstCharacterStays(before: string, rest: string, w: Rewrite)
    requires RewritesTokens(w) && rest != ""
    requires !LeftBound(before) || !StartsToken(rest[0])
    ensures Substitute(before, rest, w) ==
      [rest[0]] + Substitute(before + [rest[0]], rest[1..], w)
  {}

  /** What follows is empty together, and starts with the same character or a token each. */
  lemma HeadStaysOrIsToken(before: string, rest: string, w: Rewrite)
    requires RewritesTokens(w)
    ensures var out := Substitute(before, rest, w);
      && (out == "" <==> rest == "")
      && (rest != "" ==> out[0] == rest[0] || (StartsToken(out[0]) && StartsToken(rest[0])))
  {}

  /** After a token, the substitution keeps the right-hand boundary as it was. */
  lemma RightBoundKept(before: string, rest: string, w: Rewrite, last: char)
    requires RewritesTokens(w) && IsWord(last)
    requires !LeftBound(before)
    ensures RightBound(last, Substitute(before, rest, w)) == RightBound(last, rest)
  {
    if rest != "" {
      var out := Substitute(before, rest, w);
      FirstCharacterStays(before, rest, w);
      HeadStaysOrIsToken(before + [rest[0]], rest[1..], w);
      assert out[0] == rest[0];
      if |rest| >= 2 {
        assert rest[1..][0] == rest[1];
        assert out[1..] == Substitute(before + [rest[0]], rest[1..], w);
        assert out[1] == out[1..][0];
      }
    }
  }

  // --- Tokens in the rewritten text ---------------------------------------------------

  /** No old token stands right behind a beginning of `n` that its image would continue. */
  ghost predicate NoneContinues(before: string, rest: string, w: Rewrite, n: string) {
    forall k, t | 0 < k < |n| && n[..k] <= rest && t in w.image && Matches(before + n[..k], rest[k..], t) ::
      !Fits(n[k..], w.image[t])
  }

  /** One more character of the token is a copied one. */
  lemma CopyStep(before: string, rest: string, w: Rewrite, n: string, k: nat)
    requires RewritesTokens(w) && k < |n| && n[..k] <= rest && NoneContinues(before, rest, w, n)
    requires k == 0 ==> rest != "" && Pick(before + n[..k], rest[k..], w.order).None?
    requires n[k..] <= Substitute(before + n[..k], rest[k..], w)
    ensures k < |rest| && rest[k] == n[k]
    ensures Substitute(before + n[..k], rest[k..], w) == [n[k]] + Substitute(before + n[..k + 1], rest[k + 1..], w)
  {
    var head, tail := before + n[..k], rest[k..];
    var out := Substitute(head, tail, w);
    assert out[0] == n[k..][0] == n[k];
    assert tail != "";
    match Pick(head, tail, w.order) {
      case None =>
      case Some(t) =>
        PrefixesFit(n[k..], w.image[t], out);
        assert false;
    }
    assert head + [tail[0]] == before + n[..k + 1] && tail[1..] == rest[k + 1..];
  }

  lemma PrefixStep(n: string, k: nat, out: string, more: string)
    requires k < |n| && out == [n[k]] + more && n[k..] <= out
    ensures n[k + 1..] <= more && forall x | more == n[k + 1..] + x :: out == n[k..] + x
  {
    assert n[k..] == [n[k]] + n[k + 1..];
    assert out[1..] == more && n[k..][1..] == n[k + 1..];
  }

  lemma LongerPrefix(n: string, k: nat, rest: string)
    requires k < |n| && n[..k] <= rest && k < |rest| && rest[k] == n[k]
    ensures n[..k + 1] <= rest
  {
    assert n[..k] == rest[..k] && n[..k + 1] == n[..k] + [n[k]] && rest[..k + 1] == rest[..k] + [rest[k]];
  }

  /**
   A token at the head of the rewritten text, where none was placed and none continues its
   beginning, is copied: it stands in the original text too.
   */
  lemma {:induction false} CopiedFromOriginal(before: string, rest: string, w: Rewrite, n: string, k: nat)
    requires RewritesTokens(w) && k <= |n| && n[..k] <= rest && NoneContinues(before, rest, w, n)
    requires k == 0 ==> rest != "" && Pick(before + n[..k], rest[k..], w.order).None?
    requires n[k..] <= Substitute(before + n[..k], rest[k..], w)
    ensures n <= rest
    ensures Substitute(before + n[..k], rest[k..], w) == n[k..] + Substitute(before + n, rest[|n|..], w)
    decreases |n| - k
  {
    if k == |n| {
      assert n[..k] == n && n[k..] == "";
    } else {
      CopyStep(before, rest, w, n, k);
      PrefixStep(n, k, Substitute(before + n[..k], rest[k..], w), Substitute(before + n[..k + 1], rest[k + 1..], w));
      LongerPrefix(n, k, rest);
      CopiedFromOriginal(before, rest, w, n, k + 1);
    }
  }

  /** Where no token is placed or put together, one of the rewritten text matches the original. */
  lemma MatchedInOriginal(before: string, after: string, rest: string, w: Rewrite, n: string)
    requires RewritesTokens(w) && IsToken(n) && NoneContinues(before, rest, w, n)
    requires Similar(before, after)
    requires rest != "" && Pick(before, rest, w.order).None?
    requires Matches(after, Substitute(before, rest, w), n)
    ensures Matches(before, rest, n)
  {
    var out := Substitute(before, rest, w);
    assert n[..0] == "" && before + n[..0] == before && rest[0..] == rest && n[0..] == n;
    CopiedFromOriginal(before, rest, w, n, 0);
    assert out[|n|..] == Substitute(before + n, rest[|n|..], w);
    NotBoundAfterToken(before, n);
    RightBoundKept(before + n, rest[|n|..], w, n[|n| - 1]);
  }

  /** No old token starts inside `n` where it could stand. */
  ghost predicate NoneInside(w: Rewrite, n: string) {
    forall k, t | 0 < k < |n| && t in w.image && MayStart(n, k) :: !Fits(n[k..], t)
  }

  lemma NoPickInside(before: string, rest: string, w: Rewrite, n: string, k: nat)
    requires RewritesTokens(w) && IsToken(n) && NoneInside(w, n) && 0 < k < |n| && n <= rest
    ensures Pick(before + n[..k], rest[k..], w.order).None?
  {
    match Pick(before + n[..k], rest[k..], w.order)
    case None =>
    case Some(t) =>
      assert n[k..] <= rest[k..];
      PrefixesFit(n[k..], t, rest[k..]);
      StartsInside(before, n, k);
  }

  lemma CopiedOn(before: string, rest: string, w: Rewrite, n: string, k: nat)
    requires RewritesTokens(w) && k < |n| && n <= rest
    requires Pick(before + n[..k], rest[k..], w.order).None?
    ensures Substitute(before + n[..k], rest[k..], w) == [n[k]] + Substitute(before + n[..k + 1], rest[k + 1..], w)
  {
    var head, tail := before + n[..k], rest[k..];
    assert tail[0] == rest[k] == n[k];
    assert head + [tail[0]] == before + n[..k + 1] && tail[1..] == rest[k + 1..];
  }

  lemma NoPickUpTo(before: string, rest: string, w: Rewrite, n: string, k: nat)
    requires RewritesTokens(w) && IsToken(n) && NoneInside(w, n) && k < |n| && n <= rest
    requires k == 0 ==> Pick(before, rest, w.order).None?
    ensures Pick(before + n[..k], rest[k..], w.order).None?
  {
    if k == 0 {
      assert before + n[..0] == before && rest[0..] == rest;
    } else {
      NoPickInside(before, rest, w, n, k);
    }
  }

  /** And the other way: a token matching the original, with none placed in it, stays. */
  lemma {:induction false} CopiedToRewritten(before: string, rest: string, w: Rewrite, n: string, k: nat)
    requires RewritesTokens(w) && IsToken(n) && NoneInside(w, n) && k <= |n| && n <= rest
    requires k == 0 ==> Pick(before, rest, w.order).None?
    ensures Substitute(before + n[..k], rest[k..], w) == n[k..] + Substitute(before + n, rest[|n|..], w)
    decreases |n| - k
  {
    if k == |n| {
      assert n[..k] == n && n[k..] == "";
    } else {
      NoPickUpTo(before, rest, w, n, k);
      CopiedOn(before, rest, w, n, k);
      CopiedToRewritten(before, rest, w, n, k + 1);
      assert n[k..] == [n[k]] + n[k + 1..];
    }
  }

  lemma MatchedInRewritten(before: string, after: string, rest: string, w: Rewrite, n: string)
    requires RewritesTokens(w) && IsToken(n) && NoneInside(w, n)
    requires Similar(before, after)
    requires Pick(before, rest, w.order).None?
    requires Matches(before, rest, n)
    ensures Matches(after, Substitute(before, rest, w), n)
  {
    var out := Substitute(before, rest, w);
    assert n[..0] == "" && before + n[..0] == before && rest[0..] == rest && n[0..] == n;
    CopiedToRewritten(before, rest, w, n, 0);
    assert out[|n|..] == Substitute(before + n, rest[|n|..], w);
    NotBoundAfterToken(before, n);
    RightBoundKept(before + n, rest[|n|..], w, n[|n| - 1]);
  }

  /** A placed token matches as a whole where it was placed. */
  lemma PlacedTokenMatches(before: string, after: string, rest: string, w: Rewrite, t: string)
    requires RewritesTokens(w)
    requires Similar(before, after)
    requires Pick(before, rest, w.order) == Some(t)
    ensures Matches(after, Substitute(before, rest, w), w.image[t])
  {
    var n := w.image[t];
    var tail := Substitute(before + t, rest[|t|..], w);
    assert Substitute(before, rest, w) == n + tail;
    assert (n + tail)[|n|..] == tail;
    NotBoundAfterToken(before, t);
    RightBoundKept(before + t, rest[|t|..], w, n[|n| - 1]);
    assert RightBound(n[|n| - 1], rest[|t|..]) == RightBound(t[|t| - 1], rest[|t|..]);
  }

  // --- The inverse undoes the rewrite ------------------------------------------------

  /** Every new token that stands in the text as a whole is also an old one. */
  ghost predicate NewTokensAreOld(before: string, rest: string, w: Rewrite, v: Rewrite) {
    forall i, n | 0 <= i <= |rest| && n in v.image && Matches(before + rest[..i], rest[i..], n) :: n in w.image
  }

  /** Nowhere in the text does an old token continue the beginning of a new one. */
  ghost predicate Unassembled(before: string, rest: string, w: Rewrite, v: Rewrite) {
    forall i, n | 0 <= i <= |rest| && n in v.image :: NoneContinues(before + rest[..i], rest[i..], w, n)
  }

  lemma SplitFurther(before: string, rest: string, k: nat, i: nat)
    requires k <= |rest| && i <= |rest| - k
    ensures before + rest[..k] + rest[k..][..i] == before + rest[..k + i] && rest[k..][i..] == rest[k + i..]
  {}

  lemma NewTokensAreOldShift(before: string, rest: string, k: nat, w: Rewrite, v: Rewrite)
    requires k <= |rest| && NewTokensAreOld(before, rest, w, v)
    ensures NewTokensAreOld(before + rest[..k], rest[k..], w, v)
  {
    var tail := rest[k..];
    forall i, n | 0 <= i <= |tail| && n in v.image && Matches(before + rest[..k] + tail[..i], tail[i..], n)
      ensures n in w.image
    {
      SplitFurther(before, rest, k, i);
    }
  }

  lemma UnassembledShift(before: string, rest: string, k: nat, w: Rewrite, v: Rewrite)
    requires k <= |rest| && Unassembled(before, rest, w, v)
    ensures Unassembled(before + rest[..k], rest[k..], w, v)
  {
    var tail := rest[k..];
    forall i, n | 0 <= i <= |tail| && n in v.image
      ensures NoneContinues(before + rest[..k] + tail[..i], tail[i..], w, n)
    {
      SplitFurther(before, rest, k, i);
      assert NoneContinues(before + rest[..k + i], rest[k + i..], w, n);
    }
  }

  lemma UnassembledHere(before: string, rest: string, w: Rewrite, v: Rewrite, n: string)
    requires Unassembled(before, rest, w, v) && n in v.image
    ensures NoneContinues(before, rest, w, n)
  {
    assert before + rest[..0] == before && rest[0..] == rest;
    assert NoneContinues(before + rest[..0], rest[0..], w, n);
  }

  /** The first `k` positions are clean, and the rest is: so the whole is. */
  lemma NewTokensAreOldJoin(before: string, rest: string, k: nat, w: Rewrite, v: Rewrite)
    requires k <= |rest| && NewTokensAreOld(before + rest[..k], rest[k..], w, v)
    requires forall i, n | 0 <= i < k && n in v.image && Matches(before + rest[..i], rest[i..], n) :: n in w.image
    ensures NewTokensAreOld(before, rest, w, v)
  {
    forall i, n | 0 <= i <= |rest| && n in v.image && Matches(before + rest[..i], rest[i..], n)
      ensures n in w.image
    {
      if i >= k {
        SplitFurther(before, rest, k, i - k);
      }
    }
  }

  /** A new token that matches is the one the inverse takes. */
  lemma InversePicks(after: string, out: string, w: Rewrite, v: Rewrite, n: string)
    requires Undoable(w, v) && n in v.image && Matches(after, out, n)
    ensures Pick(after, out, v.order) == Some(n)
  {
    match Pick(after, out, v.order)
    case None =>
    case Some(m) => OneTokenMatches(after, out, m, n);
  }

  /** Where a token was placed, the inverse takes the placed token back. */
  lemma TokenTakenBack(before: string, after: string, rest: string, w: Rewrite, v: Rewrite, t: string)
    requires Undoable(w, v) && Similar(before, after)
    requires Pick(before, rest, w.order) == Some(t)
    ensures Substitute(after, Substitute(before, rest, w), v)
         == t + Substitute(after + w.image[t], Substitute(before + t, rest[|t|..], w), v)
    ensures Similar(before + t, after + w.image[t])
  {
    var out := Substitute(before, rest, w);
    var n := w.image[t];
    PlacedTokenMatches(before, after, rest, w, t);
    InversePicks(after, out, w, v, n);
    SimilarAfterTokens(before, after, t, n);
    assert out[|n|..] == Substitute(before + t, rest[|t|..], w);
  }

  lemma NothingMatchesInRewritten(before: string, after: string, rest: string, w: Rewrite, v: Rewrite)
    requires Undoable(w, v) && Similar(before, after) && rest != "" && Unassembled(before, rest, w, v)
    requires Pick(before, rest, w.order).None?
    requires forall n | n in v.image :: !Matches(before, rest, n)
    ensures Pick(after, Substitute(before, rest, w), v.order).None?
  {
    var out := Substitute(before, rest, w);
    match Pick(after, out, v.order)
    case None =>
    case Some(n) =>
      UnassembledHere(before, rest, w, v, n);
      MatchedInOriginal(before, after, rest, w, n);
      assert false;
  }

  /** Where nothing matches in either direction, one character is copied twice. */
  lemma CharacterCopied(before: string, after: string, rest: string, w: Rewrite, v: Rewrite)
    requires Undoable(w, v) && Similar(before, after) && rest != "" && Unassembled(before, rest, w, v)
    requires Pick(before, rest, w.order).None?
    requires forall n | n in v.image :: !Matches(before, rest, n)
    ensures Substitute(after, Substitute(before, rest, w), v)
         == [rest[0]] + Substitute(after + [rest[0]], Substitute(before + [rest[0]], rest[1..], w), v)
    ensures Similar(before + [rest[0]], after + [rest[0]])
  {
    var out := Substitute(before, rest, w);
    NothingMatchesInRewritten(before, after, rest, w, v);
    SimilarExtends(before, after, rest[0]);
    assert out[1..] == Substitute(before + [rest[0]], rest[1..], w);
  }

  /** In a clean text no new token stands where no old one does. */
  lemma CleanHere(before: string, rest: string, w: Rewrite, v: Rewrite)
    requires Undoable(w, v) && NewTokensAreOld(before, rest, w, v)
    requires Pick(before, rest, w.order).None?
    ensures forall n | n in v.image :: !Matches(before, rest, n)
  {
    assert before + rest[..0] == before && rest[0..] == rest;
    forall n | n in v.image
      ensures !Matches(before, rest, n)
    {
      assert Matches(before + rest[..0], rest[0..], n) ==> n in w.image;
    }
  }

  /**
   The inverse restores a text, whatever tokens the tables mix: every new token in it is an
   old one, and none is put together by the rewrite from a beginning and a placed token.
   */
  lemma {:induction false} InverseRestores(before: string, after: string, rest: string, w: Rewrite, v: Rewrite)
    requires Undoable(w, v) && Similar(before, after)
    requires NewTokensAreOld(before, rest, w, v) && Unassembled(before, rest, w, v)
    ensures Substitute(after, Substitute(before, rest, w), v) == rest
    decreases |rest|
  {
    if rest != "" {
      match Pick(before, rest, w.order) {
        case Some(t) =>
          TokenTakenBack(before, after, rest, w, v, t);
          assert rest[..|t|] == t;
          NewTokensAreOldShift(before, rest, |t|, w, v);
          UnassembledShift(before, rest, |t|, w, v);
          InverseRestores(before + t, after + w.image[t], rest[|t|..], w, v);
        case None =>
          CleanHere(before, rest, w, v);
          CharacterCopied(before, after, rest, w, v);
          assert rest[..1] == [rest[0]];
          NewTokensAreOldShift(before, rest, 1, w, v);
          UnassembledShift(before, rest, 1, w, v);
          InverseRestores(before + [rest[0]], after + [rest[0]], rest[1..], w, v);
      }
    }
  }

  // --- Tables whose tokens keep apart -------------------------------------------------

  /** Where `t` could start inside `s` it does not fit. */
  predicate Apart(s: string, t: string) { forall k | 0 < k < |s| && MayStart(s, k) :: !Fits(s[k..], t) }

  ghost predicate TokenOf(t: string, w: Rewrite, v: Rewrite) { t in w.image || t in v.image }

  /** No token, old or new, starts inside another or is bounded as its beginning. */
  ghost predicate Separate(w: Rewrite, v: Rewrite) {
    forall s, t | TokenOf(s, w, v) && TokenOf(t, w, v) && s != "" :: StopsIn(s, t) && Apart(s, t)
  }

  ghost predicate IsMigration(w: Rewrite, v: Rewrite) { Undoable(w, v) && Separate(w, v) }

  lemma NothingContinues(before: string, rest: string, w: Rewrite, v: Rewrite, n: string)
    requires IsMigration(w, v) && n in v.image
    ensures NoneContinues(before, rest, w, n) && NoneInside(w, n)
  {
    forall k, t | 0 < k < |n| && n[..k] <= rest && t in w.image && Matches(before + n[..k], rest[k..], t)
      ensures !Fits(n[k..], w.image[t])
    {
      StartsInside(before, n, k);
      assert TokenOf(n, w, v) && TokenOf(w.image[t], w, v);
      assert Apart(n, w.image[t]);
    }
    forall k, t | 0 < k < |n| && t in w.image && MayStart(n, k) ensures !Fits(n[k..], t) {
      assert TokenOf(n, w, v) && TokenOf(t, w, v);
      assert Apart(n, t);
    }
  }

  /** Of such a table nothing is put together, in any text. */
  lemma SeparateIsUnassembled(before: string, rest: string, w: Rewrite, v: Rewrite)
    requires IsMigration(w, v)
    ensures Unassembled(before, rest, w, v)
  {
    forall i, n | 0 <= i <= |rest| && n in v.image
      ensures NoneContinues(before + rest[..i], rest[i..], w, n)
    {
      NothingContinues(before + rest[..i], rest[i..], w, v, n);
    }
  }

  lemma MatchesAtHead(before: string, token: string, after: string)
    requires token != "" && LeftBound(before) && RightBound(token[|token| - 1], after)
    ensures Matches(before, token + after, token)
  {
    assert (token + after)[|token|..] == after;
  }

  /** A new token that is no old one, left in the text, is turned into something else. */
  lemma StrayTokenIsRewritten(before: string, after: string, rest: string, w: Rewrite, v: Rewrite, n: string)
    requires IsMigration(w, v) && Similar(before, after)
    requires Pick(before, rest, w.order).None?
    requires n in v.image && Matches(before, rest, n)
    ensures Substitute(after, Substitute(before, rest, w), v) != rest
  {
    var out := Substitute(before, rest, w);
    NothingContinues(before, rest, w, v, n);
    MatchedInRewritten(before, after, rest, w, n);
    InversePicks(after, out, w, v, n);
    var o := v.image[n];
    assert o in w.image by {
      var t :| t in w.image && w.image[t] == n;
    }
    var back := Substitute(after + n, out[|n|..], v);
    NotBoundAfterToken(after, n);
    RightBoundKept(after + n, out[|n|..], v, o[|o| - 1]);
    MatchesAtHead(before, o, back);
  }

  lemma NotBoundInside(before: string, rest: string, t: string, n: string, i: nat)
    requires IsToken(t) && Apart(t, n) && 0 < i < |t| && t <= rest && n <= rest[i..]
    ensures !LeftBound(before + t[..i])
  {
    assert t[i..] <= rest[i..];
    PrefixesFit(t[i..], n, rest[i..]);
    if LeftBound(before + t[..i]) {
      StartsInside(before, t, i);
    }
  }

  /** Within a placed token no new one matches, and at its start only itself. */
  lemma OnlyTokenInside(before: string, rest: string, w: Rewrite, v: Rewrite, t: string)
    requires IsMigration(w, v) && t in w.image && Matches(before, rest, t)
    ensures forall i, n | 0 <= i < |t| && n in v.image && Matches(before + rest[..i], rest[i..], n) :: n in w.image
  {
    forall i, n | 0 <= i < |t| && n in v.image && Matches(before + rest[..i], rest[i..], n)
      ensures n in w.image
    {
      assert rest[..i] == t[..i];
      assert TokenOf(n, w, v) && TokenOf(t, w, v) && StopsIn(t, n) && StopsIn(n, t) && Apart(t, n);
      if i == 0 {
        assert before + rest[..0] == before && rest[0..] == rest;
        OneTokenMatches(before, rest, n, t);
      } else {
        NotBoundInside(before, rest, t, n, i);
      }
    }
  }

  /** A text the inverse restores is clean. */
  lemma {:induction false} RestoredIsClean(before: string, after: string, rest: string, w: Rewrite, v: Rewrite)
    requires IsMigration(w, v) && Similar(before, after)
    requires Substitute(after, Substitute(before, rest, w), v) == rest
    ensures NewTokensAreOld(before, rest, w, v)
    decreases |rest|
  {
    if rest != "" {
      match Pick(before, rest, w.order) {
        case Some(t) =>
          TokenTakenBack(before, after, rest, w, v, t);
          assert rest[..|t|] == t;
          RestoredIsClean(before + t, after + w.image[t], rest[|t|..], w, v);
          OnlyTokenInside(before, rest, w, v, t);
          NewTokensAreOldJoin(before, rest, |t|, w, v);
        case None =>
          assert rest[..0] == "" && before + "" == before && rest[0..] == rest;
          forall n | n in v.image ensures !Matches(before, rest, n) {
            if Matches(before, rest, n) {
              StrayTokenIsRewritten(before, after, rest, w, v, n);
            }
          }
          SeparateIsUnassembled(before, rest, w, v);
          CharacterCopied(before, after, rest, w, v);
          assert rest[..1] == [rest[0]];
          RestoredIsClean(before + [rest[0]], after + [rest[0]], rest[1..], w, v);
          NewTokensAreOldJoin(before, rest, 1, w, v);
      }
    }
  }

  /**
   The round trip, exactly, for tables whose tokens keep apart: rewriting forward and back
   gives the text again if and only if every new token that stands in it as a whole is itself
   one of the old tokens.
   */
  lemma InverseUndoesRewriteExactly(text: string, w: Rewrite, v: Rewrite)
    requires IsMigration(w, v)
    ensures Substitute("", Substitute("", text, w), v) == text <==> NewTokensAreOld("", text, w, v)
  {
    if NewTokensAreOld("", text, w, v) {
      SeparateIsUnassembled("", text, w, v);
      InverseRestores("", "", text, w, v);
    }
    if Substitute("", Substitute("", text, w), v) == text {
      RestoredIsClean("", "", text, w, v);
    }
  }

  // --- Identifiers keep apart ---------------------------------------------------------

  /** Inside an identifier a token could only start at a digit, which no identifier does. */
  lemma IdentifiersAreApart(s: string, t: string)
    requires IsIdentifier(s) && IsIdentifier(t)
    ensures StopsIn(s, t) && Apart(s, t)
  {
    if s < t {
      ShorterStops(t, s, t);
    }
    forall k | 0 < k < |s| && MayStart(s, k) ensures !Fits(s[k..], t) {
      StartsAtDigit(s, k);
      assert s[k..][0] == s[k];
    }
  }

  lemma StartsAtDigit(n: string, k: nat)
    requires IsIdentifier(n) && 0 < k < |n| && MayStart(n, k)
    ensures IsDigit(n[k])
  {
    var text := n[..k];
    assert text[|text| - 1] == n[k - 1];
    if k >= 2 {
      assert text[|text| - 2] == n[k - 2];
    }
    assert IsAlnum(n[k - 1]) || IsFieldHyphen(n, k - 1);
  }

  /** So a one-to-one table of identifiers is such a table. */
  lemma IdentifiersMigrate(w: Rewrite, v: Rewrite)
    requires RewritesIdentifiers(w) && RewritesIdentifiers(v) && Inverts(v, w)
    ensures IsMigration(w, v)
  {
    forall s, t | TokenOf(s, w, v) && TokenOf(t, w, v) ensures IsToken(s) && StopsIn(s, t) && Apart(s, t) {
      IdentifierIsToken(s);
      IdentifiersAreApart(s, t);
    }
    forall t | t in w.image ensures SameEnd(t, w.image[t]) {
      assert IsIdentifier(t) && IsIdentifier(w.image[t]);
    }
  }

  // --- And so can paths beside them ---------------------------------------------------

  /** Where a token may start inside `s` there is a character that `t` does not start with. */
  lemma ApartByHeads(s: string, t: string)
    requires t != "" && forall k | 0 < k < |s| && MayStart(s, k) :: s[k] != t[0]
    ensures Apart(s, t)
  {
    forall k | 0 < k < |s| && MayStart(s, k) ensures !Fits(s[k..], t) {
      assert s[k..][0] == s[k];
    }
  }

  const FORWARD := Rewrite(["d/a.md", "NT-1"], map["d/a.md" := "d/x.md", "NT-1" := "PL-9"])
  const BACKWARD := Rewrite(["d/x.md", "PL-9"], map["d/x.md" := "d/a.md", "PL-9" := "NT-1"])

  lemma PathHeads(s: string, k: nat)
    requires s == "d/a.md" || s == "d/x.md"
    requires 0 < k < |s| && MayStart(s, k)
    ensures s[k] == 'a' || s[k] == 'x' || s[k] == 'm'
  {
    assert s[..k][|s[..k]| - 1] == s[k - 1];
  }

  predicate Listed(s: string) { s == "d/a.md" || s == "d/x.md" || s == "NT-1" || s == "PL-9" }

  lemma ListedApart(s: string, t: string)
    requires Listed(s) && Listed(t)
    ensures IsToken(s) && StopsIn(s, t) && Apart(s, t)
  {
    if s == "d/a.md" || s == "d/x.md" {
      forall k | 0 < k < |s| && MayStart(s, k) { PathHeads(s, k); }
      ApartByHeads(s, t);
    } else {
      assert IsIdentifier(s);
      forall k | 0 < k < |s| && MayStart(s, k) { StartsAtDigit(s, k); }
      ApartByHeads(s, t);
    }
  }

  lemma MixedEntries()
    ensures forall s :: s in FORWARD.image <==> s == "d/a.md" || s == "NT-1"
    ensures forall s :: s in BACKWARD.image <==> s == "d/x.md" || s == "PL-9"
    ensures FORWARD.image["d/a.md"] == "d/x.md" && FORWARD.image["NT-1"] == "PL-9"
    ensures BACKWARD.image["d/x.md"] == "d/a.md" && BACKWARD.image["PL-9"] == "NT-1"
    ensures WellOrdered(FORWARD) && WellOrdered(BACKWARD)
  {
    assert "d/a.md" != "NT-1" && "d/x.md" != "PL-9";
  }

  lemma MixedInverts()
    ensures Inverts(BACKWARD, FORWARD)
  {
    MixedEntries();
    forall n ensures n in BACKWARD.image <==> exists t :: t in FORWARD.image && FORWARD.image[t] == n {
      assert FORWARD.image["d/a.md"] == "d/x.md" && FORWARD.image["NT-1"] == "PL-9";
    }
  }

  lemma MixedEnds(s: string, t: string)
    requires Listed(s) && Listed(t)
    ensures s[|s| - 1] == 'd' || s[|s| - 1] == '1' || s[|s| - 1] == '9'
    ensures (s[|s| - 1] == 'd') == (t[|t| - 1] == 'd') ==> SameEnd(s, t)
  {}

  lemma MixedPair(t: string)
    requires t in FORWARD.image
    ensures Listed(t) && Listed(FORWARD.image[t]) && SameEnd(t, FORWARD.image[t])
  {
    MixedEntries();
    if t == "d/a.md" {
      MixedEnds(t, "d/x.md");
    } else {
      MixedEnds(t, "PL-9");
    }
  }

  lemma MixedTokens()
    ensures RewritesTokens(FORWARD) && RewritesTokens(BACKWARD)
  {
    MixedEntries();
    forall t | t in FORWARD.image ensures IsToken(t) && IsToken(FORWARD.image[t]) {
      MixedPair(t);
      ListedApart(t, FORWARD.image[t]);
      ListedApart(FORWARD.image[t], t);
    }
    forall n | n in BACKWARD.image ensures IsToken(n) && IsToken(BACKWARD.image[n]) {
      ListedApart(n, BACKWARD.image[n]);
      ListedApart(BACKWARD.image[n], n);
    }
  }

  lemma MixedUndoable()
    ensures Undoable(FORWARD, BACKWARD)
  {
    MixedTokens();
    MixedInverts();
    forall t | t in FORWARD.image { MixedPair(t); }
    MixedEntries();
    forall m, n | m in BACKWARD.image && n in BACKWARD.image { ListedApart(m, n); }
  }

  /** A table with a path beside an identifier whose tokens keep apart. */
  lemma MixedTableMigrates()
    ensures IsMigration(FORWARD, BACKWARD)
  {
    MixedEntries();
    MixedUndoable();
    forall s, t | TokenOf(s, FORWARD, BACKWARD) && TokenOf(t, FORWARD, BACKWARD)
      ensures StopsIn(s, t) && Apart(s, t)
    {
      ListedApart(s, t);
    }
  }
}
