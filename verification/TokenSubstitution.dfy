/**
 Whole-identifier substitution: the bounded single-pass rewrite both directions of the
 migration use. A position is given by what stands before it and the rest of the text.
 */
module TokenSubstitution {
  import opened Text
  import opened Wrappers

  predicate IsLetter(c: char) { IsUpper(c) || IsLower(c) }

  /** `TOKEN_LEFT_BOUND`: after an escaped line wrap, or not inside a longer identifier. */
  predicate LeftBound(before: string) {
    var k := |before|;
    || (k >= 2 && before[k - 1] == 'n' && before[k - 2] == '\\')
    || ( && !(k >= 1 && IsWord(before[k - 1]))
         && !(k >= 2 && before[k - 1] == '-' && (IsUpper(before[k - 2]) || IsDigit(before[k - 2]))))
  }

  /** `\b(?![-/][0-9])` between a last token character and the text after it. */
  predicate RightBound(last: char, after: string) {
    && IsWord(last) != (after != "" && IsWord(after[0]))
    && !(|after| >= 2 && (after[0] == '-' || after[0] == '/') && IsDigit(after[1]))
  }

  predicate Matches(before: string, rest: string, token: string) {
    && token != "" && token <= rest
    && LeftBound(before)
    && RightBound(token[|token| - 1], rest[|token|..])
  }

  /** A rewrite: the tokens in the order the alternation tries them, and their images. */
  datatype Rewrite = Rewrite(order: seq<string>, image: map<string, string>)

  ghost predicate WellOrdered(w: Rewrite) {
    && (forall t :: t in w.order <==> t in w.image)
    && "" !in w.image
  }

  /** The alternative the pattern takes: the first one admissible here. */
  function Pick(before: string, rest: string, order: seq<string>): (t: Option<string>)
    ensures t.Some? ==> t.value in order && Matches(before, rest, t.value)
    ensures t.None? ==> forall s | s in order :: !Matches(before, rest, s)
  {
    if order == [] then None
    else if Matches(before, rest, order[0]) then Some(order[0])
    else Pick(before, rest, order[1..])
  }

  /** `pattern.sub`: left to right, one pass, never inside a replacement. */
  function Substitute(before: string, rest: string, w: Rewrite): string
    requires WellOrdered(w)
    decreases |rest|
  {
    if rest == "" then ""
    else
      match Pick(before, rest, w.order)
      case None => [rest[0]] + Substitute(before + [rest[0]], rest[1..], w)
      case Some(t) => w.image[t] + Substitute(before + t, rest[|t|..], w)
  }

  // --- Alternation order --------------------------------------------------------------

  predicate LongestFirst(order: seq<string>) {
    forall i, j | 0 <= i < j < |order| :: |order[i]| >= |order[j]|
  }

  /** Trying the longest token first takes the longest admissible token. */
  lemma {:induction false} LongestIsTaken(before: string, rest: string, order: seq<string>)
    requires LongestFirst(order)
    ensures match Pick(before, rest, order)
      case None => true
      case Some(t) => forall s | s in order && Matches(before, rest, s) && s != t :: |s| < |t|
  {
    if order != [] {
      if Matches(before, rest, order[0]) {
        var t := order[0];
        forall s | s in order && Matches(before, rest, s) && s != t ensures |s| < |t| {
          var j :| 0 <= j < |order| && order[j] == s;
          assert |order[0]| >= |order[j]|;
          assert s == rest[..|s|] && t == rest[..|t|];
        }
      } else {
        LongestIsTaken(before, rest, order[1..]);
        assert forall s | s in order && s != order[0] :: s in order[1..];
      }
    }
  }

  /** Two longest-first orders of the same tokens take the same alternative everywhere. */
  lemma SamePick(before: string, rest: string, a: seq<string>, b: seq<string>)
    requires LongestFirst(a) && LongestFirst(b)
    requires forall t :: t in a <==> t in b
    ensures Pick(before, rest, a) == Pick(before, rest, b)
  {
    LongestIsTaken(before, rest, a);
    LongestIsTaken(before, rest, b);
  }

  /** So the result of a longest-first substitution depends on the tokens alone. */
  lemma {:induction false} LongestFirstIsOrderFree(before: string, rest: string, w: Rewrite, v: Rewrite)
    requires WellOrdered(w) && WellOrdered(v) && w.image == v.image
    requires LongestFirst(w.order) && LongestFirst(v.order)
    ensures Substitute(before, rest, w) == Substitute(before, rest, v)
    decreases |rest|
  {
    if rest != "" {
      SamePick(before, rest, w.order, v.order);
      match Pick(before, rest, w.order) {
        case None => LongestFirstIsOrderFree(before + [rest[0]], rest[1..], w, v);
        case Some(t) => LongestFirstIsOrderFree(before + t, rest[|t|..], w, v);
      }
    }
  }

  // --- Tokens of a redirect table -----------------------------------------------------

  /** What a token may start with: an identifier a letter, a path a letter or a dot. */
  predicate StartsToken(c: char) { IsLetter(c) || c == '_' || c == '.' }

  /** An identifier or a path: it ends in a word character, and not in an escaped line wrap. */
  predicate IsToken(t: string) {
    && |t| >= 2 && '\n' !in t
    && StartsToken(t[0]) && IsWord(t[|t| - 1])
    && !(t[|t| - 1] == 'n' && t[|t| - 2] == '\\')
  }

  ghost predicate RewritesTokens(w: Rewrite) {
    && WellOrdered(w)
    && forall t | t in w.image :: IsToken(t) && IsToken(w.image[t])
  }

  /** A token that is the beginning of another is not bounded there. */
  predicate StopsIn(s: string, t: string)
    requires s != ""
  {
    s < t ==> !RightBound(s[|s| - 1], t[|s|..])
  }

  /** At most one of two such tokens matches at a position. */
  lemma OneTokenMatches(before: string, rest: string, s: string, t: string)
    requires IsToken(s) && IsToken(t) && StopsIn(s, t) && StopsIn(t, s)
    requires Matches(before, rest, s) && Matches(before, rest, t)
    ensures s == t
  {
    assert s == rest[..|s|] && t == rest[..|t|];
    if |s| < |t| {
      BoundAsInToken(rest, s, t);
    } else if |t| < |s| {
      BoundAsInToken(rest, t, s);
    }
  }

  /** What bounds the beginning of a token in a text bounds it in the token. */
  lemma BoundAsInToken(rest: string, s: string, t: string)
    requires IsToken(s) && IsToken(t) && s <= rest && t <= rest && |s| < |t|
    ensures s < t && (RightBound(s[|s| - 1], rest[|s|..]) ==> RightBound(s[|s| - 1], t[|s|..]))
  {
    var k := |s|;
    assert forall i | 0 <= i < |t| :: t[i] == rest[i];
    assert forall i | 0 <= i < k :: s[i] == rest[i];
    assert rest[k..][0] == t[k..][0];
    if |t| > k + 1 {
      assert rest[k..][1] == t[k..][1];
    }
  }

  lemma {:induction false} SamePicks(a: string, x: string, b: string, y: string, order: seq<string>)
    requires forall t | t in order :: Matches(a, x, t) <==> Matches(b, y, t)
    ensures Pick(a, x, order) == Pick(b, y, order)
  {
    if order != [] {
      assert order[0] in order;
      SamePicks(a, x, b, y, order[1..]);
    }
  }

  // --- Identifier-shaped tokens -------------------------------------------------------

  /** A hyphen separating two fields of one identifier. */
  predicate IsFieldHyphen(t: string, i: nat)
    requires i < |t|
  {
    && t[i] == '-' && 0 < i < |t| - 1
    && ((IsUpper(t[i - 1]) && IsAlnum(t[i + 1])) || (IsAlnum(t[i - 1]) && IsDigit(t[i + 1])))
  }

  /**
   An identifier: it starts with a letter (not `n`, which an escaped line wrap ends in),
   ends with a digit, and its hyphens separate fields.
   */
  predicate IsIdentifier(t: string) {
    && |t| >= 2
    && IsLetter(t[0]) && t[0] != 'n' && IsDigit(t[|t| - 1])
    && forall i | 0 <= i < |t| :: IsAlnum(t[i]) || IsFieldHyphen(t, i)
  }

  /** At most one identifier matches at a position: a prefix never matches with its longer one. */
  lemma OneIdentifierMatches(before: string, rest: string, s: string, t: string)
    requires IsIdentifier(s) && IsIdentifier(t)
    requires Matches(before, rest, s) && Matches(before, rest, t)
    ensures s == t
  {
    if |s| < |t| {
      ShorterStops(rest, s, t);
    } else if |t| < |s| {
      ShorterStops(rest, t, s);
    }
    assert s == rest[..|s|] && t == rest[..|t|];
  }

  lemma ShorterStops(rest: string, s: string, t: string)
    requires IsIdentifier(s) && IsIdentifier(t) && s <= rest && t <= rest && |s| < |t|
    ensures !RightBound(s[|s| - 1], rest[|s|..])
  {
    var k := |s|;
    assert t[k - 1] == s[k - 1] == rest[k - 1];
    assert rest[k..][0] == t[k];
    if t[k] == '-' {
      assert IsFieldHyphen(t, k);
      assert rest[k..][1] == t[k + 1];
    }
  }

  lemma IdentifierIsToken(t: string)
    requires IsIdentifier(t)
    ensures IsToken(t)
  {}

  ghost predicate RewritesIdentifiers(w: Rewrite) {
    && WellOrdered(w)
    && forall t | t in w.image :: IsIdentifier(t) && IsIdentifier(w.image[t])
  }

  lemma PickIs(before: string, rest: string, w: Rewrite, t: string)
    requires RewritesIdentifiers(w)
    ensures Pick(before, rest, w.order) == Some(t) <==> t in w.image && Matches(before, rest, t)
  {
    match Pick(before, rest, w.order)
    case None =>
    case Some(s) =>
      if t in w.image && Matches(before, rest, t) {
        OneIdentifierMatches(before, rest, s, t);
      }
  }

  /** For identifiers every alternation order gives the same text. */
  lemma {:induction false} IdentifiersAreOrderFree(before: string, rest: string, w: Rewrite, v: Rewrite)
    requires RewritesIdentifiers(w) && WellOrdered(v) && w.image == v.image
    ensures Substitute(before, rest, w) == Substitute(before, rest, v)
    decreases |rest|
  {
    if rest != "" {
      match Pick(before, rest, w.order) {
        case None =>
          IdentifiersAreOrderFree(before + [rest[0]], rest[1..], w, v);
        case Some(t) =>
          PickIs(before, rest, v, t);
          IdentifiersAreOrderFree(before + t, rest[|t|..], w, v);
      }
    }
  }

  // --- Texts without a match ----------------------------------------------------------

  /** No token of the rewrite matches anywhere in `rest`. */
  ghost predicate NoMatch(before: string, rest: string, w: Rewrite) {
    forall i, t | 0 <= i <= |rest| && t in w.image :: !Matches(before + rest[..i], rest[i..], t)
  }

  lemma NoMatchTail(before: string, rest: string, w: Rewrite)
    requires NoMatch(before, rest, w) && rest != ""
    ensures NoMatch(before + [rest[0]], rest[1..], w)
  {
    forall i, t | 0 <= i <= |rest| - 1 && t in w.image
      ensures !Matches(before + [rest[0]] + rest[1..][..i], rest[1..][i..], t)
    {
      assert before + [rest[0]] + rest[1..][..i] == before + rest[..i + 1];
      assert rest[1..][i..] == rest[i + 1..];
    }
  }

  /** Such a text comes back unchanged, whatever the tokens look like. */
  lemma {:induction false} NoMatchNoChange(before: string, rest: string, w: Rewrite)
    requires WellOrdered(w) && NoMatch(before, rest, w)
    ensures Substitute(before, rest, w) == rest
    decreases |rest|
  {
    if rest != "" {
      assert rest[..0] == "" && rest[0..] == rest && before + "" == before;
      assert Pick(before, rest, w.order).None? by {
        forall s | s in w.order ensures !Matches(before, rest, s) {
          assert !Matches(before + rest[..0], rest[0..], s);
        }
      }
      NoMatchTail(before, rest, w);
      NoMatchNoChange(before + [rest[0]], rest[1..], w);
    }
  }

  /** A token continued by `-` or `/` and a digit is part of a longer citation. */
  lemma ContinuedTokenNeverMatches(before: string, token: string, after: string)
    requires |after| >= 2 && (after[0] == '-' || after[0] == '/') && IsDigit(after[1])
    ensures !Matches(before, token + after, token)
  {
    if token != "" {
      assert (token + after)[|token|..] == after;
    }
  }
}
