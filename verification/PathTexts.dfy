/**
 Which texts sit in a path, on their characters: the word between two boundaries, with a slash
 in it, or ending in an extension once a line locator is off.
 */
module PathTexts {
  import opened Text
  import opened TextLaws
  import opened PaddedIds

  // --- Line locators ------------------------------------------------------------------

  /** A colon and a number behind `r`, or a colon and a range. */
  ghost predicate Located(token: string, r: string) {
    || (exists d :: IsNumber(d) && token == r + ":" + d)
    || (exists d, e :: IsNumber(d) && IsNumber(e) && token == r + ":" + d + "-" + e)
  }

  lemma {:induction false} DigitsEnd(s: string)
    ensures var m := |s| - DigitsAtEnd(s);
      AllDigits(s[m..]) && (m > 0 ==> !IsDigit(s[m - 1]))
    decreases |s|
  {
    if s != "" && IsDigit(s[|s| - 1]) {
      var init := s[..|s| - 1];
      DigitsEnd(init);
      var m := |s| - DigitsAtEnd(s);
      assert m == |init| - DigitsAtEnd(init);
      assert s[m..] == init[m..] + [s[|s| - 1]];
    }
  }

  lemma {:induction false} DigitsBehind(s: string, d: string)
    requires AllDigits(d) && (s != "" ==> !IsDigit(s[|s| - 1]))
    ensures DigitsAtEnd(s + d) == |d|
    decreases |d|
  {
    var t := s + d;
    if d == "" {
      assert t == s;
    } else {
      assert t[|t| - 1] == d[|d| - 1] && t[..|t| - 1] == s + d[..|d| - 1];
      DigitsBehind(s, d[..|d| - 1]);
    }
  }

  lemma LineOff(r: string, d: string)
    requires IsNumber(d)
    ensures SansLocator(r + ":" + d) == r
  {
    DigitsBehind(r + ":", d);
    assert (r + ":" + d)[..|r|] == r;
  }

  lemma RangeOff(r: string, d: string, e: string)
    requires IsNumber(d) && IsNumber(e)
    ensures SansLocator(r + ":" + d + "-" + e) == r
  {
    var token := r + ":" + d + "-" + e;
    DigitsBehind(r + ":" + d + "-", e);
    var m := |token| - |e|;
    assert token[m - 1] == '-' && token[..m - 1] == r + ":" + d;
    DigitsBehind(r + ":", d);
    assert token[|r|] == ':' && token[..|r|] == r;
  }

  lemma LineFound(token: string, m: nat)
    requires 0 < m < |token| && token[m - 1] == ':' && AllDigits(token[m..])
    ensures Located(token, token[..m - 1])
  {
    assert IsNumber(token[m..]) && token == token[..m - 1] + ":" + token[m..];
  }

  lemma RangeFound(token: string, n: nat, m: nat)
    requires 0 < n < m - 1 && m < |token| && token[n - 1] == ':' && token[m - 1] == '-'
    requires AllDigits(token[n..m - 1]) && AllDigits(token[m..])
    ensures Located(token, token[..n - 1])
  {
    assert IsNumber(token[n..m - 1]) && IsNumber(token[m..]);
    assert token == token[..n - 1] + ":" + token[n..m - 1] + "-" + token[m..];
  }

  lemma TakenOrFound(token: string)
    ensures SansLocator(token) == token || Located(token, SansLocator(token))
  {
    var m := |token| - DigitsAtEnd(token);
    DigitsEnd(token);
    if m < |token| && m > 0 {
      if token[m - 1] == ':' {
        LineFound(token, m);
      } else if token[m - 1] == '-' {
        var front := token[..m - 1];
        var n := m - 1 - DigitsAtEnd(front);
        DigitsEnd(front);
        if n < m - 1 && n > 0 && token[n - 1] == ':' {
          assert front[n..] == token[n..m - 1];
          RangeFound(token, n, m);
        }
      }
    }
  }

  lemma LocatorOff(token: string, r: string)
    requires Located(token, r)
    ensures SansLocator(token) == r && r != token
  {
    if d :| IsNumber(d) && token == r + ":" + d {
      LineOff(r, d);
    } else {
      var d, e :| IsNumber(d) && IsNumber(e) && token == r + ":" + d + "-" + e;
      RangeOff(r, d, e);
    }
  }

  /** Exactly one locator comes off, if one stands at the end. */
  lemma SansLocatorExactly(token: string, r: string)
    ensures SansLocator(token) == r <==> Located(token, r) || (r == token && forall s :: !Located(token, s))
  {
    TakenOrFound(token);
    forall s ensures Located(token, s) ==> SansLocator(token) == s && s != token {
      if Located(token, s) {
        LocatorOff(token, s);
      }
    }
  }

  // --- Paths --------------------------------------------------------------------------

  ghost predicate IsExtension(e: string) { 2 <= |e| <= 4 && forall i | 0 <= i < |e| :: IsAlnum(e[i]) }

  ghost predicate Extended(s: string) { exists stem, e :: IsExtension(e) && s == stem + "." + e }

  lemma EndsExactly(s: string, stem: string, e: string)
    requires s == stem + "." + e && IsExtension(e)
    ensures EndsIn(s, |e|)
  {
    forall i | |s| - |e| <= i < |s| ensures IsAlnum(s[i]) {
      assert s[i] == e[i - |stem| - 1];
    }
  }

  lemma ExtensionFound(s: string, k: nat)
    requires EndsIn(s, k) && 2 <= k <= 4
    ensures Extended(s)
  {
    var e := s[|s| - k..];
    assert IsExtension(e) && s == s[..|s| - k - 1] + "." + e;
  }

  lemma ExtendedExactly(s: string)
    ensures HasExtension(s) <==> Extended(s)
  {
    if stem, e :| IsExtension(e) && s == stem + "." + e {
      EndsExactly(s, stem, e);
    }
    if HasExtension(s) {
      ExtensionFound(s, if EndsIn(s, 2) then 2 else if EndsIn(s, 3) then 3 else 4);
    }
  }

  /** A slash, or an extension with or without a locator behind it. */
  ghost predicate LooksLikePath(token: string) {
    '/' in token || exists r :: Extended(r) && (token == r || Located(token, r))
  }

  lemma PathExactly(token: string)
    ensures IsPath(token) <==> LooksLikePath(token)
  {
    ExtendedExactly(SansLocator(token));
    TakenOrFound(token);
    if r :| Extended(r) && (token == r || Located(token, r)) {
      if Located(token, r) {
        LocatorOff(token, r);
      } else {
        ExtendedHasNoLocator(r);
      }
    }
  }

  /** An extension is no locator: there is no colon among its characters. */
  lemma ExtendedHasNoLocator(s: string)
    requires Extended(s)
    ensures SansLocator(s) == s
  {
    TakenOrFound(s);
    forall r ensures !Located(s, r) {
      if Located(s, r) {
        var stem, e :| IsExtension(e) && s == stem + "." + e;
        if d :| IsNumber(d) && s == r + ":" + d {
          NoNumberAtExtension(r, ":", d, stem, e);
        } else {
          var d, f :| IsNumber(d) && IsNumber(f) && s == r + ":" + d + "-" + f;
          NoNumberAtExtension(r + ":" + d, "-", f, stem, e);
        }
      }
    }
  }

  lemma NoNumberAtExtension(r: string, mark: string, d: string, stem: string, e: string)
    requires IsNumber(d) && IsExtension(e) && (mark == ":" || mark == "-")
    ensures r + mark + d != stem + "." + e
  {
    var s := r + mark + d;
    if s == stem + "." + e {
      SameTail(r, mark, d, stem, e);
    }
  }

  lemma BehindTheMark(r: string, mark: string, d: string, i: nat)
    requires AllDigits(d) && |mark| == 1 && |r| < i < |r + mark + d|
    ensures IsDigit((r + mark + d)[i])
  {
    assert (r + mark + d)[i] == d[i - |r| - 1];
  }

  /** The mark stands among the last characters, where the extension has only letters and digits. */
  lemma SameTail(r: string, mark: string, d: string, stem: string, e: string)
    requires r + mark + d == stem + "." + e && |mark| == 1
    requires AllDigits(d) && forall i | 0 <= i < |e| :: IsAlnum(e[i])
    ensures IsAlnum(mark[0]) || mark[0] == '.'
  {
    var s := r + mark + d;
    if |r| >= |stem| {
      assert s[|r|] == mark[0] && (stem + "." + e)[|r|] == if |r| == |stem| then '.' else e[|r| - |stem| - 1];
    } else {
      BehindTheMark(r, mark, d, |stem|);
    }
  }

  // --- The word around a place --------------------------------------------------------

  /** What ends a word. */
  predicate Breaks(c: char) {
    || IsSpace(c) || c == '`' || c == '(' || c == ')' || c == '[' || c == ']' || c == '{' || c == '}'
    || c == '"' || c == '\'' || c == ',' || c == ';'
  }

  predicate Unbroken(s: string) { forall i | 0 <= i < |s| :: !Breaks(s[i]) }

  lemma BreaksExactly(c: char)
    ensures IsBoundary(c) <==> Breaks(c)
  {
    var marks := "`()[]{}\"',;";
    assert marks[0] == '`' && marks[1] == '(' && marks[2] == ')' && marks[3] == '[' && marks[4] == ']';
    assert marks[5] == '{' && marks[6] == '}' && marks[7] == '"' && marks[8] == '\'' && marks[9] == ',';
    assert marks[10] == ';' && |marks| == 11;
  }

  /** `left` is the longest unbroken end of `before`, and `right` the longest unbroken start of `after`. */
  ghost predicate LeftWord(before: string, left: string) {
    Unbroken(left) && exists x :: before == x + left && (x != "" ==> Breaks(x[|x| - 1]))
  }

  ghost predicate RightWord(after: string, right: string) {
    Unbroken(right) && exists y :: after == right + y && (y != "" ==> Breaks(y[0]))
  }

  lemma {:induction false} LeftPartIsWord(before: string) returns (x: string)
    ensures before == x + LeftPart(before) && (x != "" ==> Breaks(x[|x| - 1])) && Unbroken(LeftPart(before))
    decreases |before|
  {
    if before == "" {
      x := "";
    } else {
      var init, last := before[..|before| - 1], before[|before| - 1];
      BreaksExactly(last);
      if Breaks(last) {
        x := before;
      } else {
        x := LeftPartIsWord(init);
        assert before == x + (LeftPart(init) + [last]);
      }
    }
  }

  lemma LastOfLonger(x: string, a: string, y: string, b: string)
    requires x + a == y + b
    ensures |x| < |y| ==> y[|y| - 1] == a[|y| - 1 - |x|]
  {
    if |x| < |y| {
      assert (x + a)[|y| - 1] == a[|y| - 1 - |x|] && (y + b)[|y| - 1] == y[|y| - 1];
    }
  }

  lemma OneLeftWord(before: string, a: string, b: string)
    requires LeftWord(before, a) && LeftWord(before, b)
    ensures a == b
  {
    var x :| before == x + a && (x != "" ==> Breaks(x[|x| - 1]));
    var y :| before == y + b && (y != "" ==> Breaks(y[|y| - 1]));
    LastOfLonger(x, a, y, b);
    LastOfLonger(y, b, x, a);
    assert a == before[|x|..] && b == before[|y|..];
  }

  lemma LeftPartExactly(before: string, left: string)
    ensures LeftPart(before) == left <==> LeftWord(before, left)
  {
    var x := LeftPartIsWord(before);
    if LeftWord(before, left) {
      OneLeftWord(before, left, LeftPart(before));
    }
  }

  lemma RightPartIsWord(after: string)
    ensures RightWord(after, RightPart(after))
  {
    var n := Span(after, InToken);
    forall i | 0 <= i < n ensures !Breaks(after[i]) {
      BreaksExactly(after[i]);
    }
    var rest := after[n..];
    if rest != "" {
      BreaksExactly(after[n]);
    }
    assert after == after[..n] + rest;
  }

  lemma RightPartExactly(after: string, right: string)
    ensures RightPart(after) == right <==> RightWord(after, right)
  {
    RightPartIsWord(after);
    if RightWord(after, right) {
      forall i | 0 <= i < |right| ensures InToken(after[i]) {
        BreaksExactly(right[i]);
      }
      if |right| < |after| {
        BreaksExactly(after[|right|]);
      }
      SpanUnique(after, InToken, |right|);
    }
  }

  /** The word around a text looks like a path. */
  ghost predicate SitsInPath(before: string, text: string, after: string) {
    exists left, right ::
      LeftWord(before, left) && RightWord(after, right) && LooksLikePath(left + text + right)
  }

  lemma InPathExactly(before: string, text: string, after: string)
    ensures InPath(before, text, after) <==> SitsInPath(before, text, after)
  {
    LeftPartExactly(before, LeftPart(before));
    RightPartExactly(after, RightPart(after));
    PathExactly(LeftPart(before) + text + RightPart(after));
    if left, right :| LeftWord(before, left) && RightWord(after, right) && LooksLikePath(left + text + right) {
      LeftPartExactly(before, left);
      RightPartExactly(after, right);
    }
  }
}
