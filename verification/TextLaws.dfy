/**
 What the splitting, trimming and counting of texts does, on the characters: which lines a text
 has, which parts, which core between blanks, and which number a string of digits is.
 */
module TextLaws {
  import opened Text

  // --- Characters ---------------------------------------------------------------------

  const DIGITS := "0123456789"
  const UPPER := "ABCDEFGHIJKLMNOPQRSTUVWXYZ"
  const LOWER := "abcdefghijklmnopqrstuvwxyz"

  const NARROW := "\t\n\U{0b}\U{0c}\r\U{1c}\U{1d}\U{1e}\U{1f} \U{85}\U{a0}"
  const WIDE :=
    "\U{1680}\U{2000}\U{2001}\U{2002}\U{2003}\U{2004}\U{2005}\U{2006}\U{2007}\U{2008}\U{2009}\U{200a}"
    + "\U{2028}\U{2029}\U{202f}\U{205f}\U{3000}"
  const SPACES := NARROW + WIDE

  lemma DigitsListed(c: char)
    ensures IsDigit(c) <==> c in DIGITS
  {
    if IsDigit(c) {
      assert DIGITS[c as int - '0' as int] == c;
    }
  }

  lemma UpperListed(c: char)
    ensures IsUpper(c) <==> c in UPPER
  {
    if IsUpper(c) {
      assert UPPER[c as int - 'A' as int] == c;
    }
  }

  lemma LowerListed(c: char)
    ensures IsLower(c) <==> c in LOWER
  {
    if IsLower(c) {
      assert LOWER[c as int - 'a' as int] == c;
    }
  }

  /** The classes of characters, by their members. */
  lemma ClassesExactly(c: char)
    ensures IsAlnum(c) <==> c in DIGITS + UPPER + LOWER
    ensures IsWord(c) <==> c in DIGITS + UPPER + LOWER + "_"
    ensures IsSpace(c) <==> c in SPACES
  {
    DigitsListed(c);
    UpperListed(c);
    LowerListed(c);
    SpacesListed(c);
  }

  lemma SpacesListed(c: char)
    ensures IsSpace(c) <==> c in SPACES
  {
    assert SPACES == NARROW + WIDE;
    NarrowListed(c);
    WideListed(c);
  }

  lemma NarrowListed(c: char)
    ensures c in NARROW <==> '\t' <= c <= '\r' || '\U{1c}' <= c <= ' ' || c == '\U{85}' || c == '\U{a0}'
  {}

  lemma WideListed(c: char)
    ensures c in WIDE <==>
      || c == '\U{1680}' || '\U{2000}' <= c <= '\U{200a}' || c == '\U{2028}' || c == '\U{2029}'
      || c == '\U{202f}' || c == '\U{205f}' || c == '\U{3000}'
  {}

  // --- Blanks -------------------------------------------------------------------------

  predicate Blanks(s: string) { AllDropped(s, IsSpace) }

  /** `s` between blanks. */
  ghost predicate Core(text: string, s: string) {
    Trimmed(s, IsSpace) && exists u, b :: Blanks(u) && Blanks(b) && text == u + s + b
  }

  lemma CoreExactly(text: string, s: string)
    ensures Strip(text) == s <==> Core(text, s)
  {
    var u, core, b := TrimParts(text, IsSpace);
    assert Blanks(u) && Blanks(b);
    if Core(text, s) {
      var x, y :| Blanks(x) && Blanks(y) && text == x + s + y;
      TrimPadded(x, s, y, IsSpace);
    }
  }

  // --- Parts --------------------------------------------------------------------------

  lemma {:induction false} JoinOfSplit(s: string, c: char)
    ensures JoinWith(SplitOn(s, c), c) == s
  {
    if s != "" {
      JoinOfSplit(s[1..], c);
      var rest := SplitOn(s[1..], c);
      if s[0] == c {
        assert ([""] + rest)[1..] == rest;
        assert "" + [c] + JoinWith(rest, c) == s;
      } else {
        var parts := [[s[0]] + rest[0]] + rest[1..];
        assert parts[1..] == rest[1..];
        if |rest| == 1 {
          assert parts == [[s[0]] + rest[0]];
        } else {
          assert [s[0]] + rest[0] + [c] + JoinWith(rest[1..], c) == [s[0]] + (rest[0] + [c] + JoinWith(rest[1..], c));
        }
      }
    }
  }

  /** The parts of a text are what a separator joins to it, none of them holding one. */
  lemma SplitExactly(s: string, c: char, parts: seq<string>)
    ensures SplitOn(s, c) == parts <==>
      |parts| > 0 && JoinWith(parts, c) == s && forall i | 0 <= i < |parts| :: c !in parts[i]
  {
    JoinOfSplit(s, c);
    SplitPartsFree(s, c);
    if |parts| > 0 && JoinWith(parts, c) == s && forall i | 0 <= i < |parts| :: c !in parts[i] {
      SplitJoin(parts, c);
    }
  }

  // --- Lines --------------------------------------------------------------------------

  /** The text is these lines, each with its newline but perhaps the last one, if that is not empty. */
  ghost predicate Unlines(text: string, lines: seq<string>) {
    && (forall i | 0 <= i < |lines| :: '\n' !in lines[i])
    && (text == Joined(lines) || (lines != [] && lines[|lines| - 1] != "" && text + "\n" == Joined(lines)))
  }

  lemma FrontLine(lines: seq<string>, text: string)
    requires Unlines(text, lines)
    ensures lines == [] <==> text == ""
    ensures lines != [] ==>
      || (text == lines[0] && |lines| == 1)
      || (lines[0] + "\n" <= text && Unlines(text[|lines[0]| + 1..], lines[1..]))
  {
    if lines != [] {
      var rest := Joined(lines[1..]);
      var front := lines[0] + "\n";
      assert Joined(lines) == front + rest;
      if text == Joined(lines) {
        assert text[|front|..] == rest;
      } else if |lines| == 1 {
        assert front + rest == lines[0] + "\n";
        assert (text + "\n")[..|text|] == (lines[0] + "\n")[..|lines[0]|];
      } else {
        JoinedNotEmpty(lines[1..]);
        assert text + "\n" == front + rest && |text| >= |front|;
        assert text[..|front|] == (text + "\n")[..|front|] == (front + rest)[..|front|] == front;
        assert text[|front|..] + "\n" == (text + "\n")[|front|..] == rest;
      }
    }
  }

  lemma JoinedNotEmpty(lines: seq<string>)
    requires lines != []
    ensures |Joined(lines)| > 0
  {}

  lemma PrefixAndRest(text: string, front: string)
    requires front <= text
    ensures text == front + text[|front|..]
  {}

  lemma OneLine(line: string)
    requires line != "" && '\n' !in line
    ensures Lines(line) == [line]
  {
    SpanUnique(line, NotNewline, |line|);
  }

  lemma AfterFront(text: string, line: string)
    requires line + "\n" <= text && '\n' !in line
    ensures Lines(text) == [line] + Lines(text[|line| + 1..])
  {
    PrefixAndRest(text, line + "\n");
    LinesCons(line, text[|line| + 1..]);
  }

  lemma FrontLineRead(text: string, lines: seq<string>)
    requires lines != [] && lines[0] + "\n" <= text && '\n' !in lines[0]
    requires Lines(text[|lines[0]| + 1..]) == lines[1..]
    ensures Lines(text) == lines
  {
    AfterFront(text, lines[0]);
  }

  lemma {:induction false} LinesAreRead(text: string, lines: seq<string>)
    requires Unlines(text, lines)
    ensures Lines(text) == lines
    decreases |lines|
  {
    FrontLine(lines, text);
    if lines != [] {
      if text == lines[0] && |lines| == 1 {
        OneLine(text);
        assert lines == [text];
      } else {
        LinesAreRead(text[|lines[0]| + 1..], lines[1..]);
        FrontLineRead(text, lines);
      }
    }
  }

  lemma OneMoreInFront(line: string, rest: string, lines: seq<string>)
    requires '\n' !in line && Unlines(rest, lines)
    ensures Unlines(line + "\n" + rest, [line] + lines)
  {
    var all := [line] + lines;
    assert all[1..] == lines;
    assert Joined(all) == line + "\n" + Joined(lines);
    if rest != Joined(lines) {
      assert line + "\n" + rest + "\n" == line + "\n" + (rest + "\n");
    }
  }

  lemma {:induction false} ReadAreLines(text: string)
    ensures Unlines(text, Lines(text))
    decreases |text|
  {
    if text != "" {
      var n := Span(text, NotNewline);
      if n == |text| {
        assert [text][1..] == [];
        assert Joined([text]) == text + "\n" + "";
      } else {
        assert text == text[..n] + "\n" + text[n + 1..];
        ReadAreLines(text[n + 1..]);
        OneMoreInFront(text[..n], text[n + 1..], Lines(text[n + 1..]));
      }
    }
  }

  lemma LinesExactly(text: string, lines: seq<string>)
    ensures Lines(text) == lines <==> Unlines(text, lines)
  {
    ReadAreLines(text);
    if Unlines(text, lines) {
      LinesAreRead(text, lines);
    }
  }

  // --- Numbers ------------------------------------------------------------------------

  /** At least one digit, and nothing else. */
  predicate IsNumber(d: string) { d != "" && AllDigits(d) }

  function Zeros(k: nat): string { seq(k, _ => '0') }

  lemma ZerosAreDigits(k: nat, n: nat)
    ensures AllDigits(Zeros(k) + Numeral(n))
  {}

  lemma {:induction false} ZerosAndNumeral(k: nat, n: nat)
    ensures AllDigits(Zeros(k) + Numeral(n)) && ParseNat(Zeros(k) + Numeral(n)) == n
  {
    ZerosAreDigits(k, n);
    var s := Zeros(k) + Numeral(n);
    if n < 10 {
      assert s[..|s| - 1] == Zeros(k);
      ZerosAreNothing(k);
    } else {
      assert s[..|s| - 1] == Zeros(k) + Numeral(n / 10);
      ZerosAndNumeral(k, n / 10);
    }
  }

  lemma {:induction false} ZerosAreNothing(k: nat)
    ensures AllDigits(Zeros(k)) && ParseNat(Zeros(k)) == 0
  {
    if k > 0 {
      assert Zeros(k)[..k - 1] == Zeros(k - 1);
      ZerosAreNothing(k - 1);
    }
  }

  lemma ZerosOneMore(k: nat)
    ensures Zeros(k) + "0" == Zeros(k + 1)
  {}

  lemma OneMoreDigit(n: nat, d: nat)
    requires d < 10
    ensures n > 0 ==> Numeral(10 * n + d) == Numeral(n) + [Digit(d)]
    ensures n == 0 ==> Numeral(n) == "0" && Numeral(10 * n + d) == [Digit(d)]
  {}

  lemma OneDigitBehind(k: nat, n: nat, d: nat)
    requires d < 10
    ensures Zeros(k) + Numeral(n) + [Digit(d)] == Zeros(if n == 0 then k + 1 else k) + Numeral(10 * n + d)
  {
    OneMoreDigit(n, d);
    ZerosOneMore(k);
  }

  lemma LastDigit(s: string) returns (d: nat)
    requires s != "" && AllDigits(s)
    ensures d < 10 && s == s[..|s| - 1] + [Digit(d)]
    ensures ParseNat(s) == 10 * ParseNat(s[..|s| - 1]) + d
  {
    assert IsDigit(s[|s| - 1]);
    d := s[|s| - 1] as int - '0' as int;
    assert Digit(d) == s[|s| - 1];
  }

  lemma {:induction false} DigitsAreNumeral(s: string) returns (k: nat)
    requires s != "" && AllDigits(s)
    ensures s == Zeros(k) + Numeral(ParseNat(s))
    decreases |s|
  {
    var init := s[..|s| - 1];
    var d := LastDigit(s);
    if init == "" {
      k := 0;
    } else {
      k := DigitsAreNumeral(init);
      OneDigitBehind(k, ParseNat(init), d);
      k := if ParseNat(init) == 0 then k + 1 else k;
    }
  }

  /** A string of digits is a number if and only if it is the number's numeral behind zeros. */
  lemma NumberExactly(s: string, n: nat)
    requires s != "" && AllDigits(s)
    ensures ParseNat(s) == n <==> exists k: nat :: s == Zeros(k) + Numeral(n)
  {
    var zeros := DigitsAreNumeral(s);
    if k: nat :| s == Zeros(k) + Numeral(n) {
      ZerosAndNumeral(k, n);
    }
  }
}
