/**
 Writing values: which scalars, lists and dates are read back as written, and which texts
 are dates.
 */
module HeaderValues {
  import opened Text
  import opened TextLaws
  import opened Wrappers
  import opened HeaderGrammar

  // --- Values as text -----------------------------------------------------------------

  /** The value holds no comment marker. */
  predicate NoComment(s: string) { forall i | 0 <= i < |s| - 1 :: !(s[i] == ' ' && s[i + 1] == '#') }

  predicate PlainScalar(s: string) {
    s != "" && s != "~" && Trimmed(s, IsSpace) && NoComment(s)
  }

  /** An item of a list: trimmed, and without the separator. */
  predicate PlainItem(x: string) { Trimmed(x, IsSpace) && ',' !in x }

  predicate PlainList(xs: seq<string>) {
    xs != [""] && (forall x | x in xs :: PlainItem(x)) && NoComment(PrintList(xs))
  }

  /** A list a header line can hold. */
  predicate PlainItems(xs: seq<string>) { PlainList(xs) && forall x | x in xs :: '\n' !in x }

  /** The items as `[a, b]` spaces them. */
  function Spaced(xs: seq<string>): (r: seq<string>)
    ensures |r| == |xs|
    ensures forall i | 0 <= i < |r| :: r[i] == if i == 0 then xs[0] else " " + xs[i]
  {
    seq(|xs|, i requires 0 <= i < |xs| => if i == 0 then xs[0] else " " + xs[i])
  }

  function PrintList(xs: seq<string>): string {
    "[" + JoinWith(Spaced(xs), ',') + "]"
  }

  /** `n` with leading zeros to `width` digits. */
  function Zeroed(n: nat, width: nat): (s: string)
    ensures |s| == width && AllDigits(s)
  {
    if width == 0 then "" else Zeroed(n / 10, width - 1) + [Digit(n % 10)]
  }

  function PrintDate(d: Date): string {
    Zeroed(d.year, 4) + "-" + Zeroed(d.month, 2) + "-" + Zeroed(d.day, 2)
  }

  function PrintValue(v: Value): string {
    match v
    case Null => "~"
    case Word(s) => s
    case Items(xs) => PrintList(xs)
    case Flag(on) => if on then "true" else "false"
    case Day(d) => PrintDate(d)
  }

  lemma {:induction false} NoCommentKept(s: string)
    ensures StripComment(s) == s <==> NoComment(s)
  {
    if s != "" {
      NoCommentKept(s[1..]);
      if |s| >= 2 && s[0] == ' ' && s[1] == '#' {
      } else {
        assert StripComment(s) == s <==> StripComment(s[1..]) == s[1..];
        var rest := s[1..];
        if NoComment(s) {
          forall i | 0 <= i < |rest| - 1 ensures !(rest[i] == ' ' && rest[i + 1] == '#') {
            assert rest[i] == s[i + 1] && rest[i + 1] == s[i + 1 + 1];
          }
        }
        if NoComment(rest) {
          forall i | 0 <= i < |s| - 1 ensures !(s[i] == ' ' && s[i + 1] == '#') {
            if i > 0 {
              assert rest[i - 1] == s[i] && rest[i - 1 + 1] == s[i + 1];
            }
          }
        }
      }
    }
  }

  lemma {:induction false} TrimRightEnds(s: string, drop: char -> bool)
    ensures var t := TrimRight(s, drop); t != "" ==> !drop(t[|t| - 1])
    decreases |s|
  {
    if s != "" && drop(s[|s| - 1]) {
      TrimRightEnds(s[..|s| - 1], drop);
    }
  }

  lemma StripIsTrimmed(s: string)
    ensures Trimmed(Strip(s), IsSpace) && |Strip(s)| <= |s|
  {
    TrimRightEnds(TrimLeft(s, IsSpace), IsSpace);
  }

  /** The scalars that are read back as written are exactly the plain ones. */
  lemma ScalarSurvivesExactly(s: string)
    ensures ParseScalar(s) == Some(s) <==> PlainScalar(s)
  {
    NoCommentKept(s);
    if PlainScalar(s) {
      TrimTrimmed(s, IsSpace);
    }
    if ParseScalar(s) == Some(s) {
      StripIsTrimmed(StripComment(s));
      assert StripComment(s) == s;
    }
  }

  // --- Lists --------------------------------------------------------------------------

  /** The ends of a joined text are the ends of its outer parts. */
  lemma JoinTrimmed(parts: seq<string>)
    requires |parts| > 0
    requires parts[0] != "" ==> !IsSpace(parts[0][0])
    requires var z := parts[|parts| - 1]; z != "" ==> !IsSpace(z[|z| - 1])
    ensures |parts| > 1 ==> JoinWith(parts, ',') != ""
    ensures Trimmed(JoinWith(parts, ','), IsSpace)
  {
    if |parts| > 1 {
      JoinEnds(parts, ',');
    }
  }

  /** The spacing of the last item, when the item is empty, is trailing. */
  lemma {:induction false} JoinLast(parts: seq<string>, z: string, pad: string)
    requires |parts| > 0
    ensures JoinWith(parts + [z + pad], ',') == JoinWith(parts + [z], ',') + pad
  {
    if |parts| > 1 {
      JoinLast(parts[1..], z, pad);
      assert (parts + [z + pad])[1..] == parts[1..] + [z + pad];
      assert (parts + [z])[1..] == parts[1..] + [z];
    }
  }

  /** The spaced items with the last one's spacing cut when nothing follows it. */
  function Inner(xs: seq<string>): (r: seq<string>)
    requires |xs| > 0
    ensures |r| == |xs| && r[0] == xs[0]
    ensures forall i | 0 <= i < |r| :: r[i] == xs[i] || r[i] == " " + xs[i]
    ensures r[|r| - 1] == "" <==> xs[|xs| - 1] == ""
  {
    var spaced := Spaced(xs);
    if xs[|xs| - 1] == "" then spaced[|xs| - 1 := ""] else spaced
  }

  lemma InnerWithEmptyLast(xs: seq<string>)
    requires |xs| > 1 && xs[|xs| - 1] == ""
    ensures var init := Spaced(xs)[..|xs| - 1]; Spaced(xs) == init + [" "] && Inner(xs) == init + [""]
  {
    var spaced := Spaced(xs);
    assert spaced[|xs| - 1] == " " + "" == " ";
  }

  lemma InnerJoins(xs: seq<string>)
    requires |xs| > 0 && xs != [""]
    ensures JoinWith(Spaced(xs), ',') == JoinWith(Inner(xs), ',') + if xs[|xs| - 1] == "" then " " else ""
  {
    assert |xs| == 1 ==> xs == [xs[0]];
    if xs[|xs| - 1] == "" {
      InnerWithEmptyLast(xs);
      assert "" + " " == " ";
      JoinLast(Spaced(xs)[..|xs| - 1], "", " ");
    }
  }

  lemma InnerTrimmed(xs: seq<string>)
    requires |xs| > 0 && xs != [""] && PlainItem(xs[0]) && PlainItem(xs[|xs| - 1])
    ensures Trimmed(JoinWith(Inner(xs), ','), IsSpace) && JoinWith(Inner(xs), ',') != ""
  {
    var inner := Inner(xs);
    assert |xs| == 1 ==> xs == [xs[0]];
    assert inner[|xs| - 1] != "" ==> inner[|xs| - 1][|inner[|xs| - 1]| - 1] == xs[|xs| - 1][|xs[|xs| - 1]| - 1];
    JoinTrimmed(inner);
  }

  lemma InnerStripped(xs: seq<string>)
    requires |xs| > 0 && xs != [""] && PlainItem(xs[0]) && PlainItem(xs[|xs| - 1])
    ensures Strip(JoinWith(Spaced(xs), ',')) == JoinWith(Inner(xs), ',')
    ensures JoinWith(Inner(xs), ',') != ""
  {
    var joined := JoinWith(Inner(xs), ',');
    var pad := if xs[|xs| - 1] == "" then " " else "";
    InnerJoins(xs);
    InnerTrimmed(xs);
    TrimPadded("", joined, pad, IsSpace);
    assert "" + joined + pad == joined + pad;
  }

  lemma InnerItem(x: string, item: string)
    requires PlainItem(x) && (item == x || item == " " + x)
    ensures ',' !in item && Strip(item) == x
  {
    if item == x {
      TrimTrimmed(x, IsSpace);
    } else {
      assert item == " " + x + "";
      TrimPadded(" ", x, "", IsSpace);
    }
  }

  lemma InnerSplit(xs: seq<string>)
    requires |xs| > 0 && forall x | x in xs :: PlainItem(x)
    ensures StripAll(SplitOn(JoinWith(Inner(xs), ','), ',')) == xs
  {
    var inner := Inner(xs);
    forall i | 0 <= i < |inner| ensures ',' !in inner[i] && Strip(inner[i]) == xs[i] {
      assert xs[i] in xs;
      InnerItem(xs[i], inner[i]);
    }
    SplitJoin(inner, ',');
    assert StripAll(inner) == xs;
  }

  /** The text between the brackets reads as the items. */
  lemma BracketsRead(text: string, joined: string)
    requires text == "[" + joined + "]" && NoComment(text)
    ensures ParseList(text) ==
      Some(if Strip(joined) == "" then [] else StripAll(SplitOn(Strip(joined), ',')))
  {
    NoCommentKept(text);
    TrimTrimmed(text, IsSpace);
    assert text[1..|text| - 1] == joined;
  }

  lemma ListRoundTrip(xs: seq<string>)
    requires PlainList(xs)
    ensures ParseList(PrintList(xs)) == Some(xs)
  {
    BracketsRead(PrintList(xs), JoinWith(Spaced(xs), ','));
    if xs == [] {
      TrimTrimmed("", IsSpace);
    } else {
      assert xs[0] in xs && xs[|xs| - 1] in xs;
      InnerStripped(xs);
      InnerSplit(xs);
    }
  }

  // --- Dates --------------------------------------------------------------------------

  function PowerOfTen(width: nat): nat { if width == 0 then 1 else 10 * PowerOfTen(width - 1) }

  lemma {:induction false} ZeroedParses(n: nat, width: nat)
    requires n < PowerOfTen(width)
    ensures ParseNat(Zeroed(n, width)) == n
  {
    if width > 0 {
      var s := Zeroed(n, width);
      assert s[..|s| - 1] == Zeroed(n / 10, width - 1);
      ZeroedParses(n / 10, width - 1);
    }
  }

  lemma DigitsNeedNoTrim(s: string)
    requires s != "" && AllDigits(s)
    ensures Strip(s) == s && '_' !in s && '-' !in s
  {
    TrimTrimmed(s, IsSpace);
  }

  lemma IntRoundTrip(n: nat, width: nat)
    requires n < PowerOfTen(width) && width > 0
    ensures ParseInt(Zeroed(n, width)) == Some(n)
  {
    var s := Zeroed(n, width);
    DigitsNeedNoTrim(s);
    SplitFree(s, '_');
    assert Concatenated([s]) == s + Concatenated([]) == s;
    ZeroedParses(n, width);
  }

  lemma DateSplits(d: Date)
    ensures SplitOn(PrintDate(d), '-') == [Zeroed(d.year, 4), Zeroed(d.month, 2), Zeroed(d.day, 2)]
  {
    var y, m, n := Zeroed(d.year, 4), Zeroed(d.month, 2), Zeroed(d.day, 2);
    DigitsNeedNoTrim(y);
    DigitsNeedNoTrim(m);
    DigitsNeedNoTrim(n);
    SplitFree(n, '-');
    SplitCons(m, '-', n);
    SplitCons(y, '-', m + "-" + n);
    assert PrintDate(d) == y + "-" + (m + "-" + n);
  }

  lemma DateRoundTrip(d: Date)
    requires IsDate(d)
    ensures ParseDate(PrintDate(d)) == Some(d)
  {
    DateSplits(d);
    assert PowerOfTen(2) == 100 && PowerOfTen(4) == 100 * PowerOfTen(2);
    assert d.day < 100;
    IntRoundTrip(d.year, 4);
    IntRoundTrip(d.month, 2);
    IntRoundTrip(d.day, 2);
  }

  predicate DateChars(s: string) { forall i | 0 <= i < |s| :: IsDigit(s[i]) || s[i] == '-' }

  lemma DateIsPlain(d: Date)
    ensures PlainScalar(PrintDate(d)) && '\n' !in PrintDate(d)
  {
    var y, m, n := Zeroed(d.year, 4), Zeroed(d.month, 2), Zeroed(d.day, 2);
    var s := PrintDate(d);
    assert |s| == 10;
    assert s[0] == y[0] && s[|s| - 1] == n[1];
    assert DateChars(y) && DateChars("-") && DateChars(m) && DateChars(n);
    assert DateChars(s);
  }

  lemma JoinThree(y: string, m: string, d: string)
    ensures JoinWith([y, m, d], '-') == y + "-" + m + "-" + d
  {
    assert [y, m, d][1..] == [m, d] && [m, d][1..] == [d];
    assert JoinWith([m, d], '-') == m + "-" + d;
  }

  lemma SplitThree(y: string, m: string, d: string)
    requires '-' !in y && '-' !in m && '-' !in d
    ensures SplitOn(y + "-" + m + "-" + d, '-') == [y, m, d]
  {
    JoinThree(y, m, d);
    SplitJoin([y, m, d], '-');
  }

  /** The text is the three numbers of the date between two hyphens. */
  predicate Writes(y: string, m: string, d: string, s: string, date: Date) {
    && '-' !in y && '-' !in m && '-' !in d && s == y + "-" + m + "-" + d
    && ParseInt(y) == Some(date.year) && ParseInt(m) == Some(date.month) && ParseInt(d) == Some(date.day)
  }

  lemma WrittenDate(y: string, m: string, d: string, s: string, date: Date)
    requires Writes(y, m, d, s, date)
    ensures ParseDate(s) == if IsDate(date) then Some(date) else None
  {
    SplitThree(y, m, d);
  }

  lemma ReadDate(s: string, date: Date) returns (y: string, m: string, d: string)
    requires ParseDate(s) == Some(date)
    ensures Writes(y, m, d, s, date)
  {
    var parts := SplitOn(s, '-');
    y, m, d := parts[0], parts[1], parts[2];
    SplitPartsFree(s, '-');
    JoinOfSplit(s, '-');
    JoinThree(y, m, d);
    assert parts == [y, m, d];
  }

  /** Which texts are dates: three numbers between two hyphens that name a day of the calendar. */
  lemma DateReadExactly(s: string, date: Date)
    ensures ParseDate(s) == Some(date) <==> IsDate(date) && exists y, m, d :: Writes(y, m, d, s, date)
  {
    if ParseDate(s) == Some(date) {
      var y, m, d := ReadDate(s, date);
    }
    if y, m, d :| Writes(y, m, d, s, date) {
      WrittenDate(y, m, d, s, date);
    }
  }
}
