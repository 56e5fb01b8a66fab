/** Which texts are numbers and which are dates, on their characters and by the calendar. */
module DateTexts {
  import opened HeaderGrammar
  import opened HeaderValues
  import opened Text
  import opened TextLaws
  import opened Wrappers

  // --- Numbers ------------------------------------------------------------------------

  /** `s` is the digits of `d`, with single underscores between some of them. */
  ghost predicate Grouped(s: string, d: string)
    decreases |s|
  {
    || (IsNumber(s) && s == d)
    || exists g, rest, e :: IsGroup(s, g, rest) && d == g + e && Grouped(rest, e)
  }

  ghost predicate IsGroup(s: string, g: string, rest: string) { IsNumber(g) && s == g + "_" + rest }

  ghost predicate AllNumbers(groups: seq<string>) { forall g | g in groups :: g != "" && AllDigits(g) }

  lemma NoUnderscore(d: string)
    requires AllDigits(d)
    ensures '_' !in d
  {}

  lemma {:induction false} GroupsOf(s: string, d: string)
    requires Grouped(s, d)
    ensures AllNumbers(SplitOn(s, '_')) && Concatenated(SplitOn(s, '_')) == d
    decreases |s|
  {
    if IsNumber(s) && s == d {
      NoUnderscore(s);
      SplitFree(s, '_');
      assert Concatenated([s]) == s + Concatenated([]);
    } else {
      var g, rest, e :| IsGroup(s, g, rest) && d == g + e && Grouped(rest, e);
      GroupsOf(rest, e);
      NoUnderscore(g);
      SplitCons(g, '_', rest);
      GroupInFront(g, SplitOn(rest, '_'));
    }
  }

  lemma GroupInFront(g: string, groups: seq<string>)
    requires IsNumber(g) && AllNumbers(groups)
    ensures AllNumbers([g] + groups) && Concatenated([g] + groups) == g + Concatenated(groups)
  {
    assert ([g] + groups)[1..] == groups;
  }

  lemma {:induction false} GroupsJoined(groups: seq<string>)
    requires groups != [] && AllNumbers(groups)
    ensures Grouped(JoinWith(groups, '_'), Concatenated(groups))
  {
    var g := groups[0];
    assert g in groups && IsNumber(g);
    if |groups| == 1 {
      assert Concatenated(groups) == g + Concatenated(groups[1..]) == g;
    } else {
      var rest := groups[1..];
      assert forall h | h in rest :: h in groups;
      GroupsJoined(rest);
      assert IsGroup(JoinWith(groups, '_'), g, JoinWith(rest, '_'));
    }
  }

  lemma GroupedExactly(s: string, d: string)
    ensures Grouped(s, d) <==> AllNumbers(SplitOn(s, '_')) && Concatenated(SplitOn(s, '_')) == d
  {
    if Grouped(s, d) {
      GroupsOf(s, d);
    }
    if AllNumbers(SplitOn(s, '_')) {
      GroupsJoined(SplitOn(s, '_'));
      JoinOfSplit(s, '_');
    }
  }

  lemma {:induction false} GroupedIsNumber(s: string, d: string)
    requires Grouped(s, d)
    ensures IsNumber(d)
    decreases |s|
  {
    if !(IsNumber(s) && s == d) {
      var g, rest, e :| IsGroup(s, g, rest) && d == g + e && Grouped(rest, e);
      GroupedIsNumber(rest, e);
    }
  }

  /** Blanks around, one plus sign in front at most, and the number's digits, zeros and underscores among them. */
  ghost predicate SpellsInt(part: string, n: nat) {
    exists core, d, k: nat :: Core(part, core) && Unsigned(core, d) && d == Zeros(k) + Numeral(n)
  }

  ghost predicate Unsigned(core: string, d: string) {
    if "+" <= core then Grouped(core[1..], d) else Grouped(core, d)
  }

  lemma UnsignedExactly(part: string, d: string)
    ensures var t := Strip(part);
      var digits := if t != "" && t[0] == '+' then t[1..] else t;
      Unsigned(t, d) <==> AllNumbers(SplitOn(digits, '_')) && Concatenated(SplitOn(digits, '_')) == d
  {
    var t := Strip(part);
    GroupedExactly(if t != "" && t[0] == '+' then t[1..] else t, d);
  }

  lemma IntIs(part: string, groups: seq<string>)
    requires var t := Strip(part);
      groups == SplitOn(if t != "" && t[0] == '+' then t[1..] else t, '_')
    ensures ParseInt(part) == if AllNumbers(groups) then Some(ParseNat(Concatenated(groups))) else None
  {}

  lemma UnsignedIsNumber(core: string, d: string)
    requires Unsigned(core, d)
    ensures IsNumber(d)
  {
    GroupedIsNumber(if "+" <= core then core[1..] else core, d);
  }

  /** Which texts `int` reads as which natural number. */
  lemma IntReadExactly(part: string, n: nat)
    ensures ParseInt(part) == Some(n) <==> SpellsInt(part, n)
  {
    var t := Strip(part);
    var groups := SplitOn(if t != "" && t[0] == '+' then t[1..] else t, '_');
    IntIs(part, groups);
    CoreExactly(part, t);
    if AllNumbers(groups) {
      var d := Concatenated(groups);
      UnsignedExactly(part, d);
      UnsignedIsNumber(t, d);
      NumberExactly(d, n);
    }
    if core, d, k: nat :| Core(part, core) && Unsigned(core, d) && d == Zeros(k) + Numeral(n) {
      CoreExactly(part, core);
      UnsignedExactly(part, d);
      ZerosAndNumeral(k, n);
    }
  }

  // --- The calendar -------------------------------------------------------------------

  /** Every fourth year, but of the hundreds only every fourth. */
  predicate LeapYear(year: nat) { if year % 100 == 0 then year % 400 == 0 else year % 4 == 0 }

  /** The days of the calendar, up to the year 9999. */
  predicate OnCalendar(d: Date) {
    && 1 <= d.year <= 9999 && 1 <= d.month <= 12 && 1 <= d.day <= 31
    && (d.day == 31 ==> d.month in {1, 3, 5, 7, 8, 10, 12})
    && (d.day == 30 ==> d.month != 2)
    && (d.day == 29 && d.month == 2 ==> LeapYear(d.year))
  }

  lemma CalendarExactly(d: Date)
    ensures IsDate(d) <==> OnCalendar(d)
  {}

  /** Three numbers between two hyphens. */
  ghost predicate SpellsDate(s: string, date: Date) {
    OnCalendar(date) && exists y, m, d :: SpellsParts(s, y, m, d, date)
  }

  ghost predicate SpellsParts(s: string, y: string, m: string, d: string, date: Date) {
    && '-' !in y && '-' !in m && '-' !in d && s == y + "-" + m + "-" + d
    && SpellsInt(y, date.year) && SpellsInt(m, date.month) && SpellsInt(d, date.day)
  }

  lemma PartsExactly(s: string, y: string, m: string, d: string, date: Date)
    ensures Writes(y, m, d, s, date) <==> SpellsParts(s, y, m, d, date)
  {
    IntReadExactly(y, date.year);
    IntReadExactly(m, date.month);
    IntReadExactly(d, date.day);
  }

  /** Which texts are dates, and of which day. */
  lemma DayReadExactly(s: string, date: Date)
    ensures ParseDate(s) == Some(date) <==> SpellsDate(s, date)
  {
    DateReadExactly(s, date);
    CalendarExactly(date);
    if y, m, d :| Writes(y, m, d, s, date) {
      PartsExactly(s, y, m, d, date);
    }
    if y, m, d :| SpellsParts(s, y, m, d, date) {
      PartsExactly(s, y, m, d, date);
    }
  }
}
