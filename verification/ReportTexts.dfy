/**
 The failure report on its characters: which messages name a check and a file, which lines are
 headings, which messages stand below a heading, and what the printed lines are.
 */
module ReportTexts {
  import opened ControlPaths
  import opened ResidueRecord
  import opened FailureReport
  import opened Text
  import opened TextLaws
  import opened Wrappers

  // --- Messages -----------------------------------------------------------------------

  /** `check `, a number and a colon stand first. */
  ghost predicate Numbered(msg: string, n: string) { IsNumber(n) && "check " + n + ":" <= msg }

  /** No blank and no colon. */
  ghost predicate IsToken(token: string) {
    token != "" && forall i | 0 <= i < |token| :: !IsSpace(token[i]) && token[i] != ':'
  }

  /** Behind the number, one space, a token and a colon. */
  ghost predicate Locates(msg: string, token: string) {
    IsToken(token) && exists n :: Numbered(msg, n) && "check " + n + ": " + token + ":" <= msg
  }

  lemma BehindNumber(msg: string, n: string, token: string)
    ensures "check " + n + ": " + token + ":" <= msg <==>
      "check " + n + ":" <= msg && " " + token + ":" <= msg[7 + |n|..]
  {
    var front, back := "check " + n + ":", " " + token + ":";
    assert "check " + n + ": " + token + ":" == front + back;
    if front + back <= msg {
      assert msg[..|front|] == (front + back)[..|front|] == front;
      assert msg[|front|..][..|back|] == (front + back)[|front|..] == back;
    }
    if front <= msg && back <= msg[|front|..] {
      assert msg == front + msg[|front|..];
    }
  }

  lemma TokenBehind(rest: string, token: string)
    requires IsToken(token)
    ensures " " + token + ":" <= rest <==>
      rest != "" && rest[0] == ' ' && Span(rest[1..], IsTokenChar) == |token| < |rest| - 1
      && rest[1..1 + |token|] == token && rest[1 + |token|] == ':'
  {
    var t := |token|;
    var all := " " + token + ":";
    if all <= rest {
      assert rest[0] == all[0] && rest[1..1 + t] == all[1..1 + t] == token && rest[1 + t] == all[1 + t];
      assert forall i | 0 <= i < t :: rest[1..][i] == token[i];
      SpanUnique(rest[1..], IsTokenChar, t);
    }
    if rest != "" && rest[0] == ' ' && t < |rest| - 1 && rest[1..1 + t] == token && rest[1 + t] == ':' {
      assert rest[..2 + t] == [rest[0]] + rest[1..1 + t] + [rest[1 + t]];
    }
  }

  lemma TokenShape(msg: string, n: string, rest: string, t: nat)
    requires LocationToken(msg).Some? && CheckNumber(msg).value == n && rest == msg[7 + |n|..]
    requires rest != "" ==> t == Span(rest[1..], IsTokenChar)
    ensures 0 < t < |rest| - 1 && rest[0] == ' ' && rest[1 + t] == ':'
    ensures LocationToken(msg).value == rest[1..1 + t]
  {}

  lemma SpanIsToken(rest: string, t: nat)
    requires rest != "" && t == Span(rest[1..], IsTokenChar) && t > 0
    ensures IsToken(rest[1..1 + t])
  {
    var token, tail := rest[1..1 + t], rest[1..];
    assert forall i | 0 <= i < t :: token[i] == tail[i] && IsTokenChar(tail[i]);
  }

  lemma LocatedIsToken(msg: string)
    requires LocationToken(msg).Some?
    ensures Locates(msg, LocationToken(msg).value)
  {
    var n := CheckNumber(msg).value;
    CheckNumberExactly(msg, n);
    var rest := msg[7 + |n|..];
    var t := if rest == "" then 0 else Span(rest[1..], IsTokenChar);
    TokenShape(msg, n, rest, t);
    SpanIsToken(rest, t);
    TokenBehind(rest, rest[1..1 + t]);
    BehindNumber(msg, n, rest[1..1 + t]);
    assert Numbered(msg, n);
  }

  lemma TokenIsLocated(msg: string, n: string, token: string)
    requires IsToken(token) && Numbered(msg, n) && "check " + n + ": " + token + ":" <= msg
    ensures LocationToken(msg).Some? && LocationToken(msg).value == token
  {
    CheckNumberExactly(msg, n);
    BehindNumber(msg, n, token);
    TokenBehind(msg[7 + |n|..], token);
  }

  /** The file a message names: all of `check n: token:` must stand there, the closing colon too. */
  lemma TokenExactly(msg: string, token: string)
    ensures LocationToken(msg) == Some(token) <==> Locates(msg, token)
  {
    if LocationToken(msg).Some? {
      LocatedIsToken(msg);
    }
    if Locates(msg, token) {
      var n :| Numbered(msg, n) && "check " + n + ": " + token + ":" <= msg;
      TokenIsLocated(msg, n, token);
    }
  }

  /** The key a message stands under: its check's class, and the known file it names, if any. */
  ghost predicate StandsUnder(msg: string, known: set<string>, k: Key) {
    && (exists n :: Numbered(msg, n) && k.cls == "h1-check" + n)
    && if k.path in known && Locates(msg, k.path) then true
       else k.path == "(no file named in message)" && forall t | t in known :: !Locates(msg, t)
  }

  lemma KeyExactly(msg: string, known: set<string>, k: Key)
    ensures ResidueKey(msg, known) == Some(k) <==> StandsUnder(msg, known, k)
    ensures ResidueKey(msg, known) == None <==> forall n :: !Numbered(msg, n)
  {
    forall n ensures CheckNumber(msg) == Some(n) <==> Numbered(msg, n) {
      CheckNumberExactly(msg, n);
    }
    forall t ensures LocationToken(msg) == Some(t) <==> Locates(msg, t) {
      TokenExactly(msg, t);
    }
    match CheckNumber(msg)
    case None =>
    case Some(n) => assert Numbered(msg, n);
  }

  /** The bucket of a message: its number, or none. */
  lemma BucketExactly(msg: string, c: string)
    ensures CheckClass(msg) == c <==>
      Numbered(msg, c) || (c == "unclassified" && forall n :: !Numbered(msg, n))
  {
    forall n ensures CheckNumber(msg) == Some(n) <==> Numbered(msg, n) {
      CheckNumberExactly(msg, n);
    }
    assert !IsDigit("unclassified"[0]);
  }

  // --- Headings -----------------------------------------------------------------------

  ghost predicate CountsFailed(line: string) {
    exists d :: IsNumber(d) && line == "FAILED (" + d + "):"
  }

  ghost predicate CountsDisclosed(line: string) {
    exists d :: IsNumber(d)
      && line == "DISCLOSED (" + d + ", at or under the W37-11 residue ceiling):"
  }

  /** A line between a front and a back. */
  lemma Enclosed(line: string, front: string, d: string, back: string)
    ensures line == front + d + back <==>
      |line| == |front| + |d| + |back| && line[..|front|] == front && line[|front|..|front| + |d|] == d
      && line[|line| - |back|..] == back
  {
    if |line| == |front| + |d| + |back| {
      assert line == line[..|front|] + line[|front|..|front| + |d|] + line[|line| - |back|..];
    }
  }

  lemma FailedExactly(line: string)
    ensures IsFailedHeader(line) <==> CountsFailed(line)
  {
    if d :| IsNumber(d) && line == "FAILED (" + d + "):" {
      Enclosed(line, "FAILED (", d, "):");
    }
    if IsFailedHeader(line) {
      Enclosed(line, "FAILED (", line[8..|line| - 2], "):");
    }
  }

  lemma DisclosedExactly(line: string)
    ensures IsDisclosedHeader(line) <==> CountsDisclosed(line)
  {
    var tail := ", at or under the W37-11 residue ceiling):";
    if d :| IsNumber(d) && line == "DISCLOSED (" + d + ", at or under the W37-11 residue ceiling):" {
      Enclosed(line, "DISCLOSED (", d, tail);
    }
    if IsDisclosedHeader(line) {
      Enclosed(line, "DISCLOSED (", line[11..|line| - |tail|], tail);
    }
  }

  // --- Reading ------------------------------------------------------------------------

  /** The bullets among the lines carry these messages, in order; every other line is passed over. */
  ghost predicate Bulleted(lines: seq<string>, msgs: seq<string>) {
    if lines == [] then msgs == []
    else
      var init, last := lines[..|lines| - 1], lines[|lines| - 1];
      if "  - " <= last then
        && msgs != [] && last == "  - " + msgs[|msgs| - 1] && Bulleted(init, msgs[..|msgs| - 1])
      else Bulleted(init, msgs)
  }

  lemma BulletText(line: string, msg: string)
    requires "  - " <= line
    ensures line[4..] == msg <==> line == "  - " + msg
  {
    assert line == "  - " + line[4..];
  }

  lemma InitAndLast<T>(s: seq<T>, init: seq<T>, last: T)
    ensures s == init + [last] <==> s != [] && s[..|s| - 1] == init && s[|s| - 1] == last
  {
    if s != [] {
      assert s == s[..|s| - 1] + [s[|s| - 1]];
    }
  }

  lemma {:induction false} BulletsExactly(lines: seq<string>, msgs: seq<string>)
    ensures FailureLines(lines) == msgs <==> Bulleted(lines, msgs)
  {
    if lines != [] {
      var init, last := lines[..|lines| - 1], lines[|lines| - 1];
      if "  - " <= last {
        InitAndLast(msgs, FailureLines(init), last[4..]);
        if msgs != [] {
          BulletsExactly(init, msgs[..|msgs| - 1]);
          BulletText(last, msgs[|msgs| - 1]);
        }
      } else {
        BulletsExactly(init, msgs);
      }
    }
  }

  /** Line `k` is the first heading, or there is none and `k` is the number of lines. */
  ghost predicate FirstHeading(lines: seq<string>, heading: string -> bool, k: nat) {
    && k <= |lines| && (k < |lines| ==> heading(lines[k])) && forall j | 0 <= j < k :: !heading(lines[j])
  }

  /** The text is these lines, and the bullets from the first heading on carry these messages. */
  ghost predicate BelowHeading(out: string, heading: string -> bool, msgs: seq<string>) {
    exists lines, k :: IsText(out, lines) && FirstHeading(lines, heading, k) && Bulleted(lines[k..], msgs)
  }

  ghost predicate IsText(out: string, lines: seq<string>) {
    |lines| > 0 && JoinWith(lines, '\n') == out && forall i | 0 <= i < |lines| :: '\n' !in lines[i]
  }

  /** What a reader takes from a text: the bullets below the first heading. */
  lemma ReadExactly(out: string, p: string -> bool, heading: string -> bool, msgs: seq<string>)
    requires forall line :: p(line) <==> heading(line)
    ensures MessagesFrom(out, p) == msgs <==> BelowHeading(out, heading, msgs)
  {
    var lines := SplitOn(out, '\n');
    SplitExactly(out, '\n', lines);
    var k := FirstLine(lines, p);
    BulletsExactly(lines[k..], msgs);
    assert IsText(out, lines) && FirstHeading(lines, heading, k);
    if ls, j: nat :| IsText(out, ls) && FirstHeading(ls, heading, j) && Bulleted(ls[j..], msgs) {
      SplitExactly(out, '\n', ls);
      assert j == k;
    }
  }

  /** The messages the counting reader takes. */
  lemma CountedReadExactly(out: string, msgs: seq<string>)
    ensures MessagesFrom(out, IsFailedHeader) == msgs <==> BelowHeading(out, CountsFailed, msgs)
  {
    forall line ensures IsFailedHeader(line) <==> CountsFailed(line) {
      FailedExactly(line);
    }
    ReadExactly(out, IsFailedHeader, CountsFailed, msgs);
  }

  ghost predicate CountsAny(line: string) { CountsFailed(line) || CountsDisclosed(line) }

  /** The messages the residue reader takes. */
  lemma ResidueReadExactly(out: string, msgs: seq<string>)
    ensures MessagesFrom(out, IsAnyHeader) == msgs <==> BelowHeading(out, CountsAny, msgs)
  {
    forall line ensures IsAnyHeader(line) <==> CountsAny(line) {
      FailedExactly(line);
      DisclosedExactly(line);
    }
    ReadExactly(out, IsAnyHeader, CountsAny, msgs);
  }

  // --- Printing -----------------------------------------------------------------------

  lemma {:induction false} PrintedIsJoined(lines: seq<string>)
    ensures Printed(lines) == Joined(lines)
  {
    if lines != [] {
      var init, last := lines[..|lines| - 1], lines[|lines| - 1];
      PrintedIsJoined(init);
      JoinedSnoc(init, last);
      assert lines == init + [last];
    }
  }

  lemma {:induction false} JoinedSnoc(init: seq<string>, last: string)
    ensures Joined(init + [last]) == Joined(init) + last + "\n"
  {
    if init == [] {
      assert [] + [last] == [last] && [last][1..] == [];
    } else {
      JoinedSnoc(init[1..], last);
      assert (init + [last])[1..] == init[1..] + [last];
    }
  }

  /** Lines `from` on are a blank line, the heading and the messages as bullets. */
  ghost predicate BlockAt(lines: seq<string>, from: nat, heading: string, msgs: seq<string>) {
    && from + 2 + |msgs| <= |lines| && lines[from] == "" && lines[from + 1] == heading
    && forall i | 0 <= i < |msgs| :: lines[from + 2 + i] == "  - " + msgs[i]
  }

  /**
   The report, line by line: the notes, then the disclosed messages under their number if there
   are any, then the counted ones under theirs, or that all checks passed.
   */
  ghost predicate IsReport(lines: seq<string>, notes: seq<string>, disclosed: seq<string>, counted: seq<string>) {
    var a := |notes|;
    var b := if disclosed == [] then a else a + 2 + |disclosed|;
    && a <= |lines| && (forall i | 0 <= i < a :: lines[i] == "  " + notes[i])
    && (disclosed != [] ==>
          BlockAt(lines, a, "DISCLOSED (" + Numeral(|disclosed|) + ", at or under the W37-11 residue ceiling):",
                  disclosed))
    && |lines| == b + 2 + |counted|
    && BlockAt(lines, b, if counted == [] then "All checks passed." else "FAILED (" + Numeral(|counted|) + "):",
               counted)
  }

  lemma BlockBehind(front: seq<string>, heading: string, msgs: seq<string>, rest: seq<string>)
    ensures BlockAt(front + (["", heading] + Bullets(msgs)) + rest, |front|, heading, msgs)
  {
    var block := ["", heading] + Bullets(msgs);
    var lines := front + block + rest;
    assert lines[|front|] == block[0] && lines[|front| + 1] == block[1];
    forall i | 0 <= i < |msgs| ensures lines[|front| + 2 + i] == "  - " + msgs[i] {
      assert lines[|front| + 2 + i] == block[2 + i] == Bullets(msgs)[i];
    }
  }

  lemma CountedHeading(counted: seq<string>)
    ensures CountedBlock(counted)
         == ["", if counted == [] then "All checks passed." else "FAILED (" + Numeral(|counted|) + "):"]
            + Bullets(counted)
  {
    if counted == [] {
      assert ["", PASSED] + Bullets(counted) == ["", PASSED];
    }
  }

  lemma ReportIsReport(notes: seq<string>, split: Split)
    ensures IsReport(ReportLines(notes, split), notes, split.disclosed, split.counted)
  {
    var lines := ReportLines(notes, split);
    var above := Indented(notes) + DisclosedBlock(split.disclosed);
    CountedHeading(split.counted);
    var last := if split.counted == [] then "All checks passed." else "FAILED (" + Numeral(|split.counted|) + "):";
    BlockBehind(above, last, split.counted, []);
    assert above + (["", last] + Bullets(split.counted)) + [] == lines;
    if split.disclosed != [] {
      BlockBehind(Indented(notes), DisclosedHeader(|split.disclosed|), split.disclosed, CountedBlock(split.counted));
    }
    assert forall i | 0 <= i < |notes| :: lines[i] == Indented(notes)[i];
  }

  /** What is printed is the report, each line with its newline. */
  lemma PrintedReport(notes: seq<string>, split: Split) returns (lines: seq<string>)
    ensures Printed(ReportLines(notes, split)) == Joined(lines)
    ensures IsReport(lines, notes, split.disclosed, split.counted)
  {
    lines := ReportLines(notes, split);
    PrintedIsJoined(lines);
    ReportIsReport(notes, split);
  }
}
