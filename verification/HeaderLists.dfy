/**
 Which lists are read back as written: exactly those of trimmed items without a comma that
 print without a comment. What a comment would cut off holds a `#`, and that one is missed.
 */
module HeaderLists {
  import opened Text
  import opened Wrappers
  import opened HeaderGrammar
  import opened HeaderValues

  function Hashes(s: string): nat { if s == "" then 0 else (if s[0] == '#' then 1 else 0) + Hashes(s[1..]) }

  function ListHashes(xs: seq<string>): nat { if xs == [] then 0 else Hashes(xs[0]) + ListHashes(xs[1..]) }

  lemma {:induction false} HashesJoin(a: string, b: string)
    ensures Hashes(a + b) == Hashes(a) + Hashes(b)
  {
    if a == "" {
      assert a + b == b;
    } else {
      assert (a + b)[1..] == a[1..] + b;
      HashesJoin(a[1..], b);
    }
  }

  lemma {:induction false} HashesOfJoin(parts: seq<string>)
    ensures Hashes(JoinWith(parts, ',')) == ListHashes(parts)
  {
    if |parts| == 1 {
      assert ListHashes(parts[1..]) == 0;
    } else if |parts| > 1 {
      HashesOfJoin(parts[1..]);
      HashesJoin(parts[0] + ",", JoinWith(parts[1..], ','));
      HashesJoin(parts[0], ",");
    }
  }

  lemma {:induction false} HashesOfSplit(s: string)
    ensures ListHashes(SplitOn(s, ',')) == Hashes(s)
  {
    if s != "" {
      HashesOfSplit(s[1..]);
      var rest := SplitOn(s[1..], ',');
      if s[0] == ',' {
        assert ([""] + rest)[1..] == rest;
      } else {
        assert ([[s[0]] + rest[0]] + rest[1..])[1..] == rest[1..];
        HashesJoin([s[0]], rest[0]);
      }
    }
  }

  lemma StripDropsNoMore(s: string)
    ensures Hashes(Strip(s)) <= Hashes(s)
  {
    var u, core, v := TrimParts(s, IsSpace);
    HashesJoin(u + core, v);
    HashesJoin(u, core);
  }

  /** Place by place no more in the one than in the other. */
  lemma {:induction false} ListHashesBelow(xs: seq<string>, ys: seq<string>)
    requires |xs| == |ys| && forall i | 0 <= i < |xs| :: Hashes(xs[i]) <= Hashes(ys[i])
    ensures ListHashes(xs) <= ListHashes(ys)
  {
    if xs != [] {
      ListHashesBelow(xs[1..], ys[1..]);
    }
  }

  lemma HashesPrinted(xs: seq<string>)
    ensures Hashes(PrintList(xs)) <= ListHashes(xs)
  {
    var joined := JoinWith(Spaced(xs), ',');
    forall i | 0 <= i < |xs| ensures Hashes(Spaced(xs)[i]) <= Hashes(xs[i]) {
      HashesJoin(" ", xs[i]);
    }
    ListHashesBelow(Spaced(xs), xs);
    HashesOfJoin(Spaced(xs));
    HashesJoin("[" + joined, "]");
    HashesJoin("[", joined);
  }

  lemma HashesParsed(raw: string)
    ensures ParseList(raw).Some? ==> ListHashes(ParseList(raw).value) <= Hashes(StripComment(raw))
  {
    var value := Strip(StripComment(raw));
    StripDropsNoMore(StripComment(raw));
    if |value| >= 2 {
      var middle := value[1..|value| - 1];
      assert value == [value[0]] + middle + [value[|value| - 1]];
      HashesJoin([value[0]] + middle, [value[|value| - 1]]);
      HashesJoin([value[0]], middle);
      StripDropsNoMore(middle);
      var parts := SplitOn(Strip(middle), ',');
      HashesOfSplit(Strip(middle));
      forall i | 0 <= i < |parts| { StripDropsNoMore(parts[i]); }
      ListHashesBelow(StripAll(parts), parts);
    }
  }

  lemma {:induction false} CommentHasHash(s: string)
    ensures StripComment(s) != s ==> Hashes(StripComment(s)) < Hashes(s)
  {
    if s != "" {
      if |s| >= 2 && s[0] == ' ' && s[1] == '#' {
        assert s[1..][0] == '#';
      } else {
        CommentHasHash(s[1..]);
      }
    }
  }

  // --- Items that are read ------------------------------------------------------------

  lemma StrippedPart(part: string)
    requires ',' !in part
    ensures PlainItem(Strip(part))
  {
    StripIsTrimmed(part);
    var u, core, v := TrimParts(part, IsSpace);
    assert forall x | x in core :: x in part;
  }

  lemma ReadItemsArePlain(s: string)
    ensures forall x | x in StripAll(SplitOn(s, ',')) :: PlainItem(x)
  {
    var parts := SplitOn(s, ',');
    SplitPartsFree(s, ',');
    forall i | 0 <= i < |parts| { StrippedPart(parts[i]); }
  }

  lemma OneEmptyItemIsLost()
    ensures ParseList(PrintList([""])) != Some([""])
  {
    assert Spaced([""]) == [""];
    BracketsRead(PrintList([""]), "");
    TrimTrimmed("", IsSpace);
  }

  lemma SurvivorHasNoComment(xs: seq<string>)
    requires ParseList(PrintList(xs)) == Some(xs)
    ensures NoComment(PrintList(xs))
  {
    HashesParsed(PrintList(xs));
    HashesPrinted(xs);
    CommentHasHash(PrintList(xs));
    NoCommentKept(PrintList(xs));
  }

  lemma SurvivorIsPlain(xs: seq<string>, joined: string)
    requires PrintList(xs) == "[" + joined + "]" && NoComment(PrintList(xs))
    requires ParseList(PrintList(xs)) == Some(xs)
    ensures forall x | x in xs :: PlainItem(x)
  {
    BracketsRead(PrintList(xs), joined);
    ReadItemsArePlain(Strip(joined));
  }

  /** A list comes back from its print exactly when it is plain. */
  lemma ListSurvivesExactly(xs: seq<string>)
    ensures ParseList(PrintList(xs)) == Some(xs) <==> PlainList(xs)
  {
    if PlainList(xs) {
      ListRoundTrip(xs);
    } else if ParseList(PrintList(xs)) == Some(xs) {
      SurvivorHasNoComment(xs);
      SurvivorIsPlain(xs, JoinWith(Spaced(xs), ','));
      OneEmptyItemIsLost();
    }
  }
}
