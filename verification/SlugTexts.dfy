/** The slug of a migrated path, on its characters: the last component without its id prefix. */
module SlugTexts {
  import opened ControlPaths
  import opened Text
  import opened TextLaws
  import opened Wrappers

  predicate CountsForNothing(part: string) { part == "" || part == "." }

  /** The components of the path, the last one that counts being `name`; none if `name` is empty. */
  ghost predicate EndsInName(parts: seq<string>, name: string) {
    if name == "" then forall i | 0 <= i < |parts| :: CountsForNothing(parts[i])
    else exists i :: IsLastName(parts, name, i)
  }

  ghost predicate IsLastName(parts: seq<string>, name: string, i: int) {
    && 0 <= i < |parts| && parts[i] == name && !CountsForNothing(name)
    && forall j | i < j < |parts| :: CountsForNothing(parts[j])
  }

  ghost predicate PathOf(path: string, parts: seq<string>) {
    |parts| > 0 && JoinWith(parts, '/') == path && forall i | 0 <= i < |parts| :: '/' !in parts[i]
  }

  lemma {:induction false} LastComponentFound(parts: seq<string>)
    ensures EndsInName(parts, LastComponent(parts))
  {
    if parts != [] {
      var init, last := parts[..|parts| - 1], parts[|parts| - 1];
      if CountsForNothing(last) {
        LastComponentFound(init);
        var name := LastComponent(init);
        assert forall j | 0 <= j < |init| :: parts[j] == init[j];
        if name != "" {
          var i :| IsLastName(init, name, i);
          assert IsLastName(parts, name, i);
        }
      } else {
        assert IsLastName(parts, last, |parts| - 1);
      }
    }
  }

  lemma OneLastName(parts: seq<string>, a: string, b: string)
    requires EndsInName(parts, a) && EndsInName(parts, b)
    ensures a == b
  {
    if a != "" && b != "" {
      var i :| IsLastName(parts, a, i);
      var j :| IsLastName(parts, b, j);
    }
  }

  /** The base name is the last component that counts. */
  lemma BaseNameExactly(path: string, name: string)
    ensures BaseName(path) == name <==> exists parts :: PathOf(path, parts) && EndsInName(parts, name)
  {
    var parts := SplitOn(path, '/');
    SplitExactly(path, '/', parts);
    LastComponentFound(parts);
    if ps :| PathOf(path, ps) && EndsInName(ps, name) {
      SplitExactly(path, '/', ps);
      OneLastName(parts, name, LastComponent(parts));
    }
  }

  /** Upper-case letters, a hyphen, digits and a hyphen in front of the rest. */
  ghost predicate Prefixed(name: string, rest: string) {
    exists family, number :: IsFamily(family) && IsNumber(number) && name == family + "-" + number + "-" + rest
  }

  ghost predicate IsFamily(family: string) { family != "" && forall i | 0 <= i < |family| :: IsUpper(family[i]) }

  lemma PrefixDropped(family: string, number: string, rest: string)
    requires IsFamily(family) && IsNumber(number)
    ensures DropIdPrefix(family + "-" + number + "-" + rest) == rest
  {
    var name := family + "-" + number + "-" + rest;
    SpanUnique(name, IsUpper, |family|);
    var tail := name[|family| + 1..];
    assert tail == number + "-" + rest;
    SpanUnique(tail, IsDigit, |number|);
    var e := |family| + 1 + |number|;
    assert name[e] == tail[|number|] == '-' && name[e + 1..] == rest;
  }

  lemma DroppedPrefix(name: string)
    ensures DropIdPrefix(name) == name || Prefixed(name, DropIdPrefix(name))
  {
    var u := Span(name, IsUpper);
    if u > 0 && u < |name| && name[u] == '-' {
      var tail := name[u + 1..];
      var d := Span(tail, IsDigit);
      var e := u + 1 + d;
      if d > 0 && e < |name| && name[e] == '-' {
        assert tail[..d] == name[u + 1..e] && IsNumber(tail[..d]) && IsFamily(name[..u]);
        assert name == name[..u] + "-" + name[u + 1..e] + "-" + name[e + 1..];
      }
    }
  }

  /** An id prefix goes if there is one; any other name stays. */
  lemma PrefixExactly(name: string, rest: string)
    ensures DropIdPrefix(name) == rest <==> LosesPrefix(name, rest)
  {
    DroppedPrefix(name);
    forall r ensures Prefixed(name, r) ==> DropIdPrefix(name) == r && |r| < |name| {
      if Prefixed(name, r) {
        var family, number :| IsFamily(family) && IsNumber(number) && name == family + "-" + number + "-" + r;
        PrefixDropped(family, number, r);
      }
    }
  }

  /** The slug: the last component that counts, without its id prefix if it has one. */
  ghost predicate HasSlug(path: string, slug: string) {
    exists parts, name :: PathOf(path, parts) && EndsInName(parts, name) && LosesPrefix(name, slug)
  }

  ghost predicate LosesPrefix(name: string, rest: string) {
    Prefixed(name, rest) || (rest == name && forall r :: !Prefixed(name, r))
  }

  lemma SlugExactly(path: string, slug: string)
    ensures PartSlug(path) == slug <==> HasSlug(path, slug)
  {
    BaseNameExactly(path, BaseName(path));
    PrefixExactly(BaseName(path), slug);
    if parts, name :| PathOf(path, parts) && EndsInName(parts, name) && LosesPrefix(name, slug) {
      BaseNameExactly(path, name);
    }
  }

  /** The part identity of a row: its cell as it stands, blank or not, and the slug only in a table without cells. */
  lemma PartExactly(r: Row, part: string)
    ensures PartText(r) == part <==> r.part == Some(part) || (r.part.None? && HasSlug(r.newPath, part))
  {
    SlugExactly(r.newPath, part);
  }
}
