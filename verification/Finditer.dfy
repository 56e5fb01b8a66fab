/** Left-to-right scanning for any pattern, given by the length it matches at a place. */
module Finditer {
  import opened Text

  datatype Hit = Hit(at: nat, text: string)

  predicate Spaces(s: string) { forall i | 0 <= i < |s| :: IsSpace(s[i]) }

  /** How far the scan goes in one step: over a match, or over one character. */
  function StepLength(f: (string, string) -> nat, before: string, rest: string): (m: nat)
    requires rest != ""
    ensures 0 < m <= |rest|
  {
    var k := f(before, rest);
    if 0 < k <= |rest| then k else 1
  }

  function Found(f: (string, string) -> nat, before: string, rest: string): seq<Hit>
    decreases |rest|
  {
    if rest == "" then []
    else
      var m := StepLength(f, before, rest);
      (if 0 < f(before, rest) <= |rest| then [Hit(|before|, rest[..m])] else [])
      + Found(f, before + rest[..m], rest[m..])
  }

  function Shifted(hits: seq<Hit>, d: nat): (r: seq<Hit>)
    ensures |r| == |hits| && forall k | 0 <= k < |hits| :: r[k] == Hit(hits[k].at + d, hits[k].text)
  {
    if hits == [] then [] else [Hit(hits[0].at + d, hits[0].text)] + Shifted(hits[1..], d)
  }

  lemma FoundStep(f: (string, string) -> nat, before: string, rest: string, k: nat)
    requires rest != "" && k == f(before, rest) <= |rest|
    ensures var m := if k > 0 then k else 1;
      var later := Found(f, before + rest[..m], rest[m..]);
      Found(f, before, rest) == if k > 0 then [Hit(|before|, rest[..m])] + later else later
  {}

  lemma ShiftedStep(h: Hit, hits: seq<Hit>, d: nat)
    ensures Shifted([h] + hits, d) == [Hit(h.at + d, h.text)] + Shifted(hits, d)
  {
    assert ([h] + hits)[1..] == hits;
  }

  ghost predicate IgnoresLeft(f: (string, string) -> nat, u: string) {
    forall b, r {:trigger f(u + b, r)} :: f(u + b, r) == f(b, r) && f(b, r) <= |r|
  }

  /** A longer past that the pattern does not look at only shifts the hits. */
  lemma {:induction false} FoundShifted(f: (string, string) -> nat, u: string, before: string, rest: string)
    requires IgnoresLeft(f, u)
    ensures Found(f, u + before, rest) == Shifted(Found(f, before, rest), |u|)
    decreases |rest|
  {
    if rest != "" {
      var k := f(u + before, rest);
      assert k == f(before, rest) <= |rest|;
      var m := if k > 0 then k else 1;
      FoundStep(f, u + before, rest, k);
      FoundStep(f, before, rest, k);
      assert u + before + rest[..m] == u + (before + rest[..m]);
      FoundShifted(f, u, before + rest[..m], rest[m..]);
      if k > 0 {
        ShiftedStep(Hit(|before|, rest[..m]), Found(f, before + rest[..m], rest[m..]), |u|);
      }
    }
  }

  /** Leading blanks hold no hit of a pattern that matches none. */
  lemma {:induction false} FoundAfterSpaces(f: (string, string) -> nat, before: string, u: string, rest: string)
    requires Spaces(u) && forall b, r | r != "" && IsSpace(r[0]) :: f(b, r) == 0
    ensures Found(f, before, u + rest) == Found(f, before + u, rest)
    decreases |u|
  {
    var text := u + rest;
    if u == "" {
      assert text == rest && before + u == before;
    } else {
      assert text[0] == u[0] && IsSpace(text[0]);
      assert text[..1] == u[..1] && text[1..] == u[1..] + rest;
      FoundAfterSpaces(f, before + u[..1], u[1..], rest);
      assert before + u[..1] + u[1..] == before + u;
    }
  }

  ghost predicate IgnoresRight(f: (string, string) -> nat, v: string) {
    forall b, r {:trigger f(b, r + v)} | r != "" :: f(b, r + v) == f(b, r) && f(b, r) <= |r|
  }

  ghost predicate FindsNothing(f: (string, string) -> nat, v: string) { forall b :: Found(f, b, v) == [] }

  /** Trailing text the pattern does not look at changes no hit. */
  lemma {:induction false} FoundBefore(f: (string, string) -> nat, before: string, rest: string, v: string)
    requires IgnoresRight(f, v) && FindsNothing(f, v)
    ensures Found(f, before, rest + v) == Found(f, before, rest)
    decreases |rest|
  {
    var text := rest + v;
    if rest == "" {
      assert text == v;
    } else {
      var m := StepLength(f, before, rest);
      assert f(before, text) == f(before, rest);
      assert text[..m] == rest[..m] && text[m..] == rest[m..] + v;
      FoundBefore(f, before + rest[..m], rest[m..], v);
    }
  }
}
