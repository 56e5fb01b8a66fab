/** Left-to-right scanning for things that carry their own place and length, as `finditer` does. */
module LeftmostScan {
  import opened Wrappers

  /** What `here` finds, from left to right, each from behind the one before. */
  function Scanned<T>(here: (nat, string) -> Option<T>, size: T -> nat, at: nat, rest: string): seq<T>
    decreases |rest|
  {
    if rest == "" then []
    else
      var found := here(at, rest);
      if found.Some? && 0 < size(found.value) <= |rest| then
        [found.value] + Scanned(here, size, at + size(found.value), rest[size(found.value)..])
      else Scanned(here, size, at + 1, rest[1..])
  }

  /** Each is the leftmost one behind the one before, and behind the last there is none. */
  ghost predicate Leftmost<T(!new)>(holds: T -> bool, place: T -> nat, size: T -> nat, from: nat, xs: seq<T>)
    decreases |xs|
  {
    if xs == [] then forall x | holds(x) :: place(x) < from
    else
      && holds(xs[0]) && place(xs[0]) >= from
      && (forall x | holds(x) :: place(x) < from || place(x) >= place(xs[0]))
      && Leftmost(holds, place, size, place(xs[0]) + size(xs[0]), xs[1..])
  }

  /** `here` finds at each place of the line exactly what is there. */
  ghost predicate Recognises<T(!new)>(
      here: (nat, string) -> Option<T>, holds: T -> bool, place: T -> nat, size: T -> nat, line: string) {
    && (forall x | holds(x) :: place(x) < |line|)
    && (forall at: nat, rest | at <= |line| && rest == line[at..] ::
          FindsAt(here(at, rest), holds, place, size, at, |rest|))
  }

  /** What is found at a place: the one thing there, or nothing if there is none. */
  ghost predicate FindsAt<T(!new)>(
      found: Option<T>, holds: T -> bool, place: T -> nat, size: T -> nat, at: nat, most: nat) {
    if found.None? then forall x | holds(x) :: place(x) != at
    else
      && holds(found.value) && place(found.value) == at && 0 < size(found.value) <= most
      && forall x | holds(x) && place(x) == at :: x == found.value
  }

  lemma {:induction false} ScannedIsLeftmost<T(!new)>(
      here: (nat, string) -> Option<T>, holds: T -> bool, place: T -> nat, size: T -> nat,
      line: string, at: nat, rest: string)
    requires Recognises(here, holds, place, size, line) && at <= |line| && rest == line[at..]
    ensures Leftmost(holds, place, size, at, Scanned(here, size, at, rest))
    decreases |rest|
  {
    if rest != "" {
      var found := here(at, rest);
      assert FindsAt(found, holds, place, size, at, |rest|);
      var k := if found.Some? then size(found.value) else 1;
      assert rest[k..] == line[at + k..];
      ScannedIsLeftmost(here, holds, place, size, line, at + k, rest[k..]);
      if found.Some? {
        assert ([found.value] + Scanned(here, size, at + k, rest[k..]))[1..] == Scanned(here, size, at + k, rest[k..]);
      }
    }
  }

  lemma {:induction false} OneLeftmost<T(!new)>(
      holds: T -> bool, place: T -> nat, size: T -> nat, from: nat, a: seq<T>, b: seq<T>)
    requires forall x, y | holds(x) && holds(y) && place(x) == place(y) :: x == y
    requires Leftmost(holds, place, size, from, a) && Leftmost(holds, place, size, from, b)
    ensures a == b
    decreases |a|
  {
    if a != [] && b != [] {
      assert place(a[0]) == place(b[0]);
      OneLeftmost(holds, place, size, place(a[0]) + size(a[0]), a[1..], b[1..]);
      assert a == [a[0]] + a[1..] && b == [b[0]] + b[1..];
    }
  }

  lemma OneAPlace<T(!new)>(
      here: (nat, string) -> Option<T>, holds: T -> bool, place: T -> nat, size: T -> nat, line: string, x: T, y: T)
    requires Recognises(here, holds, place, size, line) && holds(x) && holds(y) && place(x) == place(y)
    ensures x == y
  {
    var at := place(x);
    assert FindsAt(here(at, line[at..]), holds, place, size, at, |line[at..]|);
  }

  /** The scan of a line is the one leftmost reading of it. */
  lemma ScannedExactly<T(!new)>(
      here: (nat, string) -> Option<T>, holds: T -> bool, place: T -> nat, size: T -> nat, line: string, xs: seq<T>)
    requires Recognises(here, holds, place, size, line)
    ensures Scanned(here, size, 0, line) == xs <==> Leftmost(holds, place, size, 0, xs)
  {
    assert line[0..] == line;
    ScannedIsLeftmost(here, holds, place, size, line, 0, line);
    if Leftmost(holds, place, size, 0, xs) {
      forall x, y | holds(x) && holds(y) && place(x) == place(y) ensures x == y {
        OneAPlace(here, holds, place, size, line, x, y);
      }
      OneLeftmost(holds, place, size, 0, xs, Scanned(here, size, 0, line));
    }
  }
}
