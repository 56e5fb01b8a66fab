/** Line loops that toggle on fence markers: what both documentation scanners run. */
module LineScan {

  /** The number of markers among the first `n` lines: odd inside a fence. */
  function Markers(lines: seq<string>, marker: string -> bool, n: nat): nat
    requires n <= |lines|
  {
    if n == 0 then 0 else Markers(lines, marker, n - 1) + if marker(lines[n - 1]) then 1 else 0
  }

  /** A marker, or a line between an opening marker and its closing one. */
  predicate Hidden(lines: seq<string>, marker: string -> bool, i: nat)
    requires i < |lines|
  {
    marker(lines[i]) || Markers(lines, marker, i) % 2 == 1
  }

  /** What the first `n` lines give, numbered from one, hidden lines giving nothing. */
  function Visible<T>(lines: seq<string>, marker: string -> bool, f: (string, nat) -> seq<T>, n: nat): seq<T>
    requires n <= |lines|
  {
    if n == 0 then []
    else
      Visible(lines, marker, f, n - 1) + if Hidden(lines, marker, n - 1) then [] else f(lines[n - 1], n)
  }

  /** What line `i` gives: nothing if it is hidden. */
  function Part<T>(lines: seq<string>, marker: string -> bool, f: (string, nat) -> seq<T>, i: nat): seq<T>
    requires i < |lines|
  {
    if Hidden(lines, marker, i) then [] else f(lines[i], i + 1)
  }

  /** A reading of lists that respects joining may be done line by line. */
  lemma {:induction false} VisibleThrough<T(!new), K>(
      lines: seq<string>, marker: string -> bool, f: (string, nat) -> seq<T>, g: seq<T> -> seq<K>,
      fg: (string, nat) -> seq<K>, n: nat)
    requires n <= |lines| && g([]) == [] && forall a, b {:trigger g(a + b)} :: g(a + b) == g(a) + g(b)
    requires forall line, k :: fg(line, k) == g(f(line, k))
    ensures g(Visible(lines, marker, f, n)) == Visible(lines, marker, fg, n)
  {
    if n > 0 {
      VisibleThrough(lines, marker, f, g, fg, n - 1);
      assert g(Visible(lines, marker, f, n - 1) + Part(lines, marker, f, n - 1))
          == g(Visible(lines, marker, f, n - 1)) + g(Part(lines, marker, f, n - 1));
    }
  }

  /** Every item carries the number of its line. */
  ghost predicate NumbersLines<T(!new)>(f: (string, nat) -> seq<T>, number: T -> nat) {
    forall line, k, x | x in f(line, k) :: number(x) == k
  }

  lemma {:induction false} VisibleNumbers<T(!new)>(
      lines: seq<string>, marker: string -> bool, f: (string, nat) -> seq<T>, number: T -> nat, n: nat)
    requires n <= |lines| && NumbersLines(f, number)
    ensures forall x | x in Visible(lines, marker, f, n) :: number(x) <= n
  {
    if n > 0 {
      VisibleNumbers(lines, marker, f, number, n - 1);
    }
  }

  lemma SplitByNumber<T(!new)>(a: seq<T>, x: seq<T>, b: seq<T>, y: seq<T>, number: T -> nat, n: nat)
    requires (forall t | t in a :: number(t) < n) && (forall t | t in b :: number(t) < n)
    requires (forall t | t in x :: number(t) == n) && (forall t | t in y :: number(t) == n)
    ensures a + x == b + y <==> a == b && x == y
  {
    var s := a + x;
    if s == b + y {
      assert forall i | 0 <= i < |a| :: s[i] == a[i] && number(s[i]) < n;
      assert forall i | 0 <= i < |b| :: s[i] == b[i] && number(s[i]) < n;
      assert |a| < |s| ==> s[|a|] == x[0] && number(s[|a|]) == n;
      assert |b| < |s| ==> s[|b|] == y[0] && number(s[|b|]) == n;
      assert a == s[..|a|] && b == s[..|a|] && x == s[|a|..] && y == s[|a|..];
    }
  }

  /** Two scans of a file give the same exactly when each line gives the same. */
  lemma {:induction false} SameByLine<T(!new)>(
      lines: seq<string>, m1: string -> bool, f1: (string, nat) -> seq<T>,
      m2: string -> bool, f2: (string, nat) -> seq<T>, number: T -> nat, n: nat)
    requires n <= |lines| && NumbersLines(f1, number) && NumbersLines(f2, number)
    ensures Visible(lines, m1, f1, n) == Visible(lines, m2, f2, n) <==>
      forall i | 0 <= i < n :: Part(lines, m1, f1, i) == Part(lines, m2, f2, i)
  {
    if n > 0 {
      SameByLine(lines, m1, f1, m2, f2, number, n - 1);
      VisibleNumbers(lines, m1, f1, number, n - 1);
      VisibleNumbers(lines, m2, f2, number, n - 1);
      SplitByNumber(Visible(lines, m1, f1, n - 1), Part(lines, m1, f1, n - 1),
                    Visible(lines, m2, f2, n - 1), Part(lines, m2, f2, n - 1), number, n);
    }
  }

  /** The sum over the first `n` lines that are no markers, hidden or not. */
  function Tallied(lines: seq<string>, marker: string -> bool, g: string -> nat, n: nat): nat
    requires n <= |lines|
  {
    if n == 0 then 0
    else Tallied(lines, marker, g, n - 1) + if marker(lines[n - 1]) then 0 else g(lines[n - 1])
  }

  /** One pass with the fence toggle: the tally of all lines, the yield of the visible ones. */
  method ScanLines<T>(lines: seq<string>, marker: string -> bool, g: string -> nat, f: (string, nat) -> seq<T>)
    returns (total: nat, out: seq<T>)
    ensures total == Tallied(lines, marker, g, |lines|)
    ensures out == Visible(lines, marker, f, |lines|)
  {
    total, out := 0, [];
    var inFence := false;
    for i := 0 to |lines|
      invariant inFence <==> Markers(lines, marker, i) % 2 == 1
      invariant total == Tallied(lines, marker, g, i) && out == Visible(lines, marker, f, i)
    {
      if marker(lines[i]) {
        inFence := !inFence;
      } else {
        total := total + g(lines[i]);
        if !inFence {
          out := out + f(lines[i], i + 1);
        }
      }
    }
  }

  /** The numbers of the hidden lines. */
  method HiddenLines(lines: seq<string>, marker: string -> bool) returns (out: set<nat>)
    ensures out == set i: nat | i < |lines| && Hidden(lines, marker, i)
  {
    out := {};
    var inFence := false;
    for i := 0 to |lines|
      invariant out == set j: nat | j < i && Hidden(lines, marker, j)
      invariant inFence <==> Markers(lines, marker, i) % 2 == 1
    {
      if marker(lines[i]) {
        inFence := !inFence;
        out := out + {i};
      } else if inFence {
        out := out + {i};
      }
    }
  }
}
