/** A loop that reads line after line into a state and stops at the first line refused. */
module LineFold {
  import opened Wrappers

  datatype Stop<C> = Stop(line: nat, cause: C)

  /** What the first `n` lines make of the state. */
  function Folded<B, C>(lines: seq<string>, n: nat, step: (B, string) -> Result<B, C>, start: B): Result<B, Stop<C>>
    requires n <= |lines|
  {
    if n == 0 then Success(start)
    else
      match Folded(lines, n - 1, step, start)
      case Failure(e) => Failure(e)
      case Success(b) =>
        match step(b, lines[n - 1])
        case Failure(c) => Failure(Stop(n - 1, c))
        case Success(after) => Success(after)
  }

  lemma {:induction false} FailureStays<B, C>(
      lines: seq<string>, n: nat, m: nat, step: (B, string) -> Result<B, C>, start: B)
    requires n <= m <= |lines| && Folded(lines, n, step, start).Failure?
    ensures Folded(lines, m, step, start) == Folded(lines, n, step, start)
  {
    if n < m {
      FailureStays(lines, n, m - 1, step, start);
    }
  }

  method Fold<B, C>(lines: seq<string>, step: (B, string) -> Result<B, C>, start: B) returns (r: Result<B, Stop<C>>)
    ensures r == Folded(lines, |lines|, step, start)
  {
    var state := start;
    for offset := 0 to |lines|
      invariant Folded(lines, offset, step, start) == Success(state)
    {
      match step(state, lines[offset]) {
        case Failure(c) =>
          FailureStays(lines, offset + 1, |lines|, step, start);
          return Failure(Stop(offset, c));
        case Success(after) =>
          state := after;
      }
    }
    return Success(state);
  }

  /** No line before `n` offends. */
  ghost predicate Clean(offends: nat -> bool, n: nat) { forall j: nat | j < n :: !offends(j) }

  /** The verdict on `n` lines: a state that says them, or the first line that offends. */
  ghost predicate Verdict<B, C>(r: Result<B, Stop<C>>, says: (B, nat) -> bool, offends: nat -> bool, n: nat) {
    match r
    case Failure(e) => e.line < n && offends(e.line) && Clean(offends, e.line)
    case Success(b) => says(b, n) && Clean(offends, n)
  }

  /** The verdict on one more line, line `k`. */
  ghost predicate OneMore<B, C>(r: Result<B, C>, says: (B, nat) -> bool, offends: nat -> bool, k: nat) {
    if r.Failure? then offends(k) else !offends(k) && says(r.value, k + 1)
  }

  /** A step that refuses exactly the offending lines makes a fold that stops at the first of them. */
  lemma {:induction false} FoldedExactly<B(!new), C(!new)>(
      lines: seq<string>, n: nat, step: (B, string) -> Result<B, C>, start: B,
      says: (B, nat) -> bool, offends: nat -> bool)
    requires n <= |lines| && says(start, 0)
    requires forall b, k: nat | k < |lines| && says(b, k) :: OneMore(step(b, lines[k]), says, offends, k)
    ensures Verdict(Folded(lines, n, step, start), says, offends, n)
  {
    if n > 0 {
      FoldedExactly(lines, n - 1, step, start, says, offends);
    }
  }

  /** A fold whose every step succeeds. */
  lemma {:induction false} FoldedAlong<B, C>(
      lines: seq<string>, n: nat, step: (B, string) -> Result<B, C>, start: B, state: nat -> B)
    requires n <= |lines| && state(0) == start
    requires forall k: nat | k < n :: step(state(k), lines[k]) == Success(state(k + 1))
    ensures Folded(lines, n, step, start) == Success(state(n))
  {
    if n > 0 {
      FoldedAlong(lines, n - 1, step, start, state);
    }
  }

  /** A fold fails at a line if and only if the lines before it are read and that one is refused. */
  lemma {:induction false} StoppedExactly<B, C>(
      lines: seq<string>, n: nat, step: (B, string) -> Result<B, C>, start: B, i: nat, cause: C)
    requires n <= |lines|
    ensures Folded(lines, n, step, start) == Failure(Stop(i, cause)) <==>
      && i < n && Folded(lines, i, step, start).Success?
      && step(Folded(lines, i, step, start).value, lines[i]) == Failure(cause)
  {
    if n > 0 {
      StoppedExactly(lines, n - 1, step, start, i, cause);
      if i < n && Folded(lines, n - 1, step, start).Failure? {
        FailuresAlike(lines, i, n - 1, step, start);
      }
    }
  }

  lemma FailuresAlike<B, C>(lines: seq<string>, n: nat, m: nat, step: (B, string) -> Result<B, C>, start: B)
    requires n <= m <= |lines|
    ensures Folded(lines, n, step, start).Failure? ==>
      Folded(lines, m, step, start) == Folded(lines, n, step, start)
  {
    if Folded(lines, n, step, start).Failure? {
      FailureStays(lines, n, m, step, start);
    }
  }
}
