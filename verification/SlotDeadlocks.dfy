/**
 When the slot protocol locks itself up, whatever its callers do: a set of waiting processes
 none of which can be served before another of the set has ended. Such a knot lasts for ever,
 and nothing else can hold a run up.
 */
module SlotDeadlocks {
  import opened Wrappers
  import opened SlotProtocol
  import opened SlotLaws

  /** It waits for its file without a time limit. */
  predicate Blocked(s: State, p: nat) {
    p < |s| && s[p].phase.Waiting? && !GivesUp(s[p].kind)
  }

  /** The file that `p` waits for is held by an ancestor of `w`. */
  ghost predicate HeldAbove(s: State, p: nat, w: nat)
    requires p < |s|
  {
    exists h | 0 <= h < |s| :: Ancestor(s, h, w) && s[h].held == Some(File(s[p].kind))
  }

  /** `p` waits for a file that is not given back before one of `waiters` has ended. */
  ghost predicate HeldUp(s: State, p: nat, waiters: set<nat>) {
    Blocked(s, p) && exists w | w in waiters :: HeldAbove(s, p, w)
  }

  /** Each of `waiters` is held up by one of them. */
  ghost predicate Knot(s: State, waiters: set<nat>) {
    waiters != {} && forall p {:trigger HeldUp(s, p, waiters)} | p in waiters :: HeldUp(s, p, waiters)
  }

  ghost predicate Knotted(s: State) { exists waiters :: Knot(s, waiters) }

  /** A process waits for a file that one of its own ancestors holds. */
  ghost predicate SelfWait(s: State, p: nat) { Blocked(s, p) && HeldAbove(s, p, p) }

  ghost predicate SomeSelfWait(s: State) { exists p :: SelfWait(s, p) }

  lemma WhoHoldsUp(s: State, waiters: set<nat>, p: nat) returns (w: nat)
    requires Knot(s, waiters) && p in waiters
    ensures w in waiters && Blocked(s, p) && HeldAbove(s, p, w)
  {
    assert HeldUp(s, p, waiters);
    w :| w in waiters && HeldAbove(s, p, w);
  }

  predicate AllEnded(s: State) { forall p | 0 <= p < |s| :: !Live(s[p]) }

  // --- A knot is for ever -------------------------------------------------------------

  /** The child of `a` on the way down to a live `p`. */
  lemma {:induction false} ChildOnTheWay(s: State, a: nat, p: nat, n: nat) returns (c: nat)
    requires Inv(s, n) && Ancestor(s, a, p) && Live(s[p])
    ensures c < |s| && s[c].parent == Some(a) && Live(s[c])
    decreases p
  {
    assert Placed(s, p);
    if a == s[p].parent.value {
      c := p;
    } else {
      c := ChildOnTheWay(s, a, s[p].parent.value, n);
    }
  }

  lemma HolderCannotStep(s: State, e: Event, n: nat, h: nat, w: nat)
    requires Inv(s, n) && Enabled(s, e, n) && !e.Spawn?
    requires h < |s| && s[h].held.Some? && Ancestor(s, h, w) && Live(s[w])
    ensures e.p != h
  {
    assert Sound(s[h], n);
    var c := ChildOnTheWay(s, h, w, n);
  }

  lemma WaiterCannotStep(s: State, e: Event, n: nat, p: nat)
    requires Enabled(s, e, n) && !e.Spawn? && Blocked(s, p) && !Free(s, File(s[p].kind))
    ensures e.p != p
  {}

  /** A step of another, or a spawn, leaves a process and who is above it as they are. */
  lemma OthersStay(s: State, e: Event, n: nat, p: nat)
    requires Enabled(s, e, n) && p < |s| && (e.Spawn? || e.p != p)
    ensures var t := Apply(s, e, n); |s| <= |t| && t[p] == s[p]
  {}

  lemma ParentsStay(s: State, e: Event, n: nat, h: nat, w: nat)
    requires Inv(s, n) && Enabled(s, e, n) && Ancestor(s, h, w)
    ensures Ancestor(Apply(s, e, n), h, w)
  {
    if !e.Spawn? {
      SteppedIsSound(s, e, n);
    }
    SameAncestors(s, Apply(s, e, n), h, w);
  }

  lemma HeldUpIsKept(s: State, e: Event, n: nat, p: nat, w: nat)
    requires Inv(s, n) && Enabled(s, e, n)
    requires Blocked(s, p) && Blocked(s, w) && HeldAbove(s, p, w)
    ensures Blocked(Apply(s, e, n), p) && HeldAbove(Apply(s, e, n), p, w)
  {
    var h :| 0 <= h < |s| && Ancestor(s, h, w) && s[h].held == Some(File(s[p].kind));
    if !e.Spawn? {
      HolderCannotStep(s, e, n, h, w);
      WaiterCannotStep(s, e, n, p);
    }
    OthersStay(s, e, n, p);
    OthersStay(s, e, n, h);
    ParentsStay(s, e, n, h, w);
  }

  lemma StillHeldUp(s: State, e: Event, n: nat, waiters: set<nat>, p: nat)
    requires Inv(s, n) && Knot(s, waiters) && Enabled(s, e, n) && p in waiters
    ensures HeldUp(Apply(s, e, n), p, waiters)
  {
    var w := WhoHoldsUp(s, waiters, p);
    var next := WhoHoldsUp(s, waiters, w);
    HeldUpIsKept(s, e, n, p, w);
  }

  lemma KnotIsKept(s: State, e: Event, n: nat, waiters: set<nat>)
    requires Inv(s, n) && Knot(s, waiters) && Enabled(s, e, n)
    ensures Knot(Apply(s, e, n), waiters)
  {
    forall p | p in waiters { StillHeldUp(s, e, n, waiters, p); }
  }

  /** What every event keeps, every run keeps. */
  lemma {:induction false} KeptByRun(s: State, events: seq<Event>, t: State, n: nat, kept: State -> bool)
    requires Inv(s, n) && kept(s) && Leads(s, events, t, n)
    requires forall u: State, e | Inv(u, n) && kept(u) && Enabled(u, e, n) :: kept(Apply(u, e, n))
    ensures kept(t)
    decreases |events|
  {
    if events != [] {
      EventKeeps(s, events[0], n);
      KeptByRun(Apply(s, events[0], n), events[1..], t, n, kept);
    }
  }

  /** A knot persists through every continuation, whatever is started meanwhile. */
  lemma KnotIsForEver(s: State, events: seq<Event>, t: State, n: nat, waiters: set<nat>)
    requires Inv(s, n) && Knot(s, waiters) && Leads(s, events, t, n)
    ensures Knot(t, waiters)
  {
    forall u: State, e | Inv(u, n) && Knot(u, waiters) && Enabled(u, e, n)
      ensures Knot(Apply(u, e, n), waiters)
    {
      KnotIsKept(u, e, n, waiters);
    }
    KeptByRun(s, events, t, n, (u: State) => Knot(u, waiters));
  }

  lemma SelfWaitIsKnot(s: State, p: nat)
    ensures SelfWait(s, p) <==> Knot(s, {p})
  {
    if Knot(s, {p}) {
      assert HeldUp(s, p, {p});
    }
  }

  /** So does a process that waits for its own ancestor: neither of the two ever ends. */
  lemma SelfWaitIsForEver(s: State, events: seq<Event>, t: State, n: nat, p: nat)
    requires Inv(s, n) && SelfWait(s, p) && Leads(s, events, t, n)
    ensures SelfWait(t, p)
  {
    SelfWaitIsKnot(s, p);
    KnotIsForEver(s, events, t, n, {p});
    SelfWaitIsKnot(t, p);
  }

  /** So from there on no run ends everything. */
  lemma SelfWaitNeverEnds(s: State, n: nat, p: nat)
    requires Inv(s, n) && SelfWait(s, p)
    ensures forall events, t | Leads(s, events, t, n) :: SelfWait(t, p) && !AllEnded(t)
  {
    forall events, t | Leads(s, events, t, n) ensures SelfWait(t, p) && !AllEnded(t) {
      SelfWaitIsForEver(s, events, t, n, p);
    }
  }

  // --- Nothing else holds a run up ----------------------------------------------------

  /** Above a child is above everything below it. */
  lemma {:induction false} AboveTheChild(s: State, a: nat, c: nat, p: nat)
    requires c < |s| && s[c].parent == Some(a) && a < c && Ancestor(s, c, p)
    ensures Ancestor(s, a, p)
    decreases p
  {
    if c != s[p].parent.value {
      AboveTheChild(s, a, c, s[p].parent.value);
    }
  }

  /** At or below a live process there is a possible step, or one blocked on its file. */
  lemma {:induction false} NextBelow(s: State, p: nat, n: nat) returns (e: Event)
    requires Inv(s, n) && p < |s| && Live(s[p])
    ensures !e.Spawn? && e.p < |s| && (e.p == p || Ancestor(s, p, e.p))
    ensures Enabled(s, e, n) || (e.Grant? && Blocked(s, e.p) && (s[p].phase.Body? ==> e.p != p))
    decreases |s| - p
  {
    assert Sound(s[p], n);
    match s[p].phase
    case Started => e := Start(p);
    case Scanning(_) => e := Try(p);
    case Waiting => e := if GivesUp(s[p].kind) then GiveUp(p) else Grant(p);
    case Body =>
      e := Finish(p);
      if !Enabled(s, e, n) {
        var c :| 0 <= c < |s| && s[c].parent == Some(p) && Live(s[c]);
        assert Placed(s, c);
        e := NextBelow(s, c, n);
        if e.p != c {
          AboveTheChild(s, p, c, e.p);
        }
      }
  }

  /** Where no own step is possible, every live process has a blocked one at or below it. */
  lemma BlockedBelow(s: State, p: nat, n: nat) returns (w: nat)
    requires Inv(s, n) && Quiet(s, n) && p < |s| && Live(s[p])
    ensures Blocked(s, w) && (w == p || Ancestor(s, p, w))
    ensures s[p].phase.Body? ==> Ancestor(s, p, w)
  {
    var e := NextBelow(s, p, n);
    if Enabled(s, e, n) {
      QuietIsStuck(s, e, n);
    }
    w := e.p;
  }

  function AllBlocked(s: State): set<nat> { set p | 0 <= p < |s| && Blocked(s, p) }

  /** Where no own step is possible and something still lives, the waiting ones are a knot. */
  lemma StuckIsKnot(s: State, n: nat, p: nat)
    requires Inv(s, n) && Quiet(s, n) && p < |s| && Live(s[p])
    ensures Knot(s, AllBlocked(s))
  {
    var first := BlockedBelow(s, p, n);
    assert first in AllBlocked(s);
    forall q | q in AllBlocked(s)
      ensures HeldUp(s, q, AllBlocked(s))
    {
      assert !Enabled(s, Grant(q), n);
      var h :| 0 <= h < |s| && s[h].held == Some(File(s[q].kind));
      assert Sound(s[h], n);
      var w := BlockedBelow(s, h, n);
      assert w in AllBlocked(s) && HeldAbove(s, q, w);
    }
  }

  lemma KnotIsLive(s: State)
    requires Knotted(s)
    ensures !AllEnded(s)
  {
    var waiters :| Knot(s, waiters);
    var p :| p in waiters;
    var w := WhoHoldsUp(s, waiters, p);
  }

  /** Nothing can move and yet not all have ended exactly where there is a knot. */
  lemma QuietHasEndedExactly(s: State, n: nat)
    requires Inv(s, n) && Quiet(s, n)
    ensures AllEnded(s) <==> !Knotted(s)
  {
    if Knotted(s) {
      KnotIsLive(s);
    } else if p :| 0 <= p < |s| && Live(s[p]) {
      StuckIsKnot(s, n, p);
    }
  }

  /**
   A schedule that starts nothing new and runs until nothing can move is finite, and it ends
   everything exactly when no knot has formed on the way.
   */
  lemma QuietRunEndsExactly(s: State, events: seq<Event>, t: State, n: nat)
    requires Inv(s, n) && Leads(s, events, t, n) && NoSpawn(events) && Quiet(t, n)
    ensures |events| <= WorkLeft(s, n)
    ensures AllEnded(t) <==> !Knotted(t)
    ensures Knotted(s) ==> Knotted(t)
  {
    WorkBoundsRun(s, events, t, n);
    RunsKeepInv(s, events, t, n);
    QuietHasEndedExactly(t, n);
    if waiters :| Knot(s, waiters) {
      KnotIsForEver(s, events, t, n, waiters);
    }
  }

  // --- One file -----------------------------------------------------------------------

  /** Whoever waits without a time limit waits for `file`. */
  predicate WaitsOn(s: State, file: nat) {
    forall p | 0 <= p < |s| && Blocked(s, p) :: File(s[p].kind) == file
  }

  lemma SameFileSelfWait(s: State, p: nat, w: nat)
    requires Blocked(s, p) && Blocked(s, w) && File(s[p].kind) == File(s[w].kind) && HeldAbove(s, p, w)
    ensures SelfWait(s, w)
  {}

  lemma TwoOfTheKnot(s: State, waiters: set<nat>) returns (p: nat, w: nat)
    requires Knot(s, waiters)
    ensures Blocked(s, p) && Blocked(s, w) && HeldAbove(s, p, w)
  {
    p :| p in waiters;
    w := WhoHoldsUp(s, waiters, p);
    var next := WhoHoldsUp(s, waiters, w);
  }

  lemma KnotHasSelfWait(s: State, file: nat)
    requires WaitsOn(s, file) && Knotted(s)
    ensures SomeSelfWait(s)
  {
    var waiters :| Knot(s, waiters);
    var p, w := TwoOfTheKnot(s, waiters);
    SameFileSelfWait(s, p, w);
  }

  /** With waits for one file a knot is a process that waits for its own ancestor. */
  lemma KnotIsSelfWait(s: State, file: nat)
    requires WaitsOn(s, file)
    ensures Knotted(s) <==> SomeSelfWait(s)
  {
    if Knotted(s) {
      KnotHasSelfWait(s, file);
    }
    if p :| SelfWait(s, p) {
      SelfWaitIsKnot(s, p);
    }
  }

  /** Where every wrapper's wait times out, only runs wait on, and they wait for slot 1. */
  lemma RunsWaitOnSlotOne(s: State, n: nat)
    requires Inv(s, n) && forall p | 0 <= p < |s| :: s[p].kind.Wrapper? ==> s[p].kind.timesOut
    ensures WaitsOn(s, 1)
  {
    forall p | 0 <= p < |s| && Blocked(s, p) ensures File(s[p].kind) == 1 {
      assert Sound(s[p], n);
    }
  }

  /**
   With waits for one file: some own step is possible while anything lives, or all have
   ended, exactly unless a process waits for its own ancestor.
   */
  lemma StuckExactlyOnSelfWait(s: State, n: nat, file: nat)
    requires Inv(s, n) && WaitsOn(s, file)
    ensures Quiet(s, n) ==> (AllEnded(s) <==> !SomeSelfWait(s))
    ensures !AllEnded(s) && !SomeSelfWait(s) ==> !Quiet(s, n)
  {
    KnotIsSelfWait(s, file);
    if Quiet(s, n) {
      QuietHasEndedExactly(s, n);
    }
  }

  /** Two wrappers that each start a wrapper which waits for the other's file. */
  function Crossed(): State {
    var one, two := Wrapper([], 1, false, false), Wrapper([], 2, false, false);
    [Process(one, None, None, Body, Some(1)), Process(two, None, None, Body, Some(2)),
     Process(two, Some(0), Some(1), Waiting, None), Process(one, Some(1), Some(2), Waiting, None)]
  }

  lemma CrossedAncestors(h: nat, p: nat)
    ensures Ancestor(Crossed(), h, p) <==> (h == 0 && p == 2) || (h == 1 && p == 3)
  {
    var s := Crossed();
    assert s[0].parent == None && s[1].parent == None && s[2].parent == Some(0) && s[3].parent == Some(1);
  }

  lemma CrossedIsSound()
    ensures Inv(Crossed(), 1)
  {
    var s := Crossed();
    forall p | 0 <= p < |s| ensures Sound(s[p], 1) && Placed(s, p) {
      assert p == 0 || p == 1 || p == 2 || p == 3;
    }
  }

  /** With two files a knot needs no process that waits for its own ancestor. */
  lemma KnotAcrossTwoFiles()
    ensures Inv(Crossed(), 1) && Knot(Crossed(), {2, 3}) && !SomeSelfWait(Crossed())
  {
    var s := Crossed();
    CrossedIsSound();
    CrossedAncestors(0, 2);
    CrossedAncestors(1, 3);
    assert s[0].held == Some(File(s[3].kind)) && s[1].held == Some(File(s[2].kind));
    assert HeldAbove(s, 2, 3) && HeldAbove(s, 3, 2);
    assert HeldUp(s, 2, {2, 3}) && HeldUp(s, 3, {2, 3});
    if p: nat :| SelfWait(s, p) {
      var h :| 0 <= h < |s| && Ancestor(s, h, p) && s[h].held == Some(File(s[p].kind));
      CrossedAncestors(h, p);
      assert false;
    }
  }
}
