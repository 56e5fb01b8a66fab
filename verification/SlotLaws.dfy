/**
 What the slot protocol promises over every run, however it is used: the budget holds, every
 subject process in its body is covered by a lock, and scans and spawn-free schedules are short.
 */
module SlotLaws {
  import opened Wrappers
  import opened SlotProtocol

  // --- Safety -------------------------------------------------------------------------

  /** The processes holding one of the slots `1..m`. */
  function Holders(s: State, m: nat): set<nat> {
    set p | 0 <= p < |s| && s[p].held.Some? && 1 <= s[p].held.value <= m
  }

  lemma {:induction false} AtMostOneEach(s: State, m: nat)
    requires Exclusive(s)
    ensures |Holders(s, m)| <= m
  {
    if m == 0 {
      assert Holders(s, 0) == {};
    } else {
      AtMostOneEach(s, m - 1);
      if p :| 0 <= p < |s| && s[p].held == Some(m) {
        assert Holders(s, m) == Holders(s, m - 1) + {p};
      } else {
        assert Holders(s, m) == Holders(s, m - 1);
      }
    }
  }

  /** The runs in their body under a slot of their own. */
  function SelfLocked(s: State): set<nat> {
    set p | 0 <= p < |s| && s[p].phase.Body? && s[p].kind.Run? && s[p].announced.None?
  }

  lemma {:induction false} SubsetSize(a: set<nat>, b: set<nat>)
    requires a <= b
    ensures |a| <= |b|
  {
    if a != {} {
      var x :| x in a;
      SubsetSize(a - {x}, b - {x});
    }
  }

  /**
   Over every run of the protocol: one holder a slot, at most `n` self-locked runs at work,
   and no holder of any lock seeks another.
   */
  lemma BudgetHolds(events: seq<Event>, t: State, n: nat)
    requires n >= 1 && Leads([], events, t, n)
    ensures Exclusive(t) && |SelfLocked(t)| <= n
    ensures forall p | 0 <= p < |t| && t[p].held.Some? :: t[p].phase.Body?
  {
    RunsKeepInv([], events, t, n);
    forall p | 0 <= p < |t| ensures Sound(t[p], n) {}
    forall p | p in SelfLocked(t) ensures p in Holders(t, n) {
      assert Sound(t[p], n);
    }
    SubsetSize(SelfLocked(t), Holders(t, n));
    AtMostOneEach(t, n);
  }

  /** `a` is the parent of `p`, or an ancestor of that parent. */
  ghost predicate Ancestor(s: State, a: nat, p: nat)
    decreases p
  {
    && p < |s| && s[p].parent.Some?
    && var q := s[p].parent.value;
       q < p && (a == q || Ancestor(s, a, q))
  }

  /** An announcement in force names a lock that a wrapper up the tree holds. */
  lemma {:induction false} AnnouncedByAncestor(s: State, p: nat, n: nat) returns (a: nat)
    requires Inv(s, n) && p < |s| && Live(s[p]) && s[p].announced.Some?
    ensures a < |s| && Ancestor(s, a, p)
    ensures s[a].kind.Wrapper? && s[a].phase.Body? && s[a].held == s[p].announced
    decreases p
  {
    assert Placed(s, p);
    var q := s[p].parent.value;
    assert Sound(s[q], n);
    if s[q].kind.Wrapper? && s[q].held.Some? {
      a := q;
    } else {
      a := AnnouncedByAncestor(s, q, n);
    }
  }

  /**
   Every subject process in its body holds a lock or is announced one held above it; and
   one that locks for itself holds one even under an announcement.
   */
  lemma BodyIsCovered(events: seq<Event>, t: State, n: nat, p: nat)
    requires Leads([], events, t, n)
    requires p < |t| && t[p].phase.Body? && !t[p].kind.Exempt?
    ensures t[p].held.Some? ||
      exists a | 0 <= a < |t| :: Ancestor(t, a, p) && t[a].held.Some? && t[a].held == t[p].announced
  {
    RunsKeepInv([], events, t, n);
    assert Sound(t[p], n);
    if t[p].held.None? {
      var a := AnnouncedByAncestor(t, p, n);
    }
  }

  // --- Who is above whom --------------------------------------------------------------

  /** Who is whose ancestor depends on the parents alone. */
  lemma {:induction false} SameAncestors(s: State, t: State, a: nat, p: nat)
    requires p < |s| <= |t| && forall q | 0 <= q < |s| :: t[q].parent == s[q].parent
    ensures Ancestor(s, a, p) <==> Ancestor(t, a, p)
    decreases p
  {
    if s[p].parent.Some? && s[p].parent.value < p {
      SameAncestors(s, t, a, s[p].parent.value);
    }
  }

  lemma {:induction false} AncestorIsEarlier(s: State, a: nat, p: nat)
    requires Ancestor(s, a, p)
    ensures a < p
    decreases p
  {
    if a != s[p].parent.value {
      AncestorIsEarlier(s, a, s[p].parent.value);
    }
  }

  /** Above a live process everyone is in its body. */
  lemma {:induction false} AncestorsAreAtWork(s: State, a: nat, p: nat, n: nat)
    requires Inv(s, n) && p < |s| && Live(s[p]) && Ancestor(s, a, p)
    ensures a < p && s[a].phase.Body?
    decreases p
  {
    assert Placed(s, p);
    if a != s[p].parent.value {
      AncestorsAreAtWork(s, a, s[p].parent.value, n);
    }
  }

  // --- Every run ends -----------------------------------------------------------------

  /** How many steps of its own a process has left. */
  function StepsLeft(me: Process, n: nat): int {
    match me.phase
    case Started => 3 + |Tries(me.kind, n)|
    case Scanning(i) => 2 + |Tries(me.kind, n)| - i
    case Waiting => 2
    case Body => 1
    case Ended => 0
  }

  function WorkLeft(s: State, n: nat): int {
    if s == [] then 0 else WorkLeft(s[..|s| - 1], n) + StepsLeft(s[|s| - 1], n)
  }

  lemma {:induction false} WorkAfterStep(s: State, p: nat, me: Process, n: nat)
    requires p < |s|
    ensures WorkLeft(s[p := me], n) == WorkLeft(s, n) - StepsLeft(s[p], n) + StepsLeft(me, n)
  {
    var last := |s| - 1;
    if p == last {
      assert s[p := me][..last] == s[..last];
    } else {
      assert s[p := me][..last] == s[..last][p := me];
      WorkAfterStep(s[..last], p, me, n);
    }
  }

  lemma {:induction false} WorkIsNatural(s: State, n: nat)
    requires forall p | 0 <= p < |s| :: Sound(s[p], n)
    ensures WorkLeft(s, n) >= 0
  {
    if s != [] {
      WorkIsNatural(s[..|s| - 1], n);
      assert Sound(s[|s| - 1], n);
    }
  }

  predicate NoSpawn(events: seq<Event>) { forall i | 0 <= i < |events| :: !events[i].Spawn? }

  predicate Quiet(s: State, n: nat) {
    forall p | 0 <= p < |s| ::
      && !Enabled(s, Start(p), n) && !Enabled(s, Try(p), n) && !Enabled(s, Grant(p), n)
      && !Enabled(s, GiveUp(p), n) && !Enabled(s, Finish(p), n)
  }

  lemma {:induction false} WorkBoundsRun(s: State, events: seq<Event>, t: State, n: nat)
    requires Inv(s, n) && Leads(s, events, t, n) && NoSpawn(events)
    ensures |events| <= WorkLeft(s, n)
    decreases |events|
  {
    WorkIsNatural(s, n);
    if events != [] {
      var e := events[0];
      assert Sound(s[e.p], n);
      WorkAfterStep(s, e.p, Stepped(s, e, n), n);
      StepKeeps(s, e, n);
      WorkBoundsRun(Apply(s, e, n), events[1..], t, n);
    }
  }

  lemma QuietIsStuck(s: State, e: Event, n: nat)
    requires Enabled(s, e, n) && !e.Spawn?
    ensures !Quiet(s, n)
  {
    assert e.p < |s|;
  }

  // --- The scan is short --------------------------------------------------------------

  function TriesBy(events: seq<Event>, p: nat): nat {
    if events == [] then 0 else (if events[0] == Try(p) then 1 else 0) + TriesBy(events[1..], p)
  }

  function TriesLeft(s: State, p: nat, kind: Kind, n: nat): int {
    if p >= |s| then |Tries(kind, n)|
    else
      match s[p].phase
      case Started => |Tries(kind, n)|
      case Scanning(i) => |Tries(kind, n)| - i
      case _ => 0
  }

  lemma TryIsSpent(s: State, e: Event, n: nat, p: nat, kind: Kind)
    requires Inv(s, n) && Enabled(s, e, n)
    requires var u := Apply(s, e, n); p < |u| ==> u[p].kind == kind
    ensures p < |s| ==> s[p].kind == kind
    ensures TriesLeft(Apply(s, e, n), p, kind, n) + (if e == Try(p) then 1 else 0) <= TriesLeft(s, p, kind, n)
  {
    if !e.Spawn? {
      SteppedIsSound(s, e, n);
      assert Sound(s[e.p], n);
    }
  }

  /** Over any run a process tries each of its files at most once before it blocks. */
  lemma {:induction false} ScanIsShort(s: State, events: seq<Event>, t: State, n: nat, p: nat)
    requires Inv(s, n) && Leads(s, events, t, n) && p < |t|
    ensures p < |s| ==> s[p].kind == t[p].kind
    ensures TriesBy(events, p) <= TriesLeft(s, p, t[p].kind, n)
    decreases |events|
  {
    if events == [] {
      assert Sound(s[p], n);
    } else {
      var e := events[0];
      EventKeeps(s, e, n);
      ScanIsShort(Apply(s, e, n), events[1..], t, n, p);
      TryIsSpent(s, e, n, p, t[p].kind);
    }
  }
}
