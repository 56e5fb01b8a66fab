/**
 A way to use the slots under which no knot can form: nothing subject to them is started under
 a run that locks for itself, and a wrapper that would lock in spite of an announcement is not
 started under one. A bare run started under a bare run breaks it, and locks up.
 */
module SlotDiscipline {
  import opened Wrappers
  import opened SlotProtocol
  import opened SlotLaws
  import opened SlotDeadlocks

  predicate SelfLocking(me: Process) { me.kind.Run? && me.held.Some? }

  /** No self-locking run at `q` or above it. */
  ghost predicate Clear(s: State, q: nat)
    requires q < |s|
  {
    !SelfLocking(s[q]) && forall a | 0 <= a < |s| && Ancestor(s, a, q) :: !SelfLocking(s[a])
  }

  predicate LocksRegardless(kind: Kind) { kind.Wrapper? && !kind.refuses }

  ghost predicate DisciplinedEvent(s: State, e: Event) {
    e.Spawn? && e.parent.Some? && e.parent.value < |s| && !e.kind.Exempt? ==>
      Clear(s, e.parent.value) && (LocksRegardless(e.kind) ==> Environment(s, e.parent).None?)
  }

  ghost predicate DisciplinedAt(s: State, p: nat)
    requires p < |s|
  {
    Live(s[p]) && !s[p].kind.Exempt? ==>
      && (LocksRegardless(s[p].kind) ==> s[p].announced.None?)
      && forall a | 0 <= a < |s| && Ancestor(s, a, p) :: !SelfLocking(s[a])
  }

  ghost predicate Disciplined(s: State) { forall p | 0 <= p < |s| :: DisciplinedAt(s, p) }

  ghost predicate LeadsDisciplined(s: State, events: seq<Event>, t: State, n: nat)
    decreases |events|
  {
    if events == [] then s == t
    else
      && Enabled(s, events[0], n) && DisciplinedEvent(s, events[0])
      && LeadsDisciplined(Apply(s, events[0], n), events[1..], t, n)
  }

  lemma DisciplineKeptBySpawn(s: State, e: Event, n: nat, p: nat)
    requires Inv(s, n) && Disciplined(s) && Enabled(s, e, n) && DisciplinedEvent(s, e) && e.Spawn?
    requires p < |s| + 1
    ensures DisciplinedAt(Apply(s, e, n), p)
  {
    var t := Apply(s, e, n);
    assert p < |s| ==> DisciplinedAt(s, p);
    forall a | Live(t[p]) && !t[p].kind.Exempt? && 0 <= a < |t| && Ancestor(t, a, p)
      ensures !SelfLocking(t[a])
    {
      AncestorIsEarlier(t, a, p);
      if p < |s| {
        SameAncestors(s, t, a, p);
      } else if a != e.parent.value {
        SameAncestors(s, t, a, e.parent.value);
      }
    }
  }

  lemma DisciplineKeptByStep(s: State, e: Event, n: nat, p: nat)
    requires Inv(s, n) && Disciplined(s) && Enabled(s, e, n) && !e.Spawn? && p < |s|
    ensures DisciplinedAt(Apply(s, e, n), p)
  {
    var t := Apply(s, e, n);
    SteppedIsSound(s, e, n);
    assert DisciplinedAt(s, p);
    forall a | Live(t[p]) && !t[p].kind.Exempt? && 0 <= a < |t| && Ancestor(t, a, p)
      ensures !SelfLocking(t[a])
    {
      SameAncestors(s, t, a, p);
      AncestorsAreAtWork(s, a, p, n);
    }
  }

  lemma DisciplineIsKept(s: State, e: Event, n: nat)
    requires Inv(s, n) && Disciplined(s) && Enabled(s, e, n) && DisciplinedEvent(s, e)
    ensures Disciplined(Apply(s, e, n))
  {
    forall p | 0 <= p < |Apply(s, e, n)| ensures DisciplinedAt(Apply(s, e, n), p) {
      if e.Spawn? {
        DisciplineKeptBySpawn(s, e, n, p);
      } else {
        DisciplineKeptByStep(s, e, n, p);
      }
    }
  }

  /** Disciplined starts keep the discipline, over every run. */
  lemma {:induction false} DisciplinedRuns(s: State, events: seq<Event>, t: State, n: nat)
    requires Inv(s, n) && Disciplined(s) && LeadsDisciplined(s, events, t, n)
    ensures Inv(t, n) && Disciplined(t) && Leads(s, events, t, n)
    decreases |events|
  {
    if events != [] {
      EventKeeps(s, events[0], n);
      DisciplineIsKept(s, events[0], n);
      DisciplinedRuns(Apply(s, events[0], n), events[1..], t, n);
    }
  }

  lemma {:induction false} SpawnFreeIsDisciplined(s: State, events: seq<Event>, t: State, n: nat)
    requires Leads(s, events, t, n) && NoSpawn(events)
    ensures LeadsDisciplined(s, events, t, n)
    decreases |events|
  {
    if events != [] {
      SpawnFreeIsDisciplined(Apply(s, events[0], n), events[1..], t, n);
    }
  }

  // --- No knot under the discipline ---------------------------------------------------

  /** What a wrapper that holds a lock announces reaches everyone below it. */
  lemma {:induction false} AnnouncementReaches(s: State, a: nat, p: nat, n: nat)
    requires Inv(s, n) && p < |s| && Live(s[p]) && Ancestor(s, a, p)
    requires a < |s| && s[a].kind.Wrapper? && s[a].held.Some?
    ensures s[p].announced.Some?
    decreases p
  {
    assert Placed(s, p);
    if a != s[p].parent.value {
      AnnouncementReaches(s, a, s[p].parent.value, n);
    }
  }

  /** Under the discipline nobody seeks a lock below a holder of one. */
  lemma SeekerHasNoHoldingAncestor(s: State, a: nat, p: nat, n: nat)
    requires Inv(s, n) && Disciplined(s)
    requires p < |s| && Seeking(s[p]) && a < |s| && Ancestor(s, a, p)
    ensures s[a].held.None?
  {
    assert Sound(s[p], n) && Sound(s[a], n) && DisciplinedAt(s, p);
    if s[a].held.Some? && s[a].kind.Wrapper? {
      AnnouncementReaches(s, a, p, n);
    }
  }

  /** So no knot, of however many processes and files, can be there. */
  lemma DisciplinedHasNoKnot(s: State, n: nat)
    requires Inv(s, n) && Disciplined(s)
    ensures !Knotted(s)
  {
    if waiters :| Knot(s, waiters) {
      var p, w := TwoOfTheKnot(s, waiters);
      var h :| 0 <= h < |s| && Ancestor(s, h, w) && s[h].held == Some(File(s[p].kind));
      SeekerHasNoHoldingAncestor(s, h, w, n);
      assert false;
    }
  }

  /** A waiting process is served, or the holder of its file or someone below that can step. */
  lemma WaiterIsNeverStuck(s: State, p: nat, n: nat) returns (e: Event)
    requires Inv(s, n) && Disciplined(s) && p < |s| && s[p].phase.Waiting?
    ensures !e.Spawn? && Enabled(s, e, n)
    ensures e != Grant(p) ==>
      exists h | 0 <= h < |s| :: s[h].held == Some(File(s[p].kind)) && (e.p == h || Ancestor(s, h, e.p))
  {
    e := Grant(p);
    if !Enabled(s, e, n) {
      var h :| 0 <= h < |s| && s[h].held == Some(File(s[p].kind));
      assert Sound(s[h], n);
      e := NextBelow(s, h, n);
      if !Enabled(s, e, n) {
        SeekerHasNoHoldingAncestor(s, h, e.p, n);
      }
    }
  }

  /** While anything lives, someone already started can step. */
  lemma SomeoneCanStep(s: State, n: nat)
    requires Inv(s, n) && Disciplined(s) && !AllEnded(s)
    ensures !Quiet(s, n)
  {
    if Quiet(s, n) {
      QuietHasEndedExactly(s, n);
      DisciplinedHasNoKnot(s, n);
    }
  }

  /** Under the discipline every schedule that starts nothing new is finite and ends everything. */
  lemma EveryQuietRunEnds(s: State, events: seq<Event>, t: State, n: nat)
    requires Inv(s, n) && Disciplined(s) && Leads(s, events, t, n) && NoSpawn(events)
    ensures |events| <= WorkLeft(s, n)
    ensures Quiet(t, n) <==> AllEnded(t)
  {
    WorkBoundsRun(s, events, t, n);
    SpawnFreeIsDisciplined(s, events, t, n);
    DisciplinedRuns(s, events, t, n);
    if !AllEnded(t) {
      SomeoneCanStep(t, n);
    }
  }

  // --- Where the announcement is missing ----------------------------------------------

  lemma {:induction false} LeadsThen(s: State, events: seq<Event>, t: State, e: Event, n: nat)
    requires Leads(s, events, t, n) && Enabled(t, e, n)
    ensures Leads(s, events + [e], Apply(t, e, n), n)
    decreases |events|
  {
    var all := events + [e];
    if events == [] {
      assert all == [e] && all[1..] == [];
    } else {
      assert all[1..] == events[1..] + [e];
      LeadsThen(Apply(s, events[0], n), events[1..], t, e, n);
    }
  }

  lemma {:induction false} LeadsOn(s: State, a: seq<Event>, t: State, b: seq<Event>, u: State, n: nat)
    requires Leads(s, a, t, n) && Leads(t, b, u, n)
    ensures Leads(s, a + b, u, n)
    decreases |a|
  {
    if a == [] {
      assert a + b == b;
    } else {
      assert (a + b)[1..] == a[1..] + b;
      LeadsOn(Apply(s, a[0], n), a[1..], t, b, u, n);
    }
  }

  const ONE_AT_WORK: State := [Process(Run, None, None, Body, Some(1))]
  const LOCKED_UP: State := ONE_AT_WORK + [Process(Run, Some(0), None, Waiting, None)]

  /** A first bare run takes the one slot. */
  lemma FirstRunLocks()
    ensures Leads([], [Spawn(Run, None), Start(0), Try(0)], ONE_AT_WORK, 1)
  {
    var s1 := [Process(Run, None, None, Started, None)];
    var s2 := [Process(Run, None, None, Scanning(0), None)];
    assert Leads([], [], [], 1);
    LeadsThen([], [], [], Spawn(Run, None), 1);
    assert Apply([], Spawn(Run, None), 1) == s1;
    LeadsThen([], [Spawn(Run, None)], s1, Start(0), 1);
    assert Apply(s1, Start(0), 1) == s2;
    LeadsThen([], [Spawn(Run, None), Start(0)], s2, Try(0), 1);
  }

  /** A second one that it starts blocks on it. */
  lemma NestedRunWaits()
    ensures Leads(ONE_AT_WORK, [Spawn(Run, Some(0)), Start(1), Try(1)], LOCKED_UP, 1)
  {
    var s3 := ONE_AT_WORK;
    var s4 := s3 + [Process(Run, Some(0), None, Started, None)];
    var s5 := s3 + [Process(Run, Some(0), None, Scanning(0), None)];
    assert Leads(s3, [], s3, 1);
    LeadsThen(s3, [], s3, Spawn(Run, Some(0)), 1);
    assert Apply(s3, Spawn(Run, Some(0)), 1) == s4;
    LeadsThen(s3, [Spawn(Run, Some(0))], s4, Start(1), 1);
    assert Apply(s4, Start(1), 1) == s5;
    assert s5[0].held == Some(1);
    LeadsThen(s3, [Spawn(Run, Some(0)), Start(1)], s5, Try(1), 1);
  }

  lemma LockedUp()
    ensures SelfWait(LOCKED_UP, 1) && Quiet(LOCKED_UP, 1)
  {
    assert LOCKED_UP[0].held == Some(1) && LOCKED_UP[1].parent == Some(0);
    assert Ancestor(LOCKED_UP, 0, 1) && HeldAbove(LOCKED_UP, 1, 1);
  }

  /**
   Without the discipline the protocol can lock itself up: with one slot, a bare run that
   starts another waits for a child that waits for the run's own lock, whatever happens next.
   */
  lemma NestedBareRunDeadlocks() returns (events: seq<Event>)
    ensures Leads([], events, LOCKED_UP, 1) && Quiet(LOCKED_UP, 1) && SelfWait(LOCKED_UP, 1)
    ensures forall more, t | Leads(LOCKED_UP, more, t, 1) :: SelfWait(t, 1) && !AllEnded(t)
  {
    FirstRunLocks();
    NestedRunWaits();
    events := [Spawn(Run, None), Start(0), Try(0)] + [Spawn(Run, Some(0)), Start(1), Try(1)];
    LeadsOn([], [Spawn(Run, None), Start(0), Try(0)], ONE_AT_WORK,
            [Spawn(Run, Some(0)), Start(1), Try(1)], LOCKED_UP, 1);
    LockedUp();
    RunsKeepInv([], events, LOCKED_UP, 1);
    SelfWaitNeverEnds(LOCKED_UP, 1, 1);
  }
}
