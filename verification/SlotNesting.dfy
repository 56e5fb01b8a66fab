/**
 A bare run started under a bare run that holds slot 1 can lock up with any number of slots:
 other runs fill the slots that are free, and the child blocks on its own ancestor's.
 */
module SlotNesting {
  import opened Wrappers
  import opened SlotProtocol
  import opened SlotLaws
  import opened SlotDeadlocks
  import opened SlotDiscipline

  /** The slots `1..m` are held. */
  predicate Full(s: State, m: nat) { forall file | 1 <= file <= m :: !Free(s, file) }

  /** What is held stays held when more processes are there. */
  lemma StaysFull(s: State, t: State, m: nat)
    requires Full(s, m) && |s| <= |t| && forall q | 0 <= q < |s| :: s[q].held.Some? ==> t[q].held == s[q].held
    ensures Full(t, m)
  {
    forall file | 1 <= file <= m ensures !Free(t, file) {
      assert !Free(s, file);
      var q :| 0 <= q < |s| && s[q].held == Some(file);
      assert t[q].held == Some(file);
    }
  }

  predicate Scans(s: State, p: nat, i: nat) {
    p < |s| && s[p].kind.Run? && s[p].phase == Scanning(i) && s[p].held.None?
  }

  /** A try that finds its slot held. */
  lemma BusyTry(s: State, p: nat, i: nat, n: nat)
    requires Scans(s, p, i) && i < n && !Free(s, i + 1)
    ensures Enabled(s, Try(p), n) && Apply(s, Try(p), n) == s[p := s[p].(phase := Seek(Run, i + 1, n))]
  {}

  /** A run whose next slots are all held passes over them. */
  lemma {:induction false} ScanOver(s: State, p: nat, i: nat, m: nat, n: nat) returns (events: seq<Event>)
    requires Scans(s, p, i) && i <= m <= n && i < n && Full(s, m)
    ensures Leads(s, events, s[p := s[p].(phase := Seek(Run, m, n))], n)
    decreases m - i
  {
    if i == m {
      events := [];
      assert s[p := s[p].(phase := Seek(Run, m, n))] == s;
    } else {
      BusyTry(s, p, i, n);
      var u := s[p := s[p].(phase := Seek(Run, i + 1, n))];
      if i + 1 == n {
        events := [Try(p)];
        assert Leads(u, [], u, n) && events[1..] == [];
      } else {
        StaysFull(s, u, m);
        var rest := ScanOver(u, p, i + 1, m, n);
        events := [Try(p)] + rest;
        assert events[1..] == rest;
        assert u[p := u[p].(phase := Seek(Run, m, n))] == s[p := s[p].(phase := Seek(Run, m, n))];
      }
    }
  }

  /** A fresh root run, about to scan. */
  lemma RootRunScans(s: State, n: nat)
    requires n >= 1
    ensures Leads(s, [Spawn(Run, None), Start(|s|)], s + [Process(Run, None, None, Scanning(0), None)], n)
  {
    var u := s + [Process(Run, None, None, Started, None)];
    var t := s + [Process(Run, None, None, Scanning(0), None)];
    assert Apply(s, Spawn(Run, None), n) == u;
    assert Apply(u, Start(|s|), n) == t;
    assert Leads(s, [], s, n);
    LeadsThen(s, [], s, Spawn(Run, None), n);
    LeadsThen(s, [Spawn(Run, None)], u, Start(|s|), n);
    assert [] + [Spawn(Run, None)] == [Spawn(Run, None)];
    assert [Spawn(Run, None)] + [Start(|s|)] == [Spawn(Run, None), Start(|s|)];
  }

  /** One more root run takes the first free slot. */
  lemma RootRunTakesSlot(s: State, m: nat, n: nat) returns (events: seq<Event>)
    requires m < n && Full(s, m) && Free(s, m + 1)
    ensures Leads(s, events, s + [Process(Run, None, None, Body, Some(m + 1))], n)
  {
    var p := |s|;
    var u := s + [Process(Run, None, None, Scanning(0), None)];
    var v := s + [Process(Run, None, None, Scanning(m), None)];
    RootRunScans(s, n);
    StaysFull(s, u, m);
    var over := ScanOver(u, p, 0, m, n);
    assert u[p := u[p].(phase := Seek(Run, m, n))] == v;
    LeadsOn(s, [Spawn(Run, None), Start(p)], u, over, v, n);
    assert Enabled(v, Try(p), n) && Free(v, m + 1);
    assert Apply(v, Try(p), n) == s + [Process(Run, None, None, Body, Some(m + 1))];
    LeadsThen(s, [Spawn(Run, None), Start(p)] + over, v, Try(p), n);
    events := [Spawn(Run, None), Start(p)] + over + [Try(p)];
  }

  /** Root runs can fill every slot, leaving those already started where they are. */
  lemma {:induction false} SlotsCanFill(s: State, m: nat, n: nat) returns (events: seq<Event>, t: State)
    requires m <= n && Full(s, m)
    ensures Leads(s, events, t, n) && Full(t, n) && s <= t
    decreases n - m
  {
    if m == n {
      events, t := [], s;
    } else if Free(s, m + 1) {
      var take := RootRunTakesSlot(s, m, n);
      var u := s + [Process(Run, None, None, Body, Some(m + 1))];
      StaysFull(s, u, m);
      assert u[|s|].held == Some(m + 1) && !Free(u, m + 1);
      var rest;
      rest, t := SlotsCanFill(u, m + 1, n);
      LeadsOn(s, take, u, rest, t, n);
      events := take + rest;
    } else {
      events, t := SlotsCanFill(s, m + 1, n);
    }
  }

  /** With every slot held, a started bare run ends up waiting for slot 1. */
  lemma StartedRunWaits(s: State, c: nat, n: nat) returns (events: seq<Event>)
    requires n >= 1 && Full(s, n)
    requires c < |s| && s[c].kind.Run? && s[c].phase.Started? && s[c].announced.None? && s[c].held.None?
    ensures Leads(s, events, s[c := s[c].(phase := Waiting)], n)
  {
    var u := s[c := s[c].(phase := Scanning(0))];
    assert Apply(s, Start(c), n) == u;
    StaysFull(s, u, n);
    var over := ScanOver(u, c, 0, n, n);
    assert u[c := u[c].(phase := Seek(Run, n, n))] == s[c := s[c].(phase := Waiting)];
    events := [Start(c)] + over;
    assert events[1..] == over;
  }

  /**
   For any number of slots: once a run that holds slot 1 has started a bare run, some
   continuation has the child wait for its own ancestor, and from there nothing helps.
   */
  lemma NestedBareRunCanDeadlock(s: State, p: nat, c: nat, n: nat) returns (events: seq<Event>, t: State)
    requires n >= 1 && Inv(s, n)
    requires p < |s| && s[p].kind.Run? && s[p].held == Some(1)
    requires c < |s| && s[c].kind.Run? && s[c].phase.Started? && s[c].parent == Some(p)
    ensures Leads(s, events, t, n) && SelfWait(t, c)
    ensures forall more, u | Leads(t, more, u, n) :: SelfWait(u, c) && !AllEnded(u)
  {
    assert Sound(s[p], n) && Sound(s[c], n) && Placed(s, c);
    assert !Free(s, 1);
    var fill, full := SlotsCanFill(s, 1, n);
    assert full[c] == s[c] && full[p] == s[p];
    var wait := StartedRunWaits(full, c, n);
    t := full[c := full[c].(phase := Waiting)];
    events := fill + wait;
    LeadsOn(s, fill, full, wait, t, n);
    assert Ancestor(t, p, c) && t[p].held == Some(File(t[c].kind));
    assert HeldAbove(t, c, c);
    RunsKeepInv(s, events, t, n);
    SelfWaitNeverEnds(t, n, c);
  }

  /** So with any number of slots such a state can be reached from nothing. */
  lemma DeadlockIsReachable(n: nat) returns (events: seq<Event>, t: State)
    requires n >= 1
    ensures Leads([], events, t, n) && SelfWait(t, 1)
    ensures forall more, u | Leads(t, more, u, n) :: SelfWait(u, 1) && !AllEnded(u)
  {
    var take := RootRunTakesSlot([], 0, n);
    var one := [Process(Run, None, None, Body, Some(1))];
    assert [] + one == one;
    var two := one + [Process(Run, Some(0), None, Started, None)];
    assert Apply(one, Spawn(Run, Some(0)), n) == two;
    LeadsThen([], take, one, Spawn(Run, Some(0)), n);
    RunsKeepInv([], take + [Spawn(Run, Some(0))], two, n);
    var rest;
    rest, t := NestedBareRunCanDeadlock(two, 0, 1, n);
    events := take + [Spawn(Run, Some(0))] + rest;
    LeadsOn([], take + [Spawn(Run, Some(0))], two, rest, t, n);
  }
}
