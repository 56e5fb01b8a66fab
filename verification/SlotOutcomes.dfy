/**
 What becomes of each process over a whole run: which files it tried in which order, whether it
 waited, and how it ended. A run that ended was in its body; an announced one took no lock.
 */
module SlotOutcomes {
  import opened Wrappers
  import opened SlotProtocol
  import opened SlotLaws

  // --- What a process should do -------------------------------------------------------

  /** It needs a lock of its own. */
  predicate NeedsLock(me: Process) {
    match me.kind
    case Run => me.announced.None?
    case Wrapper(_, _, refuses, _) => me.announced.None? || !refuses
    case Exempt => false
  }

  /** It ends at once: a wrapper that refuses to run under an announcement. */
  predicate Refused(me: Process) { me.kind.Wrapper? && me.kind.refuses && me.announced.Some? }

  /** How many files it tries: a run the `n` slots, a wrapper its own list. */
  function FileCount(kind: Kind, n: nat): nat {
    match kind
    case Run => n
    case Wrapper(tries, _, _, _) => |tries|
    case Exempt => 0
  }

  /** The `i`-th file it tries, counted from one: slot `i` of a run. */
  function TriedFile(kind: Kind, i: nat): nat
    requires 1 <= i && (kind.Wrapper? ==> i <= |kind.tries|)
  {
    if kind.Wrapper? then kind.tries[i - 1] else i
  }

  /** The file it waits for: slot 1 for a run. */
  function AwaitedFile(kind: Kind): nat { if kind.Wrapper? then kind.file else 1 }

  // --- What a process did -------------------------------------------------------------

  /** It came by a lock: at its last try, or by waiting after all tries. */
  predicate CameByLock(me: Process, tried: nat, waited: bool, n: nat) {
    if waited then tried == FileCount(me.kind, n) else 1 <= tried <= FileCount(me.kind, n)
  }

  /** Which lock that is. */
  function LockOf(me: Process, tried: nat, waited: bool, n: nat): nat
    requires CameByLock(me, tried, waited, n)
  {
    if waited then AwaitedFile(me.kind) else TriedFile(me.kind, tried)
  }

  /** It went the whole way to its body: under a lock of its own, or without any. */
  predicate WentToBody(me: Process, tried: nat, waited: bool, n: nat) {
    if NeedsLock(me) then CameByLock(me, tried, waited, n) else !Refused(me) && tried == 0 && !waited
  }

  /** What the events say about process `p`, phase by phase. */
  ghost predicate Tells(events: seq<Event>, p: nat, me: Process, n: nat) {
    var tried, waited := TriesBy(events, p), Grant(p) in events;
    && (Start(p) in events <==> !me.phase.Started?)
    && match me.phase
       case Started => tried == 0 && !waited && GiveUp(p) !in events && Finish(p) !in events && me.held.None?
       case Scanning(i) =>
         && NeedsLock(me) && tried == i < FileCount(me.kind, n) && !waited
         && GiveUp(p) !in events && Finish(p) !in events && me.held.None?
       case Waiting =>
         && NeedsLock(me) && tried == FileCount(me.kind, n) && !waited
         && GiveUp(p) !in events && Finish(p) !in events && me.held.None?
       case Body =>
         && GiveUp(p) !in events && Finish(p) !in events
         && WentToBody(me, tried, waited, n)
         && me.held == if NeedsLock(me) then Some(LockOf(me, tried, waited, n)) else None
       case Ended => me.held.None? && Ends(events, p, me, n)
  }

  /** The three ends: after the body, refused at the start, or given up after every try. */
  ghost predicate Ends(events: seq<Event>, p: nat, me: Process, n: nat) {
    var tried, waited := TriesBy(events, p), Grant(p) in events;
    if Finish(p) in events then GiveUp(p) !in events && WentToBody(me, tried, waited, n)
    else if GiveUp(p) in events then
      NeedsLock(me) && me.kind.Wrapper? && me.kind.timesOut && tried == FileCount(me.kind, n) && !waited
    else Refused(me) && tried == 0 && !waited
  }

  ghost predicate NeverNamed(events: seq<Event>, p: nat) {
    && TriesBy(events, p) == 0 && Start(p) !in events && Grant(p) !in events && GiveUp(p) !in events
    && Finish(p) !in events
  }

  ghost predicate TellsAll(events: seq<Event>, s: State, n: nat) {
    && (forall p: nat | p < |s| :: Tells(events, p, s[p], n))
    && (forall p: nat | p >= |s| :: NeverNamed(events, p))
  }

  // --- One event more -----------------------------------------------------------------

  lemma {:induction false} TriesSnoc(events: seq<Event>, e: Event, p: nat)
    ensures TriesBy(events + [e], p) == TriesBy(events, p) + if e == Try(p) then 1 else 0
  {
    if events == [] {
      assert events + [e] == [e];
    } else {
      TriesSnoc(events[1..], e, p);
      assert (events + [e])[1..] == events[1..] + [e];
    }
  }

  /** An event of another process tells nothing about this one. */
  lemma OtherTells(events: seq<Event>, e: Event, p: nat, me: Process, n: nat)
    requires Tells(events, p, me, n) && (e.Spawn? || e.p != p)
    ensures Tells(events + [e], p, me, n)
  {
    TriesSnoc(events, e, p);
  }

  lemma OtherNeverNamed(events: seq<Event>, e: Event, p: nat)
    requires NeverNamed(events, p) && (e.Spawn? || e.p != p)
    ensures NeverNamed(events + [e], p)
  {
    TriesSnoc(events, e, p);
  }

  lemma NewTells(events: seq<Event>, p: nat, me: Process, n: nat)
    requires NeverNamed(events, p) && me.phase.Started? && me.held.None?
    ensures Tells(events, p, me, n)
  {}

  lemma StartTells(s: State, events: seq<Event>, p: nat, n: nat)
    requires p < |s| && Enabled(s, Start(p), n) && Tells(events, p, s[p], n)
    ensures Tells(events + [Start(p)], p, Stepped(s, Start(p), n), n)
  {
    TriesSnoc(events, Start(p), p);
  }

  lemma TryTells(s: State, events: seq<Event>, p: nat, n: nat)
    requires p < |s| && Enabled(s, Try(p), n) && Tells(events, p, s[p], n)
    ensures Tells(events + [Try(p)], p, Stepped(s, Try(p), n), n)
  {
    TriesSnoc(events, Try(p), p);
  }

  lemma GrantTells(s: State, events: seq<Event>, p: nat, n: nat)
    requires p < |s| && Enabled(s, Grant(p), n) && Tells(events, p, s[p], n)
    ensures Tells(events + [Grant(p)], p, Stepped(s, Grant(p), n), n)
  {
    TriesSnoc(events, Grant(p), p);
  }

  lemma GiveUpTells(s: State, events: seq<Event>, p: nat, n: nat)
    requires p < |s| && Enabled(s, GiveUp(p), n) && Tells(events, p, s[p], n)
    ensures Tells(events + [GiveUp(p)], p, Stepped(s, GiveUp(p), n), n)
  {
    TriesSnoc(events, GiveUp(p), p);
  }

  lemma FinishTells(s: State, events: seq<Event>, p: nat, n: nat)
    requires p < |s| && Enabled(s, Finish(p), n) && Tells(events, p, s[p], n)
    ensures Tells(events + [Finish(p)], p, Stepped(s, Finish(p), n), n)
  {
    TriesSnoc(events, Finish(p), p);
  }

  lemma OwnTells(s: State, events: seq<Event>, e: Event, n: nat)
    requires !e.Spawn? && Enabled(s, e, n) && Tells(events, e.p, s[e.p], n)
    ensures Tells(events + [e], e.p, Stepped(s, e, n), n)
  {
    match e
    case Start(p) => StartTells(s, events, p, n);
    case Try(p) => TryTells(s, events, p, n);
    case Grant(p) => GrantTells(s, events, p, n);
    case GiveUp(p) => GiveUpTells(s, events, p, n);
    case Finish(p) => FinishTells(s, events, p, n);
  }

  lemma OneMoreTells(s: State, events: seq<Event>, e: Event, n: nat)
    requires Enabled(s, e, n) && TellsAll(events, s, n)
    ensures TellsAll(events + [e], Apply(s, e, n), n)
  {
    var t := Apply(s, e, n);
    forall p: nat | p < |t| ensures Tells(events + [e], p, t[p], n) {
      if !e.Spawn? && e.p == p {
        OwnTells(s, events, e, n);
      } else {
        if p == |s| {
          NewTells(events, p, t[p], n);
        }
        OtherTells(events, e, p, t[p], n);
      }
    }
    forall p: nat | p >= |t| ensures NeverNamed(events + [e], p) {
      OtherNeverNamed(events, e, p);
    }
  }

  lemma {:induction false} RunsTell(past: seq<Event>, s: State, events: seq<Event>, t: State, n: nat)
    requires TellsAll(past, s, n) && Leads(s, events, t, n)
    ensures TellsAll(past + events, t, n)
    decreases |events|
  {
    if events == [] {
      assert past + events == past;
    } else {
      OneMoreTells(s, past, events[0], n);
      RunsTell(past + [events[0]], Apply(s, events[0], n), events[1..], t, n);
      assert past + [events[0]] + events[1..] == past + events;
    }
  }

  /** Over every run, the events tell of every process its phase, its lock and its end. */
  lemma HistoryTells(events: seq<Event>, t: State, n: nat)
    requires Leads([], events, t, n)
    ensures TellsAll(events, t, n)
  {
    assert TellsAll([], [], n);
    RunsTell([], [], events, t, n);
    assert [] + events == events;
  }

  // --- How a process ends -------------------------------------------------------------

  /** A run, or an exempt process, that has ended was in its body. */
  lemma EndedRunsRan(events: seq<Event>, t: State, n: nat, p: nat)
    requires Leads([], events, t, n) && p < |t| && t[p].phase.Ended? && !t[p].kind.Wrapper?
    ensures Finish(p) in events
  {
    HistoryTells(events, t, n);
    assert Tells(events, p, t[p], n);
  }

  /** An ended process went through its body unless it is a wrapper that refused or gave up. */
  lemma EndedExactly(events: seq<Event>, t: State, n: nat, p: nat)
    requires Leads([], events, t, n) && p < |t| && t[p].phase.Ended?
    ensures Finish(p) in events <==> !Refused(t[p]) && GiveUp(p) !in events
    ensures GiveUp(p) in events ==> t[p].kind.Wrapper? && t[p].kind.timesOut
  {
    HistoryTells(events, t, n);
    assert Tells(events, p, t[p], n);
  }

  /** An announced run, or an exempt process, tries nothing, waits for nothing and holds nothing. */
  lemma TrustsTheAnnouncement(events: seq<Event>, t: State, n: nat, p: nat)
    requires Leads([], events, t, n) && p < |t|
    requires t[p].kind.Exempt? || (t[p].kind.Run? && t[p].announced.Some?)
    ensures TriesBy(events, p) == 0 && Grant(p) !in events && GiveUp(p) !in events && t[p].held.None?
    ensures Start(p) in events ==> t[p].phase.Body? || (t[p].phase.Ended? && Finish(p) in events)
  {
    HistoryTells(events, t, n);
    assert Tells(events, p, t[p], n);
  }

  /** An unannounced run in its body holds the slot it tried last, or slot 1 once it tried them all. */
  lemma RunHoldsWhatItTried(events: seq<Event>, t: State, n: nat, p: nat)
    requires Leads([], events, t, n) && p < |t|
    requires t[p].kind.Run? && t[p].announced.None? && t[p].phase.Body?
    ensures t[p].held == Some(if Grant(p) in events then 1 else TriesBy(events, p))
    ensures if Grant(p) in events then TriesBy(events, p) == n else 1 <= TriesBy(events, p) <= n
  {
    HistoryTells(events, t, n);
    assert Tells(events, p, t[p], n);
  }

  /** Try `i` takes the file if and only if no process holds it. */
  ghost predicate Takes(s: State, file: nat, after: Process) {
    && (after.phase.Body? <==> forall q | 0 <= q < |s| :: s[q].held != Some(file))
    && (after.phase.Body? ==> after.held == Some(file))
  }

  lemma TryTakes(s: State, n: nat, p: nat)
    requires Enabled(s, Try(p), n)
    ensures s[p].phase.next < FileCount(s[p].kind, n)
    ensures Takes(s, TriedFile(s[p].kind, s[p].phase.next + 1), Apply(s, Try(p), n)[p])
  {}

  /** A try takes the next file of the list if and only if no process holds it then. */
  lemma TryTakesTheFree(events: seq<Event>, s: State, n: nat, p: nat)
    requires Leads([], events, s, n) && Enabled(s, Try(p), n)
    ensures TriesBy(events, p) < FileCount(s[p].kind, n)
    ensures Takes(s, TriedFile(s[p].kind, TriesBy(events, p) + 1), Apply(s, Try(p), n)[p])
  {
    NextTry(events, s, n, p);
    TryTakes(s, n, p);
  }

  lemma NextTry(events: seq<Event>, s: State, n: nat, p: nat)
    requires Leads([], events, s, n) && p < |s| && s[p].phase.Scanning?
    ensures s[p].phase.next == TriesBy(events, p)
  {
    HistoryTells(events, s, n);
    assert Tells(events, p, s[p], n);
  }

  // --- What is announced to whom ------------------------------------------------------

  /** No wrapper stands above `p`. */
  ghost predicate NoWrapperAbove(s: State, p: nat) {
    forall a: nat | a < |s| && Ancestor(s, a, p) :: !s[a].kind.Wrapper?
  }

  /** `a` is the nearest wrapper above `p`. */
  ghost predicate NearestWrapper(s: State, a: nat, p: nat) {
    && a < |s| && Ancestor(s, a, p) && s[a].kind.Wrapper?
    && forall b: nat | a < b < |s| && Ancestor(s, b, p) :: !s[b].kind.Wrapper?
  }

  lemma AboveParent(s: State, p: nat, q: nat)
    requires p < |s| && s[p].parent == Some(q) && q < p
    ensures forall a: nat :: Ancestor(s, a, p) <==> a == q || Ancestor(s, a, q)
  {}

  /** A live process is announced the lock of the nearest wrapper above it, and none without one. */
  lemma {:induction false} AnnouncedExactly(s: State, p: nat, n: nat)
    requires Inv(s, n) && p < |s| && Live(s[p])
    ensures s[p].announced.None? <==> NoWrapperAbove(s, p)
    ensures forall a: nat | a < |s| && NearestWrapper(s, a, p) :: s[p].announced == s[a].held
    decreases p
  {
    assert Placed(s, p) && Sound(s[p], n);
    match s[p].parent
    case None =>
    case Some(q) =>
      AboveParent(s, p, q);
      assert Sound(s[q], n);
      AnnouncedExactly(s, q, n);
      forall a: nat | a < |s| && NearestWrapper(s, a, p) ensures s[p].announced == s[a].held {
        if a != q {
          AncestorIsEarlier(s, a, q);
          assert !s[q].kind.Wrapper?;
          assert NearestWrapper(s, a, q);
        } else {
        }
      }
  }
}
