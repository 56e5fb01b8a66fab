/**
 The slot protocol: processes that take one of a few lock files before a heavy run, and
 wrappers that take one on behalf of everything they start and announce it to them.
 */
module SlotProtocol {
  import opened Wrappers

  /**
   A `Run` is subject to the slots and takes one itself. A `Wrapper` takes a lock file, then
   starts others under it; it may refuse to run where a lock is already announced, and its
   wait may time out. An `Exempt` process (targeted or collecting only) needs no lock.
   */
  datatype Kind = Run | Wrapper(tries: seq<nat>, file: nat, refuses: bool, timesOut: bool) | Exempt

  datatype Phase = Started | Scanning(next: nat) | Waiting | Body | Ended

  datatype Process =
    Process(kind: Kind, parent: Option<nat>, announced: Option<nat>, phase: Phase, held: Option<nat>)

  /** All processes ever started, in order. */
  type State = seq<Process>

  /** The files a process tries without blocking, of the `n` slots `1..n`. */
  function Tries(kind: Kind, n: nat): seq<nat> {
    match kind
    case Run => seq(n, i => i + 1)
    case Wrapper(tries, _, _, _) => tries
    case Exempt => []
  }

  /** The file it then blocks on. */
  function File(kind: Kind): nat {
    match kind
    case Run => 1
    case Wrapper(_, file, _, _) => file
    case Exempt => 0
  }

  /** An exclusive lock can be had: no process holds the file. */
  predicate Free(s: State, file: nat) { forall q | 0 <= q < |s| :: s[q].held != Some(file) }

  datatype Event =
    | Spawn(kind: Kind, parent: Option<nat>)
    | Start(p: nat)
    | Try(p: nat)
    | Grant(p: nat)
    | GiveUp(p: nat)
    | Finish(p: nat)

  /** The announcement a new child finds in its environment. */
  function Environment(s: State, parent: Option<nat>): Option<nat>
    requires parent.Some? ==> parent.value < |s|
  {
    match parent
    case None => None
    case Some(q) => if s[q].kind.Wrapper? && s[q].held.Some? then s[q].held else s[q].announced
  }

  /** It takes a lock of its own: only a non-refusing wrapper does so under an announcement. */
  predicate LocksItself(me: Process) {
    !me.kind.Exempt? && (me.announced.None? || (me.kind.Wrapper? && !me.kind.refuses))
  }

  predicate GivesUp(kind: Kind) { kind.Wrapper? && kind.timesOut }

  /** The scan goes on with try `i`, or blocks when every try is spent. */
  function Seek(kind: Kind, i: nat, n: nat): Phase {
    if i < |Tries(kind, n)| then Scanning(i) else Waiting
  }

  predicate Enabled(s: State, e: Event, n: nat) {
    match e
    case Spawn(_, parent) => parent.Some? ==> parent.value < |s| && s[parent.value].phase == Body
    case Start(p) => p < |s| && s[p].phase == Started
    case Try(p) => p < |s| && s[p].phase.Scanning? && s[p].phase.next < |Tries(s[p].kind, n)|
    case Grant(p) => p < |s| && s[p].phase == Waiting && Free(s, File(s[p].kind))
    case GiveUp(p) => p < |s| && s[p].phase == Waiting && GivesUp(s[p].kind)
    case Finish(p) =>
      && p < |s| && s[p].phase == Body
      && forall q | 0 <= q < |s| :: s[q].parent == Some(p) ==> s[q].phase == Ended
  }

  /** What a scanning process is after its next try found the file free or not. */
  function Tried(me: Process, free: bool, n: nat): Process
    requires me.phase.Scanning? && me.phase.next < |Tries(me.kind, n)|
  {
    if free then me.(phase := Body, held := Some(Tries(me.kind, n)[me.phase.next]))
    else me.(phase := Seek(me.kind, me.phase.next + 1, n))
  }

  /** What a waiting process is once it gets the file it blocked on. */
  function Granted(me: Process): Process { me.(phase := Body, held := Some(File(me.kind))) }

  /** What a process is after its own step. */
  function Stepped(s: State, e: Event, n: nat): Process
    requires Enabled(s, e, n) && !e.Spawn?
  {
    var me := s[e.p];
    match e
    case Start(p) =>
      if me.kind.Exempt? then me.(phase := Body)
      else if LocksItself(me) then me.(phase := Seek(me.kind, 0, n))
      else me.(phase := if me.kind.Run? then Body else Ended)
    case Try(p) => Tried(me, Free(s, Tries(me.kind, n)[me.phase.next]), n)
    case Grant(p) => Granted(me)
    case GiveUp(p) => me.(phase := Ended)
    case Finish(p) => me.(phase := Ended, held := None)
  }

  function Apply(s: State, e: Event, n: nat): State
    requires Enabled(s, e, n)
  {
    match e
    case Spawn(kind, parent) => s + [Process(kind, parent, Environment(s, parent), Started, None)]
    case _ => s[e.p := Stepped(s, e, n)]
  }

  /** The events lead from `s` to `t`. */
  ghost predicate Leads(s: State, events: seq<Event>, t: State, n: nat)
    decreases |events|
  {
    if events == [] then s == t
    else Enabled(s, events[0], n) && Leads(Apply(s, events[0], n), events[1..], t, n)
  }

  // --- What every step keeps ----------------------------------------------------------

  predicate Live(me: Process) { me.phase != Ended }
  predicate Seeking(me: Process) { me.phase.Scanning? || me.phase.Waiting? }

  /** One process in itself. */
  predicate Sound(me: Process, n: nat) {
    && (me.held.Some? ==> me.phase.Body? && LocksItself(me))
    && (me.held.Some? ==> me.held.value in Tries(me.kind, n) || me.held.value == File(me.kind))
    && (me.phase.Body? && LocksItself(me) ==> me.held.Some?)
    && (Seeking(me) ==> LocksItself(me))
    && (me.phase.Scanning? ==> me.phase.next < |Tries(me.kind, n)|)
    && (me.phase.Body? && me.kind.Wrapper? ==> LocksItself(me))
  }

  /** A process and its parent. */
  predicate Placed(s: State, p: nat)
    requires p < |s|
  {
    match s[p].parent
    case None => s[p].announced.None?
    case Some(q) =>
      && q < p
      && (Live(s[p]) ==> s[q].phase.Body? && s[p].announced == Environment(s, Some(q)))
  }

  ghost predicate Exclusive(s: State) {
    forall p, q | 0 <= p < |s| && 0 <= q < |s| && s[p].held.Some? && s[p].held == s[q].held :: p == q
  }

  ghost predicate Inv(s: State, n: nat) {
    && (forall p | 0 <= p < |s| :: Sound(s[p], n) && Placed(s, p))
    && Exclusive(s)
  }

  lemma SpawnKeeps(s: State, e: Event, n: nat)
    requires Inv(s, n) && Enabled(s, e, n) && e.Spawn?
    ensures Inv(Apply(s, e, n), n)
  {
    var t := Apply(s, e, n);
    forall p | 0 <= p < |t| ensures Sound(t[p], n) && Placed(t, p) {
      if p < |s| {
        assert t[p] == s[p] && Placed(s, p);
      }
    }
  }

  lemma SteppedIsSound(s: State, e: Event, n: nat)
    requires Inv(s, n) && Enabled(s, e, n) && !e.Spawn?
    ensures Sound(Stepped(s, e, n), n)
    ensures Stepped(s, e, n).kind == s[e.p].kind && Stepped(s, e, n).parent == s[e.p].parent
    ensures Stepped(s, e, n).announced == s[e.p].announced
    ensures Live(Stepped(s, e, n)) ==> Live(s[e.p])
    ensures Stepped(s, e, n).held.Some? ==> Free(s, Stepped(s, e, n).held.value)
  {}

  lemma StepKeepsPlace(s: State, e: Event, n: nat, p: nat)
    requires Inv(s, n) && Enabled(s, e, n) && !e.Spawn? && p < |s|
    ensures Placed(Apply(s, e, n), p)
  {
    SteppedIsSound(s, e, n);
    assert Placed(s, p);
    assert s[p].parent == Some(e.p) ==> p != e.p;
  }

  lemma StepKeeps(s: State, e: Event, n: nat)
    requires Inv(s, n) && Enabled(s, e, n) && !e.Spawn?
    ensures Inv(Apply(s, e, n), n)
  {
    var t := Apply(s, e, n);
    SteppedIsSound(s, e, n);
    forall p | 0 <= p < |t| ensures Sound(t[p], n) && Placed(t, p) {
      StepKeepsPlace(s, e, n, p);
      assert Sound(s[p], n);
    }
  }

  lemma EventKeeps(s: State, e: Event, n: nat)
    requires Inv(s, n) && Enabled(s, e, n)
    ensures Inv(Apply(s, e, n), n)
  {
    if e.Spawn? {
      SpawnKeeps(s, e, n);
    } else {
      StepKeeps(s, e, n);
    }
  }

  /** Every reachable state is sound, whatever the interleaving. */
  lemma {:induction false} RunsKeepInv(s: State, events: seq<Event>, t: State, n: nat)
    requires Inv(s, n) && Leads(s, events, t, n)
    ensures Inv(t, n)
    decreases |events|
  {
    if events != [] {
      EventKeeps(s, events[0], n);
      RunsKeepInv(Apply(s, events[0], n), events[1..], t, n);
    }
  }
}
