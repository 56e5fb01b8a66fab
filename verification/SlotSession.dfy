/**
 One process's side of the slot protocol, as the two scripts run it: the scan over the lock
 files, the blocking wait, and the release. Each try's outcome, which depends on the other
 processes, is an input.
 */
module SlotSession {
  import opened SlotProtocol
  import opened Wrappers

  const GATE_SLOTS: nat := 1
  const VERIFY_SLOTS: nat := 2

  /** A token of the command line that leaves a pytest run bare and full. */
  predicate KeepsBare(arg: string) { "-" <= arg && !("-k" <= arg) && !("-m" <= arg) }

  /** `_is_bare_full_run`: no path, no node id, no `-k` or `-m` filter. */
  method IsBareFullRun(args: seq<string>) returns (bare: bool)
    ensures bare <==> forall arg | arg in args :: KeepsBare(arg)
  {
    for i := 0 to |args|
      invariant forall j | 0 <= j < i :: KeepsBare(args[j])
    {
      var arg := args[i];
      if arg == "-k" || arg == "-m" {
        assert args[i] in args && !KeepsBare(args[i]);
        return false;
      }
      if "-k" <= arg || "-m" <= arg {
        assert args[i] in args && !KeepsBare(args[i]);
        return false;
      }
      if !("-" <= arg) {
        assert args[i] in args && !KeepsBare(args[i]);
        return false;
      }
    }
    return true;
  }

  /** A process from its first try on, when its tries find the files as `free` says. */
  function Scanned(me: Process, free: seq<bool>, n: nat): Process
    requires me.phase.Scanning? ==> me.phase.next < |Tries(me.kind, n)|
    requires me.phase.Scanning? ==> |free| + me.phase.next >= |Tries(me.kind, n)|
    decreases |free|
  {
    if me.phase.Scanning? && free != [] then Scanned(Tried(me, free[0], n), free[1..], n)
    else if me.phase.Waiting? then Granted(me)
    else me
  }

  function FirstFree(free: seq<bool>): (i: nat)
    ensures i <= |free|
    ensures i < |free| ==> free[i]
    ensures forall j | 0 <= j < i :: !free[j]
  {
    if free == [] || free[0] then 0 else 1 + FirstFree(free[1..])
  }

  /**
   The scan and the wait: the first free file in order, or the first file of all once
   every one was found busy. It is the transition system's own scan of a bare run.
   */
  method ScanSlots(free: seq<bool>) returns (slot: nat, tried: nat)
    requires |free| >= 1
    ensures FirstFree(free) < |free| ==> slot == FirstFree(free) + 1 && tried == slot
    ensures FirstFree(free) == |free| ==> slot == 1 && tried == |free|
  {
    tried := 0;
    for i := 1 to |free| + 1
      invariant tried == i - 1 && forall j | 0 <= j < i - 1 :: !free[j]
    {
      tried := tried + 1;
      if free[i - 1] {
        return i, tried;
      }
    }
    slot := 1;
  }

  lemma {:induction false} ScanIsTheProtocols(free: seq<bool>, i: nat, n: nat, parent: Option<nat>)
    requires |free| + i == n && n >= 1
    requires i < n || free == []
    ensures var me := Process(Run, parent, None, Seek(Run, i, n), None);
      var k := FirstFree(free);
      Scanned(me, free, n).phase == Body
      && Scanned(me, free, n).held == Some(if k < |free| then i + k + 1 else 1)
    decreases |free|
  {
    if free != [] && !free[0] {
      ScanIsTheProtocols(free[1..], i + 1, n, parent);
    }
  }

  /** `conftest.py`'s own state: the slot file it holds open, if any. */
  class PytestSession {
    var held: Option<nat>

    constructor ()
      ensures held == None
    {
      held := None;
    }

    /** `pytest_configure`: only a bare, executing, unannounced run locks. */
    method Configure(collectOnly: bool, announced: bool, args: seq<string>, free: seq<bool>)
      requires |free| == GATE_SLOTS
      modifies this
      ensures held ==
        if collectOnly || announced || exists arg :: arg in args && !KeepsBare(arg) then old(held)
        else Some(if FirstFree(free) < |free| then FirstFree(free) + 1 else 1)
    {
      if collectOnly || announced {
        return;
      }
      var bare := IsBareFullRun(args);
      if !bare {
        return;
      }
      var slot, tried := ScanSlots(free);
      held := Some(slot);
    }

    /** `pytest_unconfigure`: whatever was locked is unlocked, and nothing else. */
    method Unconfigure() returns (released: Option<nat>)
      modifies this
      ensures released == old(held) && held == None
    {
      released := None;
      if held.Some? {
        released := held;
        held := None;
      }
    }
  }

  /** `_acquire_verify_slot`: no lock of its own under an announcement. */
  method AcquireVerifySlot(announced: bool, free: seq<bool>) returns (handle: Option<nat>)
    requires |free| == VERIFY_SLOTS
    ensures handle.None? <==> announced
    ensures handle.Some? ==> handle.value == if FirstFree(free) < |free| then FirstFree(free) + 1 else 1
  {
    if announced {
      return None;
    }
    var slot, tried := ScanSlots(free);
    return Some(slot);
  }
}
