/**
 The interrupt handler of multirun: on the first interrupt it walks the
 instance slice and sends SIGTERM to every instance that exists, has a command
 and whose command holds a started process. It handles one interrupt only.
 */
module Shutdown {
  import opened Instances
  import opened Launch

  /** The handler's guard: a non-nil instance whose command holds a started process. */
  predicate Signalable(slot: Option<Instance>) {
    slot.Some? && slot.value.cmd.Some? && slot.value.cmd.value.process.Some?
  }

  /** The ids of the instances that receive SIGTERM, in slice order. */
  function Targets(slots: seq<Option<Instance>>): (ids: seq<nat>)
    ensures |ids| <= |slots|
  {
    if slots == [] then []
    else
      var last := |slots| - 1;
      Targets(slots[..last]) + (if Signalable(slots[last]) then [slots[last].value.id] else [])
  }

  /** An id is signalled iff some slot holds a signalable instance with that id. */
  lemma {:induction false} TargetsExactly(slots: seq<Option<Instance>>, id: nat)
    ensures id in Targets(slots) <==>
      exists i :: 0 <= i < |slots| && Signalable(slots[i]) && slots[i].value.id == id
  {
    if slots != [] {
      var last := |slots| - 1;
      TargetsExactly(slots[..last], id);
      if exists i :: 0 <= i < |slots| && Signalable(slots[i]) && slots[i].value.id == id {
        var i :| 0 <= i < |slots| && Signalable(slots[i]) && slots[i].value.id == id;
        if i < last {
          assert slots[..last][i] == slots[i];
        }
      }
      if id in Targets(slots[..last]) {
        var i :| 0 <= i < last && Signalable(slots[..last][i]) && slots[..last][i].value.id == id;
        assert slots[i] == slots[..last][i];
      }
    }
  }

  /** The handler's loop over the instance slice, as it sends SIGTERM. */
  method Broadcast(slots: seq<Option<Instance>>) returns (signalled: seq<nat>)
    ensures signalled == Targets(slots)
  {
    signalled := [];
    for i := 0 to |slots|
      invariant signalled == Targets(slots[..i])
    {
      assert slots[..i + 1][..i] == slots[..i];
      var slot := slots[i];
      if slot.Some? && slot.value.cmd.Some? && slot.value.cmd.value.process.Some? {
        signalled := signalled + [slot.value.id];
      }
    }
    assert slots[..|slots|] == slots;
  }

  /** Slot `i` is signalable exactly when attempt `i` started, and then holds id `i + 1`. */
  predicate MatchesAttempts(slots: seq<Option<Instance>>, attempts: seq<Attempt>) {
    |slots| == |attempts| &&
    forall i :: 0 <= i < |slots| ==>
      (Signalable(slots[i]) <==> attempts[i].Started?) && (Signalable(slots[i]) ==> slots[i].value.id == i + 1)
  }

  lemma {:induction false} TargetsOfMatching(slots: seq<Option<Instance>>, attempts: seq<Attempt>)
    requires MatchesAttempts(slots, attempts)
    ensures Targets(slots) == StartedIds(attempts)
  {
    if slots != [] {
      var last := |slots| - 1;
      assert MatchesAttempts(slots[..last], attempts[..last]) by {
        forall i | 0 <= i < last
          ensures slots[..last][i] == slots[i] && attempts[..last][i] == attempts[i]
        {
        }
      }
      TargetsOfMatching(slots[..last], attempts[..last]);
    }
  }

  lemma SpawnedMatches(count: nat, noColor: bool, custom: string, attempts: seq<Attempt>)
    requires |attempts| == count
    ensures MatchesAttempts(SpawnedAll(count, noColor, custom, attempts), attempts)
  {
    var slots := SpawnedAll(count, noColor, custom, attempts);
    forall i | 0 <= i < count
      ensures (Signalable(slots[i]) <==> attempts[i].Started?) && (Signalable(slots[i]) ==> slots[i].value.id == i + 1)
    {
      SpawnedLabels(count, noColor, custom, attempts, i);
    }
  }

  /**
   After the launch loop the handler signals exactly the instances whose
   process started, each once, in launch order.
   */
  lemma LaunchedTargets(count: nat, noColor: bool, custom: string, attempts: seq<Attempt>)
    requires |attempts| == count
    ensures Targets(SpawnedAll(count, noColor, custom, attempts)) == StartedIds(attempts)
    ensures var t := Targets(SpawnedAll(count, noColor, custom, attempts));
      && (forall i :: 0 <= i < count ==> (i + 1 in t <==> attempts[i].Started?))
      && (forall k, l :: 0 <= k < l < |t| ==> t[k] != t[l])
  {
    SpawnedMatches(count, noColor, custom, attempts);
    TargetsOfMatching(SpawnedAll(count, noColor, custom, attempts), attempts);
    StartedIdsComplete(attempts);
  }

  // ---------------------------------------------------------------- the handler

  /** The handler goroutine: waiting for its one interrupt, or done. */
  datatype Handler = Armed | Fired

  /** One interrupt arriving while the instance slice reads `slots`. */
  function Interrupt(h: Handler, slots: seq<Option<Instance>>): (res: (Handler, seq<nat>))
    ensures res.0 == Fired
  {
    match h
    case Armed => (Fired, Targets(slots))
    case Fired => (Fired, [])
  }

  /** Every SIGTERM sent over a series of interrupts, the `k`th seeing the slice `snapshots[k]`. */
  function Deliver(h: Handler, snapshots: seq<seq<Option<Instance>>>): seq<nat>
    decreases |snapshots|
  {
    if snapshots == [] then []
    else
      var (h', sent) := Interrupt(h, snapshots[0]);
      sent + Deliver(h', snapshots[1..])
  }

  /**
   However many interrupts arrive, only the first one sends anything: a handler
   that has fired sends nothing more, and an armed one sends the targets of the
   slice as the first interrupt saw it.
   */
  lemma {:induction false} OnlyFirstInterruptActs(h: Handler, snapshots: seq<seq<Option<Instance>>>)
    ensures h == Fired ==> Deliver(h, snapshots) == []
    ensures h == Armed ==> Deliver(h, snapshots) == if snapshots == [] then [] else Targets(snapshots[0])
    decreases |snapshots|
  {
    if snapshots != [] {
      OnlyFirstInterruptActs(Fired, snapshots[1..]);
    }
  }

  /**
   Interrupting a completed launch any number of times signals every started
   instance exactly once and nothing else.
   */
  lemma RepeatedInterrupts(count: nat, noColor: bool, custom: string, attempts: seq<Attempt>, extra: nat)
    requires |attempts| == count
    ensures Deliver(Armed, seq(extra + 1, _ => SpawnedAll(count, noColor, custom, attempts))) == StartedIds(attempts)
  {
    OnlyFirstInterruptActs(Armed, seq(extra + 1, _ => SpawnedAll(count, noColor, custom, attempts)));
    LaunchedTargets(count, noColor, custom, attempts);
  }
}
