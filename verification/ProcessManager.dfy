/** The process manager and its worker: the operations that update the tables in place. */
module ProcessManager {
  import opened Basics
  import opened ProcessTables
  import opened ProcessLog
  import UnitNames
  import SpawnRules
  import Session = SupervisorSession

  class SystemdProcessManager {
    var children: map<nat, UnitChild>
    var unconfirmed: map<nat, string>

    function State(): Tables
      reads this
    {
      Tables(children, unconfirmed)
    }

    constructor ()
      ensures State() == Tables(map[], map[])
    {
      children, unconfirmed := map[], map[];
    }

    /** `replace_stale_pid_tracking`: the unit name of the entry the pid had before. */
    method ReplaceStalePidTracking(pid: nat, child: UnitChild) returns (previousUnit: Option<string>)
      modifies this
      ensures State() == Track(old(State()), pid, child)
      ensures previousUnit == if pid in old(children) then Some(old(children)[pid].unitName) else None
    {
      previousUnit := if pid in children then Some(children[pid].unitName) else None;
      children := children - {pid};
      children := children[pid := child];
      assert children == old(children)[pid := child];
    }

    method StartUnitless(r: SpawnRequest, unitName: string) returns (m: ManagedSpawn)
      modifies this
      ensures (State(), m) == SpawnedUnitless(old(State()), r, unitName)
    {
      if r.unitless.None? {
        return SpawnError;
      }
      var pid := r.unitless.value;
      var previousUnit := ReplaceStalePidTracking(pid, NewUnitless(unitName));
      return StartedChild(pid, if previousUnit.Some? then Some(pid) else None, None);
    }

    /** What follows the start attempt that did not collide. */
    method Attempted(id: nat, r: SpawnRequest, basename: seq<Byte>, slot: nat, unitName: string)
      returns (m: ManagedSpawn)
      requires r.start(slot) != Collision && unitName == Name(basename, slot)
      modifies this
      ensures (State(), m) == SpawnedAt(old(State()), id, r, basename, slot)
    {
      hide Name;
      match r.start(slot)
      case StartedUnit(pid, observation) =>
        var previousUnit := ReplaceStalePidTracking(pid, NewUnit(unitName, observation));
        return StartedChild(pid, if previousUnit.Some? then Some(pid) else None, observation);
      case Unconfirmed =>
        unconfirmed := unconfirmed[id := unitName];
        return UnconfirmedSpawn;
      case Failure(exec) =>
        if exec {
          return SpawnError;
        }
        m := StartUnitless(r, unitName);
    }

    method ComponentFor(basename: seq<Byte>, encoded: string, shortened: bool, slot: nat) returns (component: string)
      requires encoded == UnitNames.Escape(basename) && shortened == UnitNames.NeedsShortening(encoded)
      ensures component == UnitNames.Component(basename, slot)
    {
      hide UnitNames.NeedsShortening, UnitNames.Escape, UnitNames.Shorten;
      if shortened {
        component := UnitNames.ShortenUnitComponent(basename, slot);
      } else {
        component := encoded;
      }
    }

    /** Tries candidate slots until one does not collide, and otherwise launches without a unit. */
    method SpawnUnit(id: nat, r: SpawnRequest, basename: seq<Byte>, encoded: string, shortened: bool, maxSlot: nat)
      returns (m: ManagedSpawn)
      requires encoded == UnitNames.Escape(basename) && shortened == UnitNames.NeedsShortening(encoded)
      requires r.basename == Some(basename) && UnitNames.SlotLimit(basename) == Some(maxSlot)
      modifies this
      ensures (State(), m) == Spawned(old(State()), id, r)
    {
      hide UnitNames.NeedsShortening, UnitNames.Escape, UnitNames.Component, UnitNames.UnitName, UnitNames.SlotLimit,
        UnitNames.NextCandidateSlot, Occupied, SpawnedAt, SpawnedUnitless;
      var occupied := Occupied(children);
      var attempted: set<nat> := {};
      var collisionUnit: Option<string> := None;
      ghost var collided: nat := 0;
      ghost var slots := UpTo(maxSlot);
      while true
        invariant State() == old(State())
        invariant forall s :: s in attempted ==> Candidate(r, maxSlot, occupied, s) && r.start(s) == Collision
        invariant forall s: nat, t: nat :: s in attempted && t < s && Candidate(r, maxSlot, occupied, t) ==>
                t in attempted
        invariant collisionUnit.None? ==> attempted == {}
        invariant collisionUnit.Some? ==>
                    && collisionUnit.value == Name(basename, collided) && collided in attempted
                    && forall s :: s in attempted ==> s <= collided
        decreases slots - attempted
      {
        var next := UnitNames.NextCandidateSlot(r.mainApp, maxSlot, occupied, attempted);
        if next.None? {
          assert forall s: nat :: Candidate(r, maxSlot, occupied, s) ==> s in attempted;
          m := StartUnitless(r, if collisionUnit.Some? then collisionUnit.value else UNAVAILABLE);
          return;
        }
        var slot := next.value;
        assert Candidate(r, maxSlot, occupied, slot) && slot in slots;
        assert forall t: nat :: t < slot && Candidate(r, maxSlot, occupied, t) ==> t in attempted;
        attempted := attempted + {slot};
        var component := ComponentFor(basename, encoded, shortened, slot);
        var unitName := UnitNames.UnitName(slot, component);
        if r.start(slot) != Collision {
          m := Attempted(id, r, basename, slot, unitName);
          return;
        }
        collisionUnit, collided := Some(unitName), slot;
      }
    }

    method Spawn(id: nat, r: SpawnRequest) returns (m: ManagedSpawn)
      modifies this
      ensures (State(), m) == Spawned(old(State()), id, r)
      ensures SpawnRules.Outcome(old(State()), id, r, State(), m)
    {
      hide UnitNames.Escape, SpawnedUnitless, SpawnedAt, UnitNames.MaxSlotForChild, UnitNames.NeedsShortening,
        SpawnRules.Outcome;
      SpawnRules.SpawnFollowsRules(State(), id, r);
      if r.basename.None? {
        m := StartUnitless(r, UNAVAILABLE);
        return;
      }
      var basename := r.basename.value;
      var encoded := UnitNames.EscapeUnitComponent(basename);
      var shortened := UnitNames.NeedsShortening(encoded);
      UnitNames.SlotLimitExists(basename);
      var maxSlot: nat := U32_MAX;
      if !shortened {
        // the name always leaves room for a slot, so the launch without a unit is never chosen here
        assert UnitNames.MaxSlotForChild(encoded).Some?;
        maxSlot := UnitNames.MaxSlotForChild(encoded).value;
      }
      m := SpawnUnit(id, r, basename, encoded, shortened, maxSlot);
    }

    /** `terminate`: tracking ends, whether or not systemd stops the unit. */
    method Terminate(pid: nat, stopped: bool) returns (ok: bool)
      modifies this
      ensures State() == ProcessLog.Terminate(old(State()), pid) && ok == (pid in old(children))
      ensures children == old(children) - {pid} && unconfirmed == old(unconfirmed)
    {
      if pid !in children {
        assert children - {pid} == children;
        return false;
      }
      if children[pid].unitless {
        children := children - {pid};
        return true;
      }
      if !stopped {
        children := children - {pid};
        return true;
      }
      children := children - {pid};
      return true;
    }

    method TerminateUnconfirmed(id: nat, stopped: bool) returns (ok: bool)
      modifies this
      ensures State() == TerminateWaiting(old(State()), id) && ok == (id in old(unconfirmed))
      ensures unconfirmed == old(unconfirmed) - {id} && children == old(children)
    {
      if id !in unconfirmed {
        assert unconfirmed - {id} == unconfirmed;
        return false;
      }
      if !stopped {
        unconfirmed := unconfirmed - {id};
        return true;
      }
      unconfirmed := unconfirmed - {id};
      return true;
    }

    /** Reads the supervisor's events of one unit child and decides whether tracking ends. */
    method ReapUnitChild(child: UnitChild, pid: nat, seen: Seen) returns (r: Reap)
      ensures r == ReapUnit(child, pid, seen)
    {
      hide Heard, HeardAll;
      var c := child;
      var exits: seq<ProcessExit> := [];
      HeardNothing(child, pid);
      assert seen.events[..0] == [];
      for i := 0 to |seen.events|
        invariant HeardAll(child, pid, seen.events[..i]) == Reap(c, exits, false)
      {
        HeardStep(child, pid, seen.events[..i + 1]);
        assert seen.events[..i + 1][..i] == seen.events[..i];
        var next := Heard(c, pid, seen.events[i]);
        exits := exits + next.exits;
        c := next.child;
      }
      assert seen.events[..|seen.events|] == seen.events;
      if seen.closed {
        c := c.(eventStreamClosed := true);
      }
      if c.supervisorStatus.None? {
        match seen.wait
        case HasExited(code) => c := c.(supervisorStatus := Some(code));
        case StillRunning =>
        case WaitError => c := c.(eventStreamClosed := true, supervisorStatus := seen.retry);
      }
      if c.supervisorStatus.Some? && (c.finalEvent.Some? || c.eventStreamClosed) {
        if c.finalEvent.Some? {
          if !c.appExitReported {
            exits := exits + [ProcessExit(pid, c.finalEvent.value, None)];
            c := c.(appExitReported := true);
          }
        } else if !c.appExitReported {
          exits := exits + [ProcessExit(pid, None, c.launchObservation)];
          c := c.(appExitReported := true);
        }
        return Reap(c, exits, true);
      }
      return Reap(c, exits, false);
    }

    /** Looks after every child once, in the order the keys were listed. */
    method ReapExited(order: seq<nat>, waitingOrder: seq<nat>, see: nat -> Seen, gone: nat -> bool)
      returns (exited: seq<ControllerEvent>)
      requires Lists(order, children.Keys) && Lists(waitingOrder, unconfirmed.Keys)
      modifies this
      ensures State() == Reaped(old(State()), see, gone)
      ensures exited == old(ReapEvents(State(), order, waitingOrder, see, gone))
      ensures AllLookedAfter(old(children), old(unconfirmed), see, gone, children, unconfirmed, exited)
    {
      hide ReapUnit, ReapUnitless, WaitingExits, ReapExits, ExitEvents, NoRepeats;
      ReapLooksAfter(State(), order, waitingOrder, see, gone);
      var exits := ReapChildren(order, see);
      var waiting := ReapUnconfirmed(waitingOrder, gone);
      return exits + waiting;
    }

    method ReapChildren(order: seq<nat>, see: nat -> Seen) returns (exited: seq<ControllerEvent>)
      requires Lists(order, children.Keys)
      modifies this`children
      ensures children == ReapedChildren(old(children), see)
      ensures exited == ReapExits(old(children), order, see)
    {
      hide ReapChild, ReapExits, ExitEvents, NoRepeats;
      ghost var before := children;
      var toRemove: seq<nat> := [];
      exited := [];
      ReapNone(before, see);
      assert order[..0] == [];
      for k := 0 to |order|
        invariant children.Keys == before.Keys
        invariant forall pid :: pid in children ==>
                    children[pid] == if pid in order[..k] then ReapChild(before[pid], pid, see(pid)).child
                      else before[pid]
        invariant forall pid :: pid in toRemove <==> pid in order[..k] && ReapChild(before[pid], pid, see(pid)).dropped
        invariant exited == ReapExits(before, order[..k], see)
      {
        var pid := order[k];
        assert order[..k + 1][..k] == order[..k] && order[..k + 1] == order[..k] + [pid];
        assert pid in before && pid !in order[..k] by {
          Unvisited(order, k);
        }
        ReapExitsStep(before, order[..k + 1], see);
        var r := ReapOne(children[pid], pid, see(pid));
        exited := exited + ExitEvents(r.exits);
        children := children[pid := r.child];
        if r.dropped {
          toRemove := toRemove + [pid];
        }
      }
      assert order[..|order|] == order;
      DropChildren(toRemove);
    }

    method DropChildren(toRemove: seq<nat>)
      modifies this`children
      ensures forall pid :: pid in children <==> pid in old(children) && pid !in toRemove
      ensures forall pid :: pid in children ==> children[pid] == old(children)[pid]
    {
      for k := 0 to |toRemove|
        invariant forall pid :: pid in children <==> pid in old(children) && pid !in toRemove[..k]
        invariant forall pid :: pid in children ==> children[pid] == old(children)[pid]
      {
        assert toRemove[..k + 1] == toRemove[..k] + [toRemove[k]];
        children := children - {toRemove[k]};
      }
      assert toRemove[..|toRemove|] == toRemove;
    }

    method ReapOne(child: UnitChild, pid: nat, seen: Seen) returns (r: Reap)
      ensures r == ReapChild(child, pid, seen)
    {
      hide ReapUnit;
      if child.unitless {
        match seen.wait
        case HasExited(code) => return Reap(child, [ProcessExit(pid, code, None)], true);
        case StillRunning => return Reap(child, [], false);
        case WaitError =>
          var c := child;
          if !child.exitObservationFailureReported {
            c := child.(exitObservationFailureReported := true);
          }
          return Reap(c, [], false);
      }
      r := ReapUnitChild(child, pid, seen);
    }

    method ReapUnconfirmed(order: seq<nat>, gone: nat -> bool) returns (exited: seq<ControllerEvent>)
      requires Lists(order, unconfirmed.Keys)
      modifies this`unconfirmed
      ensures unconfirmed == ReapedWaiting(old(unconfirmed), gone)
      ensures exited == WaitingExits(order, gone)
    {
      hide NoRepeats;
      var toRemove: seq<nat> := [];
      exited := [];
      for k := 0 to |order|
        invariant forall id :: id in toRemove <==> id in order[..k] && gone(id)
        invariant exited == WaitingExits(order[..k], gone)
      {
        assert order[..k + 1][..k] == order[..k] && order[..k + 1] == order[..k] + [order[k]];
        if gone(order[k]) {
          toRemove := toRemove + [order[k]];
          exited := exited + [UnconfirmedExited(order[k])];
        } else {
          assert exited + [] == exited;
        }
      }
      assert order[..|order|] == order;
      ghost var before := unconfirmed;
      for k := 0 to |toRemove|
        invariant forall id :: id in unconfirmed <==> id in before && id !in toRemove[..k]
        invariant forall id :: id in unconfirmed ==> unconfirmed[id] == before[id]
      {
        assert toRemove[..k + 1] == toRemove[..k] + [toRemove[k]];
        unconfirmed := unconfirmed - {toRemove[k]};
      }
      assert toRemove[..|toRemove|] == toRemove;
    }
  }

  /**
   Every child and every open launch has been looked after: what its reap says is kept, dropped and
   reported, and nothing else is reported.
   */
  ghost predicate AllLookedAfter(children: map<nat, UnitChild>, unconfirmed: map<nat, string>, see: nat -> Seen,
                                 gone: nat -> bool, left: map<nat, UnitChild>, open: map<nat, string>,
                                 exited: seq<ControllerEvent>)
  {
    && (forall pid :: pid in left <==> pid in children && !ReapChild(children[pid], pid, see(pid)).dropped)
    && (forall pid :: pid in left ==> left[pid] == ReapChild(children[pid], pid, see(pid)).child)
    && (forall id :: id in open <==> id in unconfirmed && !gone(id))
    && (forall id :: id in open ==> open[id] == unconfirmed[id])
    && (forall e :: Exited(e) in exited <==>
          exists pid :: pid in children && e in ReapChild(children[pid], pid, see(pid)).exits)
    && (forall id :: UnconfirmedExited(id) in exited <==> id in unconfirmed && gone(id))
  }

  lemma ExitsIn(exits: seq<ProcessExit>, e: ProcessExit, id: nat)
    ensures Exited(e) in ExitEvents(exits) <==> e in exits
    ensures UnconfirmedExited(id) !in ExitEvents(exits)
  {
    if e in exits {
      var k :| 0 <= k < |exits| && exits[k] == e;
      assert ExitEvents(exits)[k] == Exited(e);
    }
  }

  lemma {:induction false} ExitsReported(children: map<nat, UnitChild>, order: seq<nat>, see: nat -> Seen,
                                         e: ProcessExit, id: nat)
    requires forall k :: 0 <= k < |order| ==> order[k] in children
    ensures Exited(e) in ReapExits(children, order, see) <==>
            exists pid :: pid in order && e in ReapChild(children[pid], pid, see(pid)).exits
    ensures UnconfirmedExited(id) !in ReapExits(children, order, see)
    decreases |order|
  {
    hide ReapChild, ExitEvents;
    if order == [] {
      ReapNone(children, see);
    } else {
      var front, last := order[..|order| - 1], order[|order| - 1];
      assert order == front + [last];
      ReapExitsStep(children, order, see);
      ExitsReported(children, front, see, e, id);
      ExitsIn(ReapChild(children[last], last, see(last)).exits, e, id);
    }
  }

  lemma {:induction false} WaitingReported(order: seq<nat>, gone: nat -> bool, e: ProcessExit, id: nat)
    ensures UnconfirmedExited(id) in WaitingExits(order, gone) <==> id in order && gone(id)
    ensures Exited(e) !in WaitingExits(order, gone)
    decreases |order|
  {
    if order != [] {
      var front, last := order[..|order| - 1], order[|order| - 1];
      assert order == front + [last];
      WaitingReported(front, gone, e, id);
    }
  }

  lemma ReapLooksAfter(t: Tables, order: seq<nat>, waitingOrder: seq<nat>, see: nat -> Seen, gone: nat -> bool)
    requires Lists(order, t.children.Keys) && Lists(waitingOrder, t.unconfirmed.Keys)
    ensures var after := Reaped(t, see, gone);
            AllLookedAfter(t.children, t.unconfirmed, see, gone, after.children, after.unconfirmed,
                           ReapEvents(t, order, waitingOrder, see, gone))
  {
    hide ReapChild, ReapExits, WaitingExits, NoRepeats;
    var events := ReapEvents(t, order, waitingOrder, see, gone);
    forall e
      ensures Exited(e) in events <==>
              exists pid :: pid in t.children && e in ReapChild(t.children[pid], pid, see(pid)).exits
    {
      ExitsReported(t.children, order, see, e, 0);
      WaitingReported(waitingOrder, gone, e, 0);
      assert forall pid :: pid in order <==> pid in t.children;
    }
    forall id
      ensures UnconfirmedExited(id) in events <==> id in t.unconfirmed && gone(id)
    {
      ExitsReported(t.children, order, see, ProcessExit(0, None, None), id);
      WaitingReported(waitingOrder, gone, ProcessExit(0, None, None), id);
      assert id in waitingOrder <==> id in t.unconfirmed;
    }
  }

  ghost function UpTo(n: nat): (s: set<nat>)
    ensures forall k: nat :: k in s <==> k <= n
  {
    if n == 0 then {0} else UpTo(n - 1) + {n}
  }

  lemma ReapNone(children: map<nat, UnitChild>, see: nat -> Seen)
    ensures ReapExits(children, [], see) == []
  {
  }

  lemma Unvisited(order: seq<nat>, k: nat)
    requires k < |order| && NoRepeats(order)
    ensures order[k] !in order[..k]
  {
  }
}
