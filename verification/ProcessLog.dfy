/**
 The worker's event log and the manager's tables tell the same story.

 According to the log, a pid is live from its start until an exit or a successful termination. The
 lemmas show that every operation of the manager, with the events the worker sends for it, keeps
 the live pids equal to the tracked children whose exit has not been reported.
 */
module ProcessLog {
  import opened Basics
  import opened ProcessTables
  import UnitNames

  // ---------------------------------------------------------------- what a log says

  function LiveAfter(live: set<nat>, e: ControllerEvent): set<nat> {
    match e
    case SpawnStarted(_, pid) => live + {pid}
    case SpawnStartedUnconfirmed(_, pid, _) => live + {pid}
    case Exited(exit) => live - {exit.pid}
    case Terminated(pid, ok) => if ok then live - {pid} else live
    case _ => live
  }

  function LiveIn(live: set<nat>, log: seq<ControllerEvent>): set<nat> {
    if log == [] then live else LiveAfter(LiveIn(live, log[..|log| - 1]), log[|log| - 1])
  }

  /** The pids that are live according to a log. */
  function Live(log: seq<ControllerEvent>): set<nat> {
    LiveIn({}, log)
  }

  function WaitingAfter(waiting: set<nat>, e: ControllerEvent): set<nat> {
    match e
    case SpawnUnconfirmed(id) => waiting + {id}
    case TerminatedUnconfirmed(id, ok) => if ok then waiting - {id} else waiting
    case UnconfirmedExited(id) => waiting - {id}
    case _ => waiting
  }

  function WaitingIn(waiting: set<nat>, log: seq<ControllerEvent>): set<nat> {
    if log == [] then waiting else WaitingAfter(WaitingIn(waiting, log[..|log| - 1]), log[|log| - 1])
  }

  /** The unconfirmed launches that are open according to a log. */
  function Waiting(log: seq<ControllerEvent>): set<nat> {
    WaitingIn({}, log)
  }

  function ReplyTo(e: ControllerEvent): seq<nat> {
    match e
    case SpawnStarted(id, _) => [id]
    case SpawnStartedUnconfirmed(id, _, _) => [id]
    case SpawnUnconfirmed(id) => [id]
    case SpawnFailed(id) => [id]
    case _ => []
  }

  /** The spawn requests a log replies to, in order. */
  function Replies(log: seq<ControllerEvent>): seq<nat> {
    if log == [] then [] else Replies(log[..|log| - 1]) + ReplyTo(log[|log| - 1])
  }

  /** An event that fits: only a live pid exits, only a pid that is not live starts. */
  predicate Fits(live: set<nat>, e: ControllerEvent) {
    match e
    case SpawnStarted(_, pid) => pid !in live
    case SpawnStartedUnconfirmed(_, pid, _) => pid !in live
    case Exited(exit) => exit.pid in live
    case _ => true
  }

  /** Starts and exits alternate for every pid. */
  predicate PairedIn(live: set<nat>, log: seq<ControllerEvent>) {
    log == [] || (PairedIn(live, log[..|log| - 1]) && Fits(LiveIn(live, log[..|log| - 1]), log[|log| - 1]))
  }

  predicate Paired(log: seq<ControllerEvent>) {
    PairedIn({}, log)
  }

  lemma {:induction false} LogAppend(live: set<nat>, waiting: set<nat>, a: seq<ControllerEvent>,
                                     b: seq<ControllerEvent>)
    ensures LiveIn(live, a + b) == LiveIn(LiveIn(live, a), b)
    ensures WaitingIn(waiting, a + b) == WaitingIn(WaitingIn(waiting, a), b)
    ensures PairedIn(live, a + b) <==> PairedIn(live, a) && PairedIn(LiveIn(live, a), b)
    ensures Replies(a + b) == Replies(a) + Replies(b)
    decreases |b|
  {
    if b == [] {
      assert a + b == a;
    } else {
      var front, last := b[..|b| - 1], b[|b| - 1];
      assert (a + b)[..|a + b| - 1] == a + front && (a + b)[|a + b| - 1] == last;
      LogAppend(live, waiting, a, front);
    }
  }

  lemma LogOne(live: set<nat>, waiting: set<nat>, e: ControllerEvent)
    ensures LiveIn(live, [e]) == LiveAfter(live, e) && WaitingIn(waiting, [e]) == WaitingAfter(waiting, e)
    ensures PairedIn(live, [e]) <==> Fits(live, e)
    ensures Replies([e]) == ReplyTo(e)
  {
    assert [e][..0] == [];
  }

  // ---------------------------------------------------------------- agreement

  function Running(children: map<nat, UnitChild>): set<nat> {
    set pid | pid in children && !children[pid].appExitReported
  }

  /** The tables agree with what a log says. */
  predicate Agrees(t: Tables, live: set<nat>, waiting: set<nat>) {
    && live == Running(t.children)
    && waiting == t.unconfirmed.Keys
    && forall pid :: pid in t.children ==> WellTracked(t.children[pid])
  }

  /** No two tracked children have names with the same slot. */
  predicate SlotsApart(children: map<nat, UnitChild>) {
    forall p, q :: p in children && q in children && p != q && SlotOf(children[p]).Some? ==>
      SlotOf(children[p]) != SlotOf(children[q])
  }

  function StartEvent(id: nat, pid: nat, observation: Option<Observation>): ControllerEvent {
    match observation
    case Some(o) => SpawnStartedUnconfirmed(id, pid, o)
    case None => SpawnStarted(id, pid)
  }

  /** What the worker sends for the result of a spawn. */
  function SpawnEvents(id: nat, m: ManagedSpawn): seq<ControllerEvent> {
    match m
    case StartedChild(pid, replaced, observation) =>
      (if replaced.Some? then [Exited(ProcessExit(replaced.value, None, None))] else [])
      + [StartEvent(id, pid, observation)]
    case UnconfirmedSpawn => [SpawnUnconfirmed(id)]
    case SpawnError => [SpawnFailed(id)]
  }

  /** The possible effects of a spawn on the tables. */
  predicate SpawnEffect(t: Tables, id: nat, after: Tables, m: ManagedSpawn) {
    match m
    case StartedChild(pid, replaced, _) =>
      && after.unconfirmed == t.unconfirmed && pid in after.children
      && after.children == t.children[pid := after.children[pid]]
      && !after.children[pid].appExitReported
      && replaced == Replaced(t, pid)
      && (SlotOf(after.children[pid]).Some? ==> SlotOf(after.children[pid]).value !in Occupied(t.children))
    case UnconfirmedSpawn =>
      && after.children == t.children && id in after.unconfirmed
      && after.unconfirmed == t.unconfirmed[id := after.unconfirmed[id]]
    case SpawnError => after == t
  }

  lemma UnavailableHasNoSlot(name: string)
    requires name == UNAVAILABLE
    ensures UnitNames.UnitSlotForName(name) == None
  {
    assert name[|name| - |".service"|..][0] == 'v';
  }

  lemma UnitlessEffect(t: Tables, id: nat, r: SpawnRequest, name: string)
    requires UnitNames.UnitSlotForName(name).Some? ==> UnitNames.UnitSlotForName(name).value !in Occupied(t.children)
    ensures SpawnEffect(t, id, SpawnedUnitless(t, r, name).0, SpawnedUnitless(t, r, name).1)
  {
    hide UnitNames.UnitSlotForName;
  }

  lemma NameSlot(basename: seq<Byte>, slot: nat)
    requires UnitNames.SlotLimit(basename).Some? && slot <= UnitNames.SlotLimit(basename).value
    ensures UnitNames.UnitSlotForName(Name(basename, slot)) == Some(slot)
  {
    hide UnitNames.UnitSlotForName, UnitNames.UnitName, UnitNames.Component, UnitNames.SlotLimit;
    UnitNames.SpawnNamesFit(basename, slot);
  }

  lemma AttemptEffect(t: Tables, id: nat, r: SpawnRequest, basename: seq<Byte>, slot: nat)
    requires r.start(slot) != Collision && slot !in Occupied(t.children)
    requires UnitNames.SlotLimit(basename).Some? && slot <= UnitNames.SlotLimit(basename).value
    ensures SpawnEffect(t, id, SpawnedAt(t, id, r, basename, slot).0, SpawnedAt(t, id, r, basename, slot).1)
  {
    hide UnitNames.UnitSlotForName, Name, UnitNames.SlotLimit;
    NameSlot(basename, slot);
    UnitlessEffect(t, id, r, Name(basename, slot));
  }

  /** Every spawn has one of these effects, whatever systemd answers. */
  lemma SpawnHasEffect(t: Tables, id: nat, r: SpawnRequest)
    ensures SpawnEffect(t, id, Spawned(t, id, r).0, Spawned(t, id, r).1)
  {
    hide Name, UnitNames.SlotLimit, SpawnedAt, SpawnedUnitless, UnitNames.UnitSlotForName, SpawnEffect, Occupied;
    UnavailableHasNoSlot(UNAVAILABLE);
    UnitlessEffect(t, id, r, UNAVAILABLE);
    if r.basename.Some? {
      var basename := r.basename.value;
      UnitNames.SlotLimitExists(basename);
      var maxSlot, occupied := UnitNames.SlotLimit(basename).value, Occupied(t.children);
      var slot := Settle(r, maxSlot, occupied, 0);
      var last := LastCandidate(r, maxSlot, occupied, maxSlot + 1);
      if slot.Some? {
        AttemptEffect(t, id, r, basename, slot.value);
      } else if last.Some? {
        NameSlot(basename, last.value);
        UnitlessEffect(t, id, r, Name(basename, last.value));
      }
    }
  }

  /** Spawning keeps the agreement, also when a tracked pid is reused. */
  lemma SpawnAgrees(t: Tables, id: nat, after: Tables, m: ManagedSpawn, live: set<nat>, waiting: set<nat>)
    requires Agrees(t, live, waiting) && SpawnEffect(t, id, after, m)
    requires m.StartedChild? ==> WellTracked(after.children[m.pid])
    ensures Agrees(after, LiveIn(live, SpawnEvents(id, m)), WaitingIn(waiting, SpawnEvents(id, m)))
    ensures Replies(SpawnEvents(id, m)) == [id]
  {
    match m {
      case StartedChild(pid, replaced, observation) =>
        var start := StartEvent(id, pid, observation);
        var exit := Exited(ProcessExit(pid, None, None));
        LogOne(live, waiting, start);
        LogOne(live, waiting, exit);
        LogOne(LiveAfter(live, exit), WaitingAfter(waiting, exit), start);
        LogAppend(live, waiting, [exit], [start]);
        assert [] + [start] == [start];
        assert Running(after.children) == Running(t.children) + {pid};
      case UnconfirmedSpawn => LogOne(live, waiting, SpawnUnconfirmed(id));
      case SpawnError => LogOne(live, waiting, SpawnFailed(id));
    }
  }

  /** The spawn reuses the pid of a tracked child whose exit has been reported already. */
  predicate ReusesReported(t: Tables, m: ManagedSpawn) {
    m.StartedChild? && m.pid in t.children && t.children[m.pid].appExitReported
  }

  /**
   Spawning keeps starts and exits alternating exactly if it does not reuse the pid of a child whose
   exit has been reported: that child is then said to exit a second time.
   */
  lemma SpawnPairedExactly(t: Tables, id: nat, after: Tables, m: ManagedSpawn, live: set<nat>, waiting: set<nat>)
    requires Agrees(t, live, waiting) && SpawnEffect(t, id, after, m)
    ensures PairedIn(live, SpawnEvents(id, m)) <==> !ReusesReported(t, m)
  {
    match m {
      case StartedChild(pid, replaced, observation) =>
        var start := StartEvent(id, pid, observation);
        var exit := Exited(ProcessExit(pid, None, None));
        LogOne(live, waiting, start);
        LogOne(live, waiting, exit);
        LogOne(LiveAfter(live, exit), waiting, start);
        LogAppend(live, waiting, [exit], [start]);
        assert [] + [start] == [start];
      case UnconfirmedSpawn => LogOne(live, waiting, SpawnUnconfirmed(id));
      case SpawnError => LogOne(live, waiting, SpawnFailed(id));
    }
  }

  /** Spawning keeps the slots of tracked children apart. */
  lemma SpawnKeepsSlotsApart(t: Tables, id: nat, after: Tables, m: ManagedSpawn)
    requires SlotsApart(t.children) && SpawnEffect(t, id, after, m)
    ensures SlotsApart(after.children)
  {
    hide SlotOf;
    if m.StartedChild? {
      forall p | p in t.children && SlotOf(t.children[p]).Some?
        ensures SlotOf(t.children[p]).value in Occupied(t.children)
      {
      }
    }
  }

  // ---------------------------------------------------------------- terminating

  /** Terminating a tracked child ends its tracking whatever systemd does. */
  function Terminate(t: Tables, pid: nat): Tables {
    t.(children := t.children - {pid})
  }

  function TerminateWaiting(t: Tables, id: nat): Tables {
    t.(unconfirmed := t.unconfirmed - {id})
  }

  lemma TerminateAgrees(t: Tables, pid: nat, live: set<nat>, waiting: set<nat>)
    requires Agrees(t, live, waiting)
    ensures var e := [ControllerEvent.Terminated(pid, pid in t.children)];
            && Agrees(Terminate(t, pid), LiveIn(live, e), WaitingIn(waiting, e))
            && PairedIn(live, e) && Replies(e) == []
  {
    var e := ControllerEvent.Terminated(pid, pid in t.children);
    LogOne(live, waiting, e);
    assert Running((t.children - {pid})) == Running(t.children) - {pid};
  }

  lemma TerminateWaitingAgrees(t: Tables, id: nat, live: set<nat>, waiting: set<nat>)
    requires Agrees(t, live, waiting)
    ensures var e := [TerminatedUnconfirmed(id, id in t.unconfirmed)];
            && Agrees(TerminateWaiting(t, id), LiveIn(live, e), WaitingIn(waiting, e))
            && PairedIn(live, e) && Replies(e) == []
  {
    LogOne(live, waiting, TerminatedUnconfirmed(id, id in t.unconfirmed));
  }

  lemma SlotsApartSubset(children: map<nat, UnitChild>, fewer: map<nat, UnitChild>)
    requires SlotsApart(children)
    requires forall p :: p in fewer ==> p in children && fewer[p].unitName == children[p].unitName
    ensures SlotsApart(fewer)
  {
  }

  // ---------------------------------------------------------------- reaping

  function ReapedChildren(children: map<nat, UnitChild>, see: nat -> Seen): map<nat, UnitChild> {
    map pid | pid in children && !ReapChild(children[pid], pid, see(pid)).dropped ::
      ReapChild(children[pid], pid, see(pid)).child
  }

  function ReapedWaiting(unconfirmed: map<nat, string>, gone: nat -> bool): map<nat, string> {
    map id | id in unconfirmed && !gone(id) :: unconfirmed[id]
  }

  function ExitEvents(exits: seq<ProcessExit>): (log: seq<ControllerEvent>)
    ensures |log| == |exits|
    ensures forall k :: 0 <= k < |exits| ==> log[k] == Exited(exits[k])
  {
    seq(|exits|, k requires 0 <= k < |exits| => Exited(exits[k]))
  }

  /** The exits of the children, in the order they are visited. */
  function ReapExits(children: map<nat, UnitChild>, order: seq<nat>, see: nat -> Seen): seq<ControllerEvent>
    requires forall k :: 0 <= k < |order| ==> order[k] in children
  {
    if order == [] then []
    else
      var pid := order[|order| - 1];
      ReapExits(children, order[..|order| - 1], see) + ExitEvents(ReapChild(children[pid], pid, see(pid)).exits)
  }

  function WaitingExits(order: seq<nat>, gone: nat -> bool): seq<ControllerEvent> {
    if order == [] then []
    else
      var id := order[|order| - 1];
      WaitingExits(order[..|order| - 1], gone) + if gone(id) then [UnconfirmedExited(id)] else []
  }

  predicate NoRepeats(order: seq<nat>) {
    forall i, j :: 0 <= i < j < |order| ==> order[i] != order[j]
  }

  /** The order lists the keys. */
  predicate Lists(order: seq<nat>, keys: set<nat>) {
    NoRepeats(order) && (set x | x in order) == keys
  }

  lemma OneExitEvent(exits: seq<ProcessExit>, pid: nat, live: set<nat>, waiting: set<nat>)
    requires |exits| <= 1 && forall k :: 0 <= k < |exits| ==> exits[k].pid == pid
    ensures LiveIn(live, ExitEvents(exits)) == if exits == [] then live else live - {pid}
    ensures WaitingIn(waiting, ExitEvents(exits)) == waiting && Replies(ExitEvents(exits)) == []
    ensures PairedIn(live, ExitEvents(exits)) <==> exits == [] || pid in live
  {
    if exits != [] {
      assert ExitEvents(exits) == [Exited(exits[0])];
      LogOne(live, waiting, Exited(exits[0]));
    }
  }

  /** Reaping reports no exit of this pid. */
  predicate Quiet(children: map<nat, UnitChild>, see: nat -> Seen, pid: nat) {
    pid in children ==> ReapChild(children[pid], pid, see(pid)).exits == []
  }

  /** The live pids once some children have been visited. */
  function Survivors(live: set<nat>, visited: seq<nat>, children: map<nat, UnitChild>, see: nat -> Seen): set<nat> {
    set pid | pid in live && (pid in visited ==> Quiet(children, see, pid))
  }

  lemma SurvivorsStep(live: set<nat>, front: seq<nat>, pid: nat, children: map<nat, UnitChild>, see: nat -> Seen)
    ensures Survivors(live, front + [pid], children, see)
            == if Quiet(children, see, pid) then Survivors(live, front, children, see)
               else Survivors(live, front, children, see) - {pid}
    ensures pid !in front && pid in live ==> pid in Survivors(live, front, children, see)
    ensures Survivors(live, [], children, see) == live
  {
    hide Quiet;
    assert forall q :: q in front + [pid] <==> q in front || q == pid;
  }

  lemma ReapExitsStep(children: map<nat, UnitChild>, order: seq<nat>, see: nat -> Seen)
    requires (forall k :: 0 <= k < |order| ==> order[k] in children) && order != []
    ensures var front, pid := order[..|order| - 1], order[|order| - 1];
            ReapExits(children, order, see) == ReapExits(children, front, see)
              + ExitEvents(ReapChild(children[pid], pid, see(pid)).exits)
  {
    hide ReapChild, ExitEvents;
  }

  lemma LastIsNew(order: seq<nat>)
    requires NoRepeats(order) && order != []
    ensures var front, last := order[..|order| - 1], order[|order| - 1];
            order == front + [last] && last !in front && NoRepeats(front)
  {
  }

  lemma VisitReports(children: map<nat, UnitChild>, pid: nat, see: nat -> Seen)
    requires pid in children && WellTracked(children[pid])
    ensures var exits := ReapChild(children[pid], pid, see(pid)).exits;
            && |exits| <= 1 && (forall k :: 0 <= k < |exits| ==> exits[k].pid == pid)
            && (exits == [] <==> Quiet(children, see, pid))
            && (exits != [] ==> pid in Running(children))
  {
    hide ReapChild;
    ReapReportsOnce(children[pid], pid, see(pid));
  }

  /** After visiting some children, those whose exit was reported are no longer live. */
  lemma {:induction false} ReapExitsLive(children: map<nat, UnitChild>, order: seq<nat>, see: nat -> Seen,
                                         live: set<nat>, waiting: set<nat>)
    requires (forall k :: 0 <= k < |order| ==> order[k] in children) && NoRepeats(order)
    requires live == Running(children) && forall pid :: pid in children ==> WellTracked(children[pid])
    ensures var log := ReapExits(children, order, see);
            && LiveIn(live, log) == Survivors(live, order, children, see)
            && WaitingIn(waiting, log) == waiting && PairedIn(live, log) && Replies(log) == []
    decreases |order|
  {
    hide ReapChild, Survivors, Quiet, LiveIn, WaitingIn, PairedIn, Replies, ReapExits, ExitEvents, Running,
      WellTracked, NoRepeats;
    if order == [] {
      NothingReaped(children, see, live, waiting);
    } else {
      var front, pid := order[..|order| - 1], order[|order| - 1];
      var exits := ReapChild(children[pid], pid, see(pid)).exits;
      var before := ReapExits(children, front, see);
      LastIsNew(order);
      ReapExitsLive(children, front, see, live, waiting);
      VisitReports(children, pid, see);
      OneExitEvent(exits, pid, LiveIn(live, before), waiting);
      LogAppend(live, waiting, before, ExitEvents(exits));
      ReapExitsStep(children, order, see);
      SurvivorsStep(live, front, pid, children, see);
    }
  }

  lemma NothingReaped(children: map<nat, UnitChild>, see: nat -> Seen, live: set<nat>, waiting: set<nat>)
    ensures var log := ReapExits(children, [], see);
            && LiveIn(live, log) == Survivors(live, [], children, see)
            && WaitingIn(waiting, log) == waiting && PairedIn(live, log) && Replies(log) == []
  {
    SurvivorsStep(live, [], 0, children, see);
  }

  lemma {:induction false} WaitingExitsWait(order: seq<nat>, gone: nat -> bool, live: set<nat>, waiting: set<nat>)
    ensures var log := WaitingExits(order, gone);
            && WaitingIn(waiting, log) == (set id | id in waiting && !(id in order && gone(id)))
            && LiveIn(live, log) == live && PairedIn(live, log) && Replies(log) == []
    decreases |order|
  {
    hide LiveIn, WaitingIn, PairedIn, Replies;
    var log := WaitingExits(order, gone);
    if order == [] {
      LogNothing(live, waiting);
    } else {
      var front, id := order[..|order| - 1], order[|order| - 1];
      var before := WaitingExits(front, gone);
      WaitingExitsWait(front, gone, live, waiting);
      assert order == front + [id];
      assert forall x :: x in order <==> x in front || x == id;
      if gone(id) {
        LogOne(live, WaitingIn(waiting, before), UnconfirmedExited(id));
        LogAppend(live, waiting, before, [UnconfirmedExited(id)]);
      } else {
        assert before + [] == before;
      }
    }
  }

  lemma LogNothing(live: set<nat>, waiting: set<nat>)
    ensures LiveIn(live, []) == live && WaitingIn(waiting, []) == waiting && PairedIn(live, []) && Replies([]) == []
  {
  }

  function Reaped(t: Tables, see: nat -> Seen, gone: nat -> bool): Tables {
    Tables(ReapedChildren(t.children, see), ReapedWaiting(t.unconfirmed, gone))
  }

  function ReapEvents(t: Tables, order: seq<nat>, waitingOrder: seq<nat>, see: nat -> Seen,
                      gone: nat -> bool): seq<ControllerEvent>
    requires forall k :: 0 <= k < |order| ==> order[k] in t.children
  {
    ReapExits(t.children, order, see) + WaitingExits(waitingOrder, gone)
  }

  lemma VisitKeeps(children: map<nat, UnitChild>, see: nat -> Seen, pid: nat)
    requires pid in children && WellTracked(children[pid])
    ensures pid in ReapedChildren(children, see) ==>
              && WellTracked(ReapedChildren(children, see)[pid])
              && ReapedChildren(children, see)[pid].unitName == children[pid].unitName
    ensures pid in Running(ReapedChildren(children, see)) <==> pid in Running(children) && Quiet(children, see, pid)
  {
    hide ReapChild;
    ReapReportsOnce(children[pid], pid, see(pid));
  }

  lemma StillRunning(children: map<nat, UnitChild>, order: seq<nat>, see: nat -> Seen)
    requires Lists(order, children.Keys) && forall pid :: pid in children ==> WellTracked(children[pid])
    ensures Running(ReapedChildren(children, see)) == Survivors(Running(children), order, children, see)
    ensures forall pid :: pid in ReapedChildren(children, see) ==>
              && pid in children
              && WellTracked(ReapedChildren(children, see)[pid])
              && ReapedChildren(children, see)[pid].unitName == children[pid].unitName
  {
    hide ReapChild, WellTracked, Quiet;
    var after := ReapedChildren(children, see);
    forall pid | pid in children
      ensures pid in after ==> WellTracked(after[pid]) && after[pid].unitName == children[pid].unitName
      ensures pid in Running(after) <==> pid in Running(children) && Quiet(children, see, pid)
    {
      VisitKeeps(children, see, pid);
    }
    assert forall pid :: pid in order <==> pid in children;
  }

  lemma StillWaiting(unconfirmed: map<nat, string>, order: seq<nat>, gone: nat -> bool)
    requires Lists(order, unconfirmed.Keys)
    ensures ReapedWaiting(unconfirmed, gone).Keys == set id | id in unconfirmed.Keys && !(id in order && gone(id))
  {
  }

  /** Reaping keeps the agreement, and its exits are exits of live pids, in whatever order children are visited. */
  lemma ReapAgrees(t: Tables, order: seq<nat>, waitingOrder: seq<nat>, see: nat -> Seen, gone: nat -> bool,
                   live: set<nat>, waiting: set<nat>)
    requires Agrees(t, live, waiting) && Lists(order, t.children.Keys) && Lists(waitingOrder, t.unconfirmed.Keys)
    ensures var log := ReapEvents(t, order, waitingOrder, see, gone);
            && Agrees(Reaped(t, see, gone), LiveIn(live, log), WaitingIn(waiting, log))
            && PairedIn(live, log) && Replies(log) == []
    ensures SlotsApart(t.children) ==> SlotsApart(Reaped(t, see, gone).children)
  {
    hide ReapChild, WellTracked, Running, ReapedChildren, ReapedWaiting, SlotsApart, LiveIn, WaitingIn, PairedIn,
      Replies, ReapExits, WaitingExits, Survivors;
    var exits, rest := ReapExits(t.children, order, see), WaitingExits(waitingOrder, gone);
    ReapExitsLive(t.children, order, see, live, waiting);
    WaitingExitsWait(waitingOrder, gone, LiveIn(live, exits), waiting);
    LogAppend(live, waiting, exits, rest);
    StillRunning(t.children, order, see);
    StillWaiting(t.unconfirmed, waitingOrder, gone);
    if SlotsApart(t.children) {
      SlotsApartSubset(t.children, ReapedChildren(t.children, see));
    }
  }
}
