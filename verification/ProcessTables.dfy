/**
 The tracking tables of the process manager as values, and the worker's event log.

 `Spawned`, `Terminated`, `Reaped` say what each operation makes of the tables; systemd, the
 children and their supervisors are inputs. The lemmas relate the tables to the events the worker
 sends.
 */
module ProcessTables {
  import opened Basics
  import UnitNames
  import Session = SupervisorSession

  datatype Observation = ChildKeptRunning

  datatype ProcessExit = ProcessExit(pid: nat, exitCode: Option<int>, observation: Option<Observation>)

  datatype ControllerEvent =
    | SpawnStarted(request: nat, pid: nat)
    | SpawnStartedUnconfirmed(request: nat, pid: nat, observation: Observation)
    | SpawnUnconfirmed(request: nat)
    | SpawnFailed(request: nat)
    | TerminatedUnconfirmed(request: nat, ok: bool)
    | UnconfirmedExited(request: nat)
    | Terminated(pid: nat, ok: bool)
    | Exited(exit: ProcessExit)

  datatype UnitChild = UnitChild(
    unitName: string,
    unitless: bool,
    finalEvent: Option<Option<int>>,
    appExitReported: bool,
    eventStreamClosed: bool,
    supervisorStatus: Option<Option<int>>,
    exitObservationFailureReported: bool,
    launchObservation: Option<Observation>)

  datatype Tables = Tables(children: map<nat, UnitChild>, unconfirmed: map<nat, string>)

  // ---------------------------------------------------------------- spawning

  /** What `start_unit` does; a failure may be the application's own (`child_exec_failure`). */
  datatype StartAttempt =
    | StartedUnit(pid: nat, observation: Option<Observation>)
    | Unconfirmed
    | Collision
    | Failure(exec: bool)

  /** A spawn command and how the system answers it: per slot for units, and for a plain process. */
  datatype SpawnRequest = SpawnRequest(
    basename: Option<seq<Byte>>,
    mainApp: bool,
    start: nat -> StartAttempt,
    unitless: Option<nat>)

  datatype ManagedSpawn =
    | StartedChild(pid: nat, replaced: Option<nat>, observation: Option<Observation>)
    | UnconfirmedSpawn
    | SpawnError

  function NewUnit(name: string, observation: Option<Observation>): UnitChild {
    UnitChild(name, false, None, false, false, None, false, observation)
  }

  function NewUnitless(name: string): UnitChild {
    UnitChild(name, true, None, false, true, None, false, None)
  }

  function SlotOf(child: UnitChild): Option<nat> {
    UnitNames.UnitSlotForName(child.unitName)
  }

  function Occupied(children: map<nat, UnitChild>): set<nat> {
    set pid | pid in children && SlotOf(children[pid]).Some? :: SlotOf(children[pid]).value
  }

  function Name(basename: seq<Byte>, slot: nat): string {
    UnitNames.UnitName(slot, UnitNames.Component(basename, slot))
  }

  /** The slots a spawn may try. */
  predicate Candidate(r: SpawnRequest, maxSlot: nat, occupied: set<nat>, slot: nat) {
    slot <= maxSlot && slot !in occupied && (slot == 0 ==> r.mainApp)
  }

  /** The first candidate from a slot on whose name does not collide. */
  function Settle(r: SpawnRequest, maxSlot: nat, occupied: set<nat>, from: nat): (slot: Option<nat>)
    ensures slot.Some? ==>
              && from <= slot.value && Candidate(r, maxSlot, occupied, slot.value) && r.start(slot.value) != Collision
    ensures forall s :: from <= s < (if slot.Some? then slot.value else maxSlot + 1) ==>
              Candidate(r, maxSlot, occupied, s) ==> r.start(s) == Collision
    decreases maxSlot + 1 - from
  {
    if from > maxSlot then None
    else if Candidate(r, maxSlot, occupied, from) && r.start(from) != Collision then Some(from)
    else Settle(r, maxSlot, occupied, from + 1)
  }

  /** The last candidate below a slot. */
  function LastCandidate(r: SpawnRequest, maxSlot: nat, occupied: set<nat>, below: nat): (slot: Option<nat>)
    ensures slot.Some? ==> slot.value < below && Candidate(r, maxSlot, occupied, slot.value)
    ensures forall s :: (if slot.Some? then slot.value + 1 else 0) <= s < below ==> !Candidate(r, maxSlot, occupied, s)
  {
    if below == 0 then None
    else if Candidate(r, maxSlot, occupied, below - 1) then Some(below - 1)
    else LastCandidate(r, maxSlot, occupied, below - 1)
  }

  function Track(t: Tables, pid: nat, child: UnitChild): Tables {
    t.(children := t.children[pid := child])
  }

  function Replaced(t: Tables, pid: nat): Option<nat> {
    if pid in t.children then Some(pid) else None
  }

  const UNAVAILABLE := "unavailable"

  function SpawnedUnitless(t: Tables, r: SpawnRequest, name: string): (Tables, ManagedSpawn) {
    if r.unitless.None? then (t, SpawnError)
    else (Track(t, r.unitless.value, NewUnitless(name)),
          StartedChild(r.unitless.value, Replaced(t, r.unitless.value), None))
  }

  function SpawnedAt(t: Tables, id: nat, r: SpawnRequest, basename: seq<Byte>, slot: nat): (Tables, ManagedSpawn)
    requires r.start(slot) != Collision
  {
    match r.start(slot)
    case StartedUnit(pid, observation) =>
      (Track(t, pid, NewUnit(Name(basename, slot), observation)), StartedChild(pid, Replaced(t, pid), observation))
    case Unconfirmed => (t.(unconfirmed := t.unconfirmed[id := Name(basename, slot)]), UnconfirmedSpawn)
    case Failure(exec) => if exec then (t, SpawnError) else SpawnedUnitless(t, r, Name(basename, slot))
  }

  /** What a spawn makes of the tables, and its result. */
  function Spawned(t: Tables, id: nat, r: SpawnRequest): (Tables, ManagedSpawn) {
    if r.basename.None? then SpawnedUnitless(t, r, UNAVAILABLE)
    else
      var basename := r.basename.value;
      UnitNames.SlotLimitExists(basename);
      var maxSlot, occupied := UnitNames.SlotLimit(basename).value, Occupied(t.children);
      var slot := Settle(r, maxSlot, occupied, 0);
      if slot.Some? then SpawnedAt(t, id, r, basename, slot.value)
      else
        var last := LastCandidate(r, maxSlot, occupied, maxSlot + 1);
        SpawnedUnitless(t, r, if last.Some? then Name(basename, last.value) else UNAVAILABLE)
  }

  // ---------------------------------------------------------------- reaping

  /** What `try_wait` says of a process. */
  datatype ProcessWait = HasExited(code: Option<int>) | StillRunning | WaitError

  /** What the manager sees of a child when it reaps: the supervisor's events read so far, whether
      the event stream ended behind them, and the process. */
  datatype Seen = Seen(events: seq<Session.Event>, closed: bool, wait: ProcessWait, retry: Option<Option<int>>)

  /** A child after reaping, the exits reported, and whether tracking ends. */
  datatype Reap = Reap(child: UnitChild, exits: seq<ProcessExit>, dropped: bool)

  /** What one event of the supervisor does. */
  function Heard(child: UnitChild, pid: nat, e: Session.Event): Reap {
    match e
    case Finished(code, _) => Reap(child.(finalEvent := Some(code)), [], false)
    case StartFailed => Reap(child.(finalEvent := Some(None)), [], false)
    case ChildExited(code, _) =>
      if child.appExitReported then Reap(child, [], false)
      else Reap(child.(appExitReported := true), [ProcessExit(pid, code, None)], false)
    case _ => Reap(child, [], false)
  }

  function HeardAll(child: UnitChild, pid: nat, events: seq<Session.Event>): Reap {
    if events == [] then Reap(child, [], false)
    else
      var before := HeardAll(child, pid, events[..|events| - 1]);
      var last := Heard(before.child, pid, events[|events| - 1]);
      Reap(last.child, before.exits + last.exits, false)
  }

  /** The supervisor's own end. */
  function Watched(child: UnitChild, seen: Seen): UnitChild {
    var c := if seen.closed then child.(eventStreamClosed := true) else child;
    if c.supervisorStatus.Some? then c
    else
      match seen.wait
      case HasExited(code) => c.(supervisorStatus := Some(code))
      case StillRunning => c
      case WaitError => c.(eventStreamClosed := true, supervisorStatus := seen.retry)
  }

  function ReapUnit(child: UnitChild, pid: nat, seen: Seen): Reap {
    var heard := HeardAll(child, pid, seen.events);
    var c := Watched(heard.child, seen);
    if c.supervisorStatus.None? || (c.finalEvent.None? && !c.eventStreamClosed) then Reap(c, heard.exits, false)
    else if c.appExitReported then Reap(c, heard.exits, true)
    else
      var exit := if c.finalEvent.Some? then ProcessExit(pid, c.finalEvent.value, None)
                  else ProcessExit(pid, None, c.launchObservation);
      Reap(c.(appExitReported := true), heard.exits + [exit], true)
  }

  function ReapUnitless(child: UnitChild, pid: nat, seen: Seen): Reap {
    match seen.wait
    case HasExited(code) => Reap(child, [ProcessExit(pid, code, None)], true)
    case StillRunning => Reap(child, [], false)
    case WaitError => Reap(child.(exitObservationFailureReported := true), [], false)
  }

  function ReapChild(child: UnitChild, pid: nat, seen: Seen): Reap {
    if child.unitless then ReapUnitless(child, pid, seen) else ReapUnit(child, pid, seen)
  }

  predicate WellTracked(child: UnitChild) {
    child.unitless ==> !child.appExitReported
  }

  /**
   Each reap reports at most one exit, and exactly one if the child's exit becomes known by it;
   tracking ends only after the exit has been reported.
   */
  lemma ReapReportsOnce(child: UnitChild, pid: nat, seen: Seen)
    requires WellTracked(child)
    ensures ReportsOnce(child, pid, ReapChild(child, pid, seen)) && WellTracked(ReapChild(child, pid, seen).child)
  {
    hide HeardAll;
    if !child.unitless {
      HeardReportsOnce(child, pid, seen.events);
      WatchedKeeps(HeardAll(child, pid, seen.events).child, seen);
    }
  }

  predicate ReportsOnce(child: UnitChild, pid: nat, r: Reap) {
    && r.child.unitName == child.unitName && r.child.unitless == child.unitless
    && |r.exits| <= 1
    && (r.exits != [] <==> !child.appExitReported && (r.dropped || r.child.appExitReported))
    && (child.appExitReported ==> r.child.appExitReported)
    && (forall k :: 0 <= k < |r.exits| ==> r.exits[k].pid == pid)
  }

  lemma WatchedKeeps(child: UnitChild, seen: Seen)
    ensures var c := Watched(child, seen);
            && c.unitName == child.unitName && c.unitless == child.unitless
            && c.appExitReported == child.appExitReported
            && c.finalEvent == child.finalEvent && c.launchObservation == child.launchObservation
  {
  }

  lemma HeardStep(child: UnitChild, pid: nat, events: seq<Session.Event>)
    requires events != []
    ensures var before := HeardAll(child, pid, events[..|events| - 1]);
            var last := Heard(before.child, pid, events[|events| - 1]);
            HeardAll(child, pid, events) == Reap(last.child, before.exits + last.exits, false)
  {
  }

  lemma {:induction false} HeardReportsOnce(child: UnitChild, pid: nat, events: seq<Session.Event>)
    ensures ReportsOnce(child, pid, HeardAll(child, pid, events)) && !HeardAll(child, pid, events).dropped
    decreases |events|
  {
    if events != [] {
      HeardReportsOnce(child, pid, events[..|events| - 1]);
    }
  }

  // ---------------------------------------------------------------- the life of a child

  /** Reaping one child again and again until tracking ends. */
  function Life(child: UnitChild, pid: nat, seen: seq<Seen>): Reap
    decreases |seen|
  {
    if seen == [] then Reap(child, [], false)
    else
      var first := ReapChild(child, pid, seen[0]);
      if first.dropped then first
      else
        var rest := Life(first.child, pid, seen[1..]);
        Reap(rest.child, first.exits + rest.exits, rest.dropped)
  }

  /** A child that is neither terminated nor replaced yields exactly one exit before it is dropped. */
  lemma {:induction false} ExactlyOneExit(child: UnitChild, pid: nat, seen: seq<Seen>)
    requires WellTracked(child)
    ensures var r := Life(child, pid, seen);
            && |r.exits| <= 1
            && (child.appExitReported ==> r.exits == [] && r.child.appExitReported)
            && (!child.appExitReported && r.dropped ==> |r.exits| == 1)
            && (!r.dropped ==> (r.exits != [] <==> !child.appExitReported && r.child.appExitReported))
    decreases |seen|
  {
    hide ReapChild;
    if seen != [] {
      ReapReportsOnce(child, pid, seen[0]);
      ExactlyOneExit(ReapChild(child, pid, seen[0]).child, pid, seen[1..]);
    }
  }

  /** All events read over the child's life, up to the reap that ends it. */
  function Transcript(child: UnitChild, pid: nat, seen: seq<Seen>): seq<Session.Event>
    decreases |seen|
  {
    if seen == [] then []
    else
      var first := ReapChild(child, pid, seen[0]);
      seen[0].events + if first.dropped then [] else Transcript(first.child, pid, seen[1..])
  }

  /** Every event is one the supervisor of this child sends, and it knows only one exit code. */
  predicate OneCode(events: seq<Session.Event>, code: Option<int>) {
    forall i :: 0 <= i < |events| ==>
      && !events[i].StartFailed?
      && (events[i].ChildExited? || events[i].Finished? ==> events[i].exitCode == code)
  }

  predicate IsNews(e: Session.Event) {
    e.ChildExited? || e.Finished?
  }

  predicate NoNews(events: seq<Session.Event>) {
    forall i :: 0 <= i < |events| ==> !IsNews(events[i])
  }

  predicate Carry(exits: seq<ProcessExit>, code: Option<int>) {
    forall k :: 0 <= k < |exits| ==> exits[k].exitCode == code
  }

  predicate Expects(child: UnitChild, code: Option<int>) {
    child.finalEvent.Some? ==> child.finalEvent.value == code
  }

  lemma NewsAppend(a: seq<Session.Event>, b: seq<Session.Event>, code: Option<int>)
    ensures OneCode(a + b, code) <==> OneCode(a, code) && OneCode(b, code)
    ensures NoNews(a + b) <==> NoNews(a) && NoNews(b)
  {
    assert forall i :: 0 <= i < |a| ==> (a + b)[i] == a[i];
    assert forall i :: 0 <= i < |b| ==> (a + b)[|a| + i] == b[i];
  }

  lemma {:induction false} HeardCode(child: UnitChild, pid: nat, events: seq<Session.Event>, code: Option<int>)
    requires OneCode(events, code) && Expects(child, code)
    ensures var r := HeardAll(child, pid, events);
            && Expects(r.child, code) && Carry(r.exits, code)
            && (!NoNews(events) || child.finalEvent.Some? ==> r.child.finalEvent.Some? || r.child.appExitReported)
            && (child.finalEvent.Some? ==> r.child.finalEvent.Some?)
            && (child.appExitReported ==> r.child.appExitReported)
    decreases |events|
  {
    hide HeardAll;
    if events == [] {
      assert HeardAll(child, pid, events) == Reap(child, [], false) by {
        HeardNothing(child, pid);
      }
    } else {
      var front, last := events[..|events| - 1], events[|events| - 1];
      assert events == front + [last];
      NewsAppend(front, [last], code);
      HeardCode(child, pid, front, code);
      HeardStep(child, pid, events);
      assert OneCode([last], code) ==> [last][0] == last;
      assert NoNews([last]) <==> !IsNews(last);
    }
  }

  lemma HeardNothing(child: UnitChild, pid: nat)
    ensures HeardAll(child, pid, []) == Reap(child, [], false)
  {
  }

  lemma ReapCode(child: UnitChild, pid: nat, seen: Seen, code: Option<int>)
    requires !child.unitless && OneCode(seen.events, code) && Expects(child, code)
    ensures var r := ReapChild(child, pid, seen);
            && Expects(r.child, code)
            && (Carry(r.exits, code) || (r.dropped && NoNews(seen.events) && child.finalEvent.None?))
            && (!NoNews(seen.events) || child.finalEvent.Some? ==> r.child.finalEvent.Some? || r.child.appExitReported)
  {
    hide HeardAll, NoNews;
    HeardCode(child, pid, seen.events, code);
    HeardReportsOnce(child, pid, seen.events);
    WatchedKeeps(HeardAll(child, pid, seen.events).child, seen);
  }

  lemma {:induction false} ExitsShowCode(events: seq<Session.Event>, code: Option<int>, flag: bool)
    requires Session.Exits(events) == [Session.ChildExited(code, flag)]
    ensures exists i :: 0 <= i < |events| && events[i].ChildExited?
    ensures forall i :: 0 <= i < |events| && events[i].ChildExited? ==> events[i].exitCode == code
    decreases |events|
  {
    var front, last := events[..|events| - 1], events[|events| - 1];
    if last.ChildExited? {
      assert Session.Exits(front) == [];
      NoExitIn(front);
      assert Session.Exits(events)[0] == last && events[|front|] == last;
    } else {
      ExitsShowCode(front, code, flag);
      var i :| 0 <= i < |front| && front[i].ChildExited?;
      assert events[i].ChildExited?;
    }
    assert forall i :: 0 <= i < |front| ==> events[i] == front[i];
  }

  /** A supervisor that follows the protocol speaks of one exit code only, and speaks of it. */
  lemma ProtocolOneCode(events: seq<Session.Event>, code: Option<int>)
    requires Session.Protocol(events, code)
    ensures OneCode(events, code) && !NoNews(events)
  {
    hide Session.OfStream, Session.HasFailure, Session.ExitsKnowFailures;
    var flag :| Session.Exits(events) == [Session.ChildExited(code, flag)];
    ExitsShowCode(events, code, flag);
    assert IsNews(events[|events| - 1]);
    forall i | 0 <= i < |events|
      ensures !events[i].StartFailed? && (events[i].ChildExited? || events[i].Finished? ==> events[i].exitCode == code)
    {
      assert 0 < i < |events| - 1 ==> events[i] == events[1..|events| - 1][i - 1];
    }
  }

  lemma {:induction false} NoExitIn(events: seq<Session.Event>)
    requires Session.Exits(events) == []
    ensures forall i :: 0 <= i < |events| ==> !events[i].ChildExited?
    decreases |events|
  {
    if events != [] {
      NoExitIn(events[..|events| - 1]);
      assert forall i :: 0 <= i < |events| - 1 ==> events[..|events| - 1][i] == events[i];
    }
  }

  /**
   The exit a unit child yields carries the application's exit code, unless no event that knows the
   code was read: whatever way the session's events are spread over the reaps.
   */
  lemma {:induction false} ExitCarriesCode(child: UnitChild, pid: nat, seen: seq<Seen>, code: Option<int>)
    requires !child.unitless && Expects(child, code) && OneCode(Transcript(child, pid, seen), code)
    ensures Carry(Life(child, pid, seen).exits, code)
            || (NoNews(Transcript(child, pid, seen)) && child.finalEvent.None?)
    decreases |seen|
  {
    hide ReapChild, OneCode, NoNews, Expects;
    if seen != [] {
      var first, events := ReapChild(child, pid, seen[0]), seen[0].events;
      ReapReportsOnce(child, pid, seen[0]);
      if first.dropped {
        assert events + [] == events;
        ReapCode(child, pid, seen[0], code);
      } else {
        NewsAppend(events, Transcript(first.child, pid, seen[1..]), code);
        ReapCode(child, pid, seen[0], code);
        ExitCarriesCode(first.child, pid, seen[1..], code);
        ExactlyOneExit(first.child, pid, seen[1..]);
      }
    }
  }

  predicate TellsExit(events: seq<Session.Event>) {
    exists i :: 0 <= i < |events| && events[i].ChildExited?
  }

  lemma TellsExitAppend(a: seq<Session.Event>, b: seq<Session.Event>)
    requires TellsExit(a + b)
    ensures TellsExit(a) || TellsExit(b)
  {
    var i :| 0 <= i < |a + b| && (a + b)[i].ChildExited?;
    assert i < |a| ==> a[i].ChildExited?;
    assert i >= |a| ==> b[i - |a|].ChildExited?;
  }

  lemma ProtocolTellsExit(events: seq<Session.Event>, code: Option<int>)
    requires Session.Protocol(events, code)
    ensures TellsExit(events)
  {
    hide Session.OfStream, Session.HasFailure, Session.ExitsKnowFailures;
    var flag :| Session.Exits(events) == [Session.ChildExited(code, flag)];
    ExitsShowCode(events, code, flag);
  }

  lemma {:induction false} HeardExit(child: UnitChild, pid: nat, events: seq<Session.Event>)
    requires TellsExit(events)
    ensures HeardAll(child, pid, events).child.appExitReported
    decreases |events|
  {
    hide HeardAll, TellsExit;
    TellsExitLast(events);
    HeardStep(child, pid, events);
    if !events[|events| - 1].ChildExited? {
      HeardExit(child, pid, events[..|events| - 1]);
    }
  }

  lemma TellsExitLast(events: seq<Session.Event>)
    requires TellsExit(events)
    ensures events != [] && (events[|events| - 1].ChildExited? || TellsExit(events[..|events| - 1]))
  {
    var i :| 0 <= i < |events| && events[i].ChildExited?;
    assert i < |events| - 1 ==> events[..|events| - 1][i].ChildExited?;
  }

  /** Once the session's exit has been read, the child is known to have exited. */
  lemma {:induction false} LifeReports(child: UnitChild, pid: nat, seen: seq<Seen>)
    requires WellTracked(child) && !child.unitless && TellsExit(Transcript(child, pid, seen))
    ensures Life(child, pid, seen).dropped || Life(child, pid, seen).child.appExitReported
    decreases |seen|
  {
    hide ReapChild, TellsExit;
    NothingTold();
    if seen != [] {
      var first, events := ReapChild(child, pid, seen[0]), seen[0].events;
      ReapReportsOnce(child, pid, seen[0]);
      if !first.dropped {
        TellsExitAppend(events, Transcript(first.child, pid, seen[1..]));
        if TellsExit(events) {
          ReapHears(child, pid, seen[0]);
          ExactlyOneExit(first.child, pid, seen[1..]);
        } else {
          LifeReports(first.child, pid, seen[1..]);
        }
      }
    }
  }

  lemma NothingTold()
    ensures !TellsExit([])
  {
  }

  lemma ReapHears(child: UnitChild, pid: nat, seen: Seen)
    requires !child.unitless && TellsExit(seen.events)
    ensures ReapChild(child, pid, seen).child.appExitReported
  {
    hide HeardAll, TellsExit;
    HeardExit(child, pid, seen.events);
    WatchedKeeps(HeardAll(child, pid, seen.events).child, seen);
  }

  /**
   Together: if the events read of a started child are the frames of its session, however they are
   spread over the reaps and wherever the tracking ends, the child yields exactly one exit, which
   carries the exit code of the application.
   */
  lemma SessionYieldsItsExit(name: string, observation: Option<Observation>, pid: nat, seen: seq<Seen>,
                             code: Option<int>)
    requires Session.Protocol(Transcript(NewUnit(name, observation), pid, seen), code)
    ensures var r := Life(NewUnit(name, observation), pid, seen);
            |r.exits| == 1 && Carry(r.exits, code)
  {
    hide Session.Protocol, OneCode, NoNews, Carry, Life, Transcript, TellsExit;
    var child := NewUnit(name, observation);
    ProtocolOneCode(Transcript(child, pid, seen), code);
    ProtocolTellsExit(Transcript(child, pid, seen), code);
    LifeReports(child, pid, seen);
    ExitCarriesCode(child, pid, seen, code);
    ExactlyOneExit(child, pid, seen);
  }
}
