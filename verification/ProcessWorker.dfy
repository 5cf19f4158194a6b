/** The worker thread: takes commands, lets the manager act, and sends events. */
module ProcessWorker {
  import opened Basics
  import opened ProcessTables
  import opened ProcessLog
  import opened ProcessManager
  import UnitNames
  import SpawnRules
  import Session = SupervisorSession

  datatype Command =
    | Spawn(id: nat, request: SpawnRequest)
    | Terminate(pid: nat, stopped: bool)
    | TerminateUnconfirmed(id: nat, stopped: bool)
    | Shutdown
    | Disconnected
    | Timeout

  /**
   One pass of the worker's loop, as far as others decide it: the command, the shutdown flag when it
   is read before and after a spawn, the order in which the tables list their keys, and what reaping
   sees of each child.
   */
  datatype Tick = Tick(
    command: Command,
    shutdownBefore: bool,
    shutdownAfter: bool,
    order: set<nat> -> seq<nat>,
    see: nat -> Seen,
    gone: nat -> bool)

  ghost predicate Enumerates(order: set<nat> -> seq<nat>) {
    forall keys: set<nat> :: Lists(order(keys), keys)
  }

  /** All sends from one number up to another are taken. */
  predicate AllTaken(accepts: nat -> bool, from: nat, to: nat) {
    forall i: nat :: from <= i < to ==> accepts(i)
  }

  /** The pass in which the worker stops: told to, left alone, or shut down while it spawns. */
  predicate StopsIn(tick: Tick) {
    tick.command.Shutdown? || tick.command.Disconnected?
    || (tick.command.Spawn? && !tick.shutdownBefore && tick.shutdownAfter)
  }

  /** The channel to the compositor: sending fails once the receiver is gone. */
  class EventChannel {
    const accepts: nat -> bool
    var sends: nat
    var log: seq<ControllerEvent>

    constructor (accepts: nat -> bool)
      ensures this.accepts == accepts && log == []
    {
      this.accepts := accepts;
      sends, log := 0, [];
    }

    method Send(e: ControllerEvent) returns (ok: bool)
      modifies this
      ensures log == old(log) + if ok then [e] else []
      ensures sends == old(sends) + 1 && ok == accepts(old(sends))
    {
      ok := accepts(sends);
      sends := sends + 1;
      if ok {
        log := log + [e];
      }
    }

    method SendAll(events: seq<ControllerEvent>) returns (ok: bool)
      modifies this
      ensures ok ==> log == old(log) + events
      ensures exists n :: 0 <= n <= |events| && log == old(log) + events[..n]
      ensures old(sends) <= sends && (ok <==> AllTaken(accepts, old(sends), sends))
    {
      for i := 0 to |events|
        invariant log == old(log) + events[..i]
        invariant old(sends) <= sends && AllTaken(accepts, old(sends), sends)
      {
        ok := Send(events[i]);
        assert events[..i + 1] == events[..i] + [events[i]];
        if !ok {
          assert log == old(log) + events[..i];
          return false;
        }
      }
      assert events[..|events|] == events;
      return true;
    }
  }

  /** The spawn request this pass answers. */
  function Asked(tick: Tick): seq<nat> {
    if tick.command.Spawn? && !tick.shutdownBefore then [tick.command.id] else []
  }

  function AskedAll(ticks: seq<Tick>): seq<nat> {
    if ticks == [] then [] else AskedAll(ticks[..|ticks| - 1]) + Asked(ticks[|ticks| - 1])
  }

  /** The command reuses the pid of a child whose exit has been reported. */
  predicate Restarts(t: Tables, tick: Tick) {
    tick.command.Spawn? && !tick.shutdownBefore
    && ReusesReported(t, Spawned(t, tick.command.id, tick.command.request).1)
  }

  /** What a pass makes of the tables, while the worker runs. */
  function AfterTick(t: Tables, tick: Tick): Tables {
    match tick.command
    case Spawn(id, request) =>
      if tick.shutdownBefore then t else Reaped(Spawned(t, id, request).0, tick.see, tick.gone)
    case Terminate(pid, _) => Reaped(ProcessLog.Terminate(t, pid), tick.see, tick.gone)
    case TerminateUnconfirmed(id, _) => Reaped(TerminateWaiting(t, id), tick.see, tick.gone)
    case _ => Reaped(t, tick.see, tick.gone)
  }

  const NO_TABLES := Tables(map[], map[])

  function TablesAfter(ticks: seq<Tick>): Tables {
    if ticks == [] then NO_TABLES else AfterTick(TablesAfter(ticks[..|ticks| - 1]), ticks[|ticks| - 1])
  }

  /** No pass reuses the pid of a child whose exit has been reported. */
  predicate NoRestart(ticks: seq<Tick>) {
    ticks == [] || (NoRestart(ticks[..|ticks| - 1]) && !Restarts(TablesAfter(ticks[..|ticks| - 1]), ticks[|ticks| - 1]))
  }

  lemma {:induction false} NoRestartAt(ticks: seq<Tick>)
    ensures NoRestart(ticks) <==> forall k :: 0 <= k < |ticks| ==> !Restarts(TablesAfter(ticks[..k]), ticks[k])
    decreases |ticks|
  {
    hide Restarts, TablesAfter;
    if ticks != [] {
      var front := ticks[..|ticks| - 1];
      NoRestartAt(front);
      assert forall k :: 0 <= k < |front| ==> front[..k] == ticks[..k] && front[k] == ticks[k];
    }
  }

  lemma PassStep(ticks: seq<Tick>, n: nat)
    requires n < |ticks|
    ensures TablesAfter(ticks[..n + 1]) == AfterTick(TablesAfter(ticks[..n]), ticks[n])
    ensures AskedAll(ticks[..n + 1]) == AskedAll(ticks[..n]) + Asked(ticks[n])
    ensures NoRestart(ticks[..n + 1]) <==> NoRestart(ticks[..n]) && !Restarts(TablesAfter(ticks[..n]), ticks[n])
  {
    hide AfterTick, Asked, Restarts;
    assert ticks[..n + 1][..n] == ticks[..n];
  }

  /** The tables agree with the log, and the slots of tracked children are distinct. */
  predicate InStep(t: Tables, log: seq<ControllerEvent>) {
    Agrees(t, Live(log), Waiting(log)) && SlotsApart(t.children)
  }

  /** Events that keep the tables in step, and reply to some requests. */
  lemma LogGrows(t: Tables, log: seq<ControllerEvent>, events: seq<ControllerEvent>)
    requires Agrees(t, LiveIn(Live(log), events), WaitingIn(Waiting(log), events)) && SlotsApart(t.children)
    ensures InStep(t, log + events) && Replies(log + events) == Replies(log) + Replies(events)
    ensures Paired(log + events) <==> Paired(log) && PairedIn(Live(log), events)
  {
    hide Agrees, SlotsApart, LiveIn, WaitingIn, PairedIn, Replies;
    LogAppend({}, {}, log, events);
  }

  lemma SpawnInStep(t: Tables, log: seq<ControllerEvent>, id: nat, r: SpawnRequest)
    requires InStep(t, log)
    ensures var s := Spawned(t, id, r);
            && InStep(s.0, log + SpawnEvents(id, s.1))
            && Replies(log + SpawnEvents(id, s.1)) == Replies(log) + [id]
            && (Paired(log + SpawnEvents(id, s.1)) <==> Paired(log) && !ReusesReported(t, s.1))
  {
    hide Spawned, Agrees, SlotsApart, LiveIn, WaitingIn, PairedIn, Replies, SpawnEvents, SpawnEffect, ReusesReported,
      Live, Waiting;
    var s := Spawned(t, id, r);
    SpawnHasEffect(t, id, r);
    if s.1.StartedChild? {
      NewIsTracked(t, id, s.0, s.1);
    }
    SpawnAgrees(t, id, s.0, s.1, Live(log), Waiting(log));
    SpawnPairedExactly(t, id, s.0, s.1, Live(log), Waiting(log));
    SpawnKeepsSlotsApart(t, id, s.0, s.1);
    LogGrows(s.0, log, SpawnEvents(id, s.1));
  }

  lemma NewIsTracked(t: Tables, id: nat, after: Tables, m: ManagedSpawn)
    requires SpawnEffect(t, id, after, m) && m.StartedChild?
    ensures m.pid in after.children && WellTracked(after.children[m.pid])
  {
  }

  lemma ReapInStep(t: Tables, log: seq<ControllerEvent>, order: seq<nat>, waitingOrder: seq<nat>, see: nat -> Seen,
                   gone: nat -> bool)
    requires InStep(t, log) && Lists(order, t.children.Keys) && Lists(waitingOrder, t.unconfirmed.Keys)
    ensures var events := ReapEvents(t, order, waitingOrder, see, gone);
            && InStep(Reaped(t, see, gone), log + events)
            && Replies(events) == [] && Replies(log + events) == Replies(log)
            && (Paired(log + events) <==> Paired(log))
  {
    hide Reaped, ReapEvents, Agrees, SlotsApart, LiveIn, WaitingIn, PairedIn, Replies, Live, Waiting, NoRepeats;
    var events := ReapEvents(t, order, waitingOrder, see, gone);
    ReapAgrees(t, order, waitingOrder, see, gone, Live(log), Waiting(log));
    LogGrows(Reaped(t, see, gone), log, events);
    assert Replies(log) + [] == Replies(log);
  }

  lemma TerminateInStep(t: Tables, log: seq<ControllerEvent>, pid: nat)
    requires InStep(t, log)
    ensures var events := [ControllerEvent.Terminated(pid, pid in t.children)];
            && InStep(ProcessLog.Terminate(t, pid), log + events) && Replies(log + events) == Replies(log)
            && (Paired(log + events) <==> Paired(log))
  {
    hide ProcessLog.Terminate, Agrees, SlotsApart, LiveIn, WaitingIn, PairedIn, Replies, Live, Waiting;
    TerminateAgrees(t, pid, Live(log), Waiting(log));
    TerminatedApart(t, pid);
    LogGrows(ProcessLog.Terminate(t, pid), log, [ControllerEvent.Terminated(pid, pid in t.children)]);
    assert Replies(log) + [] == Replies(log);
  }

  lemma TerminatedApart(t: Tables, pid: nat)
    requires SlotsApart(t.children)
    ensures SlotsApart(ProcessLog.Terminate(t, pid).children)
  {
    hide SlotsApart;
    SlotsApartSubset(t.children, t.children - {pid});
  }

  lemma TerminateWaitingInStep(t: Tables, log: seq<ControllerEvent>, id: nat)
    requires InStep(t, log)
    ensures var events := [TerminatedUnconfirmed(id, id in t.unconfirmed)];
            && InStep(TerminateWaiting(t, id), log + events) && Replies(log + events) == Replies(log)
            && (Paired(log + events) <==> Paired(log))
  {
    hide Agrees, SlotsApart, LiveIn, WaitingIn, PairedIn, Replies, Live, Waiting;
    TerminateWaitingAgrees(t, id, Live(log), Waiting(log));
    LogGrows(TerminateWaiting(t, id), log, [TerminatedUnconfirmed(id, id in t.unconfirmed)]);
    assert Replies(log) + [] == Replies(log);
  }

  /** The events for the result of a spawn. */
  function SentFor(id: nat, m: ManagedSpawn): seq<ControllerEvent> {
    match m
    case StartedChild(pid, replaced, observation) =>
      (match replaced
       case Some(before) => [Exited(ProcessExit(before, None, None))]
       case None => [])
      + [match observation
         case Some(o) => SpawnStartedUnconfirmed(id, pid, o)
         case None => SpawnStarted(id, pid)]
    case UnconfirmedSpawn => [SpawnUnconfirmed(id)]
    case SpawnError => [SpawnFailed(id)]
  }

  lemma SentIs(id: nat, m: ManagedSpawn)
    ensures SentFor(id, m) == SpawnEvents(id, m)
  {
  }

  /** What the command of a pass makes of the tables, and what is sent for it. */
  ghost predicate Commanded(t: Tables, command: Command, mid: Tables, sent: seq<ControllerEvent>) {
    match command
    case Spawn(id, request) =>
      exists m :: SpawnRules.Outcome(t, id, request, mid, m) && sent == SentFor(id, m)
    case Terminate(pid, _) =>
      mid == Tables(t.children - {pid}, t.unconfirmed) && sent == [ControllerEvent.Terminated(pid, pid in t.children)]
    case TerminateUnconfirmed(id, _) =>
      mid == Tables(t.children, t.unconfirmed - {id}) && sent == [TerminatedUnconfirmed(id, id in t.unconfirmed)]
    case Timeout => mid == t && sent == []
    case _ => false
  }

  /** A pass: the command, and then a look after every child and every open launch. */
  ghost predicate PassMakes(t: Tables, log: seq<ControllerEvent>, tick: Tick, after: Tables, more: seq<ControllerEvent>,
                            mid: Tables, sent: seq<ControllerEvent>, exited: seq<ControllerEvent>)
  {
    && Commanded(t, tick.command, mid, sent)
    && more == log + sent + exited
    && AllLookedAfter(mid.children, mid.unconfirmed, tick.see, tick.gone, after.children, after.unconfirmed, exited)
  }

  ghost predicate PassDone(t: Tables, log: seq<ControllerEvent>, tick: Tick, after: Tables, more: seq<ControllerEvent>)
  {
    exists mid, sent, exited :: PassMakes(t, log, tick, after, more, mid, sent, exited)
  }

  /** Sends what a spawn came to, unless the worker is shut down meanwhile. */
  method AnswerSpawn(channel: EventChannel, id: nat, m: ManagedSpawn, shutdownAfter: bool) returns (ok: bool)
    modifies channel
    ensures ok ==> channel.log == old(channel.log) + SpawnEvents(id, m)
    ensures channel.log == old(channel.log) + SpawnEvents(id, m)
            || (!ok && Replies(channel.log) == old(Replies(channel.log)))
    ensures old(channel.sends) <= channel.sends
    ensures ok <==> !shutdownAfter && AllTaken(channel.accepts, old(channel.sends), channel.sends)
  {
    hide Replies;
    ghost var log := channel.log;
    match m
    case StartedChild(pid, replaced, observation) =>
      if replaced.Some? {
        ok := channel.Send(Exited(ProcessExit(replaced.value, None, None)));
        NoReply(log, Exited(ProcessExit(replaced.value, None, None)));
        assert !ok ==> channel.log == log;
        if !ok {
          return false;
        }
      }
      if shutdownAfter {
        return false;
      }
      ghost var now := channel.log;
      ok := channel.Send(StartEvent(id, pid, observation));
      assert now + [] == now;
    case UnconfirmedSpawn =>
      if shutdownAfter {
        return false;
      }
      ok := channel.Send(SpawnUnconfirmed(id));
      assert log + [] == log;
    case SpawnError =>
      if shutdownAfter {
        return false;
      }
      ok := channel.Send(SpawnFailed(id));
      assert log + [] == log;
  }

  lemma NoReply(log: seq<ControllerEvent>, e: ControllerEvent)
    requires ReplyTo(e) == []
    ensures Replies(log + [e]) == Replies(log)
  {
    assert (log + [e])[..|log|] == log;
  }

  lemma {:induction false} NoReplies(log: seq<ControllerEvent>, events: seq<ControllerEvent>, n: nat)
    requires n <= |events| && Replies(events) == []
    ensures Replies(log + events[..n]) == Replies(log)
  {
    hide Replies;
    LogAppend({}, {}, log, events[..n]);
    LogAppend({}, {}, events[..n], events[n..]);
    assert events == events[..n] + events[n..];
  }

  /**
   One pass of the worker. As long as it runs, the live pids of the log are exactly the tracked
   children whose exit is not reported, the open launches are those in the table, and every spawn
   has been answered once, in order. Starts and exits of a pid alternate, up to the first reuse of
   the pid of a child whose exit has been reported.
   */
  method WorkerStep(manager: SystemdProcessManager, channel: EventChannel, tick: Tick) returns (running: bool)
    requires InStep(manager.State(), channel.log) && Enumerates(tick.order)
    modifies manager, channel
    ensures running ==> InStep(manager.State(), channel.log)
    ensures running ==> manager.State() == AfterTick(old(manager.State()), tick)
    ensures running ==>
              if tick.command.Spawn? && tick.shutdownBefore
              then manager.State() == old(manager.State()) && channel.log == old(channel.log)
              else PassDone(old(manager.State()), old(channel.log), tick, manager.State(), channel.log)
    ensures running ==> Replies(channel.log) == old(Replies(channel.log)) + Asked(tick)
    ensures old(Replies(channel.log)) <= Replies(channel.log) <= old(Replies(channel.log)) + Asked(tick)
    ensures running ==> (Paired(channel.log) <==> old(Paired(channel.log)) && !Restarts(old(manager.State()), tick))
    ensures old(channel.sends) <= channel.sends
    ensures running <==> !StopsIn(tick) && AllTaken(channel.accepts, old(channel.sends), channel.sends)
  {
    hide InStep, Replies, Paired, Enumerates, ReusesReported, Reaped, Lists, AllLookedAfter, Commanded, Restarts, Asked,
      AfterTick, AllTaken, StopsIn;
    ghost var t, log := manager.State(), channel.log;
    if tick.command.Spawn? && tick.shutdownBefore {
      NotAsked(t, tick, channel.accepts, channel.sends);
      assert Replies(log) + [] == Replies(log);
      return true;
    }
    ghost var sent;
    running, sent := TakeCommand(manager, channel, tick);
    if !running {
      return;
    }
    ghost var mid, from, sends := manager.State(), old(channel.sends), channel.sends;
    ghost var exited;
    running, exited := Reap(manager, channel, tick);
    TakenOn(channel.accepts, from, sends, channel.sends);
    if running {
      assert PassMakes(t, log, tick, manager.State(), channel.log, mid, sent, exited);
    }
  }

  lemma NotAsked(t: Tables, tick: Tick, accepts: nat -> bool, n: nat)
    requires tick.command.Spawn? && tick.shutdownBefore
    ensures Asked(tick) == [] && !Restarts(t, tick) && AfterTick(t, tick) == t && !StopsIn(tick)
    ensures AllTaken(accepts, n, n)
  {
  }

  lemma TakenOn(accepts: nat -> bool, a: nat, b: nat, c: nat)
    requires a <= b <= c && AllTaken(accepts, a, b)
    ensures AllTaken(accepts, a, c) <==> AllTaken(accepts, b, c)
  {
  }

  /** The command of a pass, unless a spawn is not begun because of a shutdown. */
  method TakeCommand(manager: SystemdProcessManager, channel: EventChannel, tick: Tick)
    returns (running: bool, ghost sent: seq<ControllerEvent>)
    requires InStep(manager.State(), channel.log) && !(tick.command.Spawn? && tick.shutdownBefore)
    modifies manager, channel
    ensures running ==> InStep(manager.State(), channel.log)
    ensures running ==> Commanded(old(manager.State()), tick.command, manager.State(), sent)
    ensures running ==> channel.log == old(channel.log) + sent
    ensures running ==> Reaped(manager.State(), tick.see, tick.gone) == AfterTick(old(manager.State()), tick)
    ensures running ==> Replies(channel.log) == old(Replies(channel.log)) + Asked(tick)
    ensures old(Replies(channel.log)) <= Replies(channel.log) <= old(Replies(channel.log)) + Asked(tick)
    ensures running ==> (Paired(channel.log) <==> old(Paired(channel.log)) && !Restarts(old(manager.State()), tick))
    ensures old(channel.sends) <= channel.sends
    ensures running <==> !StopsIn(tick) && AllTaken(channel.accepts, old(channel.sends), channel.sends)
  {
    hide InStep, Replies, Spawned, SpawnEvents, Paired, ReusesReported, Reaped, TerminateWaiting, ProcessLog.Terminate,
      SpawnRules.Outcome, SentFor;
    ghost var t, log := manager.State(), channel.log;
    ghost var told := Replies(log);
    sent, running := [], true;
    assert told + [] == told && told <= told + Asked(tick) && log + [] == log;
    match tick.command {
      case Spawn(id, request) =>
        SpawnInStep(t, log, id, request);
        var m := manager.Spawn(id, request);
        var ok := AnswerSpawn(channel, id, m, tick.shutdownAfter);
        if !ok {
          assert Replies(channel.log) == told || Replies(channel.log) == told + Asked(tick);
          return false, [];
        }
        SentIs(id, m);
        sent := SentFor(id, m);
      case Terminate(pid, stopped) =>
        TerminateInStep(t, log, pid);
        var ended := manager.Terminate(pid, stopped);
        NoReply(log, ControllerEvent.Terminated(pid, ended));
        var ok := channel.Send(ControllerEvent.Terminated(pid, ended));
        if !ok {
          return false, [];
        }
        sent := [ControllerEvent.Terminated(pid, ended)];
      case TerminateUnconfirmed(id, stopped) =>
        TerminateWaitingInStep(t, log, id);
        var ended := manager.TerminateUnconfirmed(id, stopped);
        NoReply(log, TerminatedUnconfirmed(id, ended));
        var ok := channel.Send(TerminatedUnconfirmed(id, ended));
        if !ok {
          return false, [];
        }
        sent := [TerminatedUnconfirmed(id, ended)];
      case Shutdown => return false, [];
      case Disconnected => return false, [];
      case Timeout =>
    }
  }

  method Reap(manager: SystemdProcessManager, channel: EventChannel, tick: Tick)
    returns (running: bool, ghost exited: seq<ControllerEvent>)
    requires InStep(manager.State(), channel.log) && Enumerates(tick.order)
    modifies manager, channel
    ensures running ==> InStep(manager.State(), channel.log)
    ensures manager.State() == Reaped(old(manager.State()), tick.see, tick.gone)
    ensures running ==> channel.log == old(channel.log) + exited
    ensures AllLookedAfter(old(manager.children), old(manager.unconfirmed), tick.see, tick.gone,
                           manager.children, manager.unconfirmed, exited)
    ensures Replies(channel.log) == old(Replies(channel.log))
    ensures running ==> (Paired(channel.log) <==> old(Paired(channel.log)))
    ensures old(channel.sends) <= channel.sends
    ensures running <==> AllTaken(channel.accepts, old(channel.sends), channel.sends)
  {
    hide InStep, Replies, Paired, ReapEvents, Reaped, Lists, AllLookedAfter;
    ghost var t, log := manager.State(), channel.log;
    var order, waitingOrder := tick.order(manager.children.Keys), tick.order(manager.unconfirmed.Keys);
    ReapInStep(t, log, order, waitingOrder, tick.see, tick.gone);
    var events := manager.ReapExited(order, waitingOrder, tick.see, tick.gone);
    exited := events;
    running := channel.SendAll(events);
    ghost var n :| 0 <= n <= |events| && channel.log == log + events[..n];
    NoReplies(log, events, n);
  }

  /**
   The worker, for as many passes as it is given. While it runs, the tables and the log are in step,
   every spawn asked for is answered once and in order, and starts and exits alternate for every pid
   exactly if no pass reused the pid of a child whose exit had been reported.
   */
  method RunWorker(manager: SystemdProcessManager, channel: EventChannel, ticks: seq<Tick>)
    returns (running: bool, passes: nat)
    requires manager.State() == NO_TABLES && channel.log == []
    requires forall k :: 0 <= k < |ticks| ==> Enumerates(ticks[k].order)
    modifies manager, channel
    ensures passes <= |ticks| && (running ==> passes == |ticks|)
    ensures running ==> forall k :: 0 <= k < |ticks| ==> !StopsIn(ticks[k])
    ensures !running ==>
              passes > 0 && (StopsIn(ticks[passes - 1])
                             || !AllTaken(channel.accepts, old(channel.sends), channel.sends))
    ensures running ==> InStep(manager.State(), channel.log) && Replies(channel.log) == AskedAll(ticks)
    ensures running ==> manager.State() == TablesAfter(ticks) && (Paired(channel.log) <==> NoRestart(ticks))
    ensures Replies(channel.log) <= AskedAll(ticks[..passes])
  {
    hide InStep, Replies, Paired, Enumerates, Asked, AskedAll, Restarts, AfterTick, TablesAfter, NoRestart;
    EmptyInStep();
    passes := 0;
    running := true;
    NothingYet();
    assert ticks[..0] == [];
    while passes < |ticks|
      invariant passes <= |ticks| && InStep(manager.State(), channel.log)
      invariant manager.State() == TablesAfter(ticks[..passes])
      invariant Replies(channel.log) == AskedAll(ticks[..passes])
      invariant Paired(channel.log) <==> NoRestart(ticks[..passes])
      invariant old(channel.sends) <= channel.sends
      invariant forall k :: 0 <= k < passes ==> !StopsIn(ticks[k])
    {
      PassStep(ticks, passes);
      running := WorkerStep(manager, channel, ticks[passes]);
      passes := passes + 1;
      if !running {
        return;
      }
    }
    assert ticks[..passes] == ticks;
    running := true;
  }

  lemma EmptyInStep()
    ensures InStep(NO_TABLES, []) && Replies([]) == [] && Paired([])
  {
  }

  lemma NothingYet()
    ensures TablesAfter([]) == NO_TABLES && AskedAll([]) == [] && NoRestart([])
  {
  }

  // ---------------------------------------------------------------- a pid reported twice

  const PID: nat := 7

  /** The main application is launched as a unit. */
  function Launch(basename: seq<Byte>): SpawnRequest {
    SpawnRequest(Some(basename), true, _ => StartedUnit(PID, None), None)
  }

  /** Its exit is read while its supervisor still runs. */
  const EXIT_READ := Seen([Session.ChildExited(Some(0), false)], false, ProcessWait.StillRunning, None)

  /** A process without a unit gets the same pid. */
  const RELAUNCH := SpawnRequest(None, false, _ => Collision, Some(PID))

  const QUIET := Seen([], false, ProcessWait.StillRunning, None)

  /** Launch, read the exit, launch again. */
  function Passes(basename: seq<Byte>, id: nat, order: set<nat> -> seq<nat>): seq<Tick> {
    [Tick(Spawn(0, Launch(basename)), false, false, order, _ => QUIET, _ => false),
     Tick(Timeout, false, false, order, _ => EXIT_READ, _ => false),
     Tick(Spawn(id, RELAUNCH), false, false, order, _ => QUIET, _ => false)]
  }

  lemma LaunchStarts(basename: seq<Byte>)
    ensures Spawned(NO_TABLES, 0, Launch(basename)).0 == Tables(map[PID := NewUnit(Name(basename, 0), None)], map[])
  {
    hide Name, UnitNames.SlotLimit;
    UnitNames.SlotLimitExists(basename);
    var r, maxSlot := Launch(basename), UnitNames.SlotLimit(basename).value;
    assert Occupied(map[]) == {};
    assert Candidate(r, maxSlot, {}, 0);
    assert Settle(r, maxSlot, {}, 0) == Some(0);
  }

  lemma QuietKeeps(child: UnitChild)
    requires !child.unitless && child.supervisorStatus.None?
    ensures ReapedChildren(map[PID := child], _ => QUIET) == map[PID := child]
  {
    var r := ReapChild(child, PID, QUIET);
    assert r.child == child && !r.dropped;
  }

  lemma ExitIsRead(child: UnitChild)
    requires !child.unitless && child.supervisorStatus.None? && !child.appExitReported
    ensures ReapedChildren(map[PID := child], _ => EXIT_READ) == map[PID := child.(appExitReported := true)]
    ensures ReapExits(map[PID := child], [PID], _ => EXIT_READ) == [Exited(ProcessExit(PID, Some(0), None))]
  {
    var exit := Session.ChildExited(Some(0), false);
    assert [exit][..0] == [];
    assert HeardAll(child, PID, [exit]).child == child.(appExitReported := true);
    var r := ReapChild(child, PID, EXIT_READ);
    assert r.child == child.(appExitReported := true) && !r.dropped;
    assert [PID][..0] == [];
    assert ExitEvents(r.exits) == [Exited(ProcessExit(PID, Some(0), None))];
  }

  lemma NoneWaits()
    ensures ReapedWaiting(map[], _ => false) == map[]
  {
  }

  /** Why the condition is needed: a pid that exited is reused before its supervisor ended. */
  lemma ReportedTwice(basename: seq<Byte>, id: nat, order: set<nat> -> seq<nat>)
    ensures var ticks := Passes(basename, id, order);
            var reported := [Exited(ProcessExit(PID, Some(0), None))];
            var again := Spawned(TablesAfter(ticks[..2]), id, RELAUNCH).1;
            && TablesAfter(ticks[..1]).children.Keys == {PID}
            && ReapExits(TablesAfter(ticks[..1]).children, [PID], ticks[1].see) == reported
            && SpawnEvents(id, again) == [Exited(ProcessExit(PID, None, None)), SpawnStarted(id, PID)]
            && !NoRestart(ticks)
  {
    hide Spawned, Name, ReapedChildren, ReapedWaiting, ReapChild, TablesAfter, NoRestart, ReapExits, SpawnEvents;
    var ticks := Passes(basename, id, order);
    var child := NewUnit(Name(basename, 0), None);
    LaunchStarts(basename);
    QuietKeeps(child);
    ExitIsRead(child);
    NoneWaits();
    NothingYet();
    PassStep(ticks, 0);
    PassStep(ticks, 1);
    PassStep(ticks, 2);
    assert ticks[..0] == [] && ticks[..3] == ticks;
    RelaunchReuses(TablesAfter(ticks[..2]), id);
  }

  lemma RelaunchReuses(t: Tables, id: nat)
    requires PID in t.children && t.children[PID].appExitReported
    ensures ReusesReported(t, Spawned(t, id, RELAUNCH).1)
    ensures SpawnEvents(id, Spawned(t, id, RELAUNCH).1) == [Exited(ProcessExit(PID, None, None)), SpawnStarted(id, PID)]
  {
  }
}
