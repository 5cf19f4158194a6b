/** Which exit a tracked child yields and when its tracking ends, read off all that was seen of it. */
module ReapRules {
  import opened Basics
  import opened ProcessTables
  import Session = SupervisorSession

  // ---------------------------------------------------------------- a process without a unit

  /** The first exit the process itself shows. */
  function FirstExit(seen: seq<Seen>): Option<Option<int>> {
    if seen == [] then None
    else if seen[0].wait.HasExited? then Some(seen[0].wait.code) else FirstExit(seen[1..])
  }

  lemma {:induction false} FirstExitAt(seen: seq<Seen>)
    ensures FirstExit(seen).Some? <==> exists k :: 0 <= k < |seen| && seen[k].wait.HasExited?
    ensures forall k ::
              (0 <= k < |seen| && seen[k].wait.HasExited? && forall i :: 0 <= i < k ==> !seen[i].wait.HasExited?) ==>
              FirstExit(seen) == Some(seen[k].wait.code)
    decreases |seen|
  {
    if seen != [] {
      FirstExitAt(seen[1..]);
      assert forall k :: 0 < k < |seen| ==> seen[k] == seen[1..][k - 1];
    }
  }

  /** It yields the code of the process's first exit, and is then no longer tracked. */
  lemma {:induction false} UnitlessLife(child: UnitChild, pid: nat, seen: seq<Seen>)
    requires child.unitless
    ensures var r := Life(child, pid, seen);
            && (r.dropped <==> FirstExit(seen).Some?)
            && r.exits == if FirstExit(seen).Some? then [ProcessExit(pid, FirstExit(seen).value, None)] else []
    decreases |seen|
  {
    if seen != [] && !seen[0].wait.HasExited? {
      UnitlessLife(ReapChild(child, pid, seen[0]).child, pid, seen[1..]);
    }
  }

  // ---------------------------------------------------------------- a unit child

  /** The supervisor's end becomes known. */
  predicate Ends(s: Seen) {
    s.wait.HasExited? || (s.wait.WaitError? && s.retry.Some?)
  }

  predicate IsFinal(e: Session.Event) {
    e.Finished? || e.StartFailed?
  }

  predicate TellsFinal(s: Seen) {
    exists i :: 0 <= i < |s.events| && IsFinal(s.events[i])
  }

  /** Nothing more is to be read: the stream closed, or the supervisor could not be watched. */
  predicate Closes(s: Seen) {
    s.closed || s.wait.WaitError?
  }

  /** The end of the supervisor is known, or becomes known. */
  ghost predicate Ended(child: UnitChild, seen: seq<Seen>) {
    child.supervisorStatus.Some? || exists k :: 0 <= k < |seen| && Ends(seen[k])
  }

  /** The stream's end is known, or becomes known; a wait that fails counts before the supervisor's end. */
  ghost predicate Silent(child: UnitChild, seen: seq<Seen>) {
    || child.finalEvent.Some? || child.eventStreamClosed
    || exists k :: 0 <= k < |seen| && Silences(child, seen, k)
  }

  predicate Silences(child: UnitChild, seen: seq<Seen>, k: nat)
    requires k < |seen|
  {
    || TellsFinal(seen[k]) || seen[k].closed
    || (seen[k].wait.WaitError? && child.supervisorStatus.None? && forall i :: 0 <= i < k ==> !Ends(seen[i]))
  }

  lemma {:induction false} HeardFields(child: UnitChild, pid: nat, events: seq<Session.Event>)
    ensures var c := HeardAll(child, pid, events).child;
            && c.unitless == child.unitless && c.supervisorStatus == child.supervisorStatus
            && c.eventStreamClosed == child.eventStreamClosed
            && (c.finalEvent.Some? <==> child.finalEvent.Some? || exists i :: 0 <= i < |events| && IsFinal(events[i]))
    decreases |events|
  {
    hide HeardAll;
    if events == [] {
      HeardNothing(child, pid);
    } else {
      var front, last := events[..|events| - 1], events[|events| - 1];
      HeardFields(child, pid, front);
      HeardStep(child, pid, events);
      assert forall i :: 0 <= i < |front| ==> events[i] == front[i];
      if i :| 0 <= i < |front| && IsFinal(front[i]) {
        assert IsFinal(events[i]);
      }
    }
  }

  lemma ReapFields(child: UnitChild, pid: nat, s: Seen)
    requires !child.unitless
    ensures var r := ReapChild(child, pid, s);
            && !r.child.unitless
            && (r.child.supervisorStatus.Some? <==> child.supervisorStatus.Some? || Ends(s))
            && (r.child.finalEvent.Some? <==> child.finalEvent.Some? || TellsFinal(s))
            && (r.child.eventStreamClosed <==>
                  child.eventStreamClosed || s.closed || (child.supervisorStatus.None? && s.wait.WaitError?))
            && (r.dropped <==>
                  r.child.supervisorStatus.Some? && (r.child.finalEvent.Some? || r.child.eventStreamClosed))
  {
    hide HeardAll;
    HeardFields(child, pid, s.events);
  }

  lemma EndedStep(child: UnitChild, next: UnitChild, seen: seq<Seen>)
    requires seen != [] && (next.supervisorStatus.Some? <==> child.supervisorStatus.Some? || Ends(seen[0]))
    ensures Ended(child, seen) <==> Ended(next, seen[1..])
  {
    assert forall k :: 0 < k < |seen| ==> seen[k] == seen[1..][k - 1];
    if next.supervisorStatus.None? {
      if k :| 0 <= k < |seen| && Ends(seen[k]) {
        assert Ends(seen[1..][k - 1]);
      }
      if k :| 0 <= k < |seen[1..]| && Ends(seen[1..][k]) {
        assert Ends(seen[k + 1]);
      }
    }
  }

  lemma SilencesShift(child: UnitChild, next: UnitChild, seen: seq<Seen>, k: nat)
    requires seen != [] && k < |seen| - 1
    requires next.supervisorStatus.Some? <==> child.supervisorStatus.Some? || Ends(seen[0])
    ensures Silences(next, seen[1..], k) <==> Silences(child, seen, k + 1)
  {
    hide TellsFinal, Ends;
    assert forall i :: 0 <= i < |seen| - 1 ==> seen[1..][i] == seen[i + 1];
    if seen[k + 1].wait.WaitError? && next.supervisorStatus.None? && forall i :: 0 <= i < k ==> !Ends(seen[1..][i]) {
      forall i | 0 <= i < k + 1
        ensures !Ends(seen[i])
      {
        assert i > 0 ==> seen[i] == seen[1..][i - 1];
      }
    }
    if forall i :: 0 <= i < k + 1 ==> !Ends(seen[i]) {
      assert !Ends(seen[0]);
      forall i | 0 <= i < k
        ensures !Ends(seen[1..][i])
      {
        assert !Ends(seen[i + 1]);
      }
    }
  }

  lemma SilentStep(child: UnitChild, next: UnitChild, seen: seq<Seen>)
    requires seen != [] && (next.supervisorStatus.Some? <==> child.supervisorStatus.Some? || Ends(seen[0]))
    requires next.finalEvent.Some? <==> child.finalEvent.Some? || TellsFinal(seen[0])
    requires next.eventStreamClosed <==>
             child.eventStreamClosed || seen[0].closed || (child.supervisorStatus.None? && seen[0].wait.WaitError?)
    ensures Silent(child, seen) <==> Silent(next, seen[1..])
  {
    hide TellsFinal, Ends;
    if k :| 0 <= k < |seen| && Silences(child, seen, k) {
      if k > 0 {
        SilencesShift(child, next, seen, k - 1);
      }
    }
    if k :| 0 <= k < |seen[1..]| && Silences(next, seen[1..], k) {
      SilencesShift(child, next, seen, k);
      assert Silences(child, seen, k + 1);
    }
    if next.finalEvent.Some? || next.eventStreamClosed {
      assert child.finalEvent.None? && !child.eventStreamClosed ==> Silences(child, seen, 0);
    }
  }

  /** Tracking ends exactly once both ends are known. */
  lemma {:induction false} UnitDrops(child: UnitChild, pid: nat, seen: seq<Seen>)
    requires !child.unitless && !(child.supervisorStatus.Some? && (child.finalEvent.Some? || child.eventStreamClosed))
    ensures Life(child, pid, seen).dropped <==> Ended(child, seen) && Silent(child, seen)
    decreases |seen|
  {
    hide ReapChild, Ends, TellsFinal, Ended, Silent;
    if seen == [] {
      NothingSeen(child);
    } else {
      var first := ReapChild(child, pid, seen[0]);
      ReapFields(child, pid, seen[0]);
      EndedStep(child, first.child, seen);
      SilentStep(child, first.child, seen);
      if first.dropped {
        KnownStays(first.child, seen[1..]);
      } else {
        UnitDrops(first.child, pid, seen[1..]);
      }
    }
  }

  lemma NothingSeen(child: UnitChild)
    ensures Ended(child, []) <==> child.supervisorStatus.Some?
    ensures Silent(child, []) <==> child.finalEvent.Some? || child.eventStreamClosed
  {
  }

  lemma KnownStays(child: UnitChild, seen: seq<Seen>)
    ensures child.supervisorStatus.Some? ==> Ended(child, seen)
    ensures child.finalEvent.Some? || child.eventStreamClosed ==> Silent(child, seen)
  {
  }

  // ---------------------------------------------------------------- the exit of a unit child

  /** The code of the first exit the supervisor told. */
  function ToldExit(events: seq<Session.Event>): Option<Option<int>> {
    if events == [] then None
    else
      var before, last := ToldExit(events[..|events| - 1]), events[|events| - 1];
      if before.Some? then before else if last.ChildExited? then Some(last.exitCode) else None
  }

  /** The outcome the supervisor told last; a failed start has no code. */
  function ToldFinal(events: seq<Session.Event>): Option<Option<int>> {
    if events == [] then None
    else
      var last := events[|events| - 1];
      match last
      case Finished(code, _) => Some(code)
      case StartFailed => Some(None)
      case _ => ToldFinal(events[..|events| - 1])
  }

  lemma {:induction false} ToldAppend(a: seq<Session.Event>, b: seq<Session.Event>)
    ensures ToldExit(a + b) == if ToldExit(a).Some? then ToldExit(a) else ToldExit(b)
    ensures ToldFinal(a + b) == if ToldFinal(b).Some? then ToldFinal(b) else ToldFinal(a)
    decreases |b|
  {
    if b == [] {
      assert a + b == a;
    } else {
      var front := b[..|b| - 1];
      assert (a + b)[..|a + b| - 1] == a + front;
      ToldAppend(a, front);
    }
  }

  function Later(a: Option<Option<int>>, b: Option<Option<int>>): Option<Option<int>> {
    if b.Some? then b else a
  }

  lemma {:induction false} HeardTells(child: UnitChild, pid: nat, events: seq<Session.Event>)
    ensures var r := HeardAll(child, pid, events);
            && r.child.finalEvent == Later(child.finalEvent, ToldFinal(events))
            && r.child.launchObservation == child.launchObservation
            && (r.child.appExitReported <==> child.appExitReported || ToldExit(events).Some?)
            && r.exits == if child.appExitReported || ToldExit(events).None? then []
                          else [ProcessExit(pid, ToldExit(events).value, None)]
    decreases |events|
  {
    hide HeardAll;
    if events == [] {
      HeardNothing(child, pid);
    } else {
      HeardTells(child, pid, events[..|events| - 1]);
      HeardStep(child, pid, events);
    }
  }

  /** The exit of a child that is dropped without having been told: the outcome, or what the launch said. */
  function DroppedExit(pid: nat, final: Option<Option<int>>, observation: Option<Observation>): ProcessExit {
    match final
    case Some(code) => ProcessExit(pid, code, None)
    case None => ProcessExit(pid, None, observation)
  }

  lemma ReapTells(child: UnitChild, pid: nat, s: Seen)
    requires !child.unitless && !child.appExitReported
    ensures var r := ReapChild(child, pid, s);
            var final := Later(child.finalEvent, ToldFinal(s.events));
            && r.child.finalEvent == final && r.child.launchObservation == child.launchObservation
            && !r.child.unitless
            && (r.child.appExitReported <==> ToldExit(s.events).Some? || r.dropped)
            && r.exits == if ToldExit(s.events).Some? then [ProcessExit(pid, ToldExit(s.events).value, None)]
                          else if r.dropped then [DroppedExit(pid, final, child.launchObservation)] else []
  {
    hide HeardAll, ToldExit, ToldFinal;
    HeardTells(child, pid, s.events);
    HeardFields(child, pid, s.events);
  }

  /**
   The exit a unit child yields: the first one its supervisor told; otherwise, when tracking ends, the
   last outcome told; otherwise none is known, and what the launch observed is passed on.
   */
  lemma {:induction false} UnitExit(child: UnitChild, pid: nat, seen: seq<Seen>)
    requires !child.unitless && !child.appExitReported
    ensures var r, told := Life(child, pid, seen), Transcript(child, pid, seen);
            r.exits == if ToldExit(told).Some? then [ProcessExit(pid, ToldExit(told).value, None)]
                       else if r.dropped
                       then [DroppedExit(pid, Later(child.finalEvent, ToldFinal(told)), child.launchObservation)]
                       else []
    decreases |seen|
  {
    hide ReapChild, ToldExit, ToldFinal;
    NothingToTell();
    if seen != [] {
      var first := ReapChild(child, pid, seen[0]);
      ReapTells(child, pid, seen[0]);
      if first.dropped {
        assert seen[0].events + [] == seen[0].events;
      } else {
        var rest := Transcript(first.child, pid, seen[1..]);
        ToldAppend(seen[0].events, rest);
        if first.child.appExitReported {
          ReportedStays(first.child, pid, seen[1..]);
        } else {
          UnitExit(first.child, pid, seen[1..]);
        }
      }
    }
  }

  lemma NothingToTell()
    ensures ToldExit([]) == None && ToldFinal([]) == None
  {
  }

  lemma ReportedStays(child: UnitChild, pid: nat, seen: seq<Seen>)
    requires !child.unitless && child.appExitReported
    ensures Life(child, pid, seen).exits == []
  {
    hide Life;
    ExactlyOneExit(child, pid, seen);
  }
}
