/**
 The event protocol of a child supervisor: `run_supervisor_session` and `finish_child`. Frames are
 attempted, whether or not the manager still reads them.
 */
module SupervisorSession {
  import opened Basics
  import opened OutputPump

  datatype Event =
    | StartFailed
    | Started(pid: nat)
    | SanitizerFailed(stream: StreamKind, reason: PumpFailure)
    | ChildExited(exitCode: Option<int>, sanitizerFailed: bool)
    | Finished(exitCode: Option<int>, sanitizerFailed: bool)

  datatype Message = Message(stream: StreamKind, failure: PumpFailure)

  /** What `try_wait` says; when it fails, what the blocking `wait` then says. */
  datatype Wait = Exited(code: Option<int>) | Running | WaitFailed(code: Option<int>)

  /** One pass of the supervision loop: whether both pump threads had ended when it was entered,
      the failures then in the channel, and the child's state. */
  datatype Round = Round(pumpsFinished: bool, messages: seq<Message>, wait: Wait)

  /** What is found after the loop. */
  datatype Closing = Closing(messages: seq<Message>, stdoutJoined: bool, stderrJoined: bool)

  datatype ChildOutcome = ChildOutcome(exitCode: Option<int>, sanitizerFailed: bool)

  /** How many rounds the loop takes, if it ends. */
  function RoundsTaken(rounds: seq<Round>, reaped: bool): (n: Option<nat>)
    ensures n.Some? ==> n.value < |rounds|
  {
    if rounds == [] then None
    else if reaped && rounds[0].pumpsFinished then Some(0)
    else
      var n := RoundsTaken(rounds[1..], reaped || !rounds[0].wait.Running?);
      if n.Some? then Some(n.value + 1) else None
  }

  /** The failures drained from the channel in these rounds. */
  function Drained(rounds: seq<Round>): seq<Message> {
    if rounds == [] then [] else Drained(rounds[..|rounds| - 1]) + rounds[|rounds| - 1].messages
  }

  /** The exit that ends the wait. */
  function ExitSeen(rounds: seq<Round>): Option<Option<int>> {
    if rounds == [] then None
    else
      var before := ExitSeen(rounds[..|rounds| - 1]);
      var wait := rounds[|rounds| - 1].wait;
      if before.Some? then before
      else if wait.Running? then None else Some(wait.code)
  }

  function FirstFailure(messages: seq<Message>, k: StreamKind): Option<PumpFailure> {
    if messages == [] then None
    else
      var before := FirstFailure(messages[..|messages| - 1], k);
      var last := messages[|messages| - 1];
      if before.Some? then before
      else if last.stream == k then Some(last.failure) else None
  }

  /** The failure frames of one stream. */
  function OfStream(frames: seq<Event>, k: StreamKind): seq<Event> {
    if frames == [] then []
    else
      var before := OfStream(frames[..|frames| - 1], k);
      var last := frames[|frames| - 1];
      if last.SanitizerFailed? && last.stream == k then before + [last] else before
  }

  function Exits(frames: seq<Event>): seq<Event> {
    if frames == [] then []
    else
      var before := Exits(frames[..|frames| - 1]);
      var last := frames[|frames| - 1];
      if last.ChildExited? then before + [last] else before
  }

  predicate HasFailure(frames: seq<Event>) {
    exists i :: 0 <= i < |frames| && frames[i].SanitizerFailed?
  }

  /** Every exit frame says whether a failure frame came before it. */
  predicate ExitsKnowFailures(frames: seq<Event>) {
    forall i :: 0 <= i < |frames| && frames[i].ChildExited? ==> frames[i].sanitizerFailed == HasFailure(frames[..i])
  }

  /** Between the start and the end only failures and exits are told. */
  predicate Inner(frames: seq<Event>) {
    forall i :: 0 <= i < |frames| ==> frames[i].SanitizerFailed? || frames[i].ChildExited?
  }

  lemma FrameStep(frames: seq<Event>, e: Event, k: StreamKind)
    ensures OfStream(frames + [e], k) == OfStream(frames, k) + if e.SanitizerFailed? && e.stream == k then [e] else []
    ensures Exits(frames + [e]) == Exits(frames) + if e.ChildExited? then [e] else []
    ensures HasFailure(frames + [e]) == (HasFailure(frames) || e.SanitizerFailed?)
    ensures ExitsKnowFailures(frames) && (e.ChildExited? ==> e.sanitizerFailed == HasFailure(frames)) ==>
              ExitsKnowFailures(frames + [e])
  {
    var more := frames + [e];
    assert more[..|frames|] == frames;
    if HasFailure(frames) {
      var i :| 0 <= i < |frames| && frames[i].SanitizerFailed?;
      assert more[i].SanitizerFailed?;
    }
    if e.SanitizerFailed? {
      assert more[|frames|].SanitizerFailed?;
    }
    forall i | ExitsKnowFailures(frames) && 0 <= i < |frames| && more[i].ChildExited?
      ensures more[i].sanitizerFailed == HasFailure(more[..i])
    {
      assert more[..i] == frames[..i];
    }
  }

  /** What the frames of each stream say about the failures seen so far. */
  ghost predicate Told(frames: seq<Event>, messages: seq<Message>, reported: set<StreamKind>) {
    forall k :: Tells(frames, messages, reported, k)
  }

  predicate Tells(frames: seq<Event>, messages: seq<Message>, reported: set<StreamKind>, k: StreamKind) {
    var first := FirstFailure(messages, k);
    && (k in reported <==> first.Some?)
    && OfStream(frames, k) == if first.Some? then [SanitizerFailed(k, first.value)] else []
  }

  class EventStream {
    var attempted: seq<Event>

    constructor ()
      ensures attempted == []
    {
      attempted := [];
    }

    method WriteFrame(e: Event)
      modifies this
      ensures attempted == old(attempted) + [e]
    {
      attempted := attempted + [e];
    }
  }

  predicate Mentions(messages: seq<Message>, k: StreamKind) {
    exists i :: 0 <= i < |messages| && messages[i].stream == k
  }

  /** The frames for these failures: one for each that is the first of its stream, in order. */
  function FailureFrames(messages: seq<Message>): seq<Event> {
    if messages == [] then []
    else
      var front, last := messages[..|messages| - 1], messages[|messages| - 1];
      FailureFrames(front) + if Mentions(front, last.stream) then [] else [SanitizerFailed(last.stream, last.failure)]
  }

  /** The frames without the exits. */
  function WithoutExits(frames: seq<Event>): seq<Event> {
    if frames == [] then []
    else
      var before, last := WithoutExits(frames[..|frames| - 1]), frames[|frames| - 1];
      if last.ChildExited? then before else before + [last]
  }

  lemma WithoutStep(frames: seq<Event>, e: Event)
    ensures WithoutExits(frames + [e]) == WithoutExits(frames) + if e.ChildExited? then [] else [e]
  {
    assert (frames + [e])[..|frames|] == frames;
  }

  lemma {:induction false} WithoutAppend(a: seq<Event>, b: seq<Event>)
    ensures WithoutExits(a + b) == WithoutExits(a) + WithoutExits(b)
    decreases |b|
  {
    if b == [] {
      assert a + b == a;
    } else {
      var front, last := b[..|b| - 1], b[|b| - 1];
      WithoutAppend(a, front);
      WithoutStep(a + front, last);
      assert a + b == a + front + [last];
    }
  }

  lemma FailureStep(messages: seq<Message>, m: Message)
    ensures FailureFrames(messages + [m])
            == FailureFrames(messages)
               + if Mentions(messages, m.stream) then [] else [SanitizerFailed(m.stream, m.failure)]
  {
    assert (messages + [m])[..|messages|] == messages;
  }

  lemma {:induction false} MentionsFirst(messages: seq<Message>, k: StreamKind)
    ensures Mentions(messages, k) <==> FirstFailure(messages, k).Some?
    decreases |messages|
  {
    if messages != [] {
      var front, last := messages[..|messages| - 1], messages[|messages| - 1];
      MentionsFirst(front, k);
      assert messages == front + [last];
      if Mentions(front, k) {
        var i :| 0 <= i < |front| && front[i].stream == k;
        assert messages[i].stream == k;
      }
      assert last.stream == k ==> messages[|front|].stream == k;
    }
  }

  /** The frames of this session and what is known when some have been attempted. */
  ghost predicate Underway(frames: seq<Event>, messages: seq<Message>, reported: set<StreamKind>, sanitizerFailed: bool)
  {
    && Told(frames, messages, reported)
    && WithoutExits(frames) == FailureFrames(messages)
    && ExitsKnowFailures(frames) && Inner(frames)
    && sanitizerFailed == (messages != [])
    && HasFailure(frames) == sanitizerFailed
    && (sanitizerFailed <==> reported != {})
  }

  lemma FailureTold(frames: seq<Event>, messages: seq<Message>, reported: set<StreamKind>, sanitizerFailed: bool,
                    m: Message)
    requires Underway(frames, messages, reported, sanitizerFailed)
    ensures var more := if m.stream in reported then frames else frames + [SanitizerFailed(m.stream, m.failure)];
            Underway(more, messages + [m], reported + {m.stream}, true)
            && Exits(more) == Exits(frames)
  {
    hide OfStream, FirstFailure, HasFailure, ExitsKnowFailures, Exits, WithoutExits, FailureFrames, Mentions;
    var e := SanitizerFailed(m.stream, m.failure);
    WithoutStep(frames, e);
    FailureStep(messages, m);
    MentionsFirst(messages, m.stream);
    assert Tells(frames, messages, reported, m.stream);
    var more := if m.stream in reported then frames else frames + [e];
    var told, now := messages + [m], reported + {m.stream};
    forall k
      ensures Tells(more, told, now, k)
    {
      FrameStep(frames, e, k);
      MessageStep(messages, m, k);
      assert Tells(frames, messages, reported, k);
    }
    FrameStep(frames, e, m.stream);
    assert reported + {m.stream} != {};
  }

  lemma MessageStep(messages: seq<Message>, m: Message, k: StreamKind)
    ensures FirstFailure(messages + [m], k) == if FirstFailure(messages, k).Some? then FirstFailure(messages, k)
                                               else if m.stream == k then Some(m.failure) else None
  {
    assert (messages + [m])[..|messages|] == messages;
  }

  lemma ExitTold(frames: seq<Event>, messages: seq<Message>, reported: set<StreamKind>, sanitizerFailed: bool,
                 code: Option<int>)
    requires Underway(frames, messages, reported, sanitizerFailed)
    ensures var more := frames + [ChildExited(code, sanitizerFailed)];
            Underway(more, messages, reported, sanitizerFailed)
            && Exits(more) == Exits(frames) + [ChildExited(code, sanitizerFailed)]
  {
    hide OfStream, FirstFailure, HasFailure, ExitsKnowFailures, Exits, WithoutExits, FailureFrames;
    var e := ChildExited(code, sanitizerFailed);
    WithoutStep(frames, e);
    var more := frames + [e];
    forall k
      ensures Tells(more, messages, reported, k)
    {
      FrameStep(frames, e, k);
      assert Tells(frames, messages, reported, k);
    }
    FrameStep(frames, e, Stdout);
  }

  /** Drains the failure channel. */
  method DrainFailures(stream: EventStream, messages: seq<Message>, reported: set<StreamKind>, sanitizerFailed: bool,
                       ghost base: seq<Event>, ghost frames: seq<Event>, ghost seen: seq<Message>)
    returns (nowReported: set<StreamKind>, nowFailed: bool, ghost now: seq<Event>)
    requires stream.attempted == base + frames && Underway(frames, seen, reported, sanitizerFailed)
    modifies stream
    ensures stream.attempted == base + now && Exits(now) == Exits(frames) && frames <= now
    ensures Underway(now, seen + messages, nowReported, nowFailed)
  {
    hide Underway, Exits;
    nowReported, nowFailed, now := reported, sanitizerFailed, frames;
    assert seen + messages[..0] == seen;
    for i := 0 to |messages|
      invariant stream.attempted == base + now && Exits(now) == Exits(frames) && frames <= now
      invariant Underway(now, seen + messages[..i], nowReported, nowFailed)
    {
      var m := messages[i];
      FailureTold(now, seen + messages[..i], nowReported, nowFailed, m);
      assert seen + messages[..i] + [m] == seen + messages[..i + 1];
      nowFailed := true;
      if m.stream !in nowReported {
        nowReported := nowReported + {m.stream};
        stream.WriteFrame(SanitizerFailed(m.stream, m.failure));
        now := now + [SanitizerFailed(m.stream, m.failure)];
      } else {
        assert nowReported + {m.stream} == nowReported;
      }
    }
    assert messages[..|messages|] == messages;
  }

  lemma NothingTold()
    ensures Underway([], [], {}, false) && Exits([]) == []
  {
  }

  lemma RoundStep(rounds: seq<Round>, i: nat)
    requires i < |rounds|
    ensures Drained(rounds[..i + 1]) == Drained(rounds[..i]) + rounds[i].messages
    ensures ExitSeen(rounds[..i + 1]) == if ExitSeen(rounds[..i]).Some? then ExitSeen(rounds[..i])
                                         else if rounds[i].wait.Running? then None else Some(rounds[i].wait.code)
  {
    assert rounds[..i + 1][..i] == rounds[..i];
  }

  lemma TakenStep(rounds: seq<Round>, i: nat, reaped: bool)
    requires i < |rounds| && RoundsTaken(rounds[i..], reaped).Some?
    requires !(reaped && rounds[i].pumpsFinished)
    ensures RoundsTaken(rounds[i + 1..], reaped || !rounds[i].wait.Running?)
            == Some(RoundsTaken(rounds[i..], reaped).value - 1)
  {
    assert rounds[i..][1..] == rounds[i + 1..];
  }

  /** All failures of a session: those drained, then a lost pump thread counts as a read failure. */
  function Failures(rounds: seq<Round>, closing: Closing): seq<Message> {
    Drained(rounds) + closing.messages
    + (if closing.stdoutJoined then [] else [Message(Stdout, ReadFailure)])
    + (if closing.stderrJoined then [] else [Message(Stderr, ReadFailure)])
  }

  lemma FailuresAre(rounds: seq<Round>, closing: Closing)
    ensures Failures(rounds, closing) ==
            Drained(rounds) + closing.messages
            + (if closing.stdoutJoined then [] else [Message(Stdout, ReadFailure)])
            + (if closing.stderrJoined then [] else [Message(Stderr, ReadFailure)])
  {
  }

  /** The wait at r is the first that says that the child has exited, or that it cannot be watched. */
  predicate FirstWait(taken: seq<Round>, r: nat) {
    r < |taken| && !taken[r].wait.Running? && forall i :: 0 <= i < r ==> taken[i].wait.Running?
  }

  /** The failures told before the exit: those found up to its round, or all if the child was waited for. */
  function BeforeExit(taken: seq<Round>, r: nat, closing: Closing): seq<Message>
    requires r < |taken|
  {
    if taken[r].wait.Exited? then Drained(taken[..r + 1]) else Failures(taken, closing)
  }

  /** All frames: those of the failures before the exit, the exit, and those of the later failures. */
  predicate FramesAre(frames: seq<Event>, taken: seq<Round>, r: nat, closing: Closing, code: Option<int>) {
    && FirstWait(taken, r) && code == taken[r].wait.code
    && var before, all := FailureFrames(BeforeExit(taken, r, closing)), FailureFrames(Failures(taken, closing));
       && before <= all
       && frames == before + [ChildExited(code, BeforeExit(taken, r, closing) != [])] + all[|before|..]
  }

  /** Frames told up to the exit, and the exit. */
  predicate ExitBehind(frames: seq<Event>, front: seq<Event>, exit: Event) {
    exit.ChildExited? && front + [exit] <= frames && WithoutExits(front) == front
  }

  /** The exit stands behind the frames of exactly these failures. */
  predicate ToldBefore(frames: seq<Event>, front: seq<Event>, exit: Event, messages: seq<Message>) {
    ExitBehind(frames, front, exit) && front == FailureFrames(messages) && exit.sanitizerFailed == (messages != [])
  }

  lemma NowTold(front: seq<Event>, messages: seq<Message>, reported: set<StreamKind>, sanitizerFailed: bool,
                code: Option<int>)
    requires Underway(front, messages, reported, sanitizerFailed) && Exits(front) == []
    ensures var exit := ChildExited(code, sanitizerFailed); ToldBefore(front + [exit], front, exit, messages)
  {
    hide FailureFrames;
    NoExitYet(front, messages);
    AllWithout(front);
  }

  lemma StillTold(frames: seq<Event>, more: seq<Event>, front: seq<Event>, exit: Event, messages: seq<Message>)
    requires ToldBefore(frames, front, exit, messages) && frames <= more
    ensures ToldBefore(more, front, exit, messages)
  {
    hide FailureFrames, WithoutExits;
  }

  lemma ToldInPlace(frames: seq<Event>, front: seq<Event>, exit: Event, rounds: seq<Round>, n: nat, r: nat,
                    closing: Closing)
    requires r < n <= |rounds| && !rounds[r].wait.Running? && forall k :: 0 <= k < r ==> rounds[k].wait.Running?
    requires ToldBefore(frames, front, exit,
                        if rounds[r].wait.Exited? then Drained(rounds[..r + 1]) else Failures(rounds[..n], closing))
    requires Exits(frames) == [exit] && exit.exitCode == rounds[r].wait.code
    requires WithoutExits(frames) == FailureFrames(Failures(rounds[..n], closing))
    ensures FramesAre(frames, rounds[..n], r, closing, rounds[r].wait.code)
  {
    hide FailureFrames, Failures, WithoutExits, Exits;
    assert rounds[..n][..r + 1] == rounds[..r + 1];
    ExitPlace(frames, front, exit, rounds, n, r, closing);
  }

  lemma ExitPlace(frames: seq<Event>, front: seq<Event>, exit: Event, rounds: seq<Round>, n: nat, r: nat,
                  closing: Closing)
    requires n <= |rounds| && FirstWait(rounds[..n], r)
    requires ExitBehind(frames, front, exit)
    requires Exits(frames) == [exit] && WithoutExits(frames) == FailureFrames(Failures(rounds[..n], closing))
    requires front == FailureFrames(BeforeExit(rounds[..n], r, closing))
    requires exit == ChildExited(rounds[r].wait.code, BeforeExit(rounds[..n], r, closing) != [])
    ensures FramesAre(frames, rounds[..n], r, closing, rounds[r].wait.code)
  {
    hide BeforeExit, FailureFrames, Failures, WithoutExits, Exits;
    var rest := frames[|front| + 1..];
    assert frames == front + [exit] + rest;
    OneExit(front, exit, rest);
    WithoutAppend(front + [exit], rest);
    WithoutStep(front, exit);
    assert WithoutExits(frames) == front + rest;
    assert (front + rest)[|front|..] == rest;
  }

  /** Behind the only exit there is none. */
  lemma {:induction false} OneExit(front: seq<Event>, exit: Event, rest: seq<Event>)
    requires exit.ChildExited? && |Exits(front + [exit] + rest)| == 1
    ensures WithoutExits(rest) == rest
    decreases |rest|
  {
    if rest != [] {
      var r, last := rest[..|rest| - 1], rest[|rest| - 1];
      var all := front + [exit] + rest;
      assert all[..|all| - 1] == front + [exit] + r && all[|all| - 1] == last;
      HasExit(front, exit, r);
      OneExit(front, exit, r);
    }
  }

  lemma {:induction false} HasExit(front: seq<Event>, exit: Event, r: seq<Event>)
    requires exit.ChildExited?
    ensures |Exits(front + [exit] + r)| >= 1
    decreases |r|
  {
    var all := front + [exit] + r;
    if r == [] {
      assert all[..|all| - 1] == front && all[|all| - 1] == exit;
    } else {
      assert all[..|all| - 1] == front + [exit] + r[..|r| - 1];
      HasExit(front, exit, r[..|r| - 1]);
    }
  }

  lemma {:induction false} FailuresHaveNoExit(messages: seq<Message>)
    ensures WithoutExits(FailureFrames(messages)) == FailureFrames(messages)
    decreases |messages|
  {
    if messages != [] {
      var front, last := messages[..|messages| - 1], messages[|messages| - 1];
      FailuresHaveNoExit(front);
      WithoutStep(FailureFrames(front), SanitizerFailed(last.stream, last.failure));
      assert FailureFrames(front) + [] == FailureFrames(front);
    }
  }

  /** Without exits the frames are those of the failures. */
  lemma NoExitYet(frames: seq<Event>, messages: seq<Message>)
    requires Exits(frames) == [] && WithoutExits(frames) == FailureFrames(messages)
    ensures frames == FailureFrames(messages)
  {
    hide FailureFrames;
    AllWithout(frames);
  }

  lemma UnderwayTells(frames: seq<Event>, messages: seq<Message>, reported: set<StreamKind>, sanitizerFailed: bool)
    requires Underway(frames, messages, reported, sanitizerFailed)
    ensures WithoutExits(frames) == FailureFrames(messages) && sanitizerFailed == (messages != [])
  {
  }

  lemma {:induction false} AllWithout(frames: seq<Event>)
    requires Exits(frames) == []
    ensures WithoutExits(frames) == frames
    decreases |frames|
  {
    if frames != [] {
      AllWithout(frames[..|frames| - 1]);
    }
  }

  /**
   Supervises a started child until it has exited and both pumps have ended.

   The frames contain exactly one exit, with the code of the first conclusive wait, behind the failures
   found by then; for each stream one failure frame, with the first failure of that stream, or none if
   it had no failure; and the outcome says whether there was a failure.
   */
  method FinishChild(rounds: seq<Round>, closing: Closing, stream: EventStream)
    returns (outcome: ChildOutcome, ghost frames: seq<Event>)
    requires RoundsTaken(rounds, false).Some?
    modifies stream
    ensures stream.attempted == old(stream.attempted) + frames
    ensures var taken := rounds[..RoundsTaken(rounds, false).value];
            && ExitSeen(taken) == Some(outcome.exitCode)
            && (exists flag :: Exits(frames) == [ChildExited(outcome.exitCode, flag)])
            && (exists reported :: Underway(frames, Failures(taken, closing), reported, outcome.sanitizerFailed))
            && (exists r: nat :: FramesAre(frames, taken, r, closing, outcome.exitCode))
            && outcome.sanitizerFailed == (Failures(taken, closing) != [])
  {
    hide Underway, Exits, ExitSeen, RoundsTaken, Drained, ExitBehind, FramesAre, Failures, FailureFrames, ToldBefore,
      FirstWait, BeforeExit, WithoutExits;
    ghost var base := stream.attempted;
    ghost var front: seq<Event>, r: nat := [], 0;
    var exitCode: Option<int>, childReaped, sanitizerFailed := None, false, false;
    var reported: set<StreamKind>, childExitReported := {}, false;
    ghost var flag := false;
    frames := [];
    NothingTold();
    NothingTaken();
    assert rounds[..0] == [] && rounds[0..] == rounds && base + [] == base;
    var i := 0;
    while !childReaped || !rounds[i].pumpsFinished
      invariant i < |rounds| && stream.attempted == base + frames
      invariant RoundsTaken(rounds[i..], childReaped).Some?
      invariant RoundsTaken(rounds, false) == Some(i + RoundsTaken(rounds[i..], childReaped).value)
      invariant ExitSeen(rounds[..i]) == if childReaped then Some(exitCode) else None
      invariant Underway(frames, Drained(rounds[..i]), reported, sanitizerFailed)
      invariant Exits(frames) == if childExitReported then [ChildExited(exitCode, flag)] else []
      invariant childExitReported ==> childReaped
      invariant r <= i && forall k :: 0 <= k < (if childReaped then r else i) ==> rounds[k].wait.Running?
      invariant childReaped ==> r < i && !rounds[r].wait.Running? && exitCode == rounds[r].wait.code
      invariant childReaped ==> (childExitReported <==> rounds[r].wait.Exited?)
      invariant childExitReported ==>
                  ToldBefore(frames, front, ChildExited(exitCode, flag), Drained(rounds[..r + 1]))
      decreases |rounds| - i
    {
      RoundStep(rounds, i);
      TakenStep(rounds, i, childReaped);
      TakenFits(rounds, i, childReaped);
      ghost var earlier := frames;
      reported, sanitizerFailed, frames := DrainFailures(stream, rounds[i].messages, reported, sanitizerFailed,
                                                         base, frames, Drained(rounds[..i]));
      if childExitReported {
        StillTold(earlier, frames, front, ChildExited(exitCode, flag), Drained(rounds[..r + 1]));
      }
      if !childReaped {
        match rounds[i].wait
        case Exited(code) =>
          exitCode := code;
          childReaped := true;
          front, r := frames, i;
          ExitTold(frames, Drained(rounds[..i + 1]), reported, sanitizerFailed, exitCode);
          stream.WriteFrame(ChildExited(exitCode, sanitizerFailed));
          frames := frames + [ChildExited(exitCode, sanitizerFailed)];
          NowTold(front, Drained(rounds[..i + 1]), reported, sanitizerFailed, exitCode);
          flag := sanitizerFailed;
          childExitReported := true;
        case Running =>
        case WaitFailed(code) =>
          exitCode := code;
          childReaped := true;
          r := i;
      }
      i := i + 1;
    }
    TakenNow(rounds, i);
    ghost var seen, earlier := Drained(rounds[..i]), frames;
    reported, sanitizerFailed, frames := DrainFailures(stream, closing.messages, reported, sanitizerFailed, base,
                                                       frames, seen);
    reported, sanitizerFailed, frames := JoinPumps(stream, closing, reported, sanitizerFailed, base, frames,
                                                   seen + closing.messages);
    ghost var all := Failures(rounds[..i], closing);
    FailuresAre(rounds[..i], closing);
    if childExitReported {
      StillTold(earlier, frames, front, ChildExited(exitCode, flag), Drained(rounds[..r + 1]));
    }
    if childReaped && !childExitReported {
      ExitTold(frames, all, reported, sanitizerFailed, exitCode);
      stream.WriteFrame(ChildExited(exitCode, sanitizerFailed));
      front := frames;
      frames := frames + [ChildExited(exitCode, sanitizerFailed)];
      NowTold(front, all, reported, sanitizerFailed, exitCode);
      flag := sanitizerFailed;
    }
    assert Exits(frames) == [ChildExited(exitCode, flag)];
    UnderwayTells(frames, all, reported, sanitizerFailed);
    ToldInPlace(frames, front, ChildExited(exitCode, flag), rounds, i, r, closing);
    return ChildOutcome(exitCode, sanitizerFailed), frames;
  }

  method JoinPumps(stream: EventStream, closing: Closing, reported: set<StreamKind>, sanitizerFailed: bool,
                   ghost base: seq<Event>, ghost frames: seq<Event>, ghost seen: seq<Message>)
    returns (nowReported: set<StreamKind>, nowFailed: bool, ghost now: seq<Event>)
    requires stream.attempted == base + frames && Underway(frames, seen, reported, sanitizerFailed)
    modifies stream
    ensures stream.attempted == base + now && Exits(now) == Exits(frames) && frames <= now
    ensures Underway(now, seen + (if closing.stdoutJoined then [] else [Message(Stdout, ReadFailure)])
                          + (if closing.stderrJoined then [] else [Message(Stderr, ReadFailure)]), nowReported,
                            nowFailed)
  {
    hide Underway, Exits;
    nowReported, nowFailed, now := reported, sanitizerFailed, frames;
    assert seen + [] == seen;
    if !closing.stdoutJoined {
      nowReported, nowFailed, now := LostPump(stream, Stdout, nowReported, nowFailed, base, now, seen);
    }
    ghost var more := seen + if closing.stdoutJoined then [] else [Message(Stdout, ReadFailure)];
    assert more + [] == more;
    if !closing.stderrJoined {
      nowReported, nowFailed, now := LostPump(stream, Stderr, nowReported, nowFailed, base, now, more);
    }
  }

  method LostPump(stream: EventStream, k: StreamKind, reported: set<StreamKind>, sanitizerFailed: bool,
                  ghost base: seq<Event>, ghost frames: seq<Event>, ghost seen: seq<Message>)
    returns (nowReported: set<StreamKind>, nowFailed: bool, ghost now: seq<Event>)
    requires stream.attempted == base + frames && Underway(frames, seen, reported, sanitizerFailed)
    modifies stream
    ensures stream.attempted == base + now && Exits(now) == Exits(frames) && frames <= now
    ensures Underway(now, seen + [Message(k, ReadFailure)], nowReported, nowFailed)
  {
    hide Underway, Exits;
    FailureTold(frames, seen, reported, sanitizerFailed, Message(k, ReadFailure));
    nowReported, nowFailed, now := reported + {k}, true, frames;
    if k !in reported {
      stream.WriteFrame(SanitizerFailed(k, ReadFailure));
      now := frames + [SanitizerFailed(k, ReadFailure)];
    }
  }

  lemma NothingTaken()
    ensures Drained([]) == [] && ExitSeen([]) == None
  {
  }

  lemma TakenFits(rounds: seq<Round>, i: nat, reaped: bool)
    requires i < |rounds| && RoundsTaken(rounds[i..], reaped).Some? && !(reaped && rounds[i].pumpsFinished)
    ensures i + 1 < |rounds|
  {
  }

  lemma TakenNow(rounds: seq<Round>, i: nat)
    requires i < |rounds| && rounds[i].pumpsFinished
    ensures RoundsTaken(rounds[i..], true) == Some(0)
  {
  }

  /** All frames of a session whose child was started. */
  function SessionFrames(pid: nat, frames: seq<Event>, code: Option<int>, sanitizerFailed: bool): seq<Event> {
    [Started(pid)] + frames + [Finished(code, sanitizerFailed)]
  }

  /** The frames a manager can rely on after a successful start. */
  ghost predicate Protocol(events: seq<Event>, code: Option<int>) {
    && |events| >= 2 && events[0].Started?
    && events[|events| - 1] == Finished(code, HasFailure(events))
    && (exists flag :: Exits(events) == [ChildExited(code, flag)])
    && (forall k :: |OfStream(events, k)| <= 1)
    && ExitsKnowFailures(events) && Inner(events[1..|events| - 1])
  }

  lemma {:induction false} StartedFirst(pid: nat, frames: seq<Event>, k: StreamKind)
    ensures OfStream([Started(pid)] + frames, k) == OfStream(frames, k)
    ensures Exits([Started(pid)] + frames) == Exits(frames)
    ensures HasFailure([Started(pid)] + frames) == HasFailure(frames)
    ensures ExitsKnowFailures(frames) ==> ExitsKnowFailures([Started(pid)] + frames)
    decreases |frames|
  {
    hide *;
    if frames == [] {
      assert [Started(pid)] + frames == [Started(pid)];
      OnlyStarted(pid, k);
    } else {
      var front, last := frames[..|frames| - 1], frames[|frames| - 1];
      StartedFirst(pid, front, k);
      FrameStep(front, last, k);
      FrameStep([Started(pid)] + front, last, k);
      FramesRegroup(pid, front, last);
      assert frames == front + [last];
      ExitsOfFront(front, last);
    }
  }

  lemma FramesRegroup(pid: nat, front: seq<Event>, last: Event)
    ensures [Started(pid)] + (front + [last]) == [Started(pid)] + front + [last]
  {
  }

  lemma OnlyStarted(pid: nat, k: StreamKind)
    ensures OfStream([Started(pid)], k) == OfStream([], k) && Exits([Started(pid)]) == Exits([])
    ensures HasFailure([Started(pid)]) == HasFailure([])
    ensures ExitsKnowFailures([]) && ExitsKnowFailures([Started(pid)])
  {
    assert [Started(pid)][..0] == [];
  }

  lemma ExitsOfFront(front: seq<Event>, last: Event)
    ensures ExitsKnowFailures(front + [last]) ==> ExitsKnowFailures(front)
    ensures ExitsKnowFailures(front + [last]) && last.ChildExited? ==> last.sanitizerFailed == HasFailure(front)
  {
    var all := front + [last];
    assert all[..|front|] == front && all[|front|] == last;
    assert forall i :: 0 <= i < |front| ==> all[i] == front[i] && all[..i] == front[..i];
  }

  /** Every session of a started child follows the protocol, whatever the failures. */
  lemma SessionProtocol(pid: nat, frames: seq<Event>, code: Option<int>, flag: bool, messages: seq<Message>,
                        reported: set<StreamKind>, sanitizerFailed: bool)
    requires Underway(frames, messages, reported, sanitizerFailed) && Exits(frames) == [ChildExited(code, flag)]
    ensures Protocol(SessionFrames(pid, frames, code, sanitizerFailed), code)
    ensures sanitizerFailed <==> exists k :: OfStream(frames, k) != []
  {
    hide OfStream, Exits, HasFailure, ExitsKnowFailures, FirstFailure;
    var started, last := [Started(pid)] + frames, Finished(code, sanitizerFailed);
    forall k
      ensures |OfStream(started + [last], k)| <= 1 && (OfStream(frames, k) != [] <==> k in reported)
    {
      StartedFirst(pid, frames, k);
      FrameStep(started, last, k);
      assert Tells(frames, messages, reported, k);
    }
    StartedFirst(pid, frames, Stdout);
    FrameStep(started, last, Stdout);
    var events := started + [last];
    assert SessionFrames(pid, frames, code, sanitizerFailed) == events;
    assert events[1..|events| - 1] == frames;
    assert Exits(events) == [ChildExited(code, flag)] + [] == [ChildExited(code, flag)];
    assert HasFailure(events) == sanitizerFailed;
    assert ExitsKnowFailures(events);
    assert forall k :: |OfStream(events, k)| <= 1;
    assert Protocol(events, code);
    if reported != {} {
      var k :| k in reported;
      assert OfStream(frames, k) != [];
    }
  }

  /** For which unit and slot a launch is requested, and by whom. */
  datatype Identity = Identity(nonce: string, unitName: string, slot: nat)

  /** What is read of the control socket: nothing if connecting, greeting or reading fails. */
  datatype Opening = ControlFailed | Requested(identity: Identity)

  /** The request was read and is meant for this supervisor. */
  predicate Accepted(expected: Identity, opening: Opening) {
    opening == Requested(expected)
  }

  /**
   A session: without a request there is no frame; a foreign request or a failed start is one frame;
   otherwise the exit status is the child's, or 1.
   */
  method RunSupervisorSession(expected: Identity, opening: Opening, start: Option<nat>, rounds: seq<Round>,
                              closing: Closing, stream: EventStream)
    returns (status: int, ghost frames: seq<Event>)
    requires Accepted(expected, opening) && start.Some? ==> RoundsTaken(rounds, false).Some?
    modifies stream
    ensures stream.attempted == old(stream.attempted) + frames
    ensures opening.ControlFailed? ==> frames == [] && status == 125
    ensures opening.Requested? && opening.identity != expected ==> frames == [StartFailed] && status == 125
    ensures Accepted(expected, opening) && start.None? ==> frames == [StartFailed] && status == 127
    ensures Accepted(expected, opening) && start.Some? ==>
              var code := ExitSeen(rounds[..RoundsTaken(rounds, false).value]);
              && code.Some? && Protocol(frames, code.value) && frames[0] == Started(start.value)
              && status == if code.value.Some? then code.value.value else 1
    ensures Accepted(expected, opening) && start.Some? ==>
              var taken := rounds[..RoundsTaken(rounds, false).value];
              exists inner, r: nat :: WholeSession(frames, start.value, inner, taken, r, closing)
  {
    hide Underway, Protocol, ExitSeen, RoundsTaken, Exits, FramesAre, FirstWait, BeforeExit, Failures, FailureFrames,
      Drained;
    ghost var base := stream.attempted;
    if opening.ControlFailed? {
      assert base + [] == base;
      return 125, [];
    }
    var request := opening.identity;
    if request.nonce != expected.nonce || request.unitName != expected.unitName || request.slot != expected.slot {
      stream.WriteFrame(StartFailed);
      return 125, [StartFailed];
    }
    assert request == expected;
    if start.None? {
      stream.WriteFrame(StartFailed);
      return 127, [StartFailed];
    }
    stream.WriteFrame(Started(start.value));
    var outcome, inner := FinishChild(rounds, closing, stream);
    stream.WriteFrame(Finished(outcome.exitCode, outcome.sanitizerFailed));
    ghost var messages := Failures(rounds[..RoundsTaken(rounds, false).value], closing);
    ghost var flag :| Exits(inner) == [ChildExited(outcome.exitCode, flag)];
    ghost var reported :| Underway(inner, messages, reported, outcome.sanitizerFailed);
    SessionProtocol(start.value, inner, outcome.exitCode, flag, messages, reported, outcome.sanitizerFailed);
    frames := SessionFrames(start.value, inner, outcome.exitCode, outcome.sanitizerFailed);
    assert base + [Started(start.value)] + inner + [Finished(outcome.exitCode, outcome.sanitizerFailed)]
        == base + frames;
    status := if outcome.exitCode.Some? then outcome.exitCode.value else 1;
    ghost var taken := rounds[..RoundsTaken(rounds, false).value];
    ghost var r: nat :| FramesAre(inner, taken, r, closing, outcome.exitCode);
    WaitIsThere(inner, taken, r, closing, outcome.exitCode);
    assert WholeSession(frames, start.value, inner, taken, r, closing);
  }

  /** The start, the frames of the supervision, and the end with the exit code and whether any pump failed. */
  predicate WholeSession(frames: seq<Event>, pid: nat, inner: seq<Event>, taken: seq<Round>, r: nat, closing: Closing) {
    && r < |taken| && !taken[r].wait.Running?
    && FramesAre(inner, taken, r, closing, taken[r].wait.code)
    && frames == [Started(pid)] + inner + [Finished(taken[r].wait.code, Failures(taken, closing) != [])]
  }

  lemma WaitIsThere(inner: seq<Event>, taken: seq<Round>, r: nat, closing: Closing, code: Option<int>)
    requires FramesAre(inner, taken, r, closing, code)
    ensures r < |taken| && !taken[r].wait.Running? && code == taken[r].wait.code
  {
  }
}
