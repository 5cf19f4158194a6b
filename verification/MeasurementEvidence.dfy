/**
 What the recorded evidence says of each event, spelled out: times, windows, marks and reasons.
 */
module MeasurementEvidence {
  import opened Basics
  import opened MeasurementCapture
  import opened MeasurementStory
  import opened MeasurementIntegrity
  import opened MeasurementFacts
  import PresentationBuckets

  // ---------------------------------------------------------------- every record of every run

  /** The time lies in the sixty seconds from the start, which 64 bits can hold. */
  predicate InMinute(start: Option<nat>, t: nat) {
    start.Some? && start.value + 60_000_000 < 0x1_0000_0000_0000_0000 && start.value <= t < start.value + 60_000_000
  }

  /** The record has the exact time, unless 64 bits cannot hold it, and says if it is in the window. */
  predicate PresentationExact(start: Option<nat>, p: PresentationEvent) {
    var t := p.seconds * 1_000_000 + p.subsecond;
    && (p.timestamp.Some? <==> t < 0x1_0000_0000_0000_0000)
    && (p.timestamp.Some? ==>
          p.timestamp.value / 1_000_000 == p.seconds && p.timestamp.value % 1_000_000 == p.subsecond)
    && (p.inWindow <==> InMinute(start, t))
  }

  predicate ButtonExact(start: Option<nat>, b: ButtonEvent) {
    b.code == 0x110 && (b.inWindow <==> InMinute(start, b.timestamp))
  }

  predicate RecordsExact(c: Capture) {
    && (c.startedAt.Some? ==> c.windowEnd == WindowEnd(c.startedAt.value))
    && (c.phase == WaitingForPrimaryButton <==> c.startedAt.None?)
    && (forall k :: 0 <= k < |c.presentations| ==> PresentationExact(c.startedAt, c.presentations[k]))
    && (forall k :: 0 <= k < |c.buttons| ==> ButtonExact(c.startedAt, c.buttons[k]))
  }

  /** An operation that leaves the records, the window and whether it has started alone. */
  predicate LeavesRecords(a: Capture, b: Capture) {
    && b.startedAt == a.startedAt && b.windowEnd == a.windowEnd
    && b.presentations == a.presentations && b.buttons == a.buttons
    && (b.phase == WaitingForPrimaryButton <==> a.phase == WaitingForPrimaryButton)
  }

  lemma LeavesExact(a: Capture, b: Capture)
    requires LeavesRecords(a, b) && RecordsExact(a)
    ensures RecordsExact(b)
  {
  }

  lemma WithinIsMinute(start: nat, t: nat)
    ensures Within(Some(start), WindowEnd(start), Some(t)) <==> InMinute(Some(start), t)
  {
  }

  lemma InvalidateLeaves(c: Capture, bad: bool, reason: Reason)
    ensures LeavesRecords(c, InvalidateIf(c, bad, reason)) && LeavesRecords(c, MarkLost(c, reason))
    ensures InvalidateIf(c, bad, reason) == c.(reasons := InvalidateIf(c, bad, reason).reasons)
  {
  }

  lemma IdentityLeaves(c: Capture, output: Option<Output>)
    ensures LeavesRecords(c, RecordIdentity(c, output))
    ensures LeavesRecords(c, RecordIdentity(c, output).(currentOutput := output))
  {
    hide Invalidate, SaturatingInc;
    InvalidateLeaves(c.(overflowed := true, lost := SaturatingInc(c.lost, U64_MAX)), true, OutputOverflow);
  }

  lemma OutputLeaves(c: Capture, output: Option<Output>)
    ensures LeavesRecords(c, CheckOutput(c, output))
  {
    hide InvalidateIf, RecordIdentity;
    IdentityLeaves(c, output);
    var seen := if c.currentOutput != output then RecordIdentity(c, output).(currentOutput := output) else c;
    InvalidateLeaves(seen, seen.output != output, OutputChanged);
  }

  lemma ActiveLeaves(c: Capture, output: Option<Output>)
    ensures LeavesRecords(c, SetActiveOutput(c, output))
  {
    hide InvalidateIf, RecordIdentity;
    IdentityLeaves(c, output);
    var r := RecordIdentity(c, output);
    InvalidateLeaves(r, r.output != output, OutputChanged);
  }

  lemma HoldLeaves(c: Capture, state: ButtonState)
    ensures LeavesRecords(c, Hold(c, state))
  {
    hide Invalidate;
    InvalidateLeaves(c, true, PressedWithoutRelease);
    InvalidateLeaves(c, true, ReleasedWithoutPress);
  }

  lemma TimeLeaves(c: Capture, timestamp: nat)
    ensures LeavesRecords(c, CheckTime(c, timestamp))
  {
    hide InvalidateIf;
    InvalidateLeaves(c, c.lastButton.Some? && timestamp < c.lastButton.value, InputNotMonotonic);
  }

  lemma DeviceLeaves(c: Capture, device: string)
    ensures LeavesRecords(c, CheckDevice(c, device))
  {
    hide InvalidateIf;
    InvalidateLeaves(c, c.firstDevice.Some? && c.firstDevice.value != device, DeviceChanged);
  }

  lemma EndButtonLeaves(c: Capture, timestamp: nat, state: ButtonState)
    ensures LeavesRecords(c, EndButton(c, timestamp, state))
  {
    hide InvalidateIf;
    InvalidateLeaves(c, state == Released && c.windowEnd.Some? && timestamp < c.windowEnd.value, ReleasedEarly);
  }

  lemma FrameChecksLeave(c: Capture, frame: Frame, seconds: nat, subsecond: Subsecond, timestamp: Option<nat>)
    ensures frame in c.seen ==> LeavesRecords(c, Repeat(c, frame, seconds, subsecond))
    ensures LeavesRecords(c, EndPresentation(c, timestamp))
  {
  }

  lemma OrderLeaves(c: Capture, timestamp: Option<nat>)
    ensures LeavesRecords(c, CheckOrder(c, timestamp))
  {
    hide InvalidateIf;
    var back := c.lastPresentation.Some? && timestamp.Some? && timestamp.value < c.lastPresentation.value;
    InvalidateLeaves(c, back, PresentationNotMonotonic);
  }

  lemma SequenceLeaves(c: Capture, frame: Frame)
    ensures LeavesRecords(c, CheckSequence(c, frame))
  {
    hide InvalidateIf;
    var last := c.lastFrame;
    InvalidateLeaves(c, last.Some? && last.value.crtc == frame.crtc && last.value.generation == frame.generation
                        && frame.sequence < last.value.sequence, SequenceRegression);
  }

  lemma NewFrameLeaves(c: Capture, frame: Frame, seconds: nat, subsecond: Subsecond, timestamp: Option<nat>)
    ensures LeavesRecords(c, NewFrame(c, frame, seconds, subsecond, timestamp))
  {
    hide CheckOrder, CheckSequence;
    var added := c.(seen := c.seen[frame := (seconds, subsecond)]);
    OrderLeaves(added, timestamp);
    SequenceLeaves(CheckOrder(added, timestamp), frame);
  }

  lemma StartExact(c: Capture, timestamp: nat, device: string, output: Option<Output>)
    requires Bounded(c) && c.phase == WaitingForPrimaryButton
    ensures RecordsExact(Start(c, timestamp, device, output))
  {
  }

  lemma IdentityChecksLeave(c: Capture, boot: Option<string>, device: string, output: Option<Output>)
    ensures LeavesRecords(c, CheckIdentity(c, boot, device, output))
  {
    hide InvalidateIf;
    InvalidateLeaves(c, device == "", DeviceUnavailable);
    var known := InvalidateIf(c, device == "", DeviceUnavailable).(aligned := boot.Some? && Monotonic(output));
    InvalidateLeaves(known, boot.None?, BootUnavailable);
  }

  lemma ClaimLeaves(c: Capture, output: Option<Output>)
    ensures LeavesRecords(c, CheckClaim(c, output))
  {
    hide Invalidate;
    InvalidateLeaves(c, true, OutputUnavailable);
    InvalidateLeaves(c, true, MonotonicUnavailable);
    InvalidateLeaves(c, true, CrtcUnavailable);
  }

  lemma StartLeaves(c: Capture, output: Option<Output>)
    ensures LeavesRecords(c, CheckStart(c, output))
  {
    hide InvalidateIf;
    InvalidateLeaves(c, c.currentOutput != output, OutputUnstable);
    var stable := InvalidateIf(c, c.currentOutput != output, OutputUnstable);
    InvalidateLeaves(stable, stable.windowEnd.None?, WindowOverflow);
  }

  lemma BeginExact(c: Capture, boot: Option<string>, timestamp: nat, device: string, output: Option<Output>)
    requires Bounded(c) && c.phase == WaitingForPrimaryButton
    ensures RecordsExact(Begin(c, boot, timestamp, device, output))
  {
    hide RecordsExact, LeavesRecords, Start, CheckIdentity, CheckClaim, CheckStart;
    var a := Start(c, timestamp, device, output);
    StartExact(c, timestamp, device, output);
    IdentityChecksLeave(a, boot, device, output);
    LeavesExact(a, CheckIdentity(a, boot, device, output));
    var b := CheckIdentity(a, boot, device, output);
    ClaimLeaves(b, output);
    LeavesExact(b, CheckClaim(b, output));
    StartLeaves(CheckClaim(b, output), output);
    LeavesExact(CheckClaim(b, output), CheckStart(CheckClaim(b, output), output));
  }

  lemma ButtonRecordExact(c: Capture, timestamp: nat, state: ButtonState, device: string, output: Option<Output>)
    requires RecordsExact(c) && c.startedAt.Some?
    ensures ButtonExact(c.startedAt, ButtonRecord(c, timestamp, state, device, output))
  {
    hide Within, InMinute, WindowEnd;
    WithinIsMinute(c.startedAt.value, timestamp);
  }

  lemma PushButtonExact(c: Capture, b: ButtonEvent)
    requires RecordsExact(c) && ButtonExact(c.startedAt, b)
    ensures RecordsExact(PushButton(c, b))
  {
    hide PresentationExact, ButtonExact, MarkLost;
    InvalidateLeaves(c, true, ButtonOverflow);
  }

  lemma KeepButtonExact(c: Capture, timestamp: nat, state: ButtonState, device: string, output: Option<Output>)
    requires RecordsExact(c) && c.phase != WaitingForPrimaryButton
    ensures RecordsExact(KeepButton(c, timestamp, state, device, output))
  {
    hide CheckTime, CheckDevice, EndButton, PushButton, ButtonRecord, PresentationExact, ButtonExact;
    var timed := CheckTime(c, timestamp);
    TimeLeaves(c, timestamp);
    LeavesExact(c, timed);
    DeviceLeaves(timed, device);
    LeavesExact(timed, CheckDevice(timed, device));
    var checked := CheckDevice(timed, device);
    ButtonRecordExact(checked, timestamp, state, device, output);
    PushButtonExact(checked, ButtonRecord(checked, timestamp, state, device, output));
    var pushed := PushButton(checked, ButtonRecord(checked, timestamp, state, device, output));
    EndButtonLeaves(pushed, timestamp, state);
    LeavesExact(pushed, EndButton(pushed, timestamp, state));
  }

  lemma RecordExact(c: Capture, seconds: nat, subsecond: Subsecond, frame: Frame, duplicate: bool)
    requires RecordsExact(c) && c.startedAt.Some?
    ensures PresentationExact(c.startedAt, PresentationRecord(c, seconds, subsecond, frame, duplicate))
  {
    hide Within, InMinute, WindowEnd, Micros;
    MicrosExact(seconds, subsecond);
    MicrosParts(seconds, subsecond);
    WithinIsMinute(c.startedAt.value, seconds * 1_000_000 + subsecond);
    NoTimeNoMinute(c.startedAt, c.windowEnd, seconds, subsecond);
  }

  lemma MicrosParts(seconds: nat, subsecond: Subsecond)
    ensures Micros(seconds, subsecond).Some? ==> Micros(seconds, subsecond).value == seconds * 1_000_000 + subsecond
  {
  }

  lemma NoTimeNoMinute(start: Option<nat>, end: Option<nat>, seconds: nat, subsecond: Subsecond)
    ensures !Within(start, end, None)
    ensures seconds * 1_000_000 + subsecond >= 0x1_0000_0000_0000_0000 ==>
              !InMinute(start, seconds * 1_000_000 + subsecond)
  {
  }

  lemma PushExact(c: Capture, p: PresentationEvent)
    requires RecordsExact(c) && PresentationExact(c.startedAt, p)
    ensures RecordsExact(PushPresentation(c, p))
  {
    hide PresentationExact, ButtonExact, MarkLost;
    InvalidateLeaves(c, true, PresentationOverflow);
  }

  lemma KeepPresentationExact(c: Capture, seconds: nat, subsecond: Subsecond, frame: Frame, duplicate: bool)
    requires RecordsExact(c) && c.startedAt.Some?
    ensures RecordsExact(KeepPresentation(c, seconds, subsecond, frame, duplicate))
  {
    hide RecordsExact, LeavesRecords, PresentationRecord, PushPresentation, EndPresentation, PresentationExact;
    var p := PresentationRecord(c, seconds, subsecond, frame, duplicate);
    RecordExact(c, seconds, subsecond, frame, duplicate);
    PushExact(c, p);
    FrameChecksLeave(PushPresentation(c, p), frame, seconds, subsecond, Micros(seconds, subsecond));
    LeavesExact(PushPresentation(c, p), EndPresentation(PushPresentation(c, p), Micros(seconds, subsecond)));
  }

  lemma AdmitExact(c: Capture, seconds: nat, subsecond: Subsecond, frame: Frame)
    requires RecordsExact(c) && c.startedAt.Some?
    ensures RecordsExact(Admit(c, seconds, subsecond, frame))
  {
    hide RecordsExact, Repeat, NewFrame, KeepPresentation, MarkLost, Micros;
    if frame in c.seen {
      FrameChecksLeave(c, frame, seconds, subsecond, None);
      LeavesExact(c, Repeat(c, frame, seconds, subsecond));
      KeepPresentationExact(Repeat(c, frame, seconds, subsecond), seconds, subsecond, frame, true);
    } else if |c.seen| == MAX_PRESENTATIONS {
      InvalidateLeaves(c, true, PresentationOverflow);
      LeavesExact(c, MarkLost(c, PresentationOverflow));
    } else {
      var added := NewFrame(c, frame, seconds, subsecond, Micros(seconds, subsecond));
      NewFrameLeaves(c, frame, seconds, subsecond, Micros(seconds, subsecond));
      LeavesExact(c, added);
      KeepPresentationExact(added, seconds, subsecond, frame, false);
    }
  }

  lemma CheckPresentationLeaves(c: Capture, timestamp: Option<nat>, crtc: nat, output: Option<Output>)
    ensures LeavesRecords(c, CheckPresentation(c, timestamp, crtc, output))
  {
    hide CheckOutput, InvalidateIf;
    var checked := CheckOutput(c, output);
    OutputLeaves(c, output);
    InvalidateLeaves(checked, timestamp.None?, TimestampUnrepresentable);
    InvalidateLeaves(InvalidateIf(checked, timestamp.None?, TimestampUnrepresentable),
                     output.None? || output.value.crtcId != crtc, CrtcMismatch);
  }

  lemma Started(c: Capture)
    requires RecordsExact(c) && c.phase != WaitingForPrimaryButton
    ensures c.startedAt.Some?
  {
  }

  /** Every event keeps the records exact. */
  lemma StepExact(c: Capture, boot: Option<string>, e: Event)
    requires Bounded(c) && RecordsExact(c)
    ensures RecordsExact(Step(c, boot, e))
  {
    hide RecordsExact, BoundedBut, LeavesRecords, CheckOutput, SetActiveOutput, Hold, KeepButton, Begin, Admit,
      CheckPresentation, InvalidateIf, Micros;
    match e {
      case ActiveOutput(output) =>
        ActiveLeaves(c, output);
        LeavesExact(c, SetActiveOutput(c, output));
      case Removed(device) =>
        InvalidateLeaves(c, c.phase == Recording && c.firstDevice == Some(device), DeviceRemoved);
        LeavesExact(c, RecordRemoved(c, device));
      case Button(timestamp, state, device, output) => RecordButtonExact(c, boot, timestamp, state, device, output);
      case Presentation(seconds, subsecond, crtc, sequence, output) =>
        if c.phase == Recording {
          var checked := CheckPresentation(c, Micros(seconds, subsecond), crtc, output);
          CheckPresentationLeaves(c, Micros(seconds, subsecond), crtc, output);
          LeavesExact(c, checked);
          StaysStarted(c, checked);
          Started(checked);
          AdmitExact(checked, seconds, subsecond, Frame(crtc, Generation(output), sequence));
        }
    }
  }

  lemma StaysStarted(a: Capture, b: Capture)
    requires LeavesRecords(a, b) && a.phase != WaitingForPrimaryButton
    ensures b.phase != WaitingForPrimaryButton
  {
  }

  lemma RecordButtonExact(c: Capture, boot: Option<string>, timestamp: nat, state: ButtonState, device: string,
                          output: Option<Output>)
    requires Bounded(c) && RecordsExact(c)
    ensures RecordsExact(RecordButton(c, boot, timestamp, state, device, output))
  {
    hide RecordsExact, BoundedBut, LeavesRecords, CheckOutput, Hold, KeepButton, Begin, Keeps;
    match c.phase {
      case Complete =>
      case WaitingForPrimaryButton =>
        if state == Pressed {
          BeginExact(c, boot, timestamp, device, output);
          BeginKeeps(c, boot, timestamp, device, output);
          KeepButtonExact(Begin(c, boot, timestamp, device, output), timestamp, state, device, output);
        }
      case Recording =>
        var checked := CheckOutput(c, output);
        OutputLeaves(c, output);
        LeavesExact(c, checked);
        StaysStarted(c, checked);
        HoldLeaves(checked, state);
        LeavesExact(checked, Hold(checked, state));
        StaysStarted(checked, Hold(checked, state));
        KeepButtonExact(Hold(checked, state), timestamp, state, device, output);
    }
  }

  /** After every run, valid or not, every record has its exact time and says if it is in the window. */
  lemma {:induction false} RunIsExact(boot: Option<string>, h: seq<Stimulus>)
    ensures RecordsExact(Run(boot, h).capture)
    decreases |h|
  {
    hide Step, RecordsExact;
    if h == [] {
      InitialExact();
    } else {
      var front := h[..|h| - 1];
      RunIsExact(boot, front);
      RunKeeps(boot, front);
      StepExact(Run(boot, front).capture, boot, h[|h| - 1].event);
    }
  }

  lemma InitialExact()
    ensures RecordsExact(INITIAL)
  {
  }

  // ---------------------------------------------------------------- the records of a valid measurement

  function PresentationCount(rest: seq<Event>): nat {
    if rest == [] then 0
    else PresentationCount(rest[..|rest| - 1]) + if rest[|rest| - 1].Presentation? then 1 else 0
  }

  function ButtonCount(rest: seq<Event>): nat {
    if rest == [] then 0
    else ButtonCount(rest[..|rest| - 1]) + if rest[|rest| - 1].Button? then 1 else 0
  }

  function OutputGeneration(output: Option<Output>): Option<nat> {
    match output
    case Some(o) => Some(o.generation)
    case None => None
  }

  /** The record repeats the parts of the presentation at k, and marks a frame seen before. */
  predicate TellsPresentation(rest: seq<Event>, k: nat, p: PresentationEvent)
    requires k < |rest| && rest[k].Presentation?
  {
    && p.seconds == rest[k].seconds && p.subsecond == rest[k].subsecond && p.crtc == rest[k].crtc
    && p.sequence == rest[k].sequence && p.generation == OutputGeneration(rest[k].output)
    && (p.duplicate <==> exists i :: 0 <= i < k && rest[i].Presentation? && rest[i].sequence == rest[k].sequence)
  }

  predicate TellsButton(e: Event, b: ButtonEvent)
    requires e.Button?
  {
    && b.timestamp == e.timestamp && b.state == e.state && b.device == e.device
    && b.generation == OutputGeneration(e.output)
  }

  /** The records are those of the presentations, one each, in order. */
  predicate TellsPresentations(rest: seq<Event>, records: seq<PresentationEvent>) {
    && |records| == PresentationCount(rest)
    && forall k :: 0 <= k < |rest| && rest[k].Presentation? ==>
         && PresentationCount(rest[..k]) < |records|
         && TellsPresentation(rest, k, records[PresentationCount(rest[..k])])
  }

  /** The records are those of the press and the later button events, one each, in order. */
  predicate TellsButtons(press: Event, rest: seq<Event>, records: seq<ButtonEvent>)
    requires press.Button?
  {
    && |records| == 1 + ButtonCount(rest) && TellsButton(press, records[0])
    && forall k :: 0 <= k < |rest| && rest[k].Button? ==>
         1 + ButtonCount(rest[..k]) < |records| && TellsButton(rest[k], records[1 + ButtonCount(rest[..k])])
  }

  lemma SeenBefore(front: seq<Event>, sequence: nat)
    ensures sequence in Frames(front) <==>
            exists i :: 0 <= i < |front| && front[i].Presentation? && front[i].sequence == sequence
  {
    hide Frames;
    FramesAre(front);
    if sequence in Frames(front) {
      var k: nat :| ShownFirst(front, sequence, k);
    }
  }

  lemma TellsStep(rest: seq<Event>, e: Event, k: nat, p: PresentationEvent)
    requires k < |rest| && rest[k].Presentation? && TellsPresentation(rest, k, p)
    ensures TellsPresentation(rest + [e], k, p)
  {
    assert forall i :: 0 <= i <= k ==> (rest + [e])[i] == rest[i];
  }

  lemma TellsNew(press: Event, front: seq<Event>, e: Event)
    requires press.Button? && e.Presentation?
    ensures TellsPresentation(front + [e], |front|, PresentationRecordOf(press, front, e))
  {
    hide Frames, Micros, Within;
    SeenBefore(front, e.sequence);
    assert forall i :: 0 <= i < |front| ==> (front + [e])[i] == front[i];
  }

  lemma {:induction false} PresentationsTell(press: Event, rest: seq<Event>)
    requires press.Button?
    ensures TellsPresentations(rest, PresentationsOf(press, rest))
    decreases |rest|
  {
    hide TellsPresentation, PresentationRecordOf;
    if rest != [] {
      var front, e := rest[..|rest| - 1], rest[|rest| - 1];
      assert rest == front + [e];
      PresentationsTell(press, front);
      if e.Presentation? {
        TellsNew(press, front, e);
      }
      forall k | 0 <= k < |front| && rest[k].Presentation?
        ensures PresentationCount(rest[..k]) < |PresentationsOf(press, rest)|
        ensures TellsPresentation(rest, k, PresentationsOf(press, rest)[PresentationCount(rest[..k])])
      {
        assert rest[..k] == front[..k] && rest[k] == front[k];
        TellsStep(front, e, k, PresentationsOf(press, front)[PresentationCount(front[..k])]);
      }
    }
  }

  lemma ButtonTells(press: Event, e: Event)
    requires press.Button? && e.Button?
    ensures TellsButton(e, ButtonRecordOf(press, e))
  {
    hide Within, WindowEnd;
  }

  lemma {:induction false} ButtonsTell(press: Event, rest: seq<Event>)
    requires press.Button?
    ensures TellsButtons(press, rest, ButtonsOf(press, rest))
    decreases |rest|
  {
    hide TellsButton, ButtonRecordOf;
    ButtonTells(press, press);
    if rest != [] {
      var front, e := rest[..|rest| - 1], rest[|rest| - 1];
      assert rest == front + [e];
      ButtonsTell(press, front);
      if e.Button? {
        ButtonTells(press, e);
      }
      forall k | 0 <= k < |front| && rest[k].Button?
        ensures 1 + ButtonCount(rest[..k]) < |ButtonsOf(press, rest)|
        ensures TellsButton(rest[k], ButtonsOf(press, rest)[1 + ButtonCount(rest[..k])])
      {
        assert rest[..k] == front[..k] && rest[k] == front[k];
      }
    }
  }

  /**
   The evidence of a valid measurement repeats what was delivered: one record for the press and for
   every later button event, one for every presentation, in order.
   */
  lemma ValidTellsEvents(boot: Option<string>, h: seq<Stimulus>)
    requires IntegrityValid(Run(boot, h))
    ensures var c, s := Run(boot, h).capture, StoryOf(h);
            && s.During? && c.startedAt == Some(s.press.timestamp)
            && TellsButtons(s.press, s.rest, c.buttons) && TellsPresentations(s.rest, c.presentations)
  {
    hide Run, StoryOf, IntegrityValid, CleanSession, TellsButtons, TellsPresentations, Mirrors, Done;
    IntegrityExactly(boot, h);
    var s := StoryOf(h);
    ButtonsTell(s.press, s.rest);
    PresentationsTell(s.press, s.rest);
    RunTells(boot, h);
    MirrorsStart(Run(boot, h).capture, s.press, s.rest);
  }

  lemma MirrorsStart(c: Capture, press: Event, rest: seq<Event>)
    requires press.Button? && Mirrors(c, press, rest)
    ensures c.startedAt == Some(press.timestamp)
  {
  }

  // ---------------------------------------------------------------- the frames of each second

  /** Second i of the measurement holds the time of the event. */
  predicate InSecond(e: Event, start: nat, i: nat)
    requires e.Presentation?
  {
    start + i * 1_000_000 <= e.seconds * 1_000_000 + e.subsecond < start + (i + 1) * 1_000_000
  }

  /** How many frames were new in second i. */
  function NewInSecond(rest: seq<Event>, start: nat, i: nat): nat {
    if rest == [] then 0
    else
      var n := |rest| - 1;
      NewInSecond(rest[..n], start, i) + if New(rest, n) && InSecond(rest[n], start, i) then 1 else 0
  }

  lemma RecordCounts(press: Event, front: seq<Event>, e: Event, i: nat)
    requires press.Button? && WindowEnd(press.timestamp).Some? && e.Presentation? && i < 60
    ensures PresentationBuckets.CountsIn(PresentationRecordOf(press, front, e), press.timestamp, i) <==>
            e.sequence !in Frames(front) && InSecond(e, press.timestamp, i)
  {
    hide Frames;
    assert i * 1_000_000 + 1_000_000 <= 60_000_000;
  }

  /** The buckets of a session count the new frames of each second. */
  lemma {:induction false} BucketsTell(press: Event, rest: seq<Event>, i: nat)
    requires press.Button? && WindowEnd(press.timestamp).Some? && i < 60
    ensures PresentationBuckets.CountIn(PresentationsOf(press, rest), press.timestamp, i)
            == NewInSecond(rest, press.timestamp, i)
    decreases |rest|
  {
    hide PresentationBuckets.CountIn, PresentationBuckets.CountsIn, New, InSecond, WindowEnd, PresentationRecordOf,
      Frames;
    if rest == [] {
      NothingCounted(press.timestamp, i);
    } else {
      var front, e := rest[..|rest| - 1], rest[|rest| - 1];
      assert rest == front + [e];
      BucketsTell(press, front, i);
      if e.Presentation? {
        var p := PresentationRecordOf(press, front, e);
        PresentationBuckets.CountStep(PresentationsOf(press, front), p, press.timestamp, i);
        RecordCounts(press, front, e, i);
        NewIsNotInFrames(front, e);
      } else {
        NotNew(rest, |front|);
        assert PresentationsOf(press, front) + [] == PresentationsOf(press, front);
      }
    }
  }

  lemma NothingCounted(start: nat, i: nat)
    ensures PresentationBuckets.CountIn([], start, i) == 0
  {
  }

  /** The bucket counts of a valid measurement. */
  lemma ValidBuckets(boot: Option<string>, h: seq<Stimulus>)
    requires IntegrityValid(Run(boot, h))
    ensures var c, s := Run(boot, h).capture, StoryOf(h);
            && s.During? && c.startedAt == Some(s.press.timestamp) && c.windowEnd.Some?
            && forall i :: 0 <= i < 60 ==>
                 PresentationBuckets.Buckets(c.presentations, s.press.timestamp)[i]
                 == NewInSecond(s.rest, s.press.timestamp, i)
  {
    hide Run, StoryOf, IntegrityValid, CleanSession, TellsButtons, TellsPresentations, Done, NewInSecond,
      PresentationBuckets.CountIn, AllOrdinary, RecordsExact;
    var s := StoryOf(h);
    IntegrityExactly(boot, h);
    ValidTellsEvents(boot, h);
    ValidIsContinuous(boot, h);
    RunIsExact(boot, h);
    EndIsWindow(Run(boot, h).capture);
    forall i | 0 <= i < 60
      ensures PresentationBuckets.CountIn(PresentationsOf(s.press, s.rest), s.press.timestamp, i)
              == NewInSecond(s.rest, s.press.timestamp, i)
    {
      BucketsTell(s.press, s.rest, i);
    }
  }

  lemma EndIsWindow(c: Capture)
    requires RecordsExact(c) && c.startedAt.Some?
    ensures c.windowEnd == WindowEnd(c.startedAt.value)
  {
  }

  // ---------------------------------------------------------------- aligned clocks

  /** The claim of aligned clocks is made by the press that starts the measurement and never changes after. */
  predicate AlignedAfter(c: Capture, boot: Option<string>, e: Event, d: Capture) {
    d.aligned ==
      if c.phase == WaitingForPrimaryButton && e.Button? && e.state == Pressed
      then boot.Some? && e.output.Some? && e.output.value.monotonicCapability == Some(1)
      else c.aligned
  }

  lemma ReasonKeepsAligned(c: Capture, bad: bool, reason: Reason)
    ensures InvalidateIf(c, bad, reason).aligned == c.aligned && MarkLost(c, reason).aligned == c.aligned
    ensures Invalidate(c, reason).aligned == c.aligned
  {
  }

  lemma IdentityAligned(c: Capture, output: Option<Output>)
    ensures RecordIdentity(c, output).aligned == c.aligned
    ensures CheckOutput(c, output).aligned == c.aligned && SetActiveOutput(c, output).aligned == c.aligned
  {
    hide Invalidate;
    ReasonKeepsAligned(c.(overflowed := true, lost := SaturatingInc(c.lost, U64_MAX)), true, OutputOverflow);
    var seen := if c.currentOutput != output then RecordIdentity(c, output).(currentOutput := output) else c;
    ReasonKeepsAligned(seen, true, OutputChanged);
    ReasonKeepsAligned(RecordIdentity(c, output), true, OutputChanged);
  }

  lemma HoldAligned(c: Capture, state: ButtonState)
    ensures Hold(c, state).aligned == c.aligned
  {
    hide Invalidate;
    ReasonKeepsAligned(c, true, PressedWithoutRelease);
    ReasonKeepsAligned(c, true, ReleasedWithoutPress);
  }

  lemma ChecksAligned(c: Capture, timestamp: nat, device: string)
    ensures CheckTime(c, timestamp).aligned == c.aligned && CheckDevice(c, device).aligned == c.aligned
  {
    hide InvalidateIf;
    ReasonKeepsAligned(c, c.lastButton.Some? && timestamp < c.lastButton.value, InputNotMonotonic);
    ReasonKeepsAligned(c, c.firstDevice.Some? && c.firstDevice.value != device, DeviceChanged);
  }

  lemma EndAligned(c: Capture, b: ButtonEvent, timestamp: nat, state: ButtonState)
    ensures PushButton(c, b).aligned == c.aligned && EndButton(c, timestamp, state).aligned == c.aligned
  {
    hide InvalidateIf, MarkLost;
    ReasonKeepsAligned(c, true, ButtonOverflow);
    ReasonKeepsAligned(c, state == Released && c.windowEnd.Some? && timestamp < c.windowEnd.value, ReleasedEarly);
  }

  lemma KeepAligned(c: Capture, timestamp: nat, state: ButtonState, device: string, output: Option<Output>)
    ensures KeepButton(c, timestamp, state, device, output).aligned == c.aligned
  {
    hide CheckTime, CheckDevice, PushButton, EndButton, ButtonRecord;
    var timed := CheckTime(c, timestamp);
    var checked := CheckDevice(timed, device);
    var record := ButtonRecord(checked, timestamp, state, device, output);
    ChecksAligned(c, timestamp, device);
    ChecksAligned(timed, timestamp, device);
    EndAligned(checked, record, timestamp, state);
    EndAligned(PushButton(checked, record), record, timestamp, state);
  }

  lemma KnownAligned(c: Capture, boot: Option<string>, device: string, output: Option<Output>)
    ensures CheckIdentity(c, boot, device, output).aligned <==>
            boot.Some? && output.Some? && output.value.monotonicCapability == Some(1)
  {
    hide InvalidateIf;
    var known := InvalidateIf(c, device == "", DeviceUnavailable).(aligned := boot.Some? && Monotonic(output));
    ReasonKeepsAligned(known, boot.None?, BootUnavailable);
  }

  lemma ClaimAligned(c: Capture, output: Option<Output>)
    ensures CheckClaim(c, output).aligned == c.aligned && CheckStart(c, output).aligned == c.aligned
  {
    hide InvalidateIf, Invalidate;
    ReasonKeepsAligned(c, true, OutputUnavailable);
    ReasonKeepsAligned(c, true, MonotonicUnavailable);
    ReasonKeepsAligned(c, false, CrtcUnavailable);
    ReasonKeepsAligned(c, true, CrtcUnavailable);
    ReasonKeepsAligned(c, c.currentOutput != output, OutputUnstable);
    var stable := InvalidateIf(c, c.currentOutput != output, OutputUnstable);
    ReasonKeepsAligned(stable, c.windowEnd.None?, WindowOverflow);
  }

  lemma BeginAligned(c: Capture, boot: Option<string>, timestamp: nat, device: string, output: Option<Output>)
    ensures Begin(c, boot, timestamp, device, output).aligned <==>
            boot.Some? && output.Some? && output.value.monotonicCapability == Some(1)
  {
    hide Start, CheckIdentity, CheckClaim, CheckStart;
    var known := CheckIdentity(Start(c, timestamp, device, output), boot, device, output);
    KnownAligned(Start(c, timestamp, device, output), boot, device, output);
    ClaimAligned(known, output);
    ClaimAligned(CheckClaim(known, output), output);
  }

  lemma FrameAligned(c: Capture, seconds: nat, subsecond: Subsecond, frame: Frame)
    ensures Admit(c, seconds, subsecond, frame).aligned == c.aligned
  {
    hide InvalidateIf, MarkLost, Invalidate, Micros, PresentationRecord;
    var t := Micros(seconds, subsecond);
    ReasonKeepsAligned(c, true, PresentationOverflow);
    if frame in c.seen {
      ReasonKeepsAligned(c.(duplicates := SaturatingInc(c.duplicates, U64_MAX)), c.seen[frame] != (seconds, subsecond),
                         DuplicateConflict);
      ReasonKeepsAligned(Repeat(c, frame, seconds, subsecond), true, PresentationOverflow);
    } else {
      NewAligned(c, frame, seconds, subsecond, t);
      ReasonKeepsAligned(NewFrame(c, frame, seconds, subsecond, t), true, PresentationOverflow);
    }
  }

  lemma NewAligned(c: Capture, frame: Frame, seconds: nat, subsecond: Subsecond, t: Option<nat>)
    ensures NewFrame(c, frame, seconds, subsecond, t).aligned == c.aligned
  {
    hide InvalidateIf;
    var added := c.(seen := c.seen[frame := (seconds, subsecond)]);
    ReasonKeepsAligned(added, added.lastPresentation.Some? && t.Some? && t.value < added.lastPresentation.value,
                       PresentationNotMonotonic);
    var ordered := CheckOrder(added, t);
    var last := ordered.lastFrame;
    ReasonKeepsAligned(ordered, last.Some? && last.value.crtc == frame.crtc && last.value.generation == frame.generation
                                && frame.sequence < last.value.sequence, SequenceRegression);
  }

  lemma StepAligned(c: Capture, boot: Option<string>, e: Event)
    ensures AlignedAfter(c, boot, e, Step(c, boot, e))
  {
    hide InvalidateIf, CheckOutput, SetActiveOutput, Hold, KeepButton, Begin, Admit, Micros;
    match e {
      case ActiveOutput(output) => IdentityAligned(c, output);
      case Removed(device) =>
        ReasonKeepsAligned(c, c.phase == Recording && c.firstDevice == Some(device), DeviceRemoved);
      case Button(timestamp, state, device, output) =>
        BeginAligned(c, boot, timestamp, device, output);
        KeepAligned(Begin(c, boot, timestamp, device, output), timestamp, state, device, output);
        IdentityAligned(c, output);
        HoldAligned(CheckOutput(c, output), state);
        KeepAligned(Hold(CheckOutput(c, output), state), timestamp, state, device, output);
      case Presentation(seconds, subsecond, crtc, sequence, output) =>
        var t := Micros(seconds, subsecond);
        var checked := CheckOutput(c, output);
        IdentityAligned(c, output);
        ReasonKeepsAligned(checked, t.None?, TimestampUnrepresentable);
        ReasonKeepsAligned(InvalidateIf(checked, t.None?, TimestampUnrepresentable),
                           output.None? || output.value.crtcId != crtc, CrtcMismatch);
        FrameAligned(CheckPresentation(c, t, crtc, output), seconds, subsecond,
                     Frame(crtc, Generation(output), sequence));
    }
  }
}
