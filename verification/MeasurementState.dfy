/**
 The state after each event, in one piece: which fields the event sets and to what. Reasons, losses and
 the claim of aligned clocks are left aside; they have their own laws.
 */
module MeasurementState {
  import opened Basics
  import opened MeasurementCapture
  import opened MeasurementStory
  import MeasurementEvidence

  /** The state without what is left aside. */
  function Core(c: Capture): Capture {
    c.(reasons := [], lost := 0, overflowed := false, aligned := false)
  }

  function Append<T>(s: seq<T>, x: T, limit: nat): seq<T> {
    if |s| == limit then s else s + [x]
  }

  function NoteOutput(c: Capture, output: Option<Output>): Capture {
    var observed := if c.currentOutput == output then c.observed else Append(c.observed, output, 16);
    c.(currentOutput := output, observed := observed)
  }

  function GenerationOf(output: Option<Output>): Option<nat> {
    match output
    case Some(o) => Some(o.generation)
    case None => None
  }

  predicate InWindow(c: Capture, t: nat) {
    c.startedAt.Some? && c.windowEnd.Some? && c.startedAt.value <= t < c.windowEnd.value
  }

  /** A button event that is recorded in a measurement under way. */
  function ButtonNoted(c: Capture, timestamp: nat, state: ButtonState, device: string,
                       output: Option<Output>): Capture {
    var beyond := c.windowEnd.Some? && timestamp >= c.windowEnd.value;
    c.(
      held := state == Pressed,
      lastButton := Some(timestamp),
      buttons := Append(
        c.buttons,
        ButtonEvent(timestamp, 0x110, state, device, GenerationOf(output), InWindow(c, timestamp)),
        512),
      inputEnded := c.inputEnded || beyond,
      phase := if beyond && c.presentationEnded then Complete else c.phase)
  }

  /** The press that starts the measurement. */
  function Opened(c: Capture, timestamp: nat, device: string, output: Option<Output>): Capture {
    c.(
      phase := Recording,
      startedAt := Some(timestamp),
      windowEnd := if timestamp + 60_000_000 < 0x1_0000_0000_0000_0000 then Some(timestamp + 60_000_000) else None,
      output := output,
      observed := Append(c.observed, output, 16),
      firstDevice := Some(device))
  }

  /** A presentation, new or repeated, that is recorded. */
  function FrameNoted(c: Capture, seconds: nat, subsecond: Subsecond, frame: Frame): Capture {
    var again, t := frame in c.seen, seconds * 1_000_000 + subsecond;
    var fits := t < 0x1_0000_0000_0000_0000;
    var beyond := fits && c.windowEnd.Some? && t >= c.windowEnd.value;
    c.(
      seen := if again then c.seen else c.seen[frame := (seconds, subsecond)],
      duplicates := if again && c.duplicates < 0xFFFF_FFFF_FFFF_FFFF then c.duplicates + 1 else c.duplicates,
      lastPresentation := if !again && fits then Some(t) else c.lastPresentation,
      lastFrame := if again then c.lastFrame else Some(frame),
      presentations := Append(
        c.presentations,
        PresentationEvent(seconds, subsecond, if fits then Some(t) else None, frame.crtc, frame.sequence,
                          frame.generation, again, fits && InWindow(c, t)),
        32768),
      presentationEnded := c.presentationEnded || beyond,
      phase := if beyond && c.inputEnded then Complete else c.phase)
  }

  /** The state after an event. */
  function After(c: Capture, e: Event): Capture {
    match e
    case ActiveOutput(output) =>
      if c.phase == Recording then NoteOutput(c, output) else c.(currentOutput := output)
    case Removed(_) => c
    case Button(timestamp, state, device, output) =>
      match c.phase {
        case Complete => c
        case WaitingForPrimaryButton =>
          if state == Released then c
          else ButtonNoted(Opened(c, timestamp, device, output), timestamp, state, device, output)
        case Recording => ButtonNoted(NoteOutput(c, output), timestamp, state, device, output)
      }
    case Presentation(seconds, subsecond, crtc, sequence, output) =>
      if c.phase != Recording then c
      else
        var noted, frame := NoteOutput(c, output), Frame(crtc, GenerationOf(output), sequence);
        if frame !in c.seen && |c.seen| == 32768 then noted else FrameNoted(noted, seconds, subsecond, frame)
  }

  // ---------------------------------------------------------------- one operation after the other

  lemma ReasonCore(c: Capture, bad: bool, reason: Reason)
    ensures Core(InvalidateIf(c, bad, reason)) == Core(Invalidate(c, reason)) == Core(MarkLost(c, reason)) == Core(c)
    ensures InvalidateIf(c, bad, reason) == c.(reasons := InvalidateIf(c, bad, reason).reasons)
    ensures Invalidate(c, reason) == c.(reasons := Invalidate(c, reason).reasons)
    ensures var d := MarkLost(c, reason); d == c.(reasons := d.reasons, lost := d.lost, overflowed := d.overflowed)
  {
  }

  lemma IdentityCore(c: Capture, output: Option<Output>)
    ensures Core(RecordIdentity(c, output)) == Core(c).(observed := Append(c.observed, output, 16))
    ensures RecordIdentity(c, output).phase == c.phase
  {
    hide MarkLost;
    ReasonCore(c, true, OutputOverflow);
  }

  lemma OutputCore(c: Capture, output: Option<Output>)
    ensures Core(CheckOutput(c, output)) == if c.phase == Recording then NoteOutput(Core(c), output) else Core(c)
    ensures CheckOutput(c, output).phase == c.phase
  {
    hide InvalidateIf, RecordIdentity;
    IdentityCore(c, output);
    var seen := if c.currentOutput != output then RecordIdentity(c, output).(currentOutput := output) else c;
    ReasonCore(seen, seen.output != output, OutputChanged);
  }

  lemma ActiveCore(c: Capture, output: Option<Output>)
    ensures Core(SetActiveOutput(c, output)) == After(Core(c), ActiveOutput(output))
  {
    hide InvalidateIf, RecordIdentity;
    IdentityCore(c, output);
    var r := RecordIdentity(c, output);
    ReasonCore(r, r.output != output, OutputChanged);
  }

  lemma HoldCore(c: Capture, state: ButtonState)
    ensures Core(Hold(c, state)) == Core(c).(held := state == Pressed) && Hold(c, state).phase == c.phase
  {
    hide Invalidate;
    ReasonCore(c, true, PressedWithoutRelease);
    ReasonCore(c, true, ReleasedWithoutPress);
  }

  lemma TimeCore(c: Capture, timestamp: nat)
    ensures Core(CheckTime(c, timestamp)) == Core(c).(lastButton := Some(timestamp))
  {
    hide InvalidateIf;
    ReasonCore(c, c.lastButton.Some? && timestamp < c.lastButton.value, InputNotMonotonic);
  }

  lemma DeviceCore(c: Capture, device: string)
    ensures Core(CheckDevice(c, device)) == Core(c)
  {
    hide InvalidateIf;
    ReasonCore(c, c.firstDevice.Some? && c.firstDevice.value != device, DeviceChanged);
  }

  lemma PushCore(c: Capture, b: ButtonEvent)
    ensures Core(PushButton(c, b)) == Core(c).(buttons := Append(c.buttons, b, 512))
  {
    hide MarkLost;
    ReasonCore(c, true, ButtonOverflow);
  }

  lemma EndCore(c: Capture, timestamp: nat, state: ButtonState)
    requires c.phase == Recording
    ensures var beyond := c.windowEnd.Some? && timestamp >= c.windowEnd.value;
            Core(EndButton(c, timestamp, state))
            == Core(c).(inputEnded := c.inputEnded || beyond,
                        phase := if beyond && c.presentationEnded then Complete else c.phase)
  {
    hide InvalidateIf, Core;
    var early := state == Released && c.windowEnd.Some? && timestamp < c.windowEnd.value;
    var released := InvalidateIf(c, early, ReleasedEarly);
    ReasonCore(c, early, ReleasedEarly);
    FinishCore(c, released, timestamp);
  }

  lemma FinishCore(c: Capture, d: Capture, timestamp: nat)
    requires c.phase == Recording && d == c.(reasons := d.reasons)
    ensures var beyond := c.windowEnd.Some? && timestamp >= c.windowEnd.value;
            Core(if beyond then Finish(d.(inputEnded := true)) else d)
            == Core(c).(inputEnded := c.inputEnded || beyond,
                        phase := if beyond && c.presentationEnded then Complete else c.phase)
  {
  }

  lemma CoreFields(c: Capture, d: Capture)
    requires Core(c) == Core(d)
    ensures c.phase == d.phase && c.startedAt == d.startedAt && c.windowEnd == d.windowEnd && c.buttons == d.buttons
    ensures c.presentations == d.presentations && c.seen == d.seen && c.inputEnded == d.inputEnded
    ensures c.presentationEnded == d.presentationEnded && c.lastPresentation == d.lastPresentation
    ensures c.lastFrame == d.lastFrame && c.duplicates == d.duplicates
  {
    assert Core(c).phase == Core(d).phase && Core(c).startedAt == Core(d).startedAt;
  }

  lemma KeepCore(c: Capture, timestamp: nat, state: ButtonState, device: string, output: Option<Output>)
    requires c.phase == Recording && c.startedAt.Some? && c.held == (state == Pressed)
    ensures Core(KeepButton(c, timestamp, state, device, output))
            == ButtonNoted(Core(c), timestamp, state, device, output)
  {
    hide CheckTime, CheckDevice, PushButton, EndButton;
    var timed := CheckTime(c, timestamp);
    var checked := CheckDevice(timed, device);
    TimeCore(c, timestamp);
    CoreFields(timed, c.(lastButton := Some(timestamp)));
    DeviceCore(timed, device);
    CoreFields(checked, timed);
    var record := ButtonRecord(checked, timestamp, state, device, output);
    PushCore(checked, record);
    var pushed := PushButton(checked, record);
    CoreFields(pushed, checked.(buttons := Append(checked.buttons, record, 512)));
    EndCore(pushed, timestamp, state);
  }

  lemma StartCore(c: Capture, timestamp: nat, device: string, output: Option<Output>)
    ensures Core(Start(c, timestamp, device, output)) == Opened(Core(c), timestamp, device, output).(held := true)
  {
    hide RecordIdentity;
    IdentityCore(c.(phase := Recording, startedAt := Some(timestamp), windowEnd := WindowEnd(timestamp),
                    output := output),
                 output);
  }

  lemma ChecksCore(c: Capture, boot: Option<string>, device: string, output: Option<Output>)
    ensures Core(CheckIdentity(c, boot, device, output)) == Core(c)
  {
    hide InvalidateIf;
    ReasonCore(c, device == "", DeviceUnavailable);
    var known := InvalidateIf(c, device == "", DeviceUnavailable).(aligned := boot.Some? && Monotonic(output));
    ReasonCore(known, boot.None?, BootUnavailable);
  }

  lemma ClaimCore(c: Capture, output: Option<Output>)
    ensures Core(CheckClaim(c, output)) == Core(c)
  {
    hide Invalidate, InvalidateIf;
    ReasonCore(c, true, OutputUnavailable);
    ReasonCore(c, true, MonotonicUnavailable);
    ReasonCore(c, true, CrtcUnavailable);
    ReasonCore(c, false, CrtcUnavailable);
  }

  lemma StableCore(c: Capture, output: Option<Output>)
    ensures Core(CheckStart(c, output)) == Core(c)
  {
    hide InvalidateIf;
    ReasonCore(c, c.currentOutput != output, OutputUnstable);
    var stable := InvalidateIf(c, c.currentOutput != output, OutputUnstable);
    ReasonCore(stable, c.windowEnd.None?, WindowOverflow);
  }

  lemma BeginCore(c: Capture, boot: Option<string>, timestamp: nat, device: string, output: Option<Output>)
    ensures Core(Begin(c, boot, timestamp, device, output)) == Opened(Core(c), timestamp, device, output).(held := true)
  {
    hide Start, CheckIdentity, CheckClaim, CheckStart, Opened;
    var a := Start(c, timestamp, device, output);
    var b := CheckIdentity(a, boot, device, output);
    StartCore(c, timestamp, device, output);
    ChecksCore(a, boot, device, output);
    ClaimCore(b, output);
    StableCore(CheckClaim(b, output), output);
  }

  lemma ButtonCore(c: Capture, boot: Option<string>, timestamp: nat, state: ButtonState, device: string,
                   output: Option<Output>)
    requires c.phase == Recording ==> c.startedAt.Some?
    ensures Core(RecordButton(c, boot, timestamp, state, device, output))
            == After(Core(c), Button(timestamp, state, device, output))
  {
    hide Begin, KeepButton, Hold, CheckOutput;
    match c.phase {
      case Complete =>
      case WaitingForPrimaryButton =>
        if state == Pressed {
          var b := Begin(c, boot, timestamp, device, output);
          BeginCore(c, boot, timestamp, device, output);
          HeldIs(b, Opened(Core(c), timestamp, device, output).(held := true));
          KeepCore(b, timestamp, state, device, output);
        }
      case Recording =>
        var checked := CheckOutput(c, output);
        var held := Hold(checked, state);
        OutputCore(c, output);
        HoldCore(checked, state);
        HeldIs(held, NoteOutput(Core(c), output).(held := state == Pressed));
        KeepCore(held, timestamp, state, device, output);
    }
  }

  lemma HeldIs(c: Capture, d: Capture)
    requires Core(c) == d
    ensures c.held == d.held && c.phase == d.phase && c.startedAt == d.startedAt
  {
  }

  // ---------------------------------------------------------------- presentations

  lemma CheckCore(c: Capture, timestamp: Option<nat>, crtc: nat, output: Option<Output>)
    requires c.phase == Recording
    ensures Core(CheckPresentation(c, timestamp, crtc, output)) == NoteOutput(Core(c), output)
  {
    hide CheckOutput, InvalidateIf, NoteOutput;
    var checked := CheckOutput(c, output);
    OutputCore(c, output);
    ReasonCore(checked, timestamp.None?, TimestampUnrepresentable);
    ReasonCore(InvalidateIf(checked, timestamp.None?, TimestampUnrepresentable),
               output.None? || output.value.crtcId != crtc, CrtcMismatch);
  }

  lemma RepeatCore(c: Capture, frame: Frame, seconds: nat, subsecond: Subsecond)
    requires frame in c.seen
    ensures Core(Repeat(c, frame, seconds, subsecond)) == Core(c).(duplicates := SaturatingInc(c.duplicates, U64_MAX))
  {
    hide InvalidateIf;
    ReasonCore(c.(duplicates := SaturatingInc(c.duplicates, U64_MAX)), c.seen[frame] != (seconds, subsecond),
               DuplicateConflict);
  }

  lemma OrderCore(c: Capture, timestamp: Option<nat>)
    ensures Core(CheckOrder(c, timestamp))
            == Core(c).(lastPresentation := if timestamp.Some? then timestamp else c.lastPresentation)
  {
    hide InvalidateIf;
    ReasonCore(c, c.lastPresentation.Some? && timestamp.Some? && timestamp.value < c.lastPresentation.value,
               PresentationNotMonotonic);
  }

  lemma SequenceCore(c: Capture, frame: Frame)
    ensures Core(CheckSequence(c, frame)) == Core(c).(lastFrame := Some(frame))
  {
    hide InvalidateIf;
    var last := c.lastFrame;
    ReasonCore(c, last.Some? && last.value.crtc == frame.crtc && last.value.generation == frame.generation
                  && frame.sequence < last.value.sequence, SequenceRegression);
  }

  lemma NewCore(c: Capture, frame: Frame, seconds: nat, subsecond: Subsecond, timestamp: Option<nat>)
    ensures Core(NewFrame(c, frame, seconds, subsecond, timestamp))
            == Core(c).(seen := c.seen[frame := (seconds, subsecond)],
                        lastPresentation := if timestamp.Some? then timestamp else c.lastPresentation,
                        lastFrame := Some(frame))
  {
    hide CheckOrder, CheckSequence;
    var added := c.(seen := c.seen[frame := (seconds, subsecond)]);
    OrderCore(added, timestamp);
    SequenceCore(CheckOrder(added, timestamp), frame);
  }

  lemma PushFrameCore(c: Capture, p: PresentationEvent)
    ensures Core(PushPresentation(c, p)) == Core(c).(presentations := Append(c.presentations, p, 32768))
  {
    hide MarkLost;
    ReasonCore(c, true, PresentationOverflow);
  }

  lemma EndFrameCore(c: Capture, timestamp: Option<nat>)
    requires c.phase == Recording
    ensures var beyond := c.windowEnd.Some? && timestamp.Some? && timestamp.value >= c.windowEnd.value;
            Core(EndPresentation(c, timestamp))
            == Core(c).(presentationEnded := c.presentationEnded || beyond,
                        phase := if beyond && c.inputEnded then Complete else c.phase)
  {
  }

  function FrameRecord(c: Capture, seconds: nat, subsecond: Subsecond, frame: Frame, again: bool): PresentationEvent {
    var t := seconds * 1_000_000 + subsecond;
    var fits := t < 0x1_0000_0000_0000_0000;
    PresentationEvent(seconds, subsecond, if fits then Some(t) else None,
                      frame.crtc, frame.sequence, frame.generation, again,
                      fits && InWindow(c, t))
  }

  lemma RecordIs(c: Capture, seconds: nat, subsecond: Subsecond, frame: Frame, again: bool)
    ensures PresentationRecord(c, seconds, subsecond, frame, again) == FrameRecord(c, seconds, subsecond, frame, again)
  {
  }

  lemma KeepFrameCore(c: Capture, seconds: nat, subsecond: Subsecond, frame: Frame, again: bool)
    requires c.phase == Recording
    ensures var t := seconds * 1_000_000 + subsecond;
            var beyond := t < 0x1_0000_0000_0000_0000 && c.windowEnd.Some? && t >= c.windowEnd.value;
            Core(KeepPresentation(c, seconds, subsecond, frame, again))
            == Core(c).(presentations := Append(c.presentations, FrameRecord(c, seconds, subsecond, frame, again),
                                                32768),
                        presentationEnded := c.presentationEnded || beyond,
                        phase := if beyond && c.inputEnded then Complete else c.phase)
  {
    hide PushPresentation, EndPresentation, PresentationRecord, FrameRecord;
    RecordIs(c, seconds, subsecond, frame, again);
    var p := PresentationRecord(c, seconds, subsecond, frame, again);
    PushFrameCore(c, p);
    CoreFields(PushPresentation(c, p), c.(presentations := Append(c.presentations, p, 32768)));
    EndFrameCore(PushPresentation(c, p), Micros(seconds, subsecond));
  }

  lemma AgainCore(c: Capture, seconds: nat, subsecond: Subsecond, frame: Frame)
    requires c.phase == Recording && frame in c.seen
    ensures Core(KeepPresentation(Repeat(c, frame, seconds, subsecond), seconds, subsecond, frame, true))
            == FrameNoted(Core(c), seconds, subsecond, frame)
  {
    hide Repeat, KeepPresentation;
    var again := Repeat(c, frame, seconds, subsecond);
    RepeatCore(c, frame, seconds, subsecond);
    CoreFields(again, c.(duplicates := SaturatingInc(c.duplicates, U64_MAX)));
    KeepFrameCore(again, seconds, subsecond, frame, true);
  }

  lemma AddedCore(c: Capture, seconds: nat, subsecond: Subsecond, frame: Frame)
    requires c.phase == Recording && frame !in c.seen
    ensures Core(KeepPresentation(NewFrame(c, frame, seconds, subsecond, Micros(seconds, subsecond)), seconds,
                                  subsecond,
                                  frame, false))
            == FrameNoted(Core(c), seconds, subsecond, frame)
  {
    hide NewFrame, KeepPresentation, Micros;
    var t := Micros(seconds, subsecond);
    var added := NewFrame(c, frame, seconds, subsecond, t);
    NewCore(c, frame, seconds, subsecond, t);
    CoreFields(added, c.(seen := c.seen[frame := (seconds, subsecond)],
                         lastPresentation := if t.Some? then t else c.lastPresentation, lastFrame := Some(frame)));
    KeepFrameCore(added, seconds, subsecond, frame, false);
    TimeIs(seconds, subsecond);
  }

  lemma TimeIs(seconds: nat, subsecond: Subsecond)
    ensures var t := seconds * 1_000_000 + subsecond;
            Micros(seconds, subsecond) == if t < 0x1_0000_0000_0000_0000 then Some(t) else None
  {
  }

  lemma AdmitCore(c: Capture, seconds: nat, subsecond: Subsecond, frame: Frame)
    requires c.phase == Recording
    ensures Core(Admit(c, seconds, subsecond, frame))
            == if frame !in c.seen && |c.seen| == 32768 then Core(c) else FrameNoted(Core(c), seconds, subsecond, frame)
  {
    hide Repeat, NewFrame, KeepPresentation, MarkLost, FrameNoted, Core, Micros;
    if frame in c.seen {
      AgainCore(c, seconds, subsecond, frame);
    } else if |c.seen| == MAX_PRESENTATIONS {
      ReasonCore(c, true, PresentationOverflow);
    } else {
      AddedCore(c, seconds, subsecond, frame);
    }
  }

  /** Every event makes of the state what `After` says. */
  lemma StepIsAfter(c: Capture, boot: Option<string>, e: Event)
    requires c.phase == Recording ==> c.startedAt.Some?
    ensures Core(Step(c, boot, e)) == After(Core(c), e)
  {
    hide SetActiveOutput, RecordButton, CheckPresentation, Admit, InvalidateIf, Micros, FrameNoted, NoteOutput,
      ButtonNoted,
      Opened;
    match e {
      case ActiveOutput(output) => ActiveCore(c, output);
      case Removed(device) => ReasonCore(c, c.phase == Recording && c.firstDevice == Some(device), DeviceRemoved);
      case Button(timestamp, state, device, output) => ButtonCore(c, boot, timestamp, state, device, output);
      case Presentation(seconds, subsecond, crtc, sequence, output) =>
        if c.phase == Recording {
          var t, frame := Micros(seconds, subsecond), Frame(crtc, Generation(output), sequence);
          var checked := CheckPresentation(c, t, crtc, output);
          CheckCore(c, t, crtc, output);
          NotedFields(c, output, checked);
          AdmitCore(checked, seconds, subsecond, frame);
        }
    }
  }

  lemma NotedFields(c: Capture, output: Option<Output>, d: Capture)
    requires Core(d) == NoteOutput(Core(c), output)
    ensures d.phase == c.phase && d.seen == c.seen
  {
  }

  // ---------------------------------------------------------------- runs

  const START := Capture(WaitingForPrimaryButton, [], None, None, None, None, [], None, None, None, None, map[],
                         0, 0, false, false, false, false, false, [], [])

  /** The state after all events that found the lock free. */
  function AfterAll(h: seq<Stimulus>): Capture {
    if h == [] then START
    else
      var before, last := AfterAll(h[..|h| - 1]), h[|h| - 1];
      if last.contended then before else After(before, last.event)
  }

  lemma {:induction false} RunIsAfter(boot: Option<string>, h: seq<Stimulus>)
    ensures Core(Run(boot, h).capture) == AfterAll(h)
    decreases |h|
  {
    hide Step, After, Core, MeasurementEvidence.RecordsExact;
    if h == [] {
      StartIsCore();
    } else {
      var front := h[..|h| - 1];
      RunIsAfter(boot, front);
      MeasurementEvidence.RunIsExact(boot, front);
      RecordingStarted(Run(boot, front).capture);
      StepIsAfter(Run(boot, front).capture, boot, h[|h| - 1].event);
    }
  }

  lemma StartIsCore()
    ensures Core(INITIAL) == START
  {
  }

  lemma RecordingStarted(c: Capture)
    requires MeasurementEvidence.RecordsExact(c)
    ensures c.phase == Recording ==> c.startedAt.Some?
  {
  }
}
