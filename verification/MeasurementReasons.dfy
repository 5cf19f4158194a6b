/** Which reason each event leaves behind, and exactly when. */
module MeasurementReasons {
  import opened Basics
  import opened MeasurementCapture

  /** The fault of an output that is told or found while recording. */
  predicate OutputFault(c: Capture, output: Option<Output>, reason: Reason) {
    || (reason == OutputChanged && c.output != output)
    || (reason == OutputOverflow && c.currentOutput != output && |c.observed| == 16)
  }

  /** The fault of the press that starts the measurement. */
  predicate PressFault(c: Capture, boot: Option<string>, timestamp: nat, device: string, output: Option<Output>,
                       reason: Reason)
  {
    match reason
    case DeviceUnavailable => device == ""
    case BootUnavailable => boot.None?
    case OutputUnavailable => output.None?
    case MonotonicUnavailable => output.Some? && output.value.monotonicCapability != Some(1)
    case CrtcUnavailable => output.Some? && output.value.monotonicCapability == Some(1) && output.value.crtcId == 0
    case OutputUnstable => c.currentOutput != output
    case WindowOverflow => timestamp + 60_000_000 >= 0x1_0000_0000_0000_0000
    case InputNotMonotonic => c.lastButton.Some? && timestamp < c.lastButton.value
    case _ => false
  }

  /** The fault of a button event while recording. */
  predicate ButtonFault(c: Capture, timestamp: nat, state: ButtonState, device: string, reason: Reason) {
    match reason
    case PressedWithoutRelease => c.held && state == Pressed
    case ReleasedWithoutPress => !c.held && state == Released
    case InputNotMonotonic => c.lastButton.Some? && timestamp < c.lastButton.value
    case DeviceChanged => c.firstDevice.Some? && c.firstDevice.value != device
    case ButtonOverflow => |c.buttons| == 512
    case ReleasedEarly => state == Released && c.windowEnd.Some? && timestamp < c.windowEnd.value
    case _ => false
  }

  /** The fault of a presentation while recording. */
  predicate FrameFault(c: Capture, seconds: nat, subsecond: Subsecond, crtc: nat, sequence: nat, output: Option<Output>,
                       reason: Reason)
  {
    var time := seconds * 1_000_000 + subsecond;
    var frame := Frame(crtc, if output.Some? then Some(output.value.generation) else None, sequence);
    var isNew := frame !in c.seen && |c.seen| != 32768;
    match reason
    case TimestampUnrepresentable => time >= 0x1_0000_0000_0000_0000
    case CrtcMismatch => output.None? || output.value.crtcId != crtc
    case DuplicateConflict => frame in c.seen && c.seen[frame] != (seconds, subsecond)
    case PresentationOverflow => (frame !in c.seen && |c.seen| == 32768) || |c.presentations| == 32768
    case PresentationNotMonotonic =>
      isNew && c.lastPresentation.Some? && time < 0x1_0000_0000_0000_0000 && time < c.lastPresentation.value
    case SequenceRegression =>
      isNew && c.lastFrame.Some? && c.lastFrame.value.crtc == crtc && c.lastFrame.value.generation == frame.generation
      && sequence < c.lastFrame.value.sequence
    case _ => false
  }

  /** The event leaves this reason. */
  predicate Fault(c: Capture, boot: Option<string>, e: Event, reason: Reason) {
    match e
    case ActiveOutput(output) =>
      c.phase == Recording && c.currentOutput != output && OutputFault(c, output, reason)
    case Removed(device) => reason == DeviceRemoved && c.phase == Recording && c.firstDevice == Some(device)
    case Button(timestamp, state, device, output) =>
      if c.phase == WaitingForPrimaryButton then
        state == Pressed && PressFault(c, boot, timestamp, device, output, reason)
      else
        c.phase == Recording && (OutputFault(c, output, reason) || ButtonFault(c, timestamp, state, device, reason))
    case Presentation(seconds, subsecond, crtc, sequence, output) =>
      && c.phase == Recording
      && (OutputFault(c, output, reason) || FrameFault(c, seconds, subsecond, crtc, sequence, output, reason))
  }

  // ---------------------------------------------------------------- one check after the other

  lemma Adds(c: Capture, bad: bool, reason: Reason)
    ensures var d := InvalidateIf(c, bad, reason);
            && d == c.(reasons := d.reasons)
            && forall r :: r in d.reasons <==> r in c.reasons || (bad && r == reason)
    ensures InvalidateIf(c, true, reason) == Invalidate(c, reason)
  {
  }

  lemma LostAdds(c: Capture, reason: Reason)
    ensures var d := MarkLost(c, reason);
            && d == c.(reasons := d.reasons, overflowed := true, lost := d.lost)
            && forall r :: r in d.reasons <==> r in c.reasons || r == reason
  {
    hide Invalidate, InvalidateIf;
    Adds(c.(overflowed := true, lost := SaturatingInc(c.lost, U64_MAX)), true, reason);
  }

  lemma IdentityAdds(c: Capture, output: Option<Output>)
    ensures var d := RecordIdentity(c, output);
            && d == c.(reasons := d.reasons, overflowed := d.overflowed, lost := d.lost, observed := d.observed)
            && forall r :: r in d.reasons <==> r in c.reasons || (r == OutputOverflow && |c.observed| == 16)
  {
    hide MarkLost;
    LostAdds(c, OutputOverflow);
  }

  lemma OutputAdds(c: Capture, output: Option<Output>)
    requires c.phase == Recording
    ensures var d := CheckOutput(c, output);
            && d == c.(reasons := d.reasons, overflowed := d.overflowed, lost := d.lost, observed := d.observed,
                       currentOutput := d.currentOutput)
            && forall r :: r in d.reasons <==> r in c.reasons || OutputFault(c, output, r)
  {
    hide InvalidateIf, RecordIdentity;
    IdentityAdds(c, output);
    var seen := if c.currentOutput != output then RecordIdentity(c, output).(currentOutput := output) else c;
    Adds(seen, seen.output != output, OutputChanged);
  }

  lemma ActiveAdds(c: Capture, output: Option<Output>)
    ensures forall r :: r in SetActiveOutput(c, output).reasons <==>
              r in c.reasons || Fault(c, None, ActiveOutput(output), r)
  {
    hide InvalidateIf, RecordIdentity;
    IdentityAdds(c, output);
    var recorded := RecordIdentity(c, output);
    Adds(recorded, recorded.output != output, OutputChanged);
  }

  // ---------------------------------------------------------------- buttons

  lemma HoldAdds(c: Capture, state: ButtonState)
    ensures var d := Hold(c, state);
            && d == c.(reasons := d.reasons, held := d.held)
            && forall r :: r in d.reasons <==>
                 || r in c.reasons
                 || (r == PressedWithoutRelease && c.held && state == Pressed)
                 || (r == ReleasedWithoutPress && !c.held && state == Released)
  {
    hide Invalidate, InvalidateIf;
    Adds(c, true, PressedWithoutRelease);
    Adds(c, true, ReleasedWithoutPress);
  }

  lemma CheckAdds(c: Capture, timestamp: nat, device: string)
    ensures var d := CheckDevice(CheckTime(c, timestamp), device);
            && d == c.(reasons := d.reasons, lastButton := Some(timestamp))
            && forall r :: r in d.reasons <==>
                 || r in c.reasons
                 || (r == InputNotMonotonic && c.lastButton.Some? && timestamp < c.lastButton.value)
                 || (r == DeviceChanged && c.firstDevice.Some? && c.firstDevice.value != device)
  {
    hide InvalidateIf, CheckTime;
    TimeAdds(c, timestamp);
    var timed := CheckTime(c, timestamp);
    Adds(timed, timed.firstDevice.Some? && timed.firstDevice.value != device, DeviceChanged);
  }

  lemma TimeAdds(c: Capture, timestamp: nat)
    ensures var d := CheckTime(c, timestamp);
            && d == c.(reasons := d.reasons, lastButton := Some(timestamp))
            && forall r :: r in d.reasons <==>
                 r in c.reasons || (r == InputNotMonotonic && c.lastButton.Some? && timestamp < c.lastButton.value)
  {
    hide InvalidateIf;
    Adds(c, c.lastButton.Some? && timestamp < c.lastButton.value, InputNotMonotonic);
  }

  lemma PushAdds(c: Capture, b: ButtonEvent)
    ensures var d := PushButton(c, b);
            && d == c.(reasons := d.reasons, overflowed := d.overflowed, lost := d.lost, buttons := d.buttons)
            && forall r :: r in d.reasons <==> r in c.reasons || (r == ButtonOverflow && |c.buttons| == 512)
  {
    hide MarkLost;
    LostAdds(c, ButtonOverflow);
  }

  lemma EndAdds(c: Capture, timestamp: nat, state: ButtonState)
    ensures forall r :: r in EndButton(c, timestamp, state).reasons <==>
              || r in c.reasons
              || (r == ReleasedEarly && state == Released && c.windowEnd.Some? && timestamp < c.windowEnd.value)
  {
    hide InvalidateIf;
    Adds(c, state == Released && c.windowEnd.Some? && timestamp < c.windowEnd.value, ReleasedEarly);
  }

  predicate KeepFault(c: Capture, timestamp: nat, state: ButtonState, device: string, reason: Reason) {
    match reason
    case PressedWithoutRelease => false
    case ReleasedWithoutPress => false
    case _ => ButtonFault(c, timestamp, state, device, reason)
  }

  lemma KeepAdds(c: Capture, timestamp: nat, state: ButtonState, device: string, output: Option<Output>)
    ensures forall r :: r in KeepButton(c, timestamp, state, device, output).reasons <==>
              r in c.reasons || KeepFault(c, timestamp, state, device, r)
  {
    hide CheckTime, CheckDevice, PushButton, EndButton, ButtonRecord;
    var checked := CheckDevice(CheckTime(c, timestamp), device);
    var record := ButtonRecord(checked, timestamp, state, device, output);
    CheckAdds(c, timestamp, device);
    PushAdds(checked, record);
    EndAdds(PushButton(checked, record), timestamp, state);
  }

  // ---------------------------------------------------------------- the press

  lemma StartAdds(c: Capture, timestamp: nat, device: string, output: Option<Output>)
    requires Bounded(c) && c.phase == WaitingForPrimaryButton
    ensures var d := Start(c, timestamp, device, output);
            && d.reasons == c.reasons && d.windowEnd == WindowEnd(timestamp) && d.firstDevice == Some(device)
            && d.currentOutput == c.currentOutput && d.lastButton == c.lastButton && d.buttons == c.buttons
  {
    hide WindowEnd, MarkLost;
  }

  lemma ClaimAdds(c: Capture, output: Option<Output>)
    ensures var d := CheckClaim(c, output);
            && d == c.(reasons := d.reasons)
            && forall r :: r in d.reasons <==>
                 || r in c.reasons
                 || (r == OutputUnavailable && output.None?)
                 || (r == MonotonicUnavailable && output.Some? && output.value.monotonicCapability != Some(1))
                 || (r == CrtcUnavailable && output.Some? && output.value.monotonicCapability == Some(1)
                     && output.value.crtcId == 0)
  {
    hide Invalidate, InvalidateIf;
    Adds(c, true, OutputUnavailable);
    Adds(c, true, MonotonicUnavailable);
    Adds(c, output.Some? && output.value.crtcId == 0, CrtcUnavailable);
  }

  lemma IdentityChecksAdd(c: Capture, boot: Option<string>, device: string, output: Option<Output>)
    ensures var d := CheckIdentity(c, boot, device, output);
            && d == c.(reasons := d.reasons, aligned := d.aligned)
            && forall r :: r in d.reasons <==>
                 || r in c.reasons
                 || (r == DeviceUnavailable && device == "") || (r == BootUnavailable && boot.None?)
  {
    hide InvalidateIf;
    Adds(c, device == "", DeviceUnavailable);
    var known := InvalidateIf(c, device == "", DeviceUnavailable).(aligned := boot.Some? && Monotonic(output));
    Adds(known, boot.None?, BootUnavailable);
  }

  lemma StableAdds(c: Capture, output: Option<Output>)
    ensures var d := CheckStart(c, output);
            && d == c.(reasons := d.reasons)
            && forall r :: r in d.reasons <==>
                 || r in c.reasons
                 || (r == OutputUnstable && c.currentOutput != output) || (r == WindowOverflow && c.windowEnd.None?)
  {
    hide InvalidateIf;
    Adds(c, c.currentOutput != output, OutputUnstable);
    var stable := InvalidateIf(c, c.currentOutput != output, OutputUnstable);
    Adds(stable, stable.windowEnd.None?, WindowOverflow);
  }

  lemma BeginAdds(c: Capture, boot: Option<string>, timestamp: nat, device: string, output: Option<Output>)
    requires Bounded(c) && c.phase == WaitingForPrimaryButton
    ensures var d := Begin(c, boot, timestamp, device, output);
            && d.windowEnd == WindowEnd(timestamp) && d.firstDevice == Some(device) && d.lastButton == c.lastButton
            && d.buttons == c.buttons
            && forall r :: r in d.reasons <==>
                 r in c.reasons || (r != InputNotMonotonic && PressFault(c, boot, timestamp, device, output, r))
  {
    hide Start, CheckIdentity, CheckClaim, CheckStart, BoundedBut;
    var a := Start(c, timestamp, device, output);
    var b := CheckIdentity(a, boot, device, output);
    StartAdds(c, timestamp, device, output);
    IdentityChecksAdd(a, boot, device, output);
    ClaimAdds(b, output);
    StableAdds(CheckClaim(b, output), output);
  }

  lemma PressAdds(c: Capture, boot: Option<string>, timestamp: nat, device: string, output: Option<Output>)
    requires Bounded(c) && c.phase == WaitingForPrimaryButton
    ensures forall r :: r in RecordButton(c, boot, timestamp, Pressed, device, output).reasons <==>
              r in c.reasons || PressFault(c, boot, timestamp, device, output, r)
  {
    hide Begin, KeepButton, PressFault;
    BeginAdds(c, boot, timestamp, device, output);
    KeepAdds(Begin(c, boot, timestamp, device, output), timestamp, Pressed, device, output);
    PressTime(c, boot, timestamp, device, output);
  }

  lemma PressTime(c: Capture, boot: Option<string>, timestamp: nat, device: string, output: Option<Output>)
    ensures PressFault(c, boot, timestamp, device, output, InputNotMonotonic) <==>
            c.lastButton.Some? && timestamp < c.lastButton.value
  {
  }

  lemma ButtonAdds(c: Capture, boot: Option<string>, timestamp: nat, state: ButtonState, device: string,
                   output: Option<Output>)
    requires c.phase == Recording
    ensures forall r :: r in RecordButton(c, boot, timestamp, state, device, output).reasons <==>
              r in c.reasons || OutputFault(c, output, r) || ButtonFault(c, timestamp, state, device, r)
  {
    hide CheckOutput, Hold, KeepButton;
    var checked := CheckOutput(c, output);
    OutputAdds(c, output);
    HoldAdds(checked, state);
    KeepAdds(Hold(checked, state), timestamp, state, device, output);
  }

  // ---------------------------------------------------------------- presentations

  lemma ChecksAdd(c: Capture, timestamp: Option<nat>, crtc: nat, output: Option<Output>)
    requires c.phase == Recording
    ensures var d := CheckPresentation(c, timestamp, crtc, output);
            && d == c.(reasons := d.reasons, overflowed := d.overflowed, lost := d.lost, observed := d.observed,
                       currentOutput := d.currentOutput)
            && forall r :: r in d.reasons <==>
                 || r in c.reasons || OutputFault(c, output, r)
                 || (r == TimestampUnrepresentable && timestamp.None?)
                 || (r == CrtcMismatch && (output.None? || output.value.crtcId != crtc))
  {
    hide CheckOutput, InvalidateIf, OutputFault;
    OutputAdds(c, output);
    TwoAdd(CheckOutput(c, output), timestamp.None?, TimestampUnrepresentable,
           output.None? || output.value.crtcId != crtc, CrtcMismatch);
  }

  lemma TwoAdd(c: Capture, bad: bool, reason: Reason, worse: bool, another: Reason)
    ensures var d := InvalidateIf(InvalidateIf(c, bad, reason), worse, another);
            && d == c.(reasons := d.reasons)
            && forall r :: r in d.reasons <==>
                 r in c.reasons || (r == reason && bad) || (r == another && worse)
  {
    hide InvalidateIf;
    Adds(c, bad, reason);
    Adds(InvalidateIf(c, bad, reason), worse, another);
  }

  lemma RepeatAdds(c: Capture, frame: Frame, seconds: nat, subsecond: Subsecond)
    requires frame in c.seen
    ensures var d := Repeat(c, frame, seconds, subsecond);
            && d == c.(reasons := d.reasons, duplicates := d.duplicates)
            && forall r :: r in d.reasons <==>
                 r in c.reasons || (r == DuplicateConflict && c.seen[frame] != (seconds, subsecond))
  {
    hide InvalidateIf;
    Adds(c.(duplicates := SaturatingInc(c.duplicates, U64_MAX)), c.seen[frame] != (seconds, subsecond),
         DuplicateConflict);
  }

  lemma OrderAdds(c: Capture, timestamp: Option<nat>)
    ensures var d := CheckOrder(c, timestamp);
            && d == c.(reasons := d.reasons, lastPresentation := d.lastPresentation)
            && forall r :: r in d.reasons <==>
                 || r in c.reasons
                 || (r == PresentationNotMonotonic && c.lastPresentation.Some? && timestamp.Some?
                     && timestamp.value < c.lastPresentation.value)
  {
    hide InvalidateIf;
    var back := c.lastPresentation.Some? && timestamp.Some? && timestamp.value < c.lastPresentation.value;
    Adds(c, back, PresentationNotMonotonic);
  }

  lemma SequenceAdds(c: Capture, frame: Frame)
    ensures var d := CheckSequence(c, frame);
            && d == c.(reasons := d.reasons, lastFrame := Some(frame))
            && forall r :: r in d.reasons <==>
                 || r in c.reasons
                 || (r == SequenceRegression && c.lastFrame.Some? && c.lastFrame.value.crtc == frame.crtc
                     && c.lastFrame.value.generation == frame.generation && frame.sequence < c.lastFrame.value.sequence)
  {
    hide InvalidateIf;
    var last := c.lastFrame;
    Adds(c, last.Some? && last.value.crtc == frame.crtc && last.value.generation == frame.generation
            && frame.sequence < last.value.sequence, SequenceRegression);
  }

  lemma NewAdds(c: Capture, frame: Frame, seconds: nat, subsecond: Subsecond, timestamp: Option<nat>)
    ensures var d := NewFrame(c, frame, seconds, subsecond, timestamp);
            && d.presentations == c.presentations
            && forall r :: r in d.reasons <==>
                 || r in c.reasons
                 || (r == PresentationNotMonotonic && c.lastPresentation.Some? && timestamp.Some?
                     && timestamp.value < c.lastPresentation.value)
                 || (r == SequenceRegression && c.lastFrame.Some? && c.lastFrame.value.crtc == frame.crtc
                     && c.lastFrame.value.generation == frame.generation && frame.sequence < c.lastFrame.value.sequence)
  {
    hide CheckOrder, CheckSequence;
    var added := c.(seen := c.seen[frame := (seconds, subsecond)]);
    OrderAdds(added, timestamp);
    SequenceAdds(CheckOrder(added, timestamp), frame);
  }

  lemma KeptAdds(c: Capture, seconds: nat, subsecond: Subsecond, frame: Frame, duplicate: bool)
    ensures forall r :: r in KeepPresentation(c, seconds, subsecond, frame, duplicate).reasons <==>
              r in c.reasons || (r == PresentationOverflow && |c.presentations| == 32768)
  {
    hide MarkLost, Micros, PresentationRecord;
    LostAdds(c, PresentationOverflow);
  }

  predicate AdmitFault(c: Capture, seconds: nat, subsecond: Subsecond, frame: Frame, reason: Reason) {
    var t := Micros(seconds, subsecond);
    var isNew := frame !in c.seen && |c.seen| != 32768;
    match reason
    case DuplicateConflict => frame in c.seen && c.seen[frame] != (seconds, subsecond)
    case PresentationOverflow => (frame !in c.seen && |c.seen| == 32768) || |c.presentations| == 32768
    case PresentationNotMonotonic =>
      isNew && c.lastPresentation.Some? && t.Some? && t.value < c.lastPresentation.value
    case SequenceRegression =>
      isNew && c.lastFrame.Some? && c.lastFrame.value.crtc == frame.crtc
      && c.lastFrame.value.generation == frame.generation && frame.sequence < c.lastFrame.value.sequence
    case _ => false
  }

  lemma AdmitAdds(c: Capture, seconds: nat, subsecond: Subsecond, frame: Frame)
    ensures forall r :: r in Admit(c, seconds, subsecond, frame).reasons <==>
              r in c.reasons || AdmitFault(c, seconds, subsecond, frame, r)
  {
    hide Repeat, NewFrame, KeepPresentation, MarkLost, Micros;
    var t := Micros(seconds, subsecond);
    if frame in c.seen {
      RepeatAdds(c, frame, seconds, subsecond);
      KeptAdds(Repeat(c, frame, seconds, subsecond), seconds, subsecond, frame, true);
    } else if |c.seen| == MAX_PRESENTATIONS {
      LostAdds(c, PresentationOverflow);
    } else {
      NewAdds(c, frame, seconds, subsecond, t);
      KeptAdds(NewFrame(c, frame, seconds, subsecond, t), seconds, subsecond, frame, false);
    }
  }

  lemma FrameAdds(c: Capture, seconds: nat, subsecond: Subsecond, crtc: nat, sequence: nat, output: Option<Output>)
    requires c.phase == Recording
    ensures forall r :: r in RecordPresentation(c, seconds, subsecond, crtc, sequence, output).reasons <==>
              r in c.reasons || OutputFault(c, output, r)
              || FrameFault(c, seconds, subsecond, crtc, sequence, output, r)
  {
    hide CheckPresentation, Admit, Micros, OutputFault;
    var t, frame := Micros(seconds, subsecond), Frame(crtc, Generation(output), sequence);
    ChecksAdd(c, t, crtc, output);
    AdmitAdds(CheckPresentation(c, t, crtc, output), seconds, subsecond, frame);
    MicrosExact(seconds, subsecond);
    if t.Some? {
      assert t.value == t.value / 1_000_000 * 1_000_000 + t.value % 1_000_000;
    }
  }

  /** Every event adds exactly the reasons of its faults. */
  lemma ReasonsExactly(c: Capture, boot: Option<string>, e: Event)
    requires Bounded(c)
    ensures forall r :: r in Step(c, boot, e).reasons <==> r in c.reasons || Fault(c, boot, e, r)
  {
    hide BoundedBut, RecordButton, RecordPresentation, SetActiveOutput, OutputFault, PressFault, ButtonFault,
      FrameFault,
      InvalidateIf;
    match e {
      case ActiveOutput(output) => ActiveAdds(c, output);
      case Removed(device) => Adds(c, c.phase == Recording && c.firstDevice == Some(device), DeviceRemoved);
      case Button(timestamp, state, device, output) =>
        if c.phase == Recording {
          ButtonAdds(c, boot, timestamp, state, device, output);
        } else if c.phase == WaitingForPrimaryButton && state == Pressed {
          PressAdds(c, boot, timestamp, device, output);
        } else {
          NothingAdded(c, boot, timestamp, state, device, output);
        }
      case Presentation(seconds, subsecond, crtc, sequence, output) =>
        if c.phase == Recording {
          FrameAdds(c, seconds, subsecond, crtc, sequence, output);
        } else {
          NotRecording(c, seconds, subsecond, crtc, sequence, output);
        }
    }
  }

  lemma NothingAdded(c: Capture, boot: Option<string>, timestamp: nat, state: ButtonState, device: string,
                     output: Option<Output>)
    requires c.phase == Complete || (c.phase == WaitingForPrimaryButton && state != Pressed)
    ensures RecordButton(c, boot, timestamp, state, device, output) == c
  {
  }

  lemma NotRecording(c: Capture, seconds: nat, subsecond: Subsecond, crtc: nat, sequence: nat, output: Option<Output>)
    requires c.phase != Recording
    ensures RecordPresentation(c, seconds, subsecond, crtc, sequence, output) == c
  {
  }
}
