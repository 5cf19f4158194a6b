/**
 The presentation measurement collector: its state is updated in place under a lock that event
 handlers only try. What a snapshot claims is proved about every history of deliveries.
 */
module PresentationMeasurement {
  import opened Basics
  import opened MeasurementCapture
  import opened MeasurementStory
  import opened MeasurementIntegrity
  import PresentationBuckets
  import MeasurementEvidence

  class CaptureState {
    var phase: Phase
    var reasons: seq<Reason>
    var startedAt: Option<nat>
    var windowEnd: Option<nat>
    var output: Option<Output>
    var currentOutput: Option<Output>
    var observed: seq<Option<Output>>
    var firstDevice: Option<string>
    var lastButton: Option<nat>
    var lastPresentation: Option<nat>
    var lastFrame: Option<Frame>
    var seen: map<Frame, (nat, nat)>
    var lost: nat
    var duplicates: nat
    var aligned: bool
    var held: bool
    var inputEnded: bool
    var presentationEnded: bool
    var overflowed: bool
    var buttons: seq<ButtonEvent>
    var presentations: seq<PresentationEvent>

    function Value(): Capture
      reads this
    {
      Capture(phase, reasons, startedAt, windowEnd, output, currentOutput, observed, firstDevice, lastButton,
              lastPresentation, lastFrame, seen, lost, duplicates, aligned, held, inputEnded, presentationEnded,
              overflowed, buttons, presentations)
    }

    constructor ()
      ensures Value() == INITIAL
    {
      phase, reasons, startedAt, windowEnd := WaitingForPrimaryButton, [], None, None;
      output, currentOutput, observed, firstDevice := None, None, [], None;
      lastButton, lastPresentation, lastFrame, seen := None, None, None, map[];
      lost, duplicates, aligned, held := 0, 0, false, false;
      inputEnded, presentationEnded, overflowed := false, false, false;
      buttons, presentations := [], [];
    }

    method Invalidate(reason: Reason)
      modifies this
      ensures Value() == MeasurementCapture.Invalidate(old(Value()), reason)
    {
      if reason !in reasons {
        reasons := reasons + [reason];
      }
    }

    method MarkLostRecord(reason: Reason)
      modifies this
      ensures Value() == MarkLost(old(Value()), reason)
      ensures overflowed && reason in reasons
      ensures lost == if old(lost) < 0xFFFF_FFFF_FFFF_FFFF then old(lost) + 1 else old(lost)
    {
      overflowed := true;
      lost := SaturatingInc(lost, U64_MAX);
      Invalidate(reason);
    }

    method RecordOutputIdentity(next: Option<Output>)
      modifies this
      ensures Value() == RecordIdentity(old(Value()), next)
      ensures observed == if |old(observed)| == 16 then old(observed) else old(observed) + [next]
    {
      if |observed| == MAX_OUTPUTS {
        MarkLostRecord(OutputOverflow);
      } else {
        observed := observed + [next];
      }
    }

    method CheckCurrentOutput(next: Option<Output>)
      modifies this
      ensures Value() == CheckOutput(old(Value()), next)
    {
      if phase != Recording {
        return;
      }
      if currentOutput != next {
        RecordOutputIdentity(next);
        currentOutput := next;
      }
      if output != next {
        Invalidate(OutputChanged);
      }
    }

    method FinishIfBothStreamsPassedWindowEnd()
      modifies this
      ensures Value() == Finish(old(Value()))
    {
      if phase == Recording && inputEnded && presentationEnded {
        phase := Complete;
      }
    }

    method PushButton(e: ButtonEvent)
      modifies this
      ensures Value() == MeasurementCapture.PushButton(old(Value()), e)
      ensures buttons == if |old(buttons)| == 512 then old(buttons) else old(buttons) + [e]
    {
      if |buttons| == MAX_BUTTONS {
        MarkLostRecord(ButtonOverflow);
        return;
      }
      buttons := buttons + [e];
    }

    method PushPresentation(e: PresentationEvent)
      modifies this
      ensures Value() == MeasurementCapture.PushPresentation(old(Value()), e)
      ensures presentations == if |old(presentations)| == 32768 then old(presentations) else old(presentations) + [e]
    {
      if |presentations| == MAX_PRESENTATIONS {
        MarkLostRecord(PresentationOverflow);
        return;
      }
      presentations := presentations + [e];
    }

    /** The first press starts the measurement. */
    method BeginCapture(boot: Option<string>, timestamp: nat, device: string, next: Option<Output>)
      modifies this
      ensures Value() == Begin(old(Value()), boot, timestamp, device, next)
    {
      hide Start, CheckIdentity, CheckClaim, CheckStart;
      StartWindow(timestamp, device, next);
      IdentifyPress(boot, device, next);
      ClaimOutput(next);
      CheckStability(next);
    }

    method StartWindow(timestamp: nat, device: string, next: Option<Output>)
      modifies this
      ensures Value() == Start(old(Value()), timestamp, device, next)
    {
      hide RecordIdentity;
      OpenWindow(timestamp, next);
      RecordOutputIdentity(next);
      HoldFirst(device);
    }

    method OpenWindow(timestamp: nat, next: Option<Output>)
      modifies this
      ensures Value() == old(Value()).(phase := Recording, startedAt := Some(timestamp),
                                       windowEnd := WindowEnd(timestamp), output := next)
    {
      hide WindowEnd;
      BeginRecording(timestamp);
      windowEnd := WindowEnd(timestamp);
      output := next;
    }

    method BeginRecording(timestamp: nat)
      modifies this
      ensures Value() == old(Value()).(phase := Recording, startedAt := Some(timestamp))
    {
      phase := Recording;
      startedAt := Some(timestamp);
    }

    method HoldFirst(device: string)
      modifies this
      ensures Value() == old(Value()).(firstDevice := Some(device), held := true)
    {
      firstDevice := Some(device);
      held := true;
    }

    method IdentifyPress(boot: Option<string>, device: string, next: Option<Output>)
      modifies this
      ensures Value() == CheckIdentity(old(Value()), boot, device, next)
    {
      hide MeasurementCapture.Invalidate;
      if device == "" {
        Invalidate(DeviceUnavailable);
      }
      aligned := boot.Some? && Monotonic(next);
      if boot.None? {
        Invalidate(BootUnavailable);
      }
    }

    method ClaimOutput(next: Option<Output>)
      modifies this
      ensures Value() == CheckClaim(old(Value()), next)
    {
      hide MeasurementCapture.Invalidate;
      if next.None? {
        Invalidate(OutputUnavailable);
      } else if !Monotonic(next) {
        Invalidate(MonotonicUnavailable);
      } else if next.value.crtcId == 0 {
        Invalidate(CrtcUnavailable);
      }
    }

    method CheckStability(next: Option<Output>)
      modifies this
      ensures Value() == CheckStart(old(Value()), next)
    {
      if currentOutput != next {
        Invalidate(OutputUnstable);
      }
      if windowEnd.None? {
        Invalidate(WindowOverflow);
      }
    }

    method HoldButton(state: ButtonState)
      modifies this
      ensures Value() == Hold(old(Value()), state)
    {
      match (held, state)
      case (true, Pressed) => Invalidate(PressedWithoutRelease);
      case (false, Released) => Invalidate(ReleasedWithoutPress);
      case (false, Pressed) => held := true;
      case (true, Released) => held := false;
    }

    method KeepButton(timestamp: nat, state: ButtonState, device: string, next: Option<Output>)
      modifies this
      ensures Value() == MeasurementCapture.KeepButton(old(Value()), timestamp, state, device, next)
    {
      hide CheckTime, CheckDevice, MeasurementCapture.PushButton, EndButton, ButtonRecord;
      CheckButton(timestamp, device);
      PushButton(ButtonRecord(Value(), timestamp, state, device, next));
      EndButtonEvent(timestamp, state);
    }

    method CheckButton(timestamp: nat, device: string)
      modifies this
      ensures Value() == CheckDevice(CheckTime(old(Value()), timestamp), device)
    {
      hide MeasurementCapture.Invalidate;
      if lastButton.Some? && timestamp < lastButton.value {
        Invalidate(InputNotMonotonic);
      }
      lastButton := Some(timestamp);
      assert Value() == CheckTime(old(Value()), timestamp);
      if firstDevice.Some? && firstDevice.value != device {
        Invalidate(DeviceChanged);
      }
    }

    method EndButtonEvent(timestamp: nat, state: ButtonState)
      modifies this
      ensures Value() == EndButton(old(Value()), timestamp, state)
    {
      var end := windowEnd;
      if state == Released && end.Some? && timestamp < end.value {
        Invalidate(ReleasedEarly);
      }
      if end.Some? && timestamp >= end.value {
        inputEnded := true;
        FinishIfBothStreamsPassedWindowEnd();
      }
    }

    /** The presentation is checked; it is a repeated frame, a new one, or one too many. */
    method AdmitPresentation(seconds: nat, subsecond: Subsecond, frame: Frame)
      modifies this
      ensures Value() == Admit(old(Value()), seconds, subsecond, frame)
    {
      hide MarkLost, MeasurementCapture.PushPresentation, Repeat, NewFrame, EndPresentation, PresentationRecord;
      var timestamp := Micros(seconds, subsecond);
      var duplicate := frame in seen;
      if duplicate {
        RepeatFrame(seconds, subsecond, frame);
      } else {
        if |seen| == MAX_PRESENTATIONS {
          MarkLostRecord(PresentationOverflow);
          return;
        }
        AddFrame(seconds, subsecond, frame, timestamp);
      }
      PushPresentation(PresentationRecord(Value(), seconds, subsecond, frame, duplicate));
      EndPresentationEvent(timestamp);
    }

    method RepeatFrame(seconds: nat, subsecond: Subsecond, frame: Frame)
      requires frame in seen
      modifies this
      ensures Value() == Repeat(old(Value()), frame, seconds, subsecond)
    {
      hide MeasurementCapture.Invalidate;
      var prior := seen[frame];
      duplicates := SaturatingInc(duplicates, U64_MAX);
      if prior != (seconds, subsecond) {
        Invalidate(DuplicateConflict);
      }
    }

    method EndPresentationEvent(timestamp: Option<nat>)
      modifies this
      ensures Value() == EndPresentation(old(Value()), timestamp)
    {
      if windowEnd.Some? && timestamp.Some? && timestamp.value >= windowEnd.value {
        presentationEnded := true;
        FinishIfBothStreamsPassedWindowEnd();
      }
    }

    method AddFrame(seconds: nat, subsecond: Subsecond, frame: Frame, timestamp: Option<nat>)
      modifies this
      ensures Value() == NewFrame(old(Value()), frame, seconds, subsecond, timestamp)
    {
      hide CheckOrder, CheckSequence;
      seen := seen[frame := (seconds, subsecond)];
      CheckFrameOrder(timestamp);
      CheckFrameSequence(frame);
    }

    method CheckFrameOrder(timestamp: Option<nat>)
      modifies this
      ensures Value() == CheckOrder(old(Value()), timestamp)
    {
      hide MeasurementCapture.Invalidate;
      if lastPresentation.Some? && timestamp.Some? && timestamp.value < lastPresentation.value {
        Invalidate(PresentationNotMonotonic);
      }
      if timestamp.Some? {
        lastPresentation := timestamp;
      }
    }

    method CheckFrameSequence(frame: Frame)
      modifies this
      ensures Value() == CheckSequence(old(Value()), frame)
    {
      hide MeasurementCapture.Invalidate;
      if lastFrame.Some? && lastFrame.value.crtc == frame.crtc && lastFrame.value.generation == frame.generation
         && frame.sequence < lastFrame.value.sequence {
        Invalidate(SequenceRegression);
      }
      lastFrame := Some(frame);
    }
  }

  datatype Snapshot = Snapshot(
    phase: Phase,
    captureIntegrityValid: bool,
    invalidReasons: seq<Reason>,
    aligned: bool,
    lostRecordCount: nat,
    duplicates: nat,
    overflowed: bool,
    buttons: seq<ButtonEvent>,
    presentations: seq<PresentationEvent>,
    counts: seq<nat>)

  class PresentationMeasurementCollector {
    const bootId: Option<string>
    const capture: CaptureState
    var contendedLosses: nat
    /** All deliveries so far. */
    ghost var history: seq<Stimulus>

    /** The state is what the deliveries so far make of it. */
    ghost predicate Valid()
      reads this, capture
    {
      Collector(capture.Value(), contendedLosses) == Run(bootId, history)
    }

    constructor (bootId: Option<string>)
      ensures Valid() && history == [] && this.bootId == bootId && fresh(capture)
    {
      this.bootId := bootId;
      capture := new CaptureState();
      contendedLosses := 0;
      history := [];
    }

    lemma Delivered(e: Event, contended: bool)
      ensures var r := Run(bootId, history);
              Run(bootId, history + [Stimulus(e, contended)])
              == if contended then r.(contendedLosses := SaturatingInc(r.contendedLosses, U64_MAX))
                 else r.(capture := Step(r.capture, bootId, e))
    {
      hide Step;
      var more := history + [Stimulus(e, contended)];
      assert more[..|history|] == history;
    }

    /** A handler that cannot take the lock at once counts a loss and gives up. */
    method TryCapture(e: Event, contended: bool) returns (locked: bool)
      requires Valid()
      modifies this
      ensures history == old(history) + [Stimulus(e, contended)] && locked == !contended
      ensures contended ==> Valid()
      ensures contended ==>
                contendedLosses == if old(contendedLosses) < 0xFFFF_FFFF_FFFF_FFFF then old(contendedLosses) + 1
                                   else old(contendedLosses)
      ensures !contended ==>
                && contendedLosses == old(contendedLosses)
                && Collector(capture.Value(), contendedLosses) == old(Run(bootId, history))
      ensures !contended ==>
                Run(bootId, history) == old(Run(bootId, history)).(capture := Step(capture.Value(), bootId, e))
    {
      hide Run, Step;
      Delivered(e, contended);
      history := history + [Stimulus(e, contended)];
      if contended {
        contendedLosses := SaturatingInc(contendedLosses, U64_MAX);
        return false;
      }
      return true;
    }

    method SetActiveOutput(next: Option<Output>, contended: bool)
      requires Valid()
      modifies this, capture
      ensures Valid() && history == old(history) + [Stimulus(ActiveOutput(next), contended)]
    {
      hide Run, RecordIdentity;
      var locked := TryCapture(ActiveOutput(next), contended);
      if !locked {
        return;
      }
      if capture.phase == Recording && capture.currentOutput != next {
        capture.RecordOutputIdentity(next);
        if capture.output != next {
          capture.Invalidate(OutputChanged);
        }
      }
      capture.currentOutput := next;
    }

    method RecordButton(timestamp: nat, state: ButtonState, device: string, next: Option<Output>, contended: bool)
      requires Valid()
      modifies this, capture
      ensures Valid() && history == old(history) + [Stimulus(Button(timestamp, state, device, next), contended)]
    {
      hide Run, Begin, Hold, CheckOutput, MeasurementCapture.KeepButton;
      var locked := TryCapture(Button(timestamp, state, device, next), contended);
      if !locked {
        return;
      }
      if capture.phase == Complete {
        return;
      }
      if capture.phase == WaitingForPrimaryButton {
        if state != Pressed {
          return;
        }
        capture.BeginCapture(bootId, timestamp, device, next);
      } else {
        capture.CheckCurrentOutput(next);
        capture.HoldButton(state);
      }
      capture.KeepButton(timestamp, state, device, next);
    }

    method RecordInputDeviceRemoved(device: string, contended: bool)
      requires Valid()
      modifies this, capture
      ensures Valid() && history == old(history) + [Stimulus(Removed(device), contended)]
    {
      hide Run;
      var locked := TryCapture(Removed(device), contended);
      if !locked {
        return;
      }
      if capture.phase == Recording && capture.firstDevice == Some(device) {
        capture.Invalidate(DeviceRemoved);
      }
    }

    method RecordPresentation(seconds: nat, subsecond: Subsecond, crtc: nat, sequence: nat, next: Option<Output>,
                              contended: bool)
      requires Valid()
      modifies this, capture
      ensures Valid()
      ensures history == old(history) + [Stimulus(Presentation(seconds, subsecond, crtc, sequence, next), contended)]
    {
      hide Run, CheckOutput, Admit;
      var locked := TryCapture(Presentation(seconds, subsecond, crtc, sequence, next), contended);
      if !locked {
        return;
      }
      if capture.phase == WaitingForPrimaryButton || capture.phase == Complete {
        return;
      }
      capture.CheckCurrentOutput(next);
      if Micros(seconds, subsecond).None? {
        capture.Invalidate(TimestampUnrepresentable);
      }
      if next.None? || next.value.crtcId != crtc {
        capture.Invalidate(CrtcMismatch);
      }
      capture.AdmitPresentation(seconds, subsecond, Frame(crtc, Generation(next), sequence));
    }

    /**
     What a snapshot claims: it claims integrity exactly when every delivery so far took the lock and
     the session from the first press to completion is clean, and then shows that session's events;
     and its bucket counts are those of the presentations it shows.
     */
    method TakeSnapshot() returns (s: Snapshot)
      requires Valid()
      ensures s.captureIntegrityValid <==> Uncontended(history) && Measured(bootId, StoryOf(history))
      ensures s.captureIntegrityValid ==>
                var story := StoryOf(history);
                s.buttons == ButtonsOf(story.press, story.rest)
                  && s.presentations == PresentationsOf(story.press, story.rest)
      ensures s.phase == capture.phase && s.buttons == capture.buttons && s.presentations == capture.presentations
      ensures s.aligned == capture.aligned && s.duplicates == capture.duplicates && s.overflowed == capture.overflowed
      ensures |s.counts| == BUCKETS == 60
      ensures s.captureIntegrityValid ==>
                forall i :: 0 <= i < 60 ==>
                  s.counts[i] == MeasurementEvidence.NewInSecond(StoryOf(history).rest,
                                                                 StoryOf(history).press.timestamp, i)
      ensures s.lostRecordCount == SaturatingAdd(capture.lost, contendedLosses)
      ensures s.lostRecordCount == 0 <==> capture.lost == 0 && Uncontended(history)
      ensures capture.reasons <= s.invalidReasons
      ensures forall r :: r in s.invalidReasons <==>
                r in capture.reasons || (r == LockContention && !Uncontended(history))
      ensures capture.windowEnd.Some? ==>
                && capture.startedAt.Some?
                && s.counts == PresentationBuckets.Buckets(s.presentations, capture.startedAt.value)
                && PresentationBuckets.Sum(s.counts)
                   == PresentationBuckets.CountAll(s.presentations, capture.startedAt.value, capture.windowEnd.value)
    {
      hide Run, Uncontended, Measured, StoryOf, PresentationBuckets.Buckets, PresentationBuckets.Sum,
        MeasurementEvidence.NewInSecond;
      IntegrityExactly(bootId, history);
      if IntegrityValid(Run(bootId, history)) {
        MeasurementEvidence.ValidBuckets(bootId, history);
      }
      RunKeeps(bootId, history);
      ContentionCounts(bootId, history);
      var lostRecordCount := SaturatingAdd(capture.lost, contendedLosses);
      var counts := PresentationBuckets.BucketCounts(capture.startedAt, capture.windowEnd, capture.presentations);
      var valid := capture.phase == Complete && capture.reasons == [] && lostRecordCount == 0 && !capture.overflowed;
      var invalidReasons := capture.reasons;
      if contendedLosses > 0 && LockContention !in invalidReasons {
        invalidReasons := invalidReasons + [LockContention];
      }
      return Snapshot(capture.phase, valid, invalidReasons, capture.aligned, lostRecordCount, capture.duplicates,
                      capture.overflowed, capture.buttons, capture.presentations, counts);
    }
  }
}
