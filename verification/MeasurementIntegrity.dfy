/** A valid snapshot is exactly a complete, clean and uncontended session. */
module MeasurementIntegrity {
  import opened Basics
  import opened MeasurementCapture
  import opened MeasurementStory


  function FrameOf(output: Output, sequence: nat): Frame {
    Frame(output.crtcId, Some(output.generation), sequence)
  }

  ghost predicate SeenIs(seen: map<Frame, (nat, nat)>, output: Output, rest: seq<Event>) {
    && (forall s :: s in Frames(rest) ==> FrameOf(output, s) in seen && seen[FrameOf(output, s)] == Frames(rest)[s])
    && (forall f :: f in seen ==> f == FrameOf(output, f.sequence) && f.sequence in Frames(rest))
  }

  /** The parts of the state that do not depend on the events after the press. */
  predicate Steady(c: Capture, press: Event)
    requires press.Button?
  {
    && press.output.Some? && WindowEnd(press.timestamp).Some?
    && c.reasons == [] && c.startedAt == Some(press.timestamp) && c.windowEnd == WindowEnd(press.timestamp)
    && c.output == press.output && c.firstDevice == Some(press.device)
    && (c.phase == Recording ==> c.currentOutput == press.output)
  }

  /** The parts that button events change. */
  predicate ButtonsMirror(c: Capture, press: Event, rest: seq<Event>)
    requires press.Button? && WindowEnd(press.timestamp).Some?
  {
    && c.lastButton == Some(LastButton(press, rest)) && c.held == Held(rest)
    && c.buttons == ButtonsOf(press, rest)
    && c.inputEnded == InputEnded(WindowEnd(press.timestamp), rest)
    && (!Held(rest) ==> LastButton(press, rest) >= WindowEnd(press.timestamp).value)
  }

  /** The parts that presentations change. */
  ghost predicate PresentationsMirror(c: Capture, press: Event, rest: seq<Event>)
    requires press.Button? && press.output.Some?
  {
    var last := LastNew(rest);
    && SeenIs(c.seen, press.output.value, rest)
    && c.presentations == PresentationsOf(press, rest)
    && c.presentationEnded == PresentationEnded(WindowEnd(press.timestamp), rest)
    && (last.None? ==> c.lastPresentation.None? && c.lastFrame.None?)
    && (last.Some? ==>
          && last.value.Presentation? && last.value.sequence in Frames(rest)
          && Micros(last.value.seconds, last.value.subsecond).Some?
          && c.lastPresentation == Micros(last.value.seconds, last.value.subsecond)
          && c.lastFrame == Some(FrameOf(press.output.value, last.value.sequence)))
  }

  /** The state after a clean session. */
  ghost predicate Mirrors(c: Capture, press: Event, rest: seq<Event>)
    requires press.Button?
  {
    && Bounded(c) && Steady(c, press)
    && ButtonsMirror(c, press, rest) && PresentationsMirror(c, press, rest)
    && c.phase == if Done(press, rest) then Complete else Recording
  }

  // ---------------------------------------------------------------- when a check leaves a reason

  lemma BadLeavesReason(c: Capture, bad: bool, reason: Reason)
    requires c.reasons == []
    ensures InvalidateIf(c, bad, reason).reasons == [] <==> !bad
    ensures !bad ==> InvalidateIf(c, bad, reason) == c
  {
  }

  lemma LostLeavesReason(c: Capture, reason: Reason)
    ensures MarkLost(c, reason).reasons != []
  {
  }

  lemma ReasonsStay(a: Capture, b: Capture, n: nat)
    requires Keeps(a, b, n) && a.reasons != []
    ensures b.reasons != []
  {
    hide NoneTwice, BoundedBut;
  }

  lemma CheckOutputClean(c: Capture, output: Option<Output>)
    requires c.phase == Recording && c.reasons == [] && c.currentOutput == c.output
    ensures output == c.output ==> CheckOutput(c, output) == c
    ensures output != c.output ==> CheckOutput(c, output).reasons != []
  {
    hide RecordIdentity;
    IdentityOutput(c, output);
  }

  lemma IdentityOutput(c: Capture, output: Option<Output>)
    ensures RecordIdentity(c, output).output == c.output && c.reasons <= RecordIdentity(c, output).reasons
  {
    hide Invalidate;
    LostKeepsOutput(c, OutputOverflow);
  }

  lemma LostKeepsOutput(c: Capture, reason: Reason)
    ensures MarkLost(c, reason).output == c.output && c.reasons <= MarkLost(c, reason).reasons
  {
  }

  lemma ActiveOutputClean(c: Capture, output: Option<Output>)
    requires c.phase == Recording && c.reasons == [] && c.currentOutput == c.output
    ensures output == c.output ==> SetActiveOutput(c, output) == c
    ensures output != c.output ==> SetActiveOutput(c, output).reasons != []
  {
    hide RecordIdentity;
    IdentityOutput(c, output);
  }

  lemma HoldClean(c: Capture, state: ButtonState)
    requires c.reasons == []
    ensures c.held == (state == Released) ==> Hold(c, state) == c.(held := state == Pressed)
    ensures c.held != (state == Released) ==> Hold(c, state).reasons != []
  {
  }

  predicate ButtonFits(c: Capture, timestamp: nat, state: ButtonState, device: string) {
    && (c.lastButton.Some? ==> timestamp >= c.lastButton.value)
    && (c.firstDevice.Some? ==> device == c.firstDevice.value)
    && |c.buttons| < MAX_BUTTONS
    && !(state == Released && c.windowEnd.Some? && timestamp < c.windowEnd.value)
  }

  function ButtonKept(c: Capture, timestamp: nat, state: ButtonState, device: string, output: Option<Output>): Capture {
    var kept := c.(lastButton := Some(timestamp),
                   buttons := c.buttons + [ButtonRecord(c, timestamp, state, device, output)]);
    if Beyond(c.windowEnd, Some(timestamp)) then Finish(kept.(inputEnded := true)) else kept
  }

  lemma CheckTimeClean(c: Capture, timestamp: nat)
    requires c.reasons == []
    ensures (c.lastButton.Some? ==> timestamp >= c.lastButton.value) ==>
            CheckTime(c, timestamp) == c.(lastButton := Some(timestamp))
    ensures !(c.lastButton.Some? ==> timestamp >= c.lastButton.value) ==> CheckTime(c, timestamp).reasons != []
  {
  }

  lemma CheckDeviceClean(c: Capture, device: string)
    requires c.reasons == []
    ensures (c.firstDevice.Some? ==> device == c.firstDevice.value) ==> CheckDevice(c, device) == c
    ensures !(c.firstDevice.Some? ==> device == c.firstDevice.value) ==> CheckDevice(c, device).reasons != []
  {
  }

  lemma PushButtonClean(c: Capture, e: ButtonEvent)
    requires |c.buttons| <= MAX_BUTTONS
    ensures |c.buttons| < MAX_BUTTONS ==> PushButton(c, e) == c.(buttons := c.buttons + [e])
    ensures |c.buttons| == MAX_BUTTONS ==> PushButton(c, e).reasons != []
  {
    hide MarkLost;
    LostLeavesReason(c, ButtonOverflow);
  }

  lemma EndButtonClean(c: Capture, timestamp: nat, state: ButtonState)
    requires c.reasons == []
    ensures var early := state == Released && c.windowEnd.Some? && timestamp < c.windowEnd.value;
            && (early ==> EndButton(c, timestamp, state).reasons != [])
            && (!early ==> EndButton(c, timestamp, state)
                           == if Beyond(c.windowEnd, Some(timestamp)) then Finish(c.(inputEnded := true)) else c)
  {
  }

  lemma CheckButtonClean(c: Capture, timestamp: nat, device: string)
    requires Bounded(c) && c.phase == Recording && c.reasons == []
    ensures var good := (c.lastButton.Some? ==> timestamp >= c.lastButton.value)
                        && (c.firstDevice.Some? ==> device == c.firstDevice.value);
            var checked := CheckDevice(CheckTime(c, timestamp), device);
            && Bounded(checked) && checked.phase == Recording
            && (good ==> checked == c.(lastButton := Some(timestamp)))
            && (!good ==> checked.reasons != [])
  {
    hide CheckTime, CheckDevice, Keeps, BoundedBut;
    var timed := CheckTime(c, timestamp);
    CheckTimeKeeps(c, timestamp);
    KeepsBounded(c, timed, 0);
    CheckDeviceKeeps(timed, device);
    KeepsBounded(timed, CheckDevice(timed, device), 0);
    CheckTimeClean(c, timestamp);
    if timed.reasons != [] {
      ReasonsStay(timed, CheckDevice(timed, device), 0);
    } else {
      CheckDeviceClean(timed, device);
    }
  }

  lemma ButtonsWithinLimit(c: Capture)
    requires Bounded(c)
    ensures |c.buttons| <= MAX_BUTTONS
  {
  }

  lemma PushAndEndClean(c: Capture, e: ButtonEvent, timestamp: nat, state: ButtonState)
    requires Bounded(c) && c.phase == Recording
    ensures var early := state == Released && c.windowEnd.Some? && timestamp < c.windowEnd.value;
            var kept := c.(buttons := c.buttons + [e]);
            && (c.reasons == [] && !early && |c.buttons| < MAX_BUTTONS ==>
                  EndButton(PushButton(c, e), timestamp, state)
                  == if Beyond(c.windowEnd, Some(timestamp)) then Finish(kept.(inputEnded := true)) else kept)
            && (c.reasons != [] || early || |c.buttons| >= MAX_BUTTONS ==>
                EndButton(PushButton(c, e), timestamp, state).reasons != [])
  {
    hide PushButton, EndButton, Keeps, Finish, Beyond, BoundedBut;
    var pushed := PushButton(c, e);
    ButtonsWithinLimit(c);
    PushButtonKeeps(c, e);
    KeepsBounded(c, pushed, 0);
    EndButtonKeeps(pushed, timestamp, state);
    PushButtonClean(c, e);
    if c.reasons != [] {
      ReasonsStay(c, pushed, 0);
    }
    if pushed.reasons != [] {
      ReasonsStay(pushed, EndButton(pushed, timestamp, state), 0);
    } else {
      EndButtonClean(pushed, timestamp, state);
    }
  }

  /** A button event leaves no reason exactly if it fits, and is then recorded. */
  lemma KeepButtonClean(c: Capture, timestamp: nat, state: ButtonState, device: string, output: Option<Output>)
    requires Bounded(c) && c.phase == Recording && c.reasons == []
    ensures ButtonFits(c, timestamp, state, device) ==>
              KeepButton(c, timestamp, state, device, output) == ButtonKept(c, timestamp, state, device, output)
    ensures !ButtonFits(c, timestamp, state, device) ==> KeepButton(c, timestamp, state, device, output).reasons != []
  {
    hide *;
    var checked := CheckDevice(CheckTime(c, timestamp), device);
    CheckButtonClean(c, timestamp, device);
    var record := ButtonRecord(checked, timestamp, state, device, output);
    KeepButtonIs(c, timestamp, state, device, output);
    PushAndEndClean(checked, record, timestamp, state);
    Fits(c, timestamp, state, device);
    if checked == c.(lastButton := Some(timestamp)) {
      SameRecord(c, timestamp, state, device, output);
    }
  }

  lemma KeepButtonIs(c: Capture, timestamp: nat, state: ButtonState, device: string, output: Option<Output>)
    ensures var checked := CheckDevice(CheckTime(c, timestamp), device);
            KeepButton(c, timestamp, state, device, output)
            == EndButton(PushButton(checked, ButtonRecord(checked, timestamp, state, device, output)), timestamp, state)
  {
    hide CheckTime, CheckDevice, PushButton, EndButton, ButtonRecord;
  }

  lemma Fits(c: Capture, timestamp: nat, state: ButtonState, device: string)
    ensures ButtonFits(c, timestamp, state, device) <==>
              && (c.lastButton.Some? ==> timestamp >= c.lastButton.value)
              && (c.firstDevice.Some? ==> device == c.firstDevice.value)
              && |c.buttons| < MAX_BUTTONS
              && !(state == Released && c.windowEnd.Some? && timestamp < c.windowEnd.value)
  {
  }

  lemma SameRecord(c: Capture, timestamp: nat, state: ButtonState, device: string, output: Option<Output>)
    ensures var timed := c.(lastButton := Some(timestamp));
            var record := ButtonRecord(timed, timestamp, state, device, output);
            var kept := timed.(buttons := timed.buttons + [record]);
            ButtonKept(c, timestamp, state, device, output)
            == if Beyond(timed.windowEnd, Some(timestamp)) then Finish(kept.(inputEnded := true)) else kept
  {
    hide Finish, Within, Beyond;
  }

  lemma CheckPresentationClean(c: Capture, timestamp: Option<nat>, crtc: nat, output: Option<Output>)
    requires Bounded(c) && c.phase == Recording && c.reasons == [] && c.currentOutput == c.output && c.output.Some?
    ensures var good := output == c.output && timestamp.Some? && crtc == c.output.value.crtcId;
            && (good ==> CheckPresentation(c, timestamp, crtc, output) == c)
            && (!good ==> CheckPresentation(c, timestamp, crtc, output).reasons != [])
  {
    hide CheckOutput, InvalidateIf, Keeps, BoundedBut;
    var checked := CheckOutput(c, output);
    var timed := InvalidateIf(checked, timestamp.None?, TimestampUnrepresentable);
    CheckOutputClean(c, output);
    CheckOutputKeeps(c, output);
    KeepsBounded(c, checked, 0);
    InvalidateKeeps(checked, timestamp.None?, TimestampUnrepresentable, 0);
    KeepsBounded(checked, timed, 0);
    InvalidateKeeps(timed, output.None? || output.value.crtcId != crtc, CrtcMismatch, 0);
    if checked.reasons != [] {
      ReasonsStay(checked, timed, 0);
    } else {
      BadLeavesReason(checked, timestamp.None?, TimestampUnrepresentable);
    }
    if timed.reasons != [] {
      ReasonsStay(timed, CheckPresentation(c, timestamp, crtc, output), 0);
    } else {
      BadLeavesReason(timed, output.None? || output.value.crtcId != crtc, CrtcMismatch);
    }
  }

  lemma PushPresentationClean(c: Capture, e: PresentationEvent)
    requires |c.presentations| <= MAX_PRESENTATIONS
    ensures |c.presentations| < MAX_PRESENTATIONS ==>
            PushPresentation(c, e) == c.(presentations := c.presentations + [e])
    ensures |c.presentations| == MAX_PRESENTATIONS ==> PushPresentation(c, e).reasons != []
  {
    hide MarkLost;
    LostLeavesReason(c, PresentationOverflow);
  }

  /** What recording a presentation adds. */
  function PresentationKept(c: Capture, seconds: nat, subsecond: Subsecond, frame: Frame, duplicate: bool): Capture {
    EndPresentation(c.(presentations := c.presentations
                       + [PresentationRecord(c, seconds, subsecond, frame, duplicate)]),
                    Micros(seconds, subsecond))
  }

  lemma KeepPresentationClean(c: Capture, seconds: nat, subsecond: Subsecond, frame: Frame, duplicate: bool)
    requires BoundedBut(c, 1) && c.phase == Recording
    ensures c.reasons == [] && |c.presentations| < MAX_PRESENTATIONS ==>
              KeepPresentation(c, seconds, subsecond, frame, duplicate)
                == PresentationKept(c, seconds, subsecond, frame, duplicate)
    ensures c.reasons != [] || |c.presentations| == MAX_PRESENTATIONS ==>
              KeepPresentation(c, seconds, subsecond, frame, duplicate).reasons != []
  {
    hide PushPresentation, EndPresentation, Keeps, PresentationRecord, Micros;
    var record := PresentationRecord(c, seconds, subsecond, frame, duplicate);
    var pushed := PushPresentation(c, record);
    PushPresentationClean(c, record);
    PushPresentationKeeps(c, record);
    KeepsBounded(c, pushed, 0);
    EndPresentationKeeps(pushed, Micros(seconds, subsecond));
    if c.reasons != [] {
      ReasonsStay(c, pushed, 0);
    }
    if pushed.reasons != [] {
      ReasonsStay(pushed, EndPresentation(pushed, Micros(seconds, subsecond)), 0);
    }
  }

  lemma RepeatClean(c: Capture, frame: Frame, seconds: nat, subsecond: Subsecond)
    requires frame in c.seen && c.reasons == []
    ensures c.seen[frame] == (seconds, subsecond) ==>
              Repeat(c, frame, seconds, subsecond) == c.(duplicates := SaturatingInc(c.duplicates, U64_MAX))
    ensures c.seen[frame] != (seconds, subsecond) ==> Repeat(c, frame, seconds, subsecond).reasons != []
  {
  }

  predicate FrameFits(c: Capture, frame: Frame, timestamp: Option<nat>) {
    && !(c.lastPresentation.Some? && timestamp.Some? && timestamp.value < c.lastPresentation.value)
    && !(c.lastFrame.Some? && c.lastFrame.value.crtc == frame.crtc && c.lastFrame.value.generation == frame.generation
         && frame.sequence < c.lastFrame.value.sequence)
  }

  lemma NewFrameClean(c: Capture, frame: Frame, seconds: nat, subsecond: Subsecond, timestamp: Option<nat>)
    requires Bounded(c) && c.phase == Recording && c.reasons == [] && timestamp.Some?
    requires frame !in c.seen && |c.seen| < MAX_PRESENTATIONS
    ensures FrameFits(c, frame, timestamp) ==>
              NewFrame(c, frame, seconds, subsecond, timestamp)
              == c.(seen := c.seen[frame := (seconds, subsecond)], lastPresentation := timestamp,
                    lastFrame := Some(frame))
    ensures !FrameFits(c, frame, timestamp) ==> NewFrame(c, frame, seconds, subsecond, timestamp).reasons != []
  {
    hide Keeps, BoundedBut, CheckOrder, CheckSequence;
    var added := c.(seen := c.seen[frame := (seconds, subsecond)]);
    var ordered := CheckOrder(added, timestamp);
    SeenKeeps(c, frame, (seconds, subsecond));
    KeepsBounded(c, added, 1);
    CheckOrderKeeps(added, timestamp, 1);
    KeepsBounded(added, ordered, 1);
    CheckSequenceKeeps(ordered, frame, 1);
    CheckOrderClean(added, timestamp);
    if ordered.reasons != [] {
      ReasonsStay(ordered, CheckSequence(ordered, frame), 1);
    } else {
      CheckSequenceClean(ordered, frame);
    }
  }

  lemma CheckOrderClean(c: Capture, timestamp: Option<nat>)
    requires c.reasons == [] && timestamp.Some?
    ensures var back := c.lastPresentation.Some? && timestamp.value < c.lastPresentation.value;
            && (!back ==> CheckOrder(c, timestamp) == c.(lastPresentation := timestamp))
            && (back ==> CheckOrder(c, timestamp).reasons != [])
  {
  }

  lemma CheckSequenceClean(c: Capture, frame: Frame)
    requires c.reasons == []
    ensures var back := c.lastFrame.Some? && c.lastFrame.value.crtc == frame.crtc
                        && c.lastFrame.value.generation == frame.generation
                          && frame.sequence < c.lastFrame.value.sequence;
            && (!back ==> CheckSequence(c, frame) == c.(lastFrame := Some(frame)))
            && (back ==> CheckSequence(c, frame).reasons != [])
  {
  }

  // ---------------------------------------------------------------- one more event of a session

  lemma EndedStep(end: Option<nat>, rest: seq<Event>, e: Event)
    ensures InputEnded(end, rest + [e]) == (InputEnded(end, rest) || ButtonBeyond(end, e))
    ensures PresentationEnded(end, rest + [e]) == (PresentationEnded(end, rest) || PresentationBeyond(end, e))
  {
    hide ButtonBeyond, PresentationBeyond;
    var more := rest + [e];
    assert more[|rest|] == e && forall k :: 0 <= k < |rest| ==> more[k] == rest[k];
    if InputEnded(end, rest) {
      var k :| 0 <= k < |rest| && ButtonBeyond(end, rest[k]);
      assert ButtonBeyond(end, more[k]);
    }
    if PresentationEnded(end, rest) {
      var k :| 0 <= k < |rest| && PresentationBeyond(end, rest[k]);
      assert PresentationBeyond(end, more[k]);
    }
  }

  lemma RestStep(press: Event, rest: seq<Event>, e: Event)
    requires press.Button?
    ensures LastButton(press, rest + [e]) == if e.Button? then e.timestamp else LastButton(press, rest)
    ensures Held(rest + [e]) == if e.Button? then e.state == Pressed else Held(rest)
    ensures ButtonsOf(press, rest + [e])
            == ButtonsOf(press, rest) + if e.Button? then [ButtonRecordOf(press, e)] else []
    ensures PresentationsOf(press, rest + [e])
            == PresentationsOf(press, rest) + if e.Presentation? then [PresentationRecordOf(press, rest, e)] else []
    ensures Frames(rest + [e]) == if e.Presentation? && e.sequence !in Frames(rest)
                                  then Frames(rest)[e.sequence := (e.seconds, e.subsecond)] else Frames(rest)
    ensures LastNew(rest + [e]) == if e.Presentation? && e.sequence !in Frames(rest) then Some(e) else LastNew(rest)
  {
    var more := rest + [e];
    assert more[..|rest|] == rest && more[|rest|] == e;
    assert ButtonsOf(press, rest) + [] == ButtonsOf(press, rest);
  }

  lemma CleanStep(boot: Option<string>, active: Option<Output>, press: Event, rest: seq<Event>, e: Event)
    requires press.Button? && press.output.Some? && WindowEnd(press.timestamp).Some?
    ensures CleanSession(boot, active, press, rest + [e]) <==>
            CleanSession(boot, active, press, rest) && CleanEvent(press, rest, e)
  {
    hide CleanEvent, CleanPress;
    var more := rest + [e];
    assert more[..|rest|] == rest && more[|rest|] == e;
  }

  /** Events other than presentations do not concern the presentations. */
  lemma PresentationsSame(c: Capture, d: Capture, press: Event, rest: seq<Event>, e: Event)
    requires press.Button? && press.output.Some? && !e.Presentation? && PresentationsMirror(c, press, rest)
    requires d.seen == c.seen && d.presentations == c.presentations && d.presentationEnded == c.presentationEnded
    requires d.lastPresentation == c.lastPresentation && d.lastFrame == c.lastFrame
    ensures PresentationsMirror(d, press, rest + [e])
  {
    hide LastButton, Held, ButtonsOf, PresentationsOf, Frames, LastNew, PresentationEnded, Micros;
    RestStep(press, rest, e);
    EndedStep(WindowEnd(press.timestamp), rest, e);
    assert PresentationsOf(press, rest) + [] == PresentationsOf(press, rest);
  }

  lemma ButtonsSame(c: Capture, d: Capture, press: Event, rest: seq<Event>, e: Event)
    requires press.Button? && WindowEnd(press.timestamp).Some? && !e.Button? && ButtonsMirror(c, press, rest)
    requires d.lastButton == c.lastButton && d.held == c.held && d.buttons == c.buttons && d.inputEnded == c.inputEnded
    ensures ButtonsMirror(d, press, rest + [e])
  {
    hide LastButton, Held, ButtonsOf, PresentationsOf, Frames, LastNew, InputEnded;
    RestStep(press, rest, e);
    EndedStep(WindowEnd(press.timestamp), rest, e);
    assert ButtonsOf(press, rest) + [] == ButtonsOf(press, rest);
  }

  /** The state a clean button event leads to. */
  lemma ButtonRecorded(c: Capture, press: Event, rest: seq<Event>, e: Event)
    requires press.Button? && press.output.Some? && Mirrors(c, press, rest) && !Done(press, rest)
    requires WindowEnd(press.timestamp).Some? && e.Button? && CleanButton(press, rest, e)
    ensures var d := ButtonKept(c.(held := e.state == Pressed), e.timestamp, e.state, e.device, e.output);
            Bounded(d) ==> Mirrors(d, press, rest + [e])
  {
    hide LastButton, Held, ButtonsOf, PresentationsOf, Frames, LastNew, InputEnded, PresentationEnded, SeenIs,
      BoundedBut, Micros;
    var d := ButtonKept(c.(held := e.state == Pressed), e.timestamp, e.state, e.device, e.output);
    RestStep(press, rest, e);
    EndedStep(WindowEnd(press.timestamp), rest, e);
    PresentationsSame(c, d, press, rest, e);
  }

  lemma ButtonMirrors(c: Capture, boot: Option<string>, press: Event, rest: seq<Event>, e: Event)
    requires press.Button? && Mirrors(c, press, rest) && !Done(press, rest) && e.Button?
    ensures press.output.Some? && WindowEnd(press.timestamp).Some?
    ensures CleanButton(press, rest, e) ==> Mirrors(Step(c, boot, e), press, rest + [e])
    ensures !CleanButton(press, rest, e) ==> Step(c, boot, e).reasons != []
  {
    hide BoundedBut, CheckOutput, Hold, KeepButton, LastButton, Held, ButtonsOf, ButtonKept, SeenIs,
      PresentationsMirror, Keeps, Done, InputEnded;
    CheckOutputClean(c, e.output);
    CheckOutputKeeps(c, e.output);
    var checked := CheckOutput(c, e.output);
    KeepsBounded(c, checked, 0);
    HoldKeeps(checked, e.state);
    var held := Hold(checked, e.state);
    KeepsBounded(checked, held, 0);
    KeepButtonKeeps(held, e.timestamp, e.state, e.device, e.output);
    var d := KeepButton(held, e.timestamp, e.state, e.device, e.output);
    KeepsBounded(held, d, 0);
    if checked.reasons != [] {
      ReasonsStay(checked, held, 0);
    } else {
      HoldClean(checked, e.state);
    }
    if held.reasons != [] {
      ReasonsStay(held, d, 0);
    } else {
      KeepButtonClean(held, e.timestamp, e.state, e.device, e.output);
      if CleanButton(press, rest, e) {
        ButtonRecorded(c, press, rest, e);
      }
    }
  }

  /** The state a repeated frame leads to. */
  lemma RepeatRecorded(c: Capture, press: Event, rest: seq<Event>, e: Event, duplicates: nat)
    requires press.Button? && press.output.Some? && Mirrors(c, press, rest) && !Done(press, rest)
    requires e.Presentation? && CleanPresentation(press, rest, e) && e.sequence in Frames(rest)
    ensures var d := PresentationKept(c.(duplicates := duplicates), e.seconds, e.subsecond,
                                      FrameOf(press.output.value, e.sequence), true);
            Bounded(d) ==> Mirrors(d, press, rest + [e])
  {
    hide LastButton, Held, ButtonsOf, PresentationsOf, Frames, LastNew, InputEnded, PresentationEnded, BoundedBut,
      Micros, Within;
    var d := PresentationKept(c.(duplicates := duplicates), e.seconds, e.subsecond,
                              FrameOf(press.output.value, e.sequence), true);
    RestStep(press, rest, e);
    EndedStep(WindowEnd(press.timestamp), rest, e);
    ButtonsSame(c, d, press, rest, e);
  }

  /** The state a new frame leads to. */
  lemma NewRecorded(c: Capture, press: Event, rest: seq<Event>, e: Event)
    requires press.Button? && press.output.Some? && Mirrors(c, press, rest) && !Done(press, rest)
    requires e.Presentation? && CleanPresentation(press, rest, e) && e.sequence !in Frames(rest)
    ensures var frame := FrameOf(press.output.value, e.sequence);
            var t := Micros(e.seconds, e.subsecond);
            var added := c.(seen := c.seen[frame := (e.seconds, e.subsecond)], lastPresentation := t,
                            lastFrame := Some(frame));
            var d := PresentationKept(added, e.seconds, e.subsecond, frame, false);
            Bounded(d) ==> Mirrors(d, press, rest + [e])
  {
    hide LastButton, Held, ButtonsOf, PresentationsOf, Frames, LastNew, InputEnded, PresentationEnded, BoundedBut,
      Micros, Within, SeenIs;
    var frame := FrameOf(press.output.value, e.sequence);
    var added := c.(seen := c.seen[frame := (e.seconds, e.subsecond)],
                    lastPresentation := Micros(e.seconds, e.subsecond),
                    lastFrame := Some(frame));
    var d := PresentationKept(added, e.seconds, e.subsecond, frame, false);
    RestStep(press, rest, e);
    EndedStep(WindowEnd(press.timestamp), rest, e);
    ButtonsSame(c, d, press, rest, e);
    SeenGrows(c.seen, press.output.value, rest, e);
  }

  lemma SeenGrows(seen: map<Frame, (nat, nat)>, output: Output, rest: seq<Event>, e: Event)
    requires SeenIs(seen, output, rest) && e.Presentation? && e.sequence !in Frames(rest)
    ensures SeenIs(seen[FrameOf(output, e.sequence) := (e.seconds, e.subsecond)], output, rest + [e])
    ensures FrameOf(output, e.sequence) !in seen && e.sequence in Frames(rest + [e])
  {
    hide Frames;
    RestStep(Button(0, Pressed, "", None), rest, e);
    var more := Frames(rest + [e]);
    assert more == Frames(rest)[e.sequence := (e.seconds, e.subsecond)];
  }

  lemma SeenAgrees(seen: map<Frame, (nat, nat)>, output: Output, rest: seq<Event>, sequence: nat)
    requires SeenIs(seen, output, rest)
    ensures FrameOf(output, sequence) in seen <==> sequence in Frames(rest)
    ensures sequence in Frames(rest) ==> seen[FrameOf(output, sequence)] == Frames(rest)[sequence]
  {
    hide Frames;
  }

  /** A new frame fits the state exactly if it follows the last new frame of the session. */
  lemma FrameFitsExactly(c: Capture, press: Event, rest: seq<Event>, e: Event)
    requires press.Button? && press.output.Some? && PresentationsMirror(c, press, rest)
    requires e.Presentation? && e.sequence !in Frames(rest) && Micros(e.seconds, e.subsecond).Some?
    ensures FrameFits(c, FrameOf(press.output.value, e.sequence), Micros(e.seconds, e.subsecond))
            <==> (LastNew(rest).Some? ==> Follows(LastNew(rest).value, e))
  {
    hide Frames, LastNew, PresentationsOf, PresentationEnded, Micros, SeenIs;
    if LastNew(rest).Some? && LastNew(rest).value.Presentation? {
      var last := LastNew(rest).value;
      MicrosOrder(e.seconds, e.subsecond, last.seconds, last.subsecond);
    }
  }

  lemma RoomForFrame(c: Capture)
    requires Bounded(c) && c.reasons == [] && |c.presentations| < MAX_PRESENTATIONS
    ensures |c.seen| < MAX_PRESENTATIONS
  {
  }

  lemma AdmitMirrors(c: Capture, press: Event, rest: seq<Event>, e: Event)
    requires press.Button? && press.output.Some? && Mirrors(c, press, rest) && !Done(press, rest) && e.Presentation?
    requires e.output == press.output && e.crtc == press.output.value.crtcId && Micros(e.seconds, e.subsecond).Some?
    ensures var d := Admit(c, e.seconds, e.subsecond, FrameOf(press.output.value, e.sequence));
            && (CleanPresentation(press, rest, e) ==> Mirrors(d, press, rest + [e]))
            && (!CleanPresentation(press, rest, e) ==> d.reasons != [])
  {
    hide BoundedBut, Keeps, Repeat, NewFrame, KeepPresentation, PresentationKept, MarkLost, Micros, Frames, LastNew,
      PresentationsOf, PresentationEnded, SeenIs, ButtonsMirror, Follows, FrameFits, Done;
    var frame, t := FrameOf(press.output.value, e.sequence), Micros(e.seconds, e.subsecond);
    AdmitKeeps(c, e.seconds, e.subsecond, frame);
    KeepsBounded(c, Admit(c, e.seconds, e.subsecond, frame), 0);
    SeenAgrees(c.seen, press.output.value, rest, e.sequence);
    PresentationsWithinLimit(c);
    if frame in c.seen {
      var repeated := Repeat(c, frame, e.seconds, e.subsecond);
      RepeatKeeps(c, frame, e.seconds, e.subsecond);
      KeepsBounded(c, repeated, 1);
      RepeatClean(c, frame, e.seconds, e.subsecond);
      SamePresentations(c, frame, e.seconds, e.subsecond);
      KeepPresentationClean(repeated, e.seconds, e.subsecond, frame, true);
      if CleanPresentation(press, rest, e) {
        RepeatRecorded(c, press, rest, e, SaturatingInc(c.duplicates, U64_MAX));
      }
    } else {
      if |c.presentations| < MAX_PRESENTATIONS {
        RoomForFrame(c);
      }
      if |c.seen| == MAX_PRESENTATIONS {
        LostLeavesReason(c, PresentationOverflow);
      } else {
        var added := NewFrame(c, frame, e.seconds, e.subsecond, t);
        NewFrameKeeps(c, frame, e.seconds, e.subsecond, t);
        KeepsBounded(c, added, 1);
        NewFrameClean(c, frame, e.seconds, e.subsecond, t);
        KeepPresentationClean(added, e.seconds, e.subsecond, frame, false);
        FrameFitsExactly(c, press, rest, e);
        if CleanPresentation(press, rest, e) {
          NewRecorded(c, press, rest, e);
        }
      }
    }
  }

  lemma PresentationsWithinLimit(c: Capture)
    requires Bounded(c)
    ensures |c.presentations| <= MAX_PRESENTATIONS && |c.seen| <= MAX_PRESENTATIONS
  {
  }

  lemma SamePresentations(c: Capture, frame: Frame, seconds: nat, subsecond: Subsecond)
    requires frame in c.seen
    ensures Repeat(c, frame, seconds, subsecond).presentations == c.presentations
  {
  }

  lemma PresentationMirrors(c: Capture, boot: Option<string>, press: Event, rest: seq<Event>, e: Event)
    requires press.Button? && Mirrors(c, press, rest) && !Done(press, rest) && e.Presentation?
    ensures press.output.Some? && WindowEnd(press.timestamp).Some?
    ensures CleanPresentation(press, rest, e) ==> Mirrors(Step(c, boot, e), press, rest + [e])
    ensures !CleanPresentation(press, rest, e) ==> Step(c, boot, e).reasons != []
  {
    hide BoundedBut, Keeps, CheckPresentation, Admit, Micros, Frames, LastNew, PresentationsOf, ButtonsMirror,
      PresentationsMirror, Follows, Done;
    var t, frame := Micros(e.seconds, e.subsecond), Frame(e.crtc, Generation(e.output), e.sequence);
    var checked := CheckPresentation(c, t, e.crtc, e.output);
    CheckPresentationClean(c, t, e.crtc, e.output);
    CheckPresentationKeeps(c, t, e.crtc, e.output);
    KeepsBounded(c, checked, 0);
    AdmitKeeps(checked, e.seconds, e.subsecond, frame);
    if checked.reasons != [] {
      ReasonsStay(checked, Admit(checked, e.seconds, e.subsecond, frame), 0);
    } else {
      AdmitMirrors(c, press, rest, e);
    }
  }

  lemma ActiveOutputMirrors(c: Capture, boot: Option<string>, press: Event, rest: seq<Event>, e: Event)
    requires press.Button? && Mirrors(c, press, rest) && !Done(press, rest) && e.ActiveOutput?
    ensures e.output == press.output ==> Mirrors(Step(c, boot, e), press, rest + [e])
    ensures e.output != press.output ==> Step(c, boot, e).reasons != []
  {
    hide BoundedBut, SetActiveOutput, InputEnded, PresentationEnded, ButtonsMirror, PresentationsMirror;
    ActiveOutputClean(c, e.output);
    EndedStep(WindowEnd(press.timestamp), rest, e);
    ButtonsSame(c, c, press, rest, e);
    PresentationsSame(c, c, press, rest, e);
  }

  lemma RemovedMirrors(c: Capture, boot: Option<string>, press: Event, rest: seq<Event>, e: Event)
    requires press.Button? && Mirrors(c, press, rest) && !Done(press, rest) && e.Removed?
    ensures e.device != press.device ==> Mirrors(Step(c, boot, e), press, rest + [e])
    ensures e.device == press.device ==> Step(c, boot, e).reasons != []
  {
    hide BoundedBut, InvalidateIf, InputEnded, PresentationEnded, ButtonsMirror, PresentationsMirror;
    BadLeavesReason(c, c.phase == Recording && c.firstDevice == Some(e.device), DeviceRemoved);
    EndedStep(WindowEnd(press.timestamp), rest, e);
    ButtonsSame(c, c, press, rest, e);
    PresentationsSame(c, c, press, rest, e);
  }

  /** One more event of a clean session: clean, and mirrored, or the cause of a reason. */
  lemma EventMirrors(c: Capture, boot: Option<string>, press: Event, rest: seq<Event>, e: Event)
    requires press.Button? && Mirrors(c, press, rest) && !Done(press, rest)
    ensures press.output.Some? && WindowEnd(press.timestamp).Some?
    ensures CleanEvent(press, rest, e) ==> Mirrors(Step(c, boot, e), press, rest + [e])
    ensures !CleanEvent(press, rest, e) ==> Step(c, boot, e).reasons != []
  {
    hide Step, BoundedBut, ButtonsMirror, PresentationsMirror, Done, CleanButton, CleanPresentation;
    match e {
      case ActiveOutput(_) => ActiveOutputMirrors(c, boot, press, rest, e);
      case Removed(_) => RemovedMirrors(c, boot, press, rest, e);
      case Button(_, _, _, _) => ButtonMirrors(c, boot, press, rest, e);
      case Presentation(_, _, _, _, _) => PresentationMirrors(c, boot, press, rest, e);
    }
  }

  // ---------------------------------------------------------------- the first press

  function Waiting(active: Option<Output>): Capture {
    INITIAL.(currentOutput := active)
  }

  lemma IdentityClean(c: Capture, boot: Option<string>, device: string, output: Option<Output>)
    requires c.reasons == []
    ensures CheckIdentity(c, boot, device, output).reasons == [] <==> device != "" && boot.Some?
    ensures device != "" && boot.Some? ==> CheckIdentity(c, boot, device, output) == c.(aligned := Monotonic(output))
  {
    hide InvalidateIf;
    BadLeavesReason(c, device == "", DeviceUnavailable);
    var known := InvalidateIf(c, device == "", DeviceUnavailable).(aligned := boot.Some? && Monotonic(output));
    if known.reasons == [] {
      BadLeavesReason(known, boot.None?, BootUnavailable);
    } else {
      MoreReasons(known, boot.None?, BootUnavailable);
    }
  }

  lemma MoreReasons(c: Capture, bad: bool, reason: Reason)
    requires c.reasons != []
    ensures InvalidateIf(c, bad, reason).reasons != []
  {
  }

  lemma ClaimClean(c: Capture, output: Option<Output>)
    ensures c.reasons != [] ==> CheckClaim(c, output).reasons != []
    ensures c.reasons == [] ==>
              var good := Monotonic(output) && output.value.crtcId != 0;
              (good ==> CheckClaim(c, output) == c) && (!good ==> CheckClaim(c, output).reasons != [])
  {
  }

  lemma StartClean(c: Capture, output: Option<Output>)
    ensures c.reasons != [] ==> CheckStart(c, output).reasons != []
    ensures c.reasons == [] ==>
              var good := c.currentOutput == output && c.windowEnd.Some?;
              (good ==> CheckStart(c, output) == c) && (!good ==> CheckStart(c, output).reasons != [])
  {
    hide InvalidateIf;
    var stable := InvalidateIf(c, c.currentOutput != output, OutputUnstable);
    OnlyReasons(c, c.currentOutput != output, OutputUnstable);
    if c.reasons == [] {
      BadLeavesReason(c, c.currentOutput != output, OutputUnstable);
    } else {
      MoreReasons(c, c.currentOutput != output, OutputUnstable);
    }
    if stable.reasons == [] {
      BadLeavesReason(stable, stable.windowEnd.None?, WindowOverflow);
    } else {
      MoreReasons(stable, stable.windowEnd.None?, WindowOverflow);
    }
  }

  /** The state after a clean first press, before the press itself is recorded. */
  function Begun(active: Option<Output>, press: Event): Capture
    requires press.Button?
  {
    Start(Waiting(active), press.timestamp, press.device, press.output).(aligned := true)
  }

  lemma BeginClean(boot: Option<string>, active: Option<Output>, press: Event)
    requires press.Button?
    ensures var b := Begin(Waiting(active), boot, press.timestamp, press.device, press.output);
            && (CleanPress(boot, active, press) ==> b == Begun(active, press))
            && (!CleanPress(boot, active, press) ==> b.reasons != [])
  {
    hide CheckIdentity, CheckClaim, CheckStart, RecordIdentity;
    var c := Start(Waiting(active), press.timestamp, press.device, press.output);
    var known := CheckIdentity(c, boot, press.device, press.output);
    var claimed := CheckClaim(known, press.output);
    StartIs(active, press);
    IdentityClean(c, boot, press.device, press.output);
    ClaimClean(known, press.output);
    StartClean(claimed, press.output);
  }

  lemma StartIs(active: Option<Output>, press: Event)
    requires press.Button?
    ensures var c := Start(Waiting(active), press.timestamp, press.device, press.output);
            c == Waiting(active).(phase := Recording, startedAt := Some(press.timestamp),
                                  windowEnd := WindowEnd(press.timestamp),
                                 output := press.output, observed := [press.output],
                                   firstDevice := Some(press.device), held := true)
  {
  }

  lemma PressRecorded(boot: Option<string>, active: Option<Output>, press: Event)
    requires IsPress(press) && CleanPress(boot, active, press)
    ensures var d := ButtonKept(Begun(active, press), press.timestamp, press.state, press.device, press.output);
            Mirrors(d, press, [])
  {
    hide RecordIdentity, Start;
    StartIs(active, press);
  }

  lemma PressMirrors(boot: Option<string>, active: Option<Output>, press: Event)
    requires IsPress(press)
    ensures CleanPress(boot, active, press) ==> Mirrors(Step(Waiting(active), boot, press), press, [])
    ensures !CleanPress(boot, active, press) ==> Step(Waiting(active), boot, press).reasons != []
  {
    hide Begin, KeepButton, ButtonKept, Mirrors, CleanPress, BoundedBut, Keeps, Begun, Step, Waiting, ButtonFits;
    var c := Waiting(active);
    WaitingBounded(active);
    var b := Begin(c, boot, press.timestamp, press.device, press.output);
    var d := KeepButton(b, press.timestamp, press.state, press.device, press.output);
    BeginClean(boot, active, press);
    BeginKeeps(c, boot, press.timestamp, press.device, press.output);
    KeepsBounded(c, b, 0);
    KeepButtonKeeps(b, press.timestamp, press.state, press.device, press.output);
    StepIsKeep(boot, active, press);
    if CleanPress(boot, active, press) {
      BegunFits(active, press);
      KeepButtonClean(b, press.timestamp, press.state, press.device, press.output);
      PressRecorded(boot, active, press);
    } else {
      ReasonsStay(b, d, 0);
    }
  }

  lemma StepIsKeep(boot: Option<string>, active: Option<Output>, press: Event)
    requires IsPress(press)
    ensures Step(Waiting(active), boot, press)
            == KeepButton(Begin(Waiting(active), boot, press.timestamp, press.device, press.output),
                          press.timestamp, press.state, press.device, press.output)
  {
    hide Begin, KeepButton;
  }

  lemma WaitingBounded(active: Option<Output>)
    ensures Bounded(Waiting(active)) && Waiting(active).phase == WaitingForPrimaryButton
            && Waiting(active).reasons == []
  {
  }

  lemma BegunFits(active: Option<Output>, press: Event)
    requires IsPress(press)
    ensures ButtonFits(Begun(active, press), press.timestamp, press.state, press.device)
            && Begun(active, press).reasons == []
  {
    hide RecordIdentity, Start;
    StartIs(active, press);
  }

  // ---------------------------------------------------------------- whole runs

  /** What the state says about a story. */
  ghost predicate Tells(c: Capture, boot: Option<string>, s: Story)
    requires Wellformed(s)
  {
    match s
    case Before(active) => c == Waiting(active)
    case During(press, active, rest) =>
      if CleanSession(boot, active, press, rest) then Mirrors(c, press, rest) else Bounded(c) && c.reasons != []
  }

  lemma CleanFront(boot: Option<string>, active: Option<Output>, press: Event, rest: seq<Event>, e: Event)
    requires press.Button? && CleanSession(boot, active, press, rest + [e])
    ensures CleanSession(boot, active, press, rest)
  {
    assert (rest + [e])[..|rest|] == rest;
  }

  /** After completion nothing that matters changes any more. */
  lemma CompleteStays(c: Capture, boot: Option<string>, press: Event, rest: seq<Event>, e: Event)
    requires press.Button? && Mirrors(c, press, rest) && Done(press, rest)
    ensures Mirrors(Step(c, boot, e), press, rest)
  {
    hide KeepButton, Begin, Admit, CheckPresentation, RecordIdentity, ButtonsOf, PresentationsOf, SeenIs, InputEnded,
      PresentationEnded, LastNew, Frames;
  }

  lemma WaitingSteps(boot: Option<string>, active: Option<Output>, e: Event)
    requires !IsPress(e)
    ensures Step(Waiting(active), boot, e) == Waiting(if e.ActiveOutput? then e.output else active)
  {
    hide KeepButton, Begin, Admit, CheckPresentation, RecordIdentity;
  }

  lemma TellStep(c: Capture, boot: Option<string>, s: Story, e: Event)
    requires Wellformed(s) && Tells(c, boot, s)
    ensures Tells(Step(c, boot, e), boot, Tell(s, e))
  {
    hide Step, Mirrors, Done, CleanEvent, CleanSession, Waiting, BoundedBut, Keeps, CleanPress;
    match s {
      case Before(active) =>
        if IsPress(e) {
          WaitingBounded(active);
          StepKeeps(c, boot, e);
          KeepsBounded(c, Step(c, boot, e), 0);
          PressMirrors(boot, active, e);
          CleanNothing(boot, active, e);
        } else {
          WaitingSteps(boot, active, e);
        }
      case During(press, active, rest) =>
        if !CleanSession(boot, active, press, rest) {
          StepKeeps(c, boot, e);
          KeepsBounded(c, Step(c, boot, e), 0);
          ReasonsStay(c, Step(c, boot, e), 0);
          if CleanSession(boot, active, press, rest + [e]) {
            CleanFront(boot, active, press, rest, e);
          }
        } else if Done(press, rest) {
          CompleteStays(c, boot, press, rest, e);
        } else {
          MirrorsBounded(c, press, rest);
          StepKeeps(c, boot, e);
          KeepsBounded(c, Step(c, boot, e), 0);
          EventMirrors(c, boot, press, rest, e);
          CleanStep(boot, active, press, rest, e);
        }
    }
  }

  lemma CleanNothing(boot: Option<string>, active: Option<Output>, press: Event)
    requires press.Button?
    ensures CleanSession(boot, active, press, []) <==> CleanPress(boot, active, press)
  {
  }

  lemma MirrorsBounded(c: Capture, press: Event, rest: seq<Event>)
    requires press.Button? && Mirrors(c, press, rest)
    ensures Bounded(c) && c.reasons == [] && (c.phase == Complete <==> Done(press, rest))
    ensures c.buttons == ButtonsOf(press, rest) && c.presentations == PresentationsOf(press, rest)
    ensures c.lost == 0 && !c.overflowed
  {
  }

  lemma {:induction false} RunTells(boot: Option<string>, h: seq<Stimulus>)
    requires Uncontended(h)
    ensures Tells(Run(boot, h).capture, boot, StoryOf(h))
    decreases |h|
  {
    hide Step, Tells, Tell;
    if h == [] {
      InitialTells(boot);
    } else {
      RunTells(boot, h[..|h| - 1]);
      TellStep(Run(boot, h[..|h| - 1]).capture, boot, StoryOf(h[..|h| - 1]), h[|h| - 1].event);
    }
  }

  lemma InitialTells(boot: Option<string>)
    ensures Tells(INITIAL, boot, Before(None))
  {
  }

  /** A complete, clean session. */
  predicate Measured(boot: Option<string>, s: Story)
    requires Wellformed(s)
  {
    s.During? && Done(s.press, s.rest) && CleanSession(boot, s.active, s.press, s.rest)
  }

  /**
   A snapshot claims integrity exactly when no event ever met a held lock and the session from the
   first press to completion is clean; and then the recorded button events and presentations are
   exactly those delivered in the session, in order, none lost.
   */
  lemma IntegrityExactly(boot: Option<string>, h: seq<Stimulus>)
    ensures IntegrityValid(Run(boot, h)) <==> Uncontended(h) && Measured(boot, StoryOf(h))
    ensures IntegrityValid(Run(boot, h)) ==>
              var s := StoryOf(h);
              && Run(boot, h).capture.buttons == ButtonsOf(s.press, s.rest)
              && Run(boot, h).capture.presentations == PresentationsOf(s.press, s.rest)
  {
    hide Run, StoryOf, Mirrors, Done, CleanSession, Uncontended;
    ContentionCounts(boot, h);
    RunKeeps(boot, h);
    if Uncontended(h) {
      RunTells(boot, h);
      var c, s := Run(boot, h).capture, StoryOf(h);
      if s.During? && CleanSession(boot, s.active, s.press, s.rest) {
        MirrorsBounded(c, s.press, s.rest);
      }
    }
  }
}
