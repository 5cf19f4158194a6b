/**
 The state of a presentation measurement and what each event makes of it.

 A measurement starts with the first press of the primary button, covers sixty seconds, and is
 complete when both a button event and a presentation beyond its end have been seen. Everything that
 makes the evidence unusable leaves a reason behind.
 */
module MeasurementCapture {
  import opened Basics

  const WINDOW: nat := 60_000_000
  const BUCKETS: nat := 60
  const SECOND: nat := 1_000_000
  const PRIMARY_BUTTON: nat := 0x110
  const MAX_PRESENTATIONS: nat := 32768
  const MAX_BUTTONS: nat := 512
  const MAX_OUTPUTS: nat := 16

  /** `Duration::subsec_micros` */
  type Subsecond = x: int | 0 <= x < 1_000_000

  datatype Output = Output(
    devicePath: string,
    connectorName: string,
    connectorId: nat,
    crtcId: nat,
    generation: nat,
    monotonicCapability: Option<nat>)

  datatype Phase = WaitingForPrimaryButton | Recording | Complete

  datatype ButtonState = Pressed | Released

  datatype Reason =
    | OutputChanged | DeviceUnavailable | BootUnavailable | OutputUnavailable | MonotonicUnavailable | CrtcUnavailable
    | OutputUnstable | WindowOverflow | PressedWithoutRelease | ReleasedWithoutPress | InputNotMonotonic | DeviceChanged
    | ReleasedEarly | DeviceRemoved | TimestampUnrepresentable | CrtcMismatch | DuplicateConflict
    | PresentationNotMonotonic | SequenceRegression | PresentationOverflow | ButtonOverflow | OutputOverflow
    | LockContention

  datatype ButtonEvent = ButtonEvent(
    timestamp: nat, code: nat, state: ButtonState, device: string, generation: Option<nat>, inWindow: bool)

  datatype PresentationEvent = PresentationEvent(
    seconds: nat, subsecond: Subsecond, timestamp: Option<nat>, crtc: nat, sequence: nat, generation: Option<nat>,
    duplicate: bool, inWindow: bool)

  datatype Frame = Frame(crtc: nat, generation: Option<nat>, sequence: nat)

  datatype Capture = Capture(
    phase: Phase,
    reasons: seq<Reason>,
    startedAt: Option<nat>,
    windowEnd: Option<nat>,
    output: Option<Output>,
    currentOutput: Option<Output>,
    observed: seq<Option<Output>>,
    firstDevice: Option<string>,
    lastButton: Option<nat>,
    lastPresentation: Option<nat>,
    lastFrame: Option<Frame>,
    seen: map<Frame, (nat, nat)>,
    lost: nat,
    duplicates: nat,
    aligned: bool,
    held: bool,
    inputEnded: bool,
    presentationEnded: bool,
    overflowed: bool,
    buttons: seq<ButtonEvent>,
    presentations: seq<PresentationEvent>)

  const INITIAL := Capture(WaitingForPrimaryButton, [], None, None, None, None, [], None, None, None, None, map[],
                           0, 0, false, false, false, false, false, [], [])

  /** What the runtime delivers. A presentation's time is whole seconds and microseconds. */
  datatype Event =
    | ActiveOutput(output: Option<Output>)
    | Button(timestamp: nat, state: ButtonState, device: string, output: Option<Output>)
    | Removed(device: string)
    | Presentation(seconds: nat, subsecond: Subsecond, crtc: nat, sequence: nat, output: Option<Output>)

  function Generation(output: Option<Output>): Option<nat> {
    if output.Some? then Some(output.value.generation) else None
  }

  /** The time in microseconds, if 64 bits can hold it. */
  function Micros(seconds: nat, subsecond: Subsecond): Option<nat> {
    var t := seconds * 1_000_000 + subsecond;
    if t <= U64_MAX then Some(t) else None
  }

  /** The time loses nothing: it is missing exactly if 64 bits cannot hold it, and tells both parts. */
  lemma MicrosExact(seconds: nat, subsecond: Subsecond)
    ensures var t := Micros(seconds, subsecond);
            && (t.Some? <==> seconds * 1_000_000 + subsecond < 0x1_0000_0000_0000_0000)
            && (t.Some? ==> t.value / 1_000_000 == seconds && t.value % 1_000_000 == subsecond)
  {
  }

  /** Times compare as their parts do. */
  lemma MicrosOrder(s: nat, u: Subsecond, t: nat, v: Subsecond)
    ensures var a, b := Micros(s, u), Micros(t, v);
            a.Some? && b.Some? ==>
              && (a.value < b.value <==> s < t || (s == t && u < v))
              && (a.value == b.value <==> s == t && u == v)
  {
    if s < t {
      assert (t - s) * 1_000_000 >= 1_000_000;
    } else if t < s {
      assert (s - t) * 1_000_000 >= 1_000_000;
    }
  }

  function WindowEnd(start: nat): Option<nat> {
    if start + WINDOW <= U64_MAX then Some(start + WINDOW) else None
  }

  predicate Within(start: Option<nat>, end: Option<nat>, t: Option<nat>) {
    start.Some? && end.Some? && t.Some? && start.value <= t.value < end.value
  }

  predicate Beyond(end: Option<nat>, t: Option<nat>) {
    end.Some? && t.Some? && t.value >= end.value
  }

  // ---------------------------------------------------------------- small steps

  function Invalidate(c: Capture, reason: Reason): Capture {
    if reason in c.reasons then c else c.(reasons := c.reasons + [reason])
  }

  function InvalidateIf(c: Capture, bad: bool, reason: Reason): Capture {
    if bad then Invalidate(c, reason) else c
  }

  function MarkLost(c: Capture, reason: Reason): Capture {
    Invalidate(c.(overflowed := true, lost := SaturatingInc(c.lost, U64_MAX)), reason)
  }

  function RecordIdentity(c: Capture, output: Option<Output>): Capture {
    if |c.observed| == MAX_OUTPUTS then MarkLost(c, OutputOverflow) else c.(observed := c.observed + [output])
  }

  function CheckOutput(c: Capture, output: Option<Output>): Capture {
    if c.phase != Recording then c
    else
      var seen := if c.currentOutput != output then RecordIdentity(c, output).(currentOutput := output) else c;
      InvalidateIf(seen, seen.output != output, OutputChanged)
  }

  function PushButton(c: Capture, e: ButtonEvent): Capture {
    if |c.buttons| == MAX_BUTTONS then MarkLost(c, ButtonOverflow) else c.(buttons := c.buttons + [e])
  }

  function PushPresentation(c: Capture, e: PresentationEvent): Capture {
    if |c.presentations| == MAX_PRESENTATIONS then MarkLost(c, PresentationOverflow)
    else c.(presentations := c.presentations + [e])
  }

  function Finish(c: Capture): Capture {
    if c.phase == Recording && c.inputEnded && c.presentationEnded then c.(phase := Complete) else c
  }

  // ---------------------------------------------------------------- the events

  function SetActiveOutput(c: Capture, output: Option<Output>): Capture {
    var seen := if c.phase == Recording && c.currentOutput != output
                then var r := RecordIdentity(c, output); InvalidateIf(r, r.output != output, OutputChanged)
                else c;
    seen.(currentOutput := output)
  }

  predicate Monotonic(output: Option<Output>) {
    output.Some? && output.value.monotonicCapability == Some(1)
  }

  function Start(c: Capture, timestamp: nat, device: string, output: Option<Output>): Capture {
    RecordIdentity(c.(phase := Recording, startedAt := Some(timestamp), windowEnd := WindowEnd(timestamp),
                      output := output), output)
    .(firstDevice := Some(device), held := true)
  }

  function CheckIdentity(c: Capture, boot: Option<string>, device: string, output: Option<Output>): Capture {
    InvalidateIf(InvalidateIf(c, device == "", DeviceUnavailable).(aligned := boot.Some? && Monotonic(output)),
                 boot.None?, BootUnavailable)
  }

  function CheckClaim(c: Capture, output: Option<Output>): Capture {
    if output.None? then Invalidate(c, OutputUnavailable)
    else if !Monotonic(output) then Invalidate(c, MonotonicUnavailable)
    else InvalidateIf(c, output.value.crtcId == 0, CrtcUnavailable)
  }

  function CheckStart(c: Capture, output: Option<Output>): Capture {
    InvalidateIf(InvalidateIf(c, c.currentOutput != output, OutputUnstable), c.windowEnd.None?, WindowOverflow)
  }

  /** The first press starts the measurement. */
  function Begin(c: Capture, boot: Option<string>, timestamp: nat, device: string, output: Option<Output>): Capture {
    CheckStart(CheckClaim(CheckIdentity(Start(c, timestamp, device, output), boot, device, output), output), output)
  }

  function Hold(c: Capture, state: ButtonState): Capture {
    if c.held && state == Pressed then Invalidate(c, PressedWithoutRelease)
    else if !c.held && state == Released then Invalidate(c, ReleasedWithoutPress)
    else c.(held := state == Pressed)
  }

  function CheckTime(c: Capture, timestamp: nat): Capture {
    InvalidateIf(c, c.lastButton.Some? && timestamp < c.lastButton.value, InputNotMonotonic)
    .(lastButton := Some(timestamp))
  }

  function CheckDevice(c: Capture, device: string): Capture {
    InvalidateIf(c, c.firstDevice.Some? && c.firstDevice.value != device, DeviceChanged)
  }

  function ButtonRecord(c: Capture, timestamp: nat, state: ButtonState, device: string,
                        output: Option<Output>): ButtonEvent {
    var start := if c.startedAt.Some? then c.startedAt else Some(timestamp);
    ButtonEvent(timestamp, PRIMARY_BUTTON, state, device, Generation(output),
                Within(start, c.windowEnd, Some(timestamp)))
  }

  function EndButton(c: Capture, timestamp: nat, state: ButtonState): Capture {
    var end := c.windowEnd;
    var released := InvalidateIf(c, state == Released && end.Some? && timestamp < end.value, ReleasedEarly);
    if Beyond(end, Some(timestamp)) then Finish(released.(inputEnded := true)) else released
  }

  /** What every recorded button event does once it is clear whether it starts the measurement. */
  function KeepButton(c: Capture, timestamp: nat, state: ButtonState, device: string, output: Option<Output>): Capture {
    var checked := CheckDevice(CheckTime(c, timestamp), device);
    EndButton(PushButton(checked, ButtonRecord(checked, timestamp, state, device, output)), timestamp, state)
  }

  function RecordButton(c: Capture, boot: Option<string>, timestamp: nat, state: ButtonState, device: string,
                        output: Option<Output>): Capture
  {
    match c.phase
    case Complete => c
    case WaitingForPrimaryButton =>
      if state != Pressed then c
      else KeepButton(Begin(c, boot, timestamp, device, output), timestamp, state, device, output)
    case Recording => KeepButton(Hold(CheckOutput(c, output), state), timestamp, state, device, output)
  }

  function RecordRemoved(c: Capture, device: string): Capture {
    InvalidateIf(c, c.phase == Recording && c.firstDevice == Some(device), DeviceRemoved)
  }

  /** The checks every presentation undergoes. */
  function CheckPresentation(c: Capture, timestamp: Option<nat>, crtc: nat, output: Option<Output>): Capture {
    var timed := InvalidateIf(CheckOutput(c, output), timestamp.None?, TimestampUnrepresentable);
    InvalidateIf(timed, output.None? || output.value.crtcId != crtc, CrtcMismatch)
  }

  function Repeat(c: Capture, frame: Frame, seconds: nat, subsecond: Subsecond): Capture
    requires frame in c.seen
  {
    InvalidateIf(c.(duplicates := SaturatingInc(c.duplicates, U64_MAX)), c.seen[frame] != (seconds, subsecond),
                 DuplicateConflict)
  }

  function CheckOrder(c: Capture, timestamp: Option<nat>): Capture {
    var ordered := InvalidateIf(c, c.lastPresentation.Some? && timestamp.Some?
                                && timestamp.value < c.lastPresentation.value,
                                PresentationNotMonotonic);
    if timestamp.Some? then ordered.(lastPresentation := timestamp) else ordered
  }

  function CheckSequence(c: Capture, frame: Frame): Capture {
    var last := c.lastFrame;
    InvalidateIf(c, last.Some? && last.value.crtc == frame.crtc && last.value.generation == frame.generation
                    && frame.sequence < last.value.sequence, SequenceRegression)
    .(lastFrame := Some(frame))
  }

  function NewFrame(c: Capture, frame: Frame, seconds: nat, subsecond: Subsecond, timestamp: Option<nat>): Capture {
    CheckSequence(CheckOrder(c.(seen := c.seen[frame := (seconds, subsecond)]), timestamp), frame)
  }

  function PresentationRecord(c: Capture, seconds: nat, subsecond: Subsecond, frame: Frame,
                              duplicate: bool): PresentationEvent {
    var t := Micros(seconds, subsecond);
    PresentationEvent(seconds, subsecond, t, frame.crtc, frame.sequence, frame.generation, duplicate,
                      Within(c.startedAt, c.windowEnd, t))
  }

  function EndPresentation(c: Capture, timestamp: Option<nat>): Capture {
    if Beyond(c.windowEnd, timestamp) then Finish(c.(presentationEnded := true)) else c
  }

  function KeepPresentation(c: Capture, seconds: nat, subsecond: Subsecond, frame: Frame, duplicate: bool): Capture {
    EndPresentation(PushPresentation(c, PresentationRecord(c, seconds, subsecond, frame, duplicate)),
                    Micros(seconds, subsecond))
  }

  /** What becomes of a checked presentation. */
  function Admit(c: Capture, seconds: nat, subsecond: Subsecond, frame: Frame): Capture {
    if frame in c.seen then KeepPresentation(Repeat(c, frame, seconds, subsecond), seconds, subsecond, frame, true)
    else if |c.seen| == MAX_PRESENTATIONS then MarkLost(c, PresentationOverflow)
    else KeepPresentation(NewFrame(c, frame, seconds, subsecond, Micros(seconds, subsecond)), seconds, subsecond,
                          frame, false)
  }

  function RecordPresentation(c: Capture, seconds: nat, subsecond: Subsecond, crtc: nat, sequence: nat,
                              output: Option<Output>): Capture {
    if c.phase != Recording then c
    else
      Admit(CheckPresentation(c, Micros(seconds, subsecond), crtc, output), seconds, subsecond,
            Frame(crtc, Generation(output), sequence))
  }

  function Step(c: Capture, boot: Option<string>, e: Event): Capture {
    match e
    case ActiveOutput(output) => SetActiveOutput(c, output)
    case Button(timestamp, state, device, output) => RecordButton(c, boot, timestamp, state, device, output)
    case Removed(device) => RecordRemoved(c, device)
    case Presentation(seconds, subsecond, crtc, sequence, output) =>
      RecordPresentation(c, seconds, subsecond, crtc, sequence, output)
  }

  // ---------------------------------------------------------------- what every step keeps

  function Rank(p: Phase): nat {
    match p
    case WaitingForPrimaryButton => 0
    case Recording => 1
    case Complete => 2
  }

  /** The phase only advances, one at a time; reasons are only added. */
  predicate Advances(a: Capture, b: Capture) {
    && Rank(a.phase) <= Rank(b.phase) <= Rank(a.phase) + 1
    && a.reasons <= b.reasons
    && a.lost <= b.lost
    && (a.overflowed ==> b.overflowed)
    && a.buttons <= b.buttons && a.presentations <= b.presentations
    && (a.startedAt.Some? ==> b.startedAt == a.startedAt && b.windowEnd == a.windowEnd)
  }

  /** Buffers stay within their limits; overflow is a positive count of lost records and has a
      reason; while there is none, n presentations are missing of the frames seen and repeated. */
  predicate BoundedBut(c: Capture, n: nat) {
    && |c.buttons| <= MAX_BUTTONS && |c.presentations| <= MAX_PRESENTATIONS
    && |c.seen| <= MAX_PRESENTATIONS && |c.observed| <= MAX_OUTPUTS
    && c.lost <= U64_MAX && c.duplicates <= U64_MAX
    && (c.overflowed <==> c.lost > 0)
    && (c.overflowed ==> c.reasons != [])
    && (!c.overflowed ==> |c.presentations| + n == |c.seen| + c.duplicates)
    && (c.windowEnd.Some? ==> c.startedAt.Some? && c.windowEnd.value == c.startedAt.value + WINDOW)
    && (c.phase == WaitingForPrimaryButton ==>
          && c.startedAt.None? && !c.presentationEnded
          && c.observed == [] && c.buttons == [] && c.presentations == [] && c.seen == map[])
  }

  predicate Bounded(c: Capture) {
    BoundedBut(c, 0)
  }

  predicate NoneTwice(reasons: seq<Reason>) {
    forall i, j :: 0 <= i < j < |reasons| ==> reasons[i] != reasons[j]
  }

  predicate Keeps(a: Capture, b: Capture, n: nat) {
    BoundedBut(b, n) && Advances(a, b) && (NoneTwice(a.reasons) ==> NoneTwice(b.reasons))
  }

  lemma KeepsTransitive(a: Capture, b: Capture, c: Capture, n: nat, m: nat)
    requires Keeps(a, b, n) && Keeps(b, c, m) && (c.phase == b.phase || b.phase == a.phase)
    ensures Keeps(a, c, m)
  {
    hide NoneTwice, BoundedBut;
  }

  lemma KeepsBounded(a: Capture, b: Capture, n: nat)
    requires Keeps(a, b, n)
    ensures BoundedBut(b, n) && (n == 0 ==> Bounded(b))
  {
  }

  lemma InvalidateKeeps(c: Capture, bad: bool, reason: Reason, n: nat)
    requires BoundedBut(c, n)
    ensures var d := InvalidateIf(c, bad, reason);
            Keeps(c, d, n) && d == c.(reasons := d.reasons)
  {
  }

  lemma MarkLostKeeps(c: Capture, reason: Reason, n: nat, m: nat)
    requires BoundedBut(c, n) && c.phase != WaitingForPrimaryButton
    ensures Keeps(c, MarkLost(c, reason), m) && MarkLost(c, reason).phase == c.phase
  {
    hide NoneTwice;
    ReasonAdded(c, reason);
  }

  lemma ReasonAdded(c: Capture, reason: Reason)
    ensures NoneTwice(c.reasons) ==> NoneTwice(Invalidate(c, reason).reasons)
    ensures Invalidate(c, reason).reasons != [] && c.reasons <= Invalidate(c, reason).reasons
  {
  }

  lemma IdentityKeeps(c: Capture, output: Option<Output>)
    requires Bounded(c) && c.phase != WaitingForPrimaryButton
    ensures Keeps(c, RecordIdentity(c, output), 0) && RecordIdentity(c, output).phase == c.phase
  {
    hide MarkLost, NoneTwice;
    MarkLostKeeps(c, OutputOverflow, 0, 0);
  }

  lemma OutputSeenKeeps(c: Capture, output: Option<Output>)
    requires Bounded(c) && c.phase == Recording
    ensures var r := RecordIdentity(c, output);
            && Keeps(c, r.(currentOutput := output), 0) && r.phase == Recording
  {
    hide RecordIdentity, NoneTwice;
    IdentityKeeps(c, output);
  }

  lemma CheckOutputKeeps(c: Capture, output: Option<Output>)
    requires Bounded(c) && c.phase == Recording
    ensures Keeps(c, CheckOutput(c, output), 0) && CheckOutput(c, output).phase == Recording
  {
    hide InvalidateIf, RecordIdentity, Keeps, BoundedBut;
    OutputSeenKeeps(c, output);
    SameKeeps(c);
    var seen := if c.currentOutput != output then RecordIdentity(c, output).(currentOutput := output) else c;
    KeepsBounded(c, seen, 0);
    InvalidateKeeps(seen, seen.output != output, OutputChanged, 0);
    KeepsTransitive(c, seen, CheckOutput(c, output), 0, 0);
  }

  lemma SameKeeps(c: Capture)
    requires Bounded(c)
    ensures Keeps(c, c, 0)
  {
  }

  lemma SetActiveOutputKeeps(c: Capture, output: Option<Output>)
    requires Bounded(c)
    ensures Keeps(c, SetActiveOutput(c, output), 0)
  {
    hide InvalidateIf, RecordIdentity, NoneTwice;
    if c.phase == Recording && c.currentOutput != output {
      var r := RecordIdentity(c, output);
      IdentityKeeps(c, output);
      InvalidateKeeps(r, r.output != output, OutputChanged, 0);
      KeepsTransitive(c, r, InvalidateIf(r, r.output != output, OutputChanged), 0, 0);
    }
  }

  lemma PushButtonKeeps(c: Capture, e: ButtonEvent)
    requires Bounded(c) && c.phase != WaitingForPrimaryButton
    ensures Keeps(c, PushButton(c, e), 0) && PushButton(c, e).phase == c.phase
  {
    hide MarkLost, NoneTwice;
    MarkLostKeeps(c, ButtonOverflow, 0, 0);
  }

  lemma PushPresentationKeeps(c: Capture, e: PresentationEvent)
    requires BoundedBut(c, 1) && c.phase != WaitingForPrimaryButton
    ensures Keeps(c, PushPresentation(c, e), 0) && PushPresentation(c, e).phase == c.phase
  {
    hide MarkLost, NoneTwice;
    MarkLostKeeps(c, PresentationOverflow, 1, 0);
  }

  /** Fields that only remember the last event do not matter here. */
  lemma NotesKeep(a: Capture, b: Capture, n: nat, button: Option<nat>, presentation: Option<nat>,
                  frame: Option<Frame>, aligned: bool)
    requires Keeps(a, b, n)
    ensures Keeps(a, b.(lastButton := button, lastPresentation := presentation, lastFrame := frame,
                        aligned := aligned), n)
  {
    hide NoneTwice;
  }

  lemma CheckTimeKeeps(c: Capture, timestamp: nat)
    requires Bounded(c)
    ensures Keeps(c, CheckTime(c, timestamp), 0) && CheckTime(c, timestamp).phase == c.phase
  {
    hide InvalidateIf, Keeps, BoundedBut;
    var d := InvalidateIf(c, c.lastButton.Some? && timestamp < c.lastButton.value, InputNotMonotonic);
    InvalidateKeeps(c, c.lastButton.Some? && timestamp < c.lastButton.value, InputNotMonotonic, 0);
    NotesKeep(c, d, 0, Some(timestamp), d.lastPresentation, d.lastFrame, d.aligned);
  }

  lemma CheckDeviceKeeps(c: Capture, device: string)
    requires Bounded(c)
    ensures Keeps(c, CheckDevice(c, device), 0) && CheckDevice(c, device).phase == c.phase
  {
    hide InvalidateIf, Keeps, BoundedBut;
    InvalidateKeeps(c, c.firstDevice.Some? && c.firstDevice.value != device, DeviceChanged, 0);
  }

  lemma EndButtonKeeps(c: Capture, timestamp: nat, state: ButtonState)
    requires Bounded(c) && c.phase == Recording
    ensures Keeps(c, EndButton(c, timestamp, state), 0)
  {
    hide InvalidateIf, NoneTwice;
    InvalidateKeeps(c, state == Released && c.windowEnd.Some? && timestamp < c.windowEnd.value, ReleasedEarly, 0);
  }

  lemma KeepButtonKeeps(c: Capture, timestamp: nat, state: ButtonState, device: string, output: Option<Output>)
    requires Bounded(c) && c.phase == Recording
    ensures Keeps(c, KeepButton(c, timestamp, state, device, output), 0)
  {
    hide Keeps, BoundedBut, CheckTime, CheckDevice, ButtonRecord, PushButton, EndButton;
    var timed := CheckTime(c, timestamp);
    var checked := CheckDevice(timed, device);
    var pushed := PushButton(checked, ButtonRecord(checked, timestamp, state, device, output));
    CheckTimeKeeps(c, timestamp);
    KeepsBounded(c, timed, 0);
    CheckDeviceKeeps(timed, device);
    KeepsBounded(timed, checked, 0);
    KeepsTransitive(c, timed, checked, 0, 0);
    PushButtonKeeps(checked, ButtonRecord(checked, timestamp, state, device, output));
    KeepsBounded(checked, pushed, 0);
    KeepsTransitive(c, checked, pushed, 0, 0);
    EndButtonKeeps(pushed, timestamp, state);
    KeepsTransitive(c, pushed, EndButton(pushed, timestamp, state), 0, 0);
  }

  lemma StartKeeps(c: Capture, timestamp: nat, device: string, output: Option<Output>)
    requires Bounded(c) && c.phase == WaitingForPrimaryButton
    ensures Keeps(c, Start(c, timestamp, device, output), 0) && Start(c, timestamp, device, output).phase == Recording
  {
    hide NoneTwice;
  }

  lemma CheckIdentityKeeps(c: Capture, boot: Option<string>, device: string, output: Option<Output>)
    requires Bounded(c)
    ensures Keeps(c, CheckIdentity(c, boot, device, output), 0)
            && CheckIdentity(c, boot, device, output).phase == c.phase
  {
    hide InvalidateIf, Keeps, BoundedBut;
    var d := InvalidateIf(c, device == "", DeviceUnavailable);
    var known := d.(aligned := boot.Some? && Monotonic(output));
    InvalidateKeeps(c, device == "", DeviceUnavailable, 0);
    NotesKeep(c, d, 0, d.lastButton, d.lastPresentation, d.lastFrame, known.aligned);
    KeepsBounded(c, known, 0);
    InvalidateKeeps(known, boot.None?, BootUnavailable, 0);
    KeepsTransitive(c, known, CheckIdentity(c, boot, device, output), 0, 0);
  }

  lemma CheckClaimKeeps(c: Capture, output: Option<Output>)
    requires Bounded(c)
    ensures Keeps(c, CheckClaim(c, output), 0) && CheckClaim(c, output).phase == c.phase
  {
    hide Invalidate, Keeps;
    InvalidateKeeps(c, true, OutputUnavailable, 0);
    InvalidateKeeps(c, true, MonotonicUnavailable, 0);
    InvalidateKeeps(c, output.Some? && output.value.crtcId == 0, CrtcUnavailable, 0);
  }

  lemma CheckStartKeeps(c: Capture, output: Option<Output>)
    requires Bounded(c)
    ensures Keeps(c, CheckStart(c, output), 0) && CheckStart(c, output).phase == c.phase
  {
    hide InvalidateIf, Keeps, BoundedBut;
    var stable := InvalidateIf(c, c.currentOutput != output, OutputUnstable);
    InvalidateKeeps(c, c.currentOutput != output, OutputUnstable, 0);
    KeepsBounded(c, stable, 0);
    InvalidateKeeps(stable, stable.windowEnd.None?, WindowOverflow, 0);
    KeepsTransitive(c, stable, CheckStart(c, output), 0, 0);
  }

  lemma BeginKeeps(c: Capture, boot: Option<string>, timestamp: nat, device: string, output: Option<Output>)
    requires Bounded(c) && c.phase == WaitingForPrimaryButton
    ensures Keeps(c, Begin(c, boot, timestamp, device, output), 0)
            && Begin(c, boot, timestamp, device, output).phase == Recording
  {
    hide Keeps, BoundedBut, Start, CheckIdentity, CheckClaim, CheckStart;
    var begun := Start(c, timestamp, device, output);
    var known := CheckIdentity(begun, boot, device, output);
    var claimed := CheckClaim(known, output);
    StartKeeps(c, timestamp, device, output);
    KeepsBounded(c, begun, 0);
    CheckIdentityKeeps(begun, boot, device, output);
    KeepsBounded(begun, known, 0);
    KeepsTransitive(c, begun, known, 0, 0);
    CheckClaimKeeps(known, output);
    KeepsBounded(known, claimed, 0);
    KeepsTransitive(c, known, claimed, 0, 0);
    CheckStartKeeps(claimed, output);
    KeepsTransitive(c, claimed, CheckStart(claimed, output), 0, 0);
  }

  lemma HoldKeeps(c: Capture, state: ButtonState)
    requires Bounded(c)
    ensures Keeps(c, Hold(c, state), 0) && Hold(c, state).phase == c.phase
  {
    hide Invalidate, NoneTwice;
    InvalidateKeeps(c, true, PressedWithoutRelease, 0);
    InvalidateKeeps(c, true, ReleasedWithoutPress, 0);
  }

  lemma RecordButtonKeeps(c: Capture, boot: Option<string>, timestamp: nat, state: ButtonState, device: string,
                          output: Option<Output>)
    requires Bounded(c)
    ensures Keeps(c, RecordButton(c, boot, timestamp, state, device, output), 0)
  {
    hide Keeps, BoundedBut, Begin, KeepButton, Hold, CheckOutput;
    match c.phase {
      case Complete => SameKeeps(c);
      case WaitingForPrimaryButton =>
        SameKeeps(c);
        if state == Pressed {
          var b := Begin(c, boot, timestamp, device, output);
          BeginKeeps(c, boot, timestamp, device, output);
          KeepsBounded(c, b, 0);
          KeepButtonKeeps(b, timestamp, state, device, output);
          FirstButtonRecords(c, boot, timestamp, state, device, output);
          KeepsTransitive(c, b, KeepButton(b, timestamp, state, device, output), 0, 0);
        }
      case Recording =>
        var checked := CheckOutput(c, output);
        CheckOutputKeeps(c, output);
        KeepsBounded(c, checked, 0);
        HoldKeeps(checked, state);
        KeepsBounded(checked, Hold(checked, state), 0);
        KeepsTransitive(c, checked, Hold(checked, state), 0, 0);
        KeepButtonKeeps(Hold(checked, state), timestamp, state, device, output);
        KeepsTransitive(c, Hold(checked, state), KeepButton(Hold(checked, state), timestamp, state, device, output),
                        0, 0);
    }
  }

  /** Recording, and no presentation beyond the window yet. */
  predicate Pending(c: Capture) {
    c.phase == Recording && !c.presentationEnded
  }

  lemma OnlyReasons(c: Capture, bad: bool, reason: Reason)
    ensures InvalidateIf(c, bad, reason) == c.(reasons := InvalidateIf(c, bad, reason).reasons)
  {
  }

  lemma IdentityPending(c: Capture, boot: Option<string>, device: string, output: Option<Output>)
    requires Pending(c)
    ensures Pending(CheckIdentity(c, boot, device, output))
  {
    hide InvalidateIf;
    OnlyReasons(c, device == "", DeviceUnavailable);
    OnlyReasons(InvalidateIf(c, device == "", DeviceUnavailable).(aligned := boot.Some? && Monotonic(output)),
                boot.None?, BootUnavailable);
  }

  lemma StartPending(c: Capture, output: Option<Output>)
    requires Pending(c)
    ensures Pending(CheckStart(c, output))
  {
    hide InvalidateIf;
    var stable := InvalidateIf(c, c.currentOutput != output, OutputUnstable);
    OnlyReasons(c, c.currentOutput != output, OutputUnstable);
    OnlyReasons(stable, stable.windowEnd.None?, WindowOverflow);
  }

  lemma ButtonPending(c: Capture, timestamp: nat, device: string)
    requires Pending(c)
    ensures Pending(CheckTime(c, timestamp)) && Pending(CheckDevice(c, device))
  {
    hide InvalidateIf;
    OnlyReasons(c, c.lastButton.Some? && timestamp < c.lastButton.value, InputNotMonotonic);
    OnlyReasons(c, c.firstDevice.Some? && c.firstDevice.value != device, DeviceChanged);
  }

  lemma PushPending(c: Capture, e: ButtonEvent, timestamp: nat, state: ButtonState)
    requires Pending(c)
    ensures Pending(PushButton(c, e)) && Pending(EndButton(c, timestamp, state))
  {
  }

  lemma ClaimPending(c: Capture, timestamp: nat, device: string, output: Option<Output>)
    ensures Pending(c) ==> Pending(CheckClaim(c, output))
    ensures Bounded(c) && c.phase == WaitingForPrimaryButton ==> Pending(Start(c, timestamp, device, output))
  {
  }

  /** The first press cannot complete the measurement. */
  lemma FirstButtonRecords(c: Capture, boot: Option<string>, timestamp: nat, state: ButtonState, device: string,
                           output: Option<Output>)
    requires Bounded(c) && c.phase == WaitingForPrimaryButton
    ensures KeepButton(Begin(c, boot, timestamp, device, output), timestamp, state, device, output).phase == Recording
  {
    hide CheckTime, CheckDevice, PushButton, EndButton, CheckIdentity, CheckClaim, CheckStart, Start, ButtonRecord,
      BoundedBut;
    var b := Start(c, timestamp, device, output);
    var known := CheckIdentity(b, boot, device, output);
    ClaimPending(c, timestamp, device, output);
    IdentityPending(b, boot, device, output);
    ClaimPending(known, timestamp, device, output);
    StartPending(CheckClaim(known, output), output);
    var s := CheckStart(CheckClaim(known, output), output);
    ButtonPending(s, timestamp, device);
    ButtonPending(CheckTime(s, timestamp), timestamp, device);
    var checked := CheckDevice(CheckTime(s, timestamp), device);
    PushPending(checked, ButtonRecord(checked, timestamp, state, device, output), timestamp, state);
    PushPending(PushButton(checked, ButtonRecord(checked, timestamp, state, device, output)),
                ButtonRecord(checked, timestamp, state, device, output), timestamp, state);
  }

  lemma CheckPresentationKeeps(c: Capture, timestamp: Option<nat>, crtc: nat, output: Option<Output>)
    requires Bounded(c) && c.phase == Recording
    ensures Keeps(c, CheckPresentation(c, timestamp, crtc, output), 0)
    ensures CheckPresentation(c, timestamp, crtc, output).phase == Recording
  {
    hide Keeps, BoundedBut, CheckOutput, InvalidateIf;
    var checked, mismatch := CheckOutput(c, output), output.None? || output.value.crtcId != crtc;
    CheckOutputKeeps(c, output);
    TwoReasonsKeep(c, checked, timestamp.None?, TimestampUnrepresentable, mismatch, CrtcMismatch);
  }

  /** Two more checks that can only leave reasons. */
  lemma TwoReasonsKeep(a: Capture, c: Capture, bad: bool, reason: Reason, worse: bool, another: Reason)
    requires Keeps(a, c, 0)
    ensures Keeps(a, InvalidateIf(InvalidateIf(c, bad, reason), worse, another), 0)
    ensures InvalidateIf(InvalidateIf(c, bad, reason), worse, another).phase == c.phase
  {
    hide Keeps, BoundedBut, InvalidateIf;
    KeepsBounded(a, c, 0);
    ReasonKeeps(a, c, bad, reason);
    KeepsBounded(a, InvalidateIf(c, bad, reason), 0);
    ReasonKeeps(a, InvalidateIf(c, bad, reason), worse, another);
  }

  lemma ReasonKeeps(a: Capture, c: Capture, bad: bool, reason: Reason)
    requires Keeps(a, c, 0)
    ensures Keeps(a, InvalidateIf(c, bad, reason), 0) && InvalidateIf(c, bad, reason).phase == c.phase
  {
    hide Keeps, BoundedBut, InvalidateIf;
    KeepsBounded(a, c, 0);
    OnlyReasons(c, bad, reason);
    InvalidateKeeps(c, bad, reason, 0);
    KeepsTransitive(a, c, InvalidateIf(c, bad, reason), 0, 0);
  }

  lemma RepeatKeeps(c: Capture, frame: Frame, seconds: nat, subsecond: Subsecond)
    requires Bounded(c) && c.phase == Recording && frame in c.seen
    ensures Keeps(c, Repeat(c, frame, seconds, subsecond), 1) && Repeat(c, frame, seconds, subsecond).phase == Recording
  {
    hide InvalidateIf, NoneTwice;
    var counted := c.(duplicates := SaturatingInc(c.duplicates, U64_MAX));
    InvalidateKeeps(counted, c.seen[frame] != (seconds, subsecond), DuplicateConflict, 1);
    KeepsTransitive(c, counted, Repeat(c, frame, seconds, subsecond), 1, 1);
  }

  lemma CheckOrderKeeps(c: Capture, timestamp: Option<nat>, n: nat)
    requires BoundedBut(c, n)
    ensures Keeps(c, CheckOrder(c, timestamp), n) && CheckOrder(c, timestamp).phase == c.phase
  {
    hide InvalidateIf, Keeps, BoundedBut;
    var back := c.lastPresentation.Some? && timestamp.Some? && timestamp.value < c.lastPresentation.value;
    var d := InvalidateIf(c, back, PresentationNotMonotonic);
    InvalidateKeeps(c, back, PresentationNotMonotonic, n);
    NotesKeep(c, d, n, d.lastButton, timestamp, d.lastFrame, d.aligned);
  }

  lemma CheckSequenceKeeps(c: Capture, frame: Frame, n: nat)
    requires BoundedBut(c, n)
    ensures Keeps(c, CheckSequence(c, frame), n) && CheckSequence(c, frame).phase == c.phase
  {
    hide InvalidateIf, Keeps, BoundedBut;
    var last := c.lastFrame;
    var back := last.Some? && last.value.crtc == frame.crtc && last.value.generation == frame.generation
                && frame.sequence < last.value.sequence;
    var d := InvalidateIf(c, back, SequenceRegression);
    InvalidateKeeps(c, back, SequenceRegression, n);
    NotesKeep(c, d, n, d.lastButton, d.lastPresentation, Some(frame), d.aligned);
  }

  lemma SeenKeeps(c: Capture, frame: Frame, time: (nat, nat))
    requires Bounded(c) && c.phase == Recording && frame !in c.seen && |c.seen| < MAX_PRESENTATIONS
    ensures Keeps(c, c.(seen := c.seen[frame := time]), 1)
  {
    hide NoneTwice;
    assert c.seen[frame := time].Keys == c.seen.Keys + {frame};
  }

  lemma NewFrameKeeps(c: Capture, frame: Frame, seconds: nat, subsecond: Subsecond, timestamp: Option<nat>)
    requires Bounded(c) && c.phase == Recording && frame !in c.seen && |c.seen| < MAX_PRESENTATIONS
    ensures Keeps(c, NewFrame(c, frame, seconds, subsecond, timestamp), 1)
    ensures NewFrame(c, frame, seconds, subsecond, timestamp).phase == Recording
  {
    hide Keeps, BoundedBut, CheckOrder, CheckSequence;
    var added := c.(seen := c.seen[frame := (seconds, subsecond)]);
    var ordered := CheckOrder(added, timestamp);
    SeenKeeps(c, frame, (seconds, subsecond));
    KeepsBounded(c, added, 1);
    CheckOrderKeeps(added, timestamp, 1);
    KeepsBounded(added, ordered, 1);
    KeepsTransitive(c, added, ordered, 1, 1);
    CheckSequenceKeeps(ordered, frame, 1);
    KeepsTransitive(c, ordered, CheckSequence(ordered, frame), 1, 1);
  }

  lemma EndPresentationKeeps(c: Capture, timestamp: Option<nat>)
    requires Bounded(c) && c.phase == Recording
    ensures Keeps(c, EndPresentation(c, timestamp), 0)
  {
    hide NoneTwice;
  }

  lemma KeepPresentationKeeps(c: Capture, b: Capture, seconds: nat, subsecond: Subsecond, frame: Frame, duplicate: bool)
    requires Keeps(c, b, 1) && c.phase == b.phase == Recording
    ensures Keeps(c, KeepPresentation(b, seconds, subsecond, frame, duplicate), 0)
  {
    hide Keeps, BoundedBut, PushPresentation, EndPresentation, PresentationRecord;
    var pushed := PushPresentation(b, PresentationRecord(b, seconds, subsecond, frame, duplicate));
    KeepsBounded(c, b, 1);
    PushPresentationKeeps(b, PresentationRecord(b, seconds, subsecond, frame, duplicate));
    KeepsBounded(b, pushed, 0);
    KeepsTransitive(c, b, pushed, 1, 0);
    EndPresentationKeeps(pushed, Micros(seconds, subsecond));
    KeepsTransitive(c, pushed, EndPresentation(pushed, Micros(seconds, subsecond)), 0, 0);
  }

  lemma AdmitKeeps(c: Capture, seconds: nat, subsecond: Subsecond, frame: Frame)
    requires Bounded(c) && c.phase == Recording
    ensures Keeps(c, Admit(c, seconds, subsecond, frame), 0)
  {
    hide Keeps, BoundedBut, Repeat, NewFrame, KeepPresentation, MarkLost, Micros;
    SeenWithinLimit(c);
    if frame in c.seen {
      RepeatKeeps(c, frame, seconds, subsecond);
      KeepPresentationKeeps(c, Repeat(c, frame, seconds, subsecond), seconds, subsecond, frame, true);
    } else if |c.seen| == MAX_PRESENTATIONS {
      MarkLostKeeps(c, PresentationOverflow, 0, 0);
    } else {
      NewFrameKeeps(c, frame, seconds, subsecond, Micros(seconds, subsecond));
      KeepPresentationKeeps(c, NewFrame(c, frame, seconds, subsecond, Micros(seconds, subsecond)), seconds,
                            subsecond, frame, false);
    }
  }

  lemma RecordPresentationKeeps(c: Capture, seconds: nat, subsecond: Subsecond, crtc: nat, sequence: nat,
                                output: Option<Output>)
    requires Bounded(c)
    ensures Keeps(c, RecordPresentation(c, seconds, subsecond, crtc, sequence, output), 0)
  {
    hide Keeps, BoundedBut, CheckPresentation, Admit, Micros;
    SameKeeps(c);
    if c.phase == Recording {
      var t, frame := Micros(seconds, subsecond), Frame(crtc, Generation(output), sequence);
      var checked := CheckPresentation(c, t, crtc, output);
      CheckPresentationKeeps(c, t, crtc, output);
      KeepsBounded(c, checked, 0);
      AdmitKeeps(checked, seconds, subsecond, frame);
      KeepsTransitive(c, checked, Admit(checked, seconds, subsecond, frame), 0, 0);
    }
  }

  lemma SeenWithinLimit(c: Capture)
    requires Bounded(c)
    ensures |c.seen| <= MAX_PRESENTATIONS
  {
  }

  /** Every event keeps the bounds, advances the phase by at most one, and only adds reasons and records. */
  lemma StepKeeps(c: Capture, boot: Option<string>, e: Event)
    requires Bounded(c)
    ensures Keeps(c, Step(c, boot, e), 0)
  {
    hide Keeps, BoundedBut, SetActiveOutput, RecordButton, RecordPresentation, InvalidateIf;
    match e {
      case ActiveOutput(output) => SetActiveOutputKeeps(c, output);
      case Button(timestamp, state, device, output) => RecordButtonKeeps(c, boot, timestamp, state, device, output);
      case Removed(device) => 
        InvalidateKeeps(c, c.phase == Recording && c.firstDevice == Some(device), DeviceRemoved, 0);
      case Presentation(seconds, subsecond, crtc, sequence, output) =>
        RecordPresentationKeeps(c, seconds, subsecond, crtc, sequence, output);
    }
  }
}
