/** What a clean session means for the evidence, event by event. */
module MeasurementFacts {
  import opened Basics
  import opened MeasurementCapture
  import opened MeasurementStory
  import opened MeasurementIntegrity

  /** One device, one output; buttons only from the end of the window on; representable times. */
  predicate Ordinary(press: Event, e: Event)
    requires press.Button? && press.output.Some? && WindowEnd(press.timestamp).Some?
  {
    match e
    case ActiveOutput(output) => output == press.output
    case Removed(device) => device != press.device
    case Button(timestamp, _, device, output) =>
      output == press.output && device == press.device && timestamp >= press.timestamp + 60_000_000
    case Presentation(seconds, subsecond, crtc, _, output) =>
      && output == press.output && crtc == press.output.value.crtcId
      && seconds * 1_000_000 + subsecond < 0x1_0000_0000_0000_0000
  }

  predicate AllOrdinary(press: Event, rest: seq<Event>)
    requires press.Button? && press.output.Some? && WindowEnd(press.timestamp).Some?
  {
    forall k :: 0 <= k < |rest| ==> Ordinary(press, rest[k])
  }

  predicate ButtonsInOrder(press: Event, rest: seq<Event>)
    requires press.Button?
  {
    && (forall k :: 0 <= k < |rest| && rest[k].Button? ==> press.timestamp <= rest[k].timestamp)
    && (forall i, j :: 0 <= i < j < |rest| && rest[i].Button? && rest[j].Button? ==>
        rest[i].timestamp <= rest[j].timestamp)
  }

  /** The presentation at k shows a frame for the first time. */
  predicate New(rest: seq<Event>, k: nat)
    requires k < |rest|
  {
    rest[k].Presentation? && forall i :: 0 <= i < k && rest[i].Presentation? ==> rest[i].sequence != rest[k].sequence
  }

  /** New frames come in strictly increasing sequence and never go back in time. */
  predicate NewInOrder(rest: seq<Event>) {
    forall i, j :: 0 <= i < j < |rest| && New(rest, i) && New(rest, j) ==>
      rest[i].sequence < rest[j].sequence && !Earlier(rest[j], rest[i])
  }

  /** A frame presented again has the time at which it was new. */
  predicate RepeatsAgree(rest: seq<Event>) {
    forall i, j ::
      (0 <= i < j < |rest| && New(rest, i) && rest[j].Presentation? && rest[j].sequence == rest[i].sequence) ==>
      rest[j].seconds == rest[i].seconds && rest[j].subsecond == rest[i].subsecond
  }

  /** The frames of a session are those presented in it, with the time at which they were new. */
  lemma {:induction false} FramesAre(rest: seq<Event>)
    ensures forall k :: 0 <= k < |rest| && rest[k].Presentation? ==> rest[k].sequence in Frames(rest)
    ensures forall s :: s in Frames(rest) ==> exists k: nat :: ShownFirst(rest, s, k)
    decreases |rest|
  {
    if rest != [] {
      var front, e := rest[..|rest| - 1], rest[|rest| - 1];
      FramesAre(front);
      assert rest == front + [e];
      RestStep(Button(0, Pressed, "", None), front, e);
      forall s | s in Frames(rest)
        ensures exists k: nat :: ShownFirst(rest, s, k)
      {
        if s in Frames(front) {
          var k: nat :| ShownFirst(front, s, k);
          assert ShownFirst(rest, s, k);
        } else {
          assert ShownFirst(rest, s, |front|);
        }
      }
    }
  }

  predicate ShownFirst(rest: seq<Event>, s: nat, k: nat) {
    && k < |rest| && New(rest, k) && rest[k].sequence == s
    && s in Frames(rest) && Frames(rest)[s] == (rest[k].seconds, rest[k].subsecond)
  }

  lemma NewIsNotInFrames(rest: seq<Event>, e: Event)
    requires e.Presentation?
    ensures New(rest + [e], |rest|) <==> e.sequence !in Frames(rest)
  {
    var more := rest + [e];
    FramesAre(rest);
    assert forall k :: 0 <= k < |rest| ==> more[k] == rest[k];
    if e.sequence in Frames(rest) {
      var k: nat :| ShownFirst(rest, e.sequence, k);
      assert more[k].sequence == e.sequence;
    }
  }

  lemma NewStep(rest: seq<Event>, e: Event, k: nat)
    requires k < |rest|
    ensures New(rest + [e], k) <==> New(rest, k)
  {
    assert forall i :: 0 <= i <= k ==> (rest + [e])[i] == rest[i];
  }

  /** The last new frame is the latest. */
  predicate LastIsLatest(rest: seq<Event>) {
    forall k :: 0 <= k < |rest| && New(rest, k) ==>
      && LastNew(rest).Some? && LastNew(rest).value.Presentation?
      && Micros(LastNew(rest).value.seconds, LastNew(rest).value.subsecond).Some?
      && rest[k].sequence <= LastNew(rest).value.sequence && !Earlier(LastNew(rest).value, rest[k])
  }

  lemma {:induction false} SessionFacts(boot: Option<string>, active: Option<Output>, press: Event, rest: seq<Event>)
    requires press.Button? && CleanSession(boot, active, press, rest)
    ensures press.output.Some? && WindowEnd(press.timestamp).Some?
    ensures AllOrdinary(press, rest) && ButtonsInOrder(press, rest)
    ensures forall k :: 0 <= k < |rest| && rest[k].Button? ==> rest[k].timestamp <= LastButton(press, rest)
    ensures press.timestamp <= LastButton(press, rest)
    ensures NewInOrder(rest) && LastIsLatest(rest) && RepeatsAgree(rest)
    decreases |rest|
  {
    hide CleanPress, Micros;
    if rest == [] {
      CleanPressParts(boot, active, press);
    } else {
      var front, e := rest[..|rest| - 1], rest[|rest| - 1];
      assert rest == front + [e];
      SessionFacts(boot, active, press, front);
      ButtonFacts(press, front, e);
      PresentationFacts(press, front, e);
    }
  }

  lemma CleanPressParts(boot: Option<string>, active: Option<Output>, press: Event)
    requires press.Button? && CleanPress(boot, active, press)
    ensures press.output.Some? && WindowEnd(press.timestamp).Some?
  {
  }

  lemma ButtonFacts(press: Event, front: seq<Event>, e: Event)
    requires press.Button? && press.output.Some? && WindowEnd(press.timestamp).Some? && CleanEvent(press, front, e)
    requires AllOrdinary(press, front) && ButtonsInOrder(press, front)
    requires forall k :: 0 <= k < |front| && front[k].Button? ==> front[k].timestamp <= LastButton(press, front)
    requires press.timestamp <= LastButton(press, front)
    ensures var rest := front + [e];
            && AllOrdinary(press, rest) && ButtonsInOrder(press, rest)
            && (forall k :: 0 <= k < |rest| && rest[k].Button? ==> rest[k].timestamp <= LastButton(press, rest))
            && press.timestamp <= LastButton(press, rest)
  {
    hide LastButton, Held, Frames, LastNew, ButtonsOf, PresentationsOf, Micros, Follows;
    if e.Presentation? {
      MicrosExact(e.seconds, e.subsecond);
    }
    RestStep(press, front, e);
    var rest := front + [e];
    assert rest[|front|] == e && forall k :: 0 <= k < |front| ==> rest[k] == front[k];
  }

  lemma PresentationFacts(press: Event, front: seq<Event>, e: Event)
    requires press.Button? && press.output.Some? && WindowEnd(press.timestamp).Some? && CleanEvent(press, front, e)
    requires NewInOrder(front) && LastIsLatest(front) && RepeatsAgree(front)
    ensures NewInOrder(front + [e]) && LastIsLatest(front + [e]) && RepeatsAgree(front + [e])
  {
    hide LastButton, Held, Frames, LastNew, ButtonsOf, PresentationsOf, Micros, New, AllOrdinary;
    RestStep(press, front, e);
    var rest := front + [e];
    assert rest[|front|] == e && forall k :: 0 <= k < |front| ==> rest[k] == front[k];
    forall k | 0 <= k < |front|
      ensures New(rest, k) <==> New(front, k)
    {
      NewStep(front, e, k);
    }
    if e.Presentation? {
      NewIsNotInFrames(front, e);
      RepeatAgrees(press, front, e);
      if e.sequence !in Frames(front) {
        LaterThanAll(press, front, e);
      }
    } else {
      NotNew(rest, |front|);
    }
  }

  lemma NotNew(rest: seq<Event>, k: nat)
    requires k < |rest| && !rest[k].Presentation?
    ensures !New(rest, k)
  {
  }

  /** A clean new frame follows every new frame before it. */
  lemma LaterThanAll(press: Event, front: seq<Event>, e: Event)
    requires press.Button? && press.output.Some? && e.Presentation? && CleanPresentation(press, front, e)
    requires LastIsLatest(front) && e.sequence !in Frames(front)
    ensures forall k :: 0 <= k < |front| && New(front, k) ==>
              front[k].sequence < e.sequence && !Earlier(e, front[k])
  {
    hide Frames, LastNew, PresentationsOf, Micros;
    forall k | 0 <= k < |front| && New(front, k)
      ensures front[k].sequence < e.sequence && !Earlier(e, front[k])
    {
      assert Follows(LastNew(front).value, e);
    }
  }

  lemma RepeatAgrees(press: Event, front: seq<Event>, e: Event)
    requires press.Button? && press.output.Some? && e.Presentation? && CleanPresentation(press, front, e)
    ensures forall i :: 0 <= i < |front| && New(front, i) && front[i].sequence == e.sequence ==>
              e.seconds == front[i].seconds && e.subsecond == front[i].subsecond
  {
    hide LastNew, PresentationsOf, Micros;
    FramesAre(front);
    if e.sequence in Frames(front) {
      var k: nat :| ShownFirst(front, e.sequence, k);
      assert forall i :: 0 <= i < |front| && New(front, i) && front[i].sequence == e.sequence ==> i == k;
    }
  }

  /** The press is the only button record inside the window, and all records show one device and output. */
  predicate OnlyPressInWindow(press: Event, records: seq<ButtonEvent>)
    requires press.Button?
  {
    && |records| > 0 && records[0].inWindow && records[0].state == press.state
    && (forall k :: 0 < k < |records| ==> !records[k].inWindow)
    && (forall k :: 0 <= k < |records| ==>
          records[k].device == press.device && records[k].generation == Generation(press.output))
  }

  lemma {:induction false} ButtonRecords(press: Event, rest: seq<Event>)
    requires press.Button? && press.output.Some? && WindowEnd(press.timestamp).Some? && AllOrdinary(press, rest)
    ensures OnlyPressInWindow(press, ButtonsOf(press, rest))
    decreases |rest|
  {
    if rest != [] {
      var front, e := rest[..|rest| - 1], rest[|rest| - 1];
      assert rest == front + [e];
      ButtonRecords(press, front);
      RestStep(press, front, e);
      assert Ordinary(press, rest[|front|]);
    }
  }

  /**
   A snapshot that claims integrity proves a continuous measurement: one device and one output
   throughout, the press the only button event before the end of the window, button times never
   back, every frame new once with sequence numbers strictly increasing and times never back, and
   frames presented again with their old time.
   */
  lemma ValidIsContinuous(boot: Option<string>, h: seq<Stimulus>)
    requires IntegrityValid(Run(boot, h))
    ensures var s := StoryOf(h);
            && s.During? && s.press.output.Some? && WindowEnd(s.press.timestamp).Some?
            && AllOrdinary(s.press, s.rest) && ButtonsInOrder(s.press, s.rest)
            && NewInOrder(s.rest) && RepeatsAgree(s.rest)
            && OnlyPressInWindow(s.press, Run(boot, h).capture.buttons)
  {
    hide Run, StoryOf, IntegrityValid, CleanSession, OnlyPressInWindow, AllOrdinary;
    IntegrityExactly(boot, h);
    var s := StoryOf(h);
    SessionFacts(boot, s.active, s.press, s.rest);
    ButtonRecords(s.press, s.rest);
  }

  // ---------------------------------------------------------------- raw times may go back

  /** All presentations, repeated ones included, come in order of time. */
  predicate RawInOrder(rest: seq<Event>) {
    forall i, j :: 0 <= i < j < |rest| && rest[i].Presentation? && rest[j].Presentation? ==> !Earlier(rest[j], rest[i])
  }

  /** Every frame presented again has the time of the frame that was new last. */
  predicate RepeatsLatest(rest: seq<Event>) {
    forall k :: 0 <= k < |rest| && rest[k].Presentation? && !New(rest, k) ==> SameTime(rest[k], LastNew(rest[..k]))
  }

  predicate SameTime(e: Event, last: Option<Event>) {
    && e.Presentation? && last.Some? && last.value.Presentation?
    && e.seconds == last.value.seconds && e.subsecond == last.value.subsecond
  }

  /** Nothing presented so far is later than the last new frame. */
  predicate LastBounds(rest: seq<Event>) {
    forall k :: 0 <= k < |rest| && rest[k].Presentation? ==>
      LastNew(rest).Some? && LastNew(rest).value.Presentation? && !Earlier(LastNew(rest).value, rest[k])
  }

  /** Some presentation at or behind the last new frame has its time. */
  predicate LastIsShown(rest: seq<Event>) {
    LastNew(rest).Some? ==> exists k :: 0 <= k < |rest| && rest[k] == LastNew(rest).value
  }

  lemma {:induction false} LastShown(rest: seq<Event>)
    ensures LastIsShown(rest)
    decreases |rest|
  {
    if rest != [] {
      var front, e := rest[..|rest| - 1], rest[|rest| - 1];
      assert rest == front + [e];
      LastShown(front);
      RestStep(Button(0, Pressed, "", None), front, e);
      if LastNew(rest) == LastNew(front) && LastNew(front).Some? {
        var k :| 0 <= k < |front| && front[k] == LastNew(front).value;
        assert rest[k] == LastNew(rest).value;
      } else if LastNew(rest).Some? {
        assert rest[|front|] == LastNew(rest).value;
      }
    }
  }

  lemma {:induction false} RepeatIsNotLater(boot: Option<string>, active: Option<Output>, press: Event,
                                            rest: seq<Event>)
    requires press.Button? && CleanSession(boot, active, press, rest)
    ensures LastBounds(rest)
    decreases |rest|
  {
    hide CleanPress, Micros;
    if rest != [] {
      var front, e := rest[..|rest| - 1], rest[|rest| - 1];
      assert rest == front + [e];
      RepeatIsNotLater(boot, active, press, front);
      SessionFacts(boot, active, press, front);
      SessionFacts(boot, active, press, rest);
      BoundsStep(press, front, e);
    }
  }

  lemma BoundsStep(press: Event, front: seq<Event>, e: Event)
    requires press.Button? && press.output.Some? && WindowEnd(press.timestamp).Some? && CleanEvent(press, front, e)
    requires AllOrdinary(press, front) && LastBounds(front) && LastIsLatest(front)
    ensures LastBounds(front + [e])
  {
    hide LastButton, Held, Frames, LastNew, ButtonsOf, PresentationsOf, Micros;
    RestStep(press, front, e);
    var rest := front + [e];
    assert rest[|front|] == e && forall k :: 0 <= k < |front| ==> rest[k] == front[k];
    if e.Presentation? {
      if e.sequence in Frames(front) {
        FramesAre(front);
        var k: nat :| ShownFirst(front, e.sequence, k);
        assert Frames(front)[e.sequence] == (e.seconds, e.subsecond);
        assert front[k].Presentation?;
      } else {
        forall k | 0 <= k < |front| && front[k].Presentation?
          ensures !Earlier(e, front[k])
        {
          assert Ordinary(press, front[k]);
          assert Follows(LastNew(front).value, e);
          LastTimed(front, k);
        }
      }
    }
  }

  lemma LastTimed(rest: seq<Event>, k: nat)
    requires k < |rest| && rest[k].Presentation? && LastIsLatest(rest) && LastBounds(rest)
    ensures LastNew(rest).Some? && LastNew(rest).value.Presentation?
    ensures Micros(LastNew(rest).value.seconds, LastNew(rest).value.subsecond).Some?
  {
    hide LastNew, Micros, Frames;
    FramesAre(rest);
    var i: nat :| ShownFirst(rest, rest[k].sequence, i);
    assert New(rest, i);
  }

  /**
   In a clean session the raw times of all presentations never go back exactly if every frame
   presented again has the time of the frame that was new last.
   */
  lemma {:induction false} RawTimesExactly(boot: Option<string>, active: Option<Output>, press: Event, rest: seq<Event>)
    requires press.Button? && CleanSession(boot, active, press, rest)
    ensures RawInOrder(rest) <==> RepeatsLatest(rest)
    decreases |rest|
  {
    hide CleanPress, Micros, CleanEvent, New, LastNew;
    if rest != [] {
      var front, e := rest[..|rest| - 1], rest[|rest| - 1];
      assert rest == front + [e];
      RawTimesExactly(boot, active, press, front);
      RawStep(boot, active, press, front, e);
    }
  }

  /** A presentation that is not earlier than any before it. */
  predicate Latest(front: seq<Event>, e: Event)
    requires e.Presentation?
  {
    forall k :: 0 <= k < |front| && front[k].Presentation? ==> !Earlier(e, front[k])
  }

  lemma RawInOrderStep(front: seq<Event>, e: Event)
    ensures RawInOrder(front + [e]) <==> RawInOrder(front) && (e.Presentation? ==> Latest(front, e))
  {
    hide Earlier;
    var rest := front + [e];
    assert rest[|front|] == e && forall k :: 0 <= k < |front| ==> rest[k] == front[k];
    if e.Presentation? && RawInOrder(rest) {
      forall k | 0 <= k < |front| && front[k].Presentation?
        ensures !Earlier(e, front[k])
      {
        assert rest[k].Presentation? && rest[|front|].Presentation?;
      }
    }
  }

  lemma RepeatsLatestStep(front: seq<Event>, e: Event)
    ensures RepeatsLatest(front + [e])
            <==> RepeatsLatest(front) && (e.Presentation? && !New(front + [e], |front|) ==> SameTime(e, LastNew(front)))
  {
    hide New, LastNew, SameTime;
    var rest := front + [e];
    assert rest[|front|] == e && rest[..|front|] == front && forall k :: 0 <= k < |front| ==> rest[k] == front[k];
    forall k | 0 <= k < |front|
      ensures (New(rest, k) <==> New(front, k)) && rest[..k] == front[..k]
    {
      NewStep(front, e, k);
    }
  }

  lemma RawStep(boot: Option<string>, active: Option<Output>, press: Event, front: seq<Event>, e: Event)
    requires press.Button? && CleanSession(boot, active, press, front + [e])
    ensures RawInOrder(front + [e]) <==>
            RawInOrder(front) && (e.Presentation? && !New(front + [e], |front|) ==> SameTime(e, LastNew(front)))
    ensures RepeatsLatest(front + [e]) <==>
            RepeatsLatest(front) && (e.Presentation? && !New(front + [e], |front|) ==> SameTime(e, LastNew(front)))
  {
    hide New, LastNew, CleanSession, Frames, RawInOrder, RepeatsLatest, LastBounds, AllOrdinary, SameTime, Latest;
    RawInOrderStep(front, e);
    RepeatsLatestStep(front, e);
    CleanFront(boot, active, press, front, e);
    RepeatIsNotLater(boot, active, press, front);
    RepeatIsNotLater(boot, active, press, front + [e]);
    SessionFacts(boot, active, press, front + [e]);
    if e.Presentation? {
      NewIsNotInFrames(front, e);
      LastCompares(press, front, e);
    }
  }

  predicate Timed(e: Event) {
    e.Presentation? ==> Micros(e.seconds, e.subsecond).Some?
  }

  lemma AllTimed(press: Event, rest: seq<Event>)
    requires press.Button? && press.output.Some? && WindowEnd(press.timestamp).Some? && AllOrdinary(press, rest)
    ensures forall k :: 0 <= k < |rest| ==> Timed(rest[k])
  {
    hide Micros;
    forall k | 0 <= k < |rest|
      ensures Timed(rest[k])
    {
      assert Ordinary(press, rest[k]);
      if rest[k].Presentation? {
        MicrosExact(rest[k].seconds, rest[k].subsecond);
      }
    }
  }

  /** Among presentations that the last new frame bounds, one is latest exactly if it has its time. */
  lemma CompareToLast(front: seq<Event>, e: Event, last: Event)
    requires (forall k :: 0 <= k < |front| ==> Timed(front[k])) && last in front && last.Presentation?
            && e.Presentation? && Timed(e)
    requires (forall k :: 0 <= k < |front| && front[k].Presentation? ==> !Earlier(last, front[k])) && !Earlier(last, e)
    ensures (forall k :: 0 <= k < |front| && front[k].Presentation? ==> !Earlier(e, front[k])) <==>
            SameTime(e, Some(last))
  {
    hide Micros;
    var k :| 0 <= k < |front| && front[k] == last;
    assert Timed(front[k]);
  }

  lemma LastCompares(press: Event, front: seq<Event>, e: Event)
    requires press.Button? && press.output.Some? && WindowEnd(press.timestamp).Some? && e.Presentation?
    requires AllOrdinary(press, front + [e]) && LastBounds(front) && LastBounds(front + [e])
    ensures e.sequence !in Frames(front) ==> Latest(front, e)
    ensures e.sequence in Frames(front) ==> (Latest(front, e) <==> SameTime(e, LastNew(front)))
  {
    hide Micros, LastNew, Frames, Earlier, SameTime, AllOrdinary, Ordinary, Timed;
    var rest := front + [e];
    assert rest[|front|] == e && forall k :: 0 <= k < |front| ==> rest[k] == front[k];
    RestStep(press, front, e);
    AllTimed(press, rest);
    LastShown(front);
    if e.sequence in Frames(front) {
      FramesAre(front);
      var i: nat :| ShownFirst(front, e.sequence, i);
      assert front[i].Presentation?;
      CompareToLast(front, e, LastNew(front).value);
    }
  }

  // ---------------------------------------------------------------- an example

  const OUTPUT := Output("card", "HDMI-A-1", 10, 20, 1, Some(1))

  function Shown(seconds: nat, sequence: nat): Event {
    Presentation(seconds, 0, 20, sequence, Some(OUTPUT))
  }

  const FIRST := Button(0, Pressed, "mouse", Some(OUTPUT))
  const LIFTED := Button(60_000_000, Released, "mouse", Some(OUTPUT))

  /** Frames 1 and 2, frame 1 again with its old time, and both streams beyond the window. */
  const EXAMPLE := [Shown(1, 1), Shown(2, 2), Shown(1, 1), LIFTED, Shown(60, 3)]

  /** A run whose snapshot claims integrity though the recorded presentation times go back. */
  lemma RawTimesMayGoBack(boot: string)
    ensures var h := Delivered([ActiveOutput(Some(OUTPUT)), FIRST] + EXAMPLE);
            && IntegrityValid(Run(Some(boot), h))
            && StoryOf(h) == During(FIRST, Some(OUTPUT), EXAMPLE)
            && !RawInOrder(EXAMPLE)
  {
    hide Run, StoryOf, Done, CleanSession, RawInOrder, IntegrityValid, EXAMPLE;
    var h := Delivered([ActiveOutput(Some(OUTPUT)), FIRST] + EXAMPLE);
    ExampleIsClean(boot);
    forall k | 0 <= k < |EXAMPLE|
      ensures !Done(FIRST, EXAMPLE[..k])
    {
      NotDoneBefore(k);
    }
    StoryOfDelivery(Some(OUTPUT), FIRST, EXAMPLE);
    IntegrityExactly(Some(boot), h);
  }

  lemma NotDoneBefore(n: nat)
    requires n < |EXAMPLE|
    ensures !Done(FIRST, EXAMPLE[..n])
  {
    hide InputEnded;
    forall k | 0 <= k < n
      ensures !PresentationBeyond(WindowEnd(0), EXAMPLE[..n][k])
    {
    }
  }

  lemma ExampleIsClean(boot: string)
    ensures CleanSession(Some(boot), Some(OUTPUT), FIRST, EXAMPLE) && Done(FIRST, EXAMPLE) && !RawInOrder(EXAMPLE)
  {
    hide CleanEvent, InputEnded, PresentationEnded;
    var boots, active := Some(boot), Some(OUTPUT);
    var r1, r2, r3, r4 := [Shown(1, 1)], [Shown(1, 1), Shown(2, 2)], [Shown(1, 1), Shown(2, 2), Shown(1, 1)],
      [Shown(1, 1), Shown(2, 2), Shown(1, 1), LIFTED];
    var r5 := EXAMPLE;
    assert [] + [Shown(1, 1)] == r1 && r1 + [Shown(2, 2)] == r2 && r2 + [Shown(1, 1)] == r3 && r3 + [LIFTED] == r4;
    assert r4 + [Shown(60, 3)] == r5;
    ExampleEvents();
    CleanStep(boots, active, FIRST, [], Shown(1, 1));
    CleanStep(boots, active, FIRST, r1, Shown(2, 2));
    CleanStep(boots, active, FIRST, r2, Shown(1, 1));
    CleanStep(boots, active, FIRST, r3, LIFTED);
    CleanStep(boots, active, FIRST, r4, Shown(60, 3));
    ExampleEnds(r5);
    assert r5[1].Presentation? && r5[2].Presentation? && Earlier(r5[2], r5[1]);
  }

  lemma ExampleEnds(rest: seq<Event>)
    requires |rest| == 5 && rest[3] == LIFTED && rest[4] == Shown(60, 3)
    ensures Done(FIRST, rest)
  {
    assert ButtonBeyond(WindowEnd(0), rest[3]);
    assert PresentationBeyond(WindowEnd(0), rest[4]);
  }

  lemma ExampleEvents()
    ensures var r1, r2, r3, r4 := [Shown(1, 1)], [Shown(1, 1), Shown(2, 2)], [Shown(1, 1), Shown(2, 2), Shown(1, 1)],
              [Shown(1, 1), Shown(2, 2), Shown(1, 1), LIFTED];
            && CleanEvent(FIRST, [], Shown(1, 1)) && CleanEvent(FIRST, r1, Shown(2, 2))
            && CleanEvent(FIRST, r2, Shown(1, 1)) && CleanEvent(FIRST, r3, LIFTED)
            && CleanEvent(FIRST, r4, Shown(60, 3))
  {
    hide ButtonsOf, PresentationsOf, Frames, LastNew, LastButton, Held;
    var r1, r2, r3, r4 := [Shown(1, 1)], [Shown(1, 1), Shown(2, 2)], [Shown(1, 1), Shown(2, 2), Shown(1, 1)],
      [Shown(1, 1), Shown(2, 2), Shown(1, 1), LIFTED];
    assert [] + [Shown(1, 1)] == r1 && r1 + [Shown(2, 2)] == r2 && r2 + [Shown(1, 1)] == r3 && r3 + [LIFTED] == r4;
    ExampleStart();
    RestStep(FIRST, [], Shown(1, 1));
    RestStep(FIRST, r1, Shown(2, 2));
    RestStep(FIRST, r2, Shown(1, 1));
    RestStep(FIRST, r3, LIFTED);
  }

  lemma ExampleStart()
    ensures Frames([]) == map[] && LastNew([]) == None && Held([]) && LastButton(FIRST, []) == 0
    ensures |ButtonsOf(FIRST, [])| == 1 && PresentationsOf(FIRST, []) == []
  {
  }
}
