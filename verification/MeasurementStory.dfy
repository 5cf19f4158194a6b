/**
 What a valid measurement proves.

 A run is told as a story: nothing, then the first press of the primary button, then the events up
 to completion. `CleanSession` says of those events, without reference to the collector's state,
 that they form one continuous measurement. `MeasurementIntegrity.IntegrityExactly` proves that a
 snapshot claims integrity exactly when no event was lost to contention and the session is complete
 and clean; then the recorded evidence is exactly the session.
 */
module MeasurementStory {
  import opened Basics
  import opened MeasurementCapture

  // ---------------------------------------------------------------- runs

  /** An event, and whether a snapshot held the lock when it was delivered. */
  datatype Stimulus = Stimulus(event: Event, contended: bool)

  datatype Collector = Collector(capture: Capture, contendedLosses: nat)

  function Run(boot: Option<string>, h: seq<Stimulus>): Collector {
    if h == [] then Collector(INITIAL, 0)
    else
      var before, last := Run(boot, h[..|h| - 1]), h[|h| - 1];
      if last.contended then before.(contendedLosses := SaturatingInc(before.contendedLosses, U64_MAX))
      else before.(capture := Step(before.capture, boot, last.event))
  }

  function SaturatingAdd(a: nat, b: nat): nat {
    Min(a + b, U64_MAX)
  }

  /** `capture_integrity_valid` of a snapshot. */
  predicate IntegrityValid(r: Collector) {
    && r.capture.phase == Complete && r.capture.reasons == []
    && SaturatingAdd(r.capture.lost, r.contendedLosses) == 0 && !r.capture.overflowed
  }

  lemma {:induction false} RunKeeps(boot: Option<string>, h: seq<Stimulus>)
    ensures Bounded(Run(boot, h).capture) && NoneTwice(Run(boot, h).capture.reasons)
    ensures Run(boot, h).contendedLosses <= U64_MAX
    decreases |h|
  {
    hide Step;
    if h != [] {
      RunKeeps(boot, h[..|h| - 1]);
      StepKeeps(Run(boot, h[..|h| - 1]).capture, boot, h[|h| - 1].event);
    }
  }

  /** Over every run the phase only advances, and reasons, losses and records are only added. */
  lemma {:induction false} RunAdvances(boot: Option<string>, h: seq<Stimulus>, more: seq<Stimulus>)
    ensures var a, b := Run(boot, h).capture, Run(boot, h + more).capture;
            && Rank(a.phase) <= Rank(b.phase) && a.reasons <= b.reasons && a.lost <= b.lost
            && a.buttons <= b.buttons && a.presentations <= b.presentations
            && (a.overflowed ==> b.overflowed)
    decreases |more|
  {
    hide Step;
    if more == [] {
      assert h + more == h;
    } else {
      var front := more[..|more| - 1];
      assert (h + more)[..|h + more| - 1] == h + front;
      RunAdvances(boot, h, front);
      RunKeeps(boot, h + front);
      StepKeeps(Run(boot, h + front).capture, boot, more[|more| - 1].event);
    }
  }

  predicate Uncontended(h: seq<Stimulus>) {
    forall k :: 0 <= k < |h| ==> !h[k].contended
  }

  /** The contention counter is zero exactly when no event met a held lock. */
  lemma {:induction false} ContentionCounts(boot: Option<string>, h: seq<Stimulus>)
    ensures Run(boot, h).contendedLosses == 0 <==> Uncontended(h)
    decreases |h|
  {
    hide Step;
    if h != [] {
      var front := h[..|h| - 1];
      ContentionCounts(boot, front);
      assert h == front + [h[|h| - 1]];
    }
  }

  // ---------------------------------------------------------------- the story of a run

  datatype Story =
    | Before(active: Option<Output>)
    | During(press: Event, active: Option<Output>, rest: seq<Event>)

  predicate IsPress(e: Event) {
    e.Button? && e.state == Pressed
  }

  predicate ButtonBeyond(end: Option<nat>, e: Event) {
    e.Button? && Beyond(end, Some(e.timestamp))
  }

  predicate PresentationBeyond(end: Option<nat>, e: Event) {
    e.Presentation? && Beyond(end, Micros(e.seconds, e.subsecond))
  }

  predicate InputEnded(end: Option<nat>, rest: seq<Event>) {
    exists k :: 0 <= k < |rest| && ButtonBeyond(end, rest[k])
  }

  predicate PresentationEnded(end: Option<nat>, rest: seq<Event>) {
    exists k :: 0 <= k < |rest| && PresentationBeyond(end, rest[k])
  }

  /** Both a button event and a presentation beyond the window have been delivered. */
  predicate Done(press: Event, rest: seq<Event>)
    requires press.Button?
  {
    InputEnded(WindowEnd(press.timestamp), rest) && PresentationEnded(WindowEnd(press.timestamp), rest)
  }

  predicate Wellformed(s: Story) {
    s.During? ==> IsPress(s.press)
  }

  function Tell(s: Story, e: Event): (t: Story)
    requires Wellformed(s)
    ensures Wellformed(t)
  {
    match s
    case Before(active) =>
      if IsPress(e) then During(e, active, [])
      else if e.ActiveOutput? then Before(e.output)
      else s
    case During(press, active, rest) =>
      if Done(press, rest) then s else During(press, active, rest + [e])
  }

  function StoryOf(h: seq<Stimulus>): (s: Story)
    ensures Wellformed(s)
  {
    if h == [] then Before(None) else Tell(StoryOf(h[..|h| - 1]), h[|h| - 1].event)
  }

  function Events(h: seq<Stimulus>): (e: seq<Event>)
    ensures |e| == |h| && forall k :: 0 <= k < |h| ==> e[k] == h[k].event
  {
    seq(|h|, k requires 0 <= k < |h| => h[k].event)
  }

  /** The output last made active before the event at i, or none if none was. */
  predicate ActiveBefore(h: seq<Stimulus>, i: nat, active: Option<Output>)
    requires i <= |h|
  {
    || (active == None && forall m :: 0 <= m < i ==> !h[m].event.ActiveOutput?)
    || exists k :: 0 <= k < i && ActivatedAt(h, i, k, active)
  }

  predicate ActivatedAt(h: seq<Stimulus>, i: nat, k: nat, active: Option<Output>)
    requires k < i <= |h|
  {
    h[k].event == ActiveOutput(active) && forall m :: k < m < i ==> !h[m].event.ActiveOutput?
  }

  lemma ActiveStep(h: seq<Stimulus>, active: Option<Output>)
    requires h != [] && ActiveBefore(h[..|h| - 1], |h| - 1, active)
    ensures var e := h[|h| - 1].event; ActiveBefore(h, |h|, if e.ActiveOutput? then e.output else active)
  {
    var n := |h| - 1;
    assert forall m :: 0 <= m < n ==> h[..n][m] == h[m];
    if h[n].event.ActiveOutput? {
      assert ActivatedAt(h, |h|, n, h[n].event.output);
    } else if k :| 0 <= k < n && ActivatedAt(h[..n], n, k, active) {
      assert ActivatedAt(h, |h|, k, active);
    }
  }

  lemma ActiveLonger(h: seq<Stimulus>, n: nat, i: nat, active: Option<Output>)
    requires i <= n <= |h|
    ensures ActiveBefore(h[..n], i, active) <==> ActiveBefore(h, i, active)
  {
    assert forall m :: 0 <= m < i ==> h[..n][m] == h[m];
    assert forall k :: 0 <= k < i ==> (ActivatedAt(h[..n], i, k, active) <==> ActivatedAt(h, i, k, active));
  }

  /** Before the press the story only keeps the output; the press opens the session. */
  lemma {:induction false} PressOpens(h: seq<Stimulus>, active: Option<Output>)
    requires h != [] && StoryOf(h[..|h| - 1]) == Before(active) && ActiveBefore(h[..|h| - 1], |h| - 1, active)
    requires forall k :: 0 <= k < |h| - 1 ==> !IsPress(h[k].event)
    ensures IsPress(h[|h| - 1].event) ==> StoryOf(h).During? && FromFirstPress(h, StoryOf(h), |h| - 1, |h|)
    ensures !IsPress(h[|h| - 1].event) ==>
              StoryOf(h).Before? && ActiveBefore(h, |h|, StoryOf(h).active)
              && forall k :: 0 <= k < |h| ==> !IsPress(h[k].event)
  {
    hide ActiveBefore;
    ActiveStep(h, active);
    ActiveLonger(h, |h| - 1, |h| - 1, active);
  }

  /** A session that is not complete goes on with the next event. */
  lemma {:induction false} SessionGoesOn(h: seq<Stimulus>, s: Story, i: nat, j: nat)
    requires h != [] && s.During? && Wellformed(s) && StoryOf(h[..|h| - 1]) == s
            && FromFirstPress(h[..|h| - 1], s, i, j)
    ensures StoryOf(h).During? && FromFirstPress(h, StoryOf(h), i, if Done(s.press, s.rest) then j else |h|)
  {
    hide ActiveBefore, Done;
    var n := |h| - 1;
    ActiveLonger(h, n, i, s.active);
    assert forall k :: 0 <= k < n ==> h[..n][k] == h[k];
    EventsOfFront(h, n, i + 1, j);
    SliceGrows(Events(h), i + 1, n);
  }

  lemma EventsOfFront(h: seq<Stimulus>, n: nat, a: nat, b: nat)
    requires a <= b <= n <= |h|
    ensures Events(h[..n])[a..b] == Events(h)[a..b]
  {
  }

  lemma SliceGrows(e: seq<Event>, a: nat, n: nat)
    requires a <= n < |e|
    ensures e[a..n + 1] == e[a..n] + [e[n]]
  {
  }

  /**
   The session is the stretch of the run from the first press on, up to completion, and the active
   output is the one last set before that press.
   */
  lemma {:induction false} StoryIsFromFirstPress(h: seq<Stimulus>)
    ensures var s := StoryOf(h);
            && (s.Before? ==> ActiveBefore(h, |h|, s.active) && forall k :: 0 <= k < |h| ==> !IsPress(h[k].event))
            && (s.During? ==> exists i, j :: FromFirstPress(h, s, i, j))
    decreases |h|
  {
    hide ActiveBefore, FromFirstPress, IsPress, Tell, Done;
    if h == [] {
      NothingActive();
    } else {
      var front := h[..|h| - 1];
      StoryIsFromFirstPress(front);
      var s := StoryOf(front);
      if s.Before? {
        assert forall k :: 0 <= k < |front| ==> front[k] == h[k];
        PressOpens(h, s.active);
      } else {
        var i, j :| FromFirstPress(front, s, i, j);
        SessionGoesOn(h, s, i, j);
      }
    }
  }

  /** The first press is at i, and the session ends at j: at the end of the run or at completion. */
  predicate FromFirstPress(h: seq<Stimulus>, s: Story, i: nat, j: nat)
    requires s.During? && Wellformed(s)
  {
    && i < j <= |h| && s.press == h[i].event && s.rest == Events(h)[i + 1..j]
    && (forall k :: 0 <= k < i ==> !IsPress(h[k].event)) && ActiveBefore(h, i, s.active)
    && (j == |h| || Done(s.press, s.rest))
  }

  lemma NothingActive()
    ensures ActiveBefore([], 0, None)
  {
  }

  /** Events delivered without contention. */
  function Delivered(events: seq<Event>): (h: seq<Stimulus>)
    ensures |h| == |events| && forall k :: 0 <= k < |h| ==> h[k] == Stimulus(events[k], false)
  {
    seq(|events|, k requires 0 <= k < |events| => Stimulus(events[k], false))
  }

  /** The story of a run that sets the output, presses the button and is not complete before its end. */
  lemma {:induction false} StoryOfDelivery(active: Option<Output>, press: Event, rest: seq<Event>)
    requires IsPress(press) && forall k :: 0 <= k < |rest| ==> !Done(press, rest[..k])
    ensures StoryOf(Delivered([ActiveOutput(active), press] + rest)) == During(press, active, rest)
    decreases |rest|
  {
    hide Done;
    if rest == [] {
      StoryOpens(active, press);
      assert [ActiveOutput(active), press] + [] == [ActiveOutput(active), press];
    } else {
      var front, last := rest[..|rest| - 1], rest[|rest| - 1];
      var events := [ActiveOutput(active), press] + front;
      assert forall k :: 0 <= k < |front| ==> front[..k] == rest[..k];
      StoryOfDelivery(active, press, front);
      assert rest == front + [last];
      assert [ActiveOutput(active), press] + rest == events + [last];
      StoryOfMore(events, last);
    }
  }

  lemma StoryOfMore(events: seq<Event>, e: Event)
    ensures StoryOf(Delivered(events + [e])) == Tell(StoryOf(Delivered(events)), e)
  {
    hide Tell;
    var h := Delivered(events + [e]);
    assert h[..|events|] == Delivered(events);
  }

  lemma StoryOpens(active: Option<Output>, press: Event)
    requires IsPress(press)
    ensures StoryOf(Delivered([ActiveOutput(active), press])) == During(press, active, [])
  {
    StoryOfMore([], ActiveOutput(active));
    StoryOfMore([ActiveOutput(active)], press);
    assert [] + [ActiveOutput(active)] == [ActiveOutput(active)];
    assert [ActiveOutput(active)] + [press] == [ActiveOutput(active), press];
  }

  // ---------------------------------------------------------------- clean sessions

  /** The latest button time of a session. */
  function LastButton(press: Event, rest: seq<Event>): nat
    requires press.Button?
  {
    if rest == [] then press.timestamp
    else if rest[|rest| - 1].Button? then rest[|rest| - 1].timestamp
    else LastButton(press, rest[..|rest| - 1])
  }

  predicate Held(rest: seq<Event>) {
    if rest == [] then true
    else if rest[|rest| - 1].Button? then rest[|rest| - 1].state == Pressed
    else Held(rest[..|rest| - 1])
  }

  /** The time at which each frame was first presented, by sequence number. */
  function Frames(rest: seq<Event>): map<nat, (nat, nat)> {
    if rest == [] then map[]
    else
      var before, e := Frames(rest[..|rest| - 1]), rest[|rest| - 1];
      if e.Presentation? && e.sequence !in before then before[e.sequence := (e.seconds, e.subsecond)] else before
  }

  /** The last frame that was new when it was presented. */
  function LastNew(rest: seq<Event>): Option<Event> {
    if rest == [] then None
    else
      var front, e := rest[..|rest| - 1], rest[|rest| - 1];
      if e.Presentation? && e.sequence !in Frames(front) then Some(e) else LastNew(front)
  }

  function ButtonRecordOf(press: Event, e: Event): ButtonEvent
    requires press.Button? && e.Button?
  {
    ButtonEvent(e.timestamp, PRIMARY_BUTTON, e.state, e.device, Generation(e.output),
                Within(Some(press.timestamp), WindowEnd(press.timestamp), Some(e.timestamp)))
  }

  /** The record of every button event of a session, in order. */
  function ButtonsOf(press: Event, rest: seq<Event>): seq<ButtonEvent>
    requires press.Button?
  {
    if rest == [] then [ButtonRecordOf(press, press)]
    else
      var before, e := ButtonsOf(press, rest[..|rest| - 1]), rest[|rest| - 1];
      if e.Button? then before + [ButtonRecordOf(press, e)] else before
  }

  function PresentationRecordOf(press: Event, front: seq<Event>, e: Event): PresentationEvent
    requires press.Button? && e.Presentation?
  {
    var t := Micros(e.seconds, e.subsecond);
    PresentationEvent(e.seconds, e.subsecond, t, e.crtc, e.sequence, Generation(e.output), e.sequence in Frames(front),
                      Within(Some(press.timestamp), WindowEnd(press.timestamp), t))
  }

  /** The record of every presentation of a session, in order; frames presented again are marked. */
  function PresentationsOf(press: Event, rest: seq<Event>): seq<PresentationEvent>
    requires press.Button?
  {
    if rest == [] then []
    else
      var front, e := rest[..|rest| - 1], rest[|rest| - 1];
      PresentationsOf(press, front) + if e.Presentation? then [PresentationRecordOf(press, front, e)] else []
  }

  predicate CleanPress(boot: Option<string>, active: Option<Output>, press: Event)
    requires press.Button?
  {
    && boot.Some? && press.device != "" && Monotonic(press.output) && press.output.value.crtcId != 0
    && active == press.output && WindowEnd(press.timestamp).Some?
  }

  /** A button event of the same device and output, at or after the window's end, in turn and in time. */
  predicate CleanButton(press: Event, front: seq<Event>, e: Event)
    requires press.Button? && WindowEnd(press.timestamp).Some? && e.Button?
  {
    && e.output == press.output && e.device == press.device
    && e.timestamp >= WindowEnd(press.timestamp).value && e.timestamp >= LastButton(press, front)
    && e.state == (if Held(front) then Released else Pressed)
    && |ButtonsOf(press, front)| < MAX_BUTTONS
  }

  /** A presentation on the same output: a frame presented before, with the same time, or a later one. */
  predicate CleanPresentation(press: Event, front: seq<Event>, e: Event)
    requires press.Button? && press.output.Some? && e.Presentation?
  {
    && e.output == press.output && e.crtc == press.output.value.crtcId && Micros(e.seconds, e.subsecond).Some?
    && |PresentationsOf(press, front)| < MAX_PRESENTATIONS
    && (if e.sequence in Frames(front) then Frames(front)[e.sequence] == (e.seconds, e.subsecond)
        else LastNew(front).Some? ==> Follows(LastNew(front).value, e))
  }

  predicate Follows(a: Event, b: Event)
    requires b.Presentation?
  {
    a.Presentation? && a.sequence < b.sequence && !Earlier(b, a)
  }

  /** By seconds, and in the same second by the part below. */
  predicate Earlier(a: Event, b: Event)
    requires a.Presentation? && b.Presentation?
  {
    a.seconds < b.seconds || (a.seconds == b.seconds && a.subsecond < b.subsecond)
  }

  predicate CleanEvent(press: Event, front: seq<Event>, e: Event)
    requires press.Button? && press.output.Some? && WindowEnd(press.timestamp).Some?
  {
    match e
    case ActiveOutput(output) => output == press.output
    case Removed(device) => device != press.device
    case Button(_, _, _, _) => CleanButton(press, front, e)
    case Presentation(_, _, _, _, _) => CleanPresentation(press, front, e)
  }

  predicate CleanSession(boot: Option<string>, active: Option<Output>, press: Event, rest: seq<Event>)
    requires press.Button?
  {
    if rest == [] then CleanPress(boot, active, press)
    else
      && CleanSession(boot, active, press, rest[..|rest| - 1])
      && press.output.Some? && WindowEnd(press.timestamp).Some?
      && CleanEvent(press, rest[..|rest| - 1], rest[|rest| - 1])
  }
}
