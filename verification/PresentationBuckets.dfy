/** The sixty half-open one-second buckets of a measurement window. */
module PresentationBuckets {
  import opened Basics
  import opened MeasurementCapture

  /** A presentation that counts: not a repeated frame, and inside the window. */
  predicate Counts(e: PresentationEvent, start: nat, end: nat) {
    !e.duplicate && e.inWindow && e.timestamp.Some? && start <= e.timestamp.value < end
  }

  /** It counts in second i: from i seconds after the start, up to but not including the next second. */
  predicate CountsIn(e: PresentationEvent, start: nat, i: nat) {
    !e.duplicate && e.inWindow && e.timestamp.Some?
    && start + i * 1_000_000 <= e.timestamp.value < start + (i + 1) * 1_000_000
  }

  function CountIn(ps: seq<PresentationEvent>, start: nat, i: nat): (n: nat)
    ensures n <= |ps|
  {
    if ps == [] then 0
    else CountIn(ps[..|ps| - 1], start, i) + if CountsIn(ps[|ps| - 1], start, i) then 1 else 0
  }

  function CountAll(ps: seq<PresentationEvent>, start: nat, end: nat): nat {
    if ps == [] then 0
    else CountAll(ps[..|ps| - 1], start, end) + if Counts(ps[|ps| - 1], start, end) then 1 else 0
  }

  function Sum(s: seq<nat>): nat {
    if s == [] then 0 else Sum(s[..|s| - 1]) + s[|s| - 1]
  }

  function Buckets(ps: seq<PresentationEvent>, start: nat): (s: seq<nat>)
    ensures |s| == BUCKETS && forall i :: 0 <= i < BUCKETS ==> s[i] == CountIn(ps, start, i)
  {
    seq(BUCKETS, i requires 0 <= i => CountIn(ps, start, i))
  }

  lemma {:induction false} SumStep(s: seq<nat>, b: nat)
    requires b < |s|
    ensures Sum(s[b := s[b] + 1]) == Sum(s) + 1
    decreases |s|
  {
    var t := s[b := s[b] + 1];
    if b == |s| - 1 {
      assert t[..|s| - 1] == s[..|s| - 1];
    } else {
      assert t[..|s| - 1] == s[..|s| - 1][b := s[b] + 1];
      SumStep(s[..|s| - 1], b);
    }
  }

  lemma {:induction false} SumZero(s: seq<nat>)
    requires forall i :: 0 <= i < |s| ==> s[i] == 0
    ensures Sum(s) == 0
    decreases |s|
  {
    if s != [] {
      SumZero(s[..|s| - 1]);
    }
  }

  /** The bucket of a time inside the window is one of the sixty, and the only one it counts in. */
  lemma BucketOf(e: PresentationEvent, start: nat)
    requires Counts(e, start, start + WINDOW)
    ensures var b := (e.timestamp.value - start) / SECOND;
            b < BUCKETS && forall i: nat :: CountsIn(e, start, i) <==> i == b
  {
    var d := e.timestamp.value - start;
    var b := d / SECOND;
    assert b * 1_000_000 <= d < (b + 1) * 1_000_000;
    forall i: nat
      ensures CountsIn(e, start, i) <==> i == b
    {
      if i < b {
        assert (i + 1) * 1_000_000 <= b * 1_000_000;
      } else if i > b {
        assert i * 1_000_000 >= (b + 1) * 1_000_000;
      }
    }
  }

  lemma NoBucketOf(e: PresentationEvent, start: nat, i: nat)
    requires !Counts(e, start, start + WINDOW) && i < BUCKETS
    ensures !CountsIn(e, start, i)
  {
    assert i * 1_000_000 + 1_000_000 <= WINDOW;
  }

  /** One more presentation raises exactly its own bucket, if it counts. */
  lemma BucketsStep(ps: seq<PresentationEvent>, e: PresentationEvent, start: nat)
    ensures Counts(e, start, start + WINDOW) ==>
              var b := (e.timestamp.value - start) / SECOND;
              b < BUCKETS && Buckets(ps + [e], start) == Buckets(ps, start)[b := Buckets(ps, start)[b] + 1]
    ensures !Counts(e, start, start + WINDOW) ==> Buckets(ps + [e], start) == Buckets(ps, start)
  {
    hide CountsIn, CountIn;
    forall i | 0 <= i < BUCKETS
      ensures Buckets(ps + [e], start)[i] == Buckets(ps, start)[i] + if CountsIn(e, start, i) then 1 else 0
    {
      CountStep(ps, e, start, i);
    }
    if Counts(e, start, start + WINDOW) {
      BucketOf(e, start);
    } else {
      forall i | 0 <= i < BUCKETS
        ensures !CountsIn(e, start, i)
      {
        NoBucketOf(e, start, i);
      }
    }
  }

  lemma CountStep(ps: seq<PresentationEvent>, e: PresentationEvent, start: nat, i: nat)
    ensures CountIn(ps + [e], start, i) == CountIn(ps, start, i) + if CountsIn(e, start, i) then 1 else 0
  {
    var more := ps + [e];
    assert more[..|ps|] == ps && more[|ps|] == e;
  }

  /** The sixty buckets partition the window: their sum is the number of all presentations that count. */
  lemma {:induction false} BucketsPartition(ps: seq<PresentationEvent>, start: nat)
    ensures Sum(Buckets(ps, start)) == CountAll(ps, start, start + WINDOW)
    decreases |ps|
  {
    hide Buckets, CountIn, Sum;
    if ps == [] {
      NothingCounts(start);
    } else {
      var front, e := ps[..|ps| - 1], ps[|ps| - 1];
      assert ps == front + [e];
      BucketsPartition(front, start);
      BucketsStep(front, e, start);
      if Counts(e, start, start + WINDOW) {
        SumStep(Buckets(front, start), (e.timestamp.value - start) / SECOND);
      }
    }
  }

  lemma NothingCounts(start: nat)
    ensures Sum(Buckets([], start)) == 0
  {
    SumZero(Buckets([], start));
  }

  /** `bucket_counts`: 32-bit counters that would saturate, and never do. */
  method BucketCounts(startedAt: Option<nat>, windowEnd: Option<nat>, presentations: seq<PresentationEvent>)
    returns (counts: seq<nat>)
    requires |presentations| <= MAX_PRESENTATIONS
    requires windowEnd.Some? ==> startedAt.Some? && windowEnd.value == startedAt.value + WINDOW
    ensures |counts| == BUCKETS
    ensures windowEnd.None? ==> forall i :: 0 <= i < BUCKETS ==> counts[i] == 0
    ensures windowEnd.Some? ==>
              && counts == Buckets(presentations, startedAt.value)
              && Sum(counts) == CountAll(presentations, startedAt.value, windowEnd.value)
  {
    hide Sum, CountAll, CountIn;
    var buckets := new nat[BUCKETS](_ => 0);
    if startedAt.None? || windowEnd.None? {
      return buckets[..];
    }
    var start, end := startedAt.value, windowEnd.value;
    EmptyBuckets(start);
    assert buckets[..] == Buckets([], start) && presentations[..0] == [];
    for k := 0 to |presentations|
      invariant buckets[..] == Buckets(presentations[..k], start)
    {
      var event := presentations[k];
      BucketsStep(presentations[..k], event, start);
      assert presentations[..k] + [event] == presentations[..k + 1];
      if event.timestamp.Some? {
        var timestamp := event.timestamp.value;
        if !(event.duplicate || !event.inWindow || timestamp < start || timestamp >= end) {
          var bucket := (timestamp - start) / SECOND;
          assert buckets[bucket] == CountIn(presentations[..k], start, bucket);
          buckets[bucket] := SaturatingInc(buckets[bucket], U32_MAX);
        }
      }
    }
    assert presentations[..|presentations|] == presentations;
    BucketsPartition(presentations, start);
    return buckets[..];
  }

  lemma EmptyBuckets(start: nat)
    ensures forall i :: 0 <= i < BUCKETS ==> Buckets([], start)[i] == 0
  {
  }
}
