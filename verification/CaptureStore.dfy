/**
 The screen capture store: a published frame, and a stage that collects the frames of one root
 geometry generation until they are committed or discarded.
 */
module CaptureStore {
  import opened Basics
  import opened OutputRotation
  import opened RowMajor
  import ScreenCapture
  import Geometry = RootGeometry

  /** Where a pane was captured: its logical rectangle and the pixels that cover it. */
  datatype PaneCapture = PaneCapture(pane: string, logical: Geometry.LogicalRect, pixels: Geometry.PixelRect)

  /** A packed frame, with the root geometry it was rendered under if it is a root frame, and its panes. */
  datatype Frame = Frame(
    width: nat, height: nat, rotation: Rotation, packed: seq<Byte>, geometry: Option<Geometry.Snapshot>,
    panes: seq<PaneCapture>)

  datatype Frames = Frames(committed: Option<Frame>, stagingGeneration: Option<nat>, staged: Option<Frame>)

  /** One scanout handed to the store. */
  datatype Scanout = Scanout(pixels: seq<Byte>, stride: nat, width: nat, height: nat, flipped: bool)

  datatype Op =
    | Update(scanout: Scanout, rotation: Rotation)
    | UpdateRoot(scanout: Scanout, geometry: Geometry.Snapshot, panes: seq<PaneCapture>)
    | Begin(generation: nat)
    | Commit(generation: nat)
    | Discard(generation: nat)

  function PackedFrame(s: Scanout, rotation: Rotation, geometry: Option<Geometry.Snapshot>,
                       panes: seq<PaneCapture>): Frame {
    Frame(s.width, s.height, rotation, ScreenCapture.Packed(s.pixels, s.stride, s.width, s.height, s.flipped),
          geometry, panes)
  }

  function RootFrame(s: Scanout, geometry: Geometry.Snapshot, panes: seq<PaneCapture>): Frame {
    PackedFrame(s, geometry.rotation, Some(geometry), panes)
  }

  /** The frame shows the scanout upright, with what was handed in beside it. */
  ghost predicate FrameShows(f: Frame, s: Scanout, rotation: Rotation, geometry: Option<Geometry.Snapshot>,
                             panes: seq<PaneCapture>)
  {
    && f.width == s.width && f.height == s.height && f.rotation == rotation && f.geometry == geometry
      && f.panes == panes
    && forall x: nat, y: nat, c: nat :: x < s.width && y < s.height && c < 4 ==>
         ScreenCapture.PackedPixel(f.packed, s.pixels, s.stride, s.width, s.height, s.flipped, x, y, c)
  }

  lemma PackedShows(s: Scanout, rotation: Rotation, geometry: Option<Geometry.Snapshot>, panes: seq<PaneCapture>)
    ensures FrameShows(PackedFrame(s, rotation, geometry, panes), s, rotation, geometry, panes)
  {
    hide ScreenCapture.PackedPixel, ScreenCapture.Packed;
    var f := PackedFrame(s, rotation, geometry, panes);
    forall x: nat, y: nat, c: nat | x < s.width && y < s.height && c < 4
      ensures ScreenCapture.PackedPixel(f.packed, s.pixels, s.stride, s.width, s.height, s.flipped, x, y, c)
    {
      ScreenCapture.PackedPixelIs(s.pixels, s.stride, s.width, s.height, s.flipped, x, y, c);
    }
  }

  predicate IsEmpty(s: Scanout) {
    s.width == 0 || s.height == 0
  }

  function Step(f: Frames, op: Op): Frames {
    match op
    case Update(s, rotation) =>
      if IsEmpty(s) then f else f.(committed := Some(PackedFrame(s, rotation, None, [])))
    case UpdateRoot(s, geometry, panes) =>
      if IsEmpty(s) then f
      else
        var frame := RootFrame(s, geometry, panes);
        if f.stagingGeneration == Some(geometry.generation) then f.(staged := Some(frame))
        else f.(committed := Some(frame))
    case Begin(generation) => f.(stagingGeneration := Some(generation), staged := None)
    case Commit(generation) =>
      if f.stagingGeneration != Some(generation) then f
      else Frames(if f.staged.Some? then f.staged else f.committed, None, None)
    case Discard(generation) =>
      if f.stagingGeneration != Some(generation) then f
      else f.(stagingGeneration := None, staged := None)
  }

  predicate FrameOk(f: Frame) {
    f.width > 0 && f.height > 0 && |f.packed| == 4 * Area(f.width, f.height)
  }

  /** Published and staged frames are complete, and a staged frame belongs to the open stage. */
  predicate FramesOk(f: Frames) {
    && (f.committed.Some? ==> FrameOk(f.committed.value))
    && (f.staged.Some? ==>
          && FrameOk(f.staged.value) && f.staged.value.geometry.Some?
          && f.stagingGeneration == Some(f.staged.value.geometry.value.generation))
  }

  lemma StepKeepsFrames(f: Frames, op: Op)
    requires FramesOk(f)
    ensures FramesOk(Step(f, op))
  {
  }

  function Run(f: Frames, ops: seq<Op>): Frames {
    if ops == [] then f else Step(Run(f, ops[..|ops| - 1]), ops[|ops| - 1])
  }

  // ---------------------------------------------------------------- staging over runs

  /** The last complete frame of generation g among the operations. */
  function LastOf(ops: seq<Op>, g: nat): Option<Frame> {
    if ops == [] then None
    else
      var op := ops[|ops| - 1];
      if op.UpdateRoot? && op.geometry.generation == g && !IsEmpty(op.scanout)
      then Some(RootFrame(op.scanout, op.geometry, op.panes))
      else LastOf(ops[..|ops| - 1], g)
  }

  /** The last complete frame among the operations that is not of generation g. */
  function LastOther(ops: seq<Op>, g: nat, before: Option<Frame>): Option<Frame> {
    if ops == [] then before
    else
      var op := ops[|ops| - 1];
      if op.Update? && !IsEmpty(op.scanout) then Some(PackedFrame(op.scanout, op.rotation, None, []))
      else if op.UpdateRoot? && op.geometry.generation != g && !IsEmpty(op.scanout)
      then Some(RootFrame(op.scanout, op.geometry, op.panes))
      else LastOther(ops[..|ops| - 1], g, before)
  }

  predicate KeepsStageOpen(op: Op, g: nat) {
    !op.Begin? && op != Commit(g) && op != Discard(g)
  }

  /**
   A stage isolates its generation: whatever happens between its begin and its end, frames of the
   generation reach only the stage and all other frames are published at once. Committing publishes
   the last staged frame, if there is one; discarding leaves no trace of the generation's frames.
   */
  lemma {:induction false} StageIsolatesGeneration(f: Frames, g: nat, ops: seq<Op>)
    requires forall k :: 0 <= k < |ops| ==> KeepsStageOpen(ops[k], g)
    ensures var open := Run(Step(f, Begin(g)), ops);
            && open == Frames(LastOther(ops, g, f.committed), Some(g), LastOf(ops, g))
            && Step(open, Commit(g)) ==
                 Frames(if LastOf(ops, g).Some? then LastOf(ops, g) else LastOther(ops, g, f.committed), None, None)
            && Step(open, Discard(g)) == Frames(LastOther(ops, g, f.committed), None, None)
    decreases |ops|
  {
    if ops != [] {
      var front := ops[..|ops| - 1];
      assert forall k :: 0 <= k < |front| ==> front[k] == ops[k];
      StageIsolatesGeneration(f, g, front);
      assert KeepsStageOpen(ops[|ops| - 1], g);
    }
  }

  // ---------------------------------------------------------------- the store

  datatype CaptureError = Unavailable | GeometryUnavailable | CropExceedsScanout

  class ScreenCaptureStore {
    var committed: Option<Frame>
    var stagingGeneration: Option<nat>
    var staged: Option<Frame>

    function Value(): Frames
      reads this
    {
      Frames(committed, stagingGeneration, staged)
    }

    constructor ()
      ensures Value() == Frames(None, None, None) && FramesOk(Value())
    {
      committed, stagingGeneration, staged := None, None, None;
    }

    method UpdateFromScanout(s: Scanout, rotation: Rotation)
      requires FramesOk(Value())
      modifies this
      ensures Value() == Step(old(Value()), Update(s, rotation)) && FramesOk(Value())
      ensures s.width == 0 || s.height == 0 ==> Value() == old(Value())
      ensures s.width > 0 && s.height > 0 ==>
                && committed.Some? && FrameShows(committed.value, s, rotation, None, [])
                && stagingGeneration == old(stagingGeneration) && staged == old(staged)
    {
      hide FrameShows;
      PackedShows(s, rotation, None, []);
      if s.width == 0 || s.height == 0 {
        return;
      }
      var packed := ScreenCapture.PackXrgb8888(s.pixels, s.stride, s.width, s.height, s.flipped);
      committed := Some(Frame(s.width, s.height, rotation, packed, None, []));
    }

    method UpdateRootScanout(s: Scanout, geometry: Geometry.Snapshot, panes: seq<PaneCapture>)
      requires FramesOk(Value())
      modifies this
      ensures Value() == Step(old(Value()), UpdateRoot(s, geometry, panes)) && FramesOk(Value())
      ensures s.width == 0 || s.height == 0 ==> Value() == old(Value())
      ensures s.width > 0 && s.height > 0 ==>
                && stagingGeneration == old(stagingGeneration)
                && var frame := if stagingGeneration == Some(geometry.generation) then staged else committed;
                   && frame.Some? && FrameShows(frame.value, s, geometry.rotation, Some(geometry), panes)
                   && (if stagingGeneration == Some(geometry.generation) then committed == old(committed)
                       else staged == old(staged))
    {
      hide FrameShows;
      PackedShows(s, geometry.rotation, Some(geometry), panes);
      if s.width == 0 || s.height == 0 {
        return;
      }
      var packed := ScreenCapture.PackXrgb8888(s.pixels, s.stride, s.width, s.height, s.flipped);
      var frame := Frame(s.width, s.height, geometry.rotation, packed, Some(geometry), panes);
      if stagingGeneration == Some(geometry.generation) {
        staged := Some(frame);
      } else {
        committed := Some(frame);
      }
    }

    method BeginStage(generation: nat)
      requires FramesOk(Value())
      modifies this
      ensures Value() == Step(old(Value()), Begin(generation)) && FramesOk(Value())
      ensures stagingGeneration == Some(generation) && staged == None && committed == old(committed)
    {
      stagingGeneration := Some(generation);
      staged := None;
    }

    method CommitStage(generation: nat)
      requires FramesOk(Value())
      modifies this
      ensures Value() == Step(old(Value()), Commit(generation)) && FramesOk(Value())
      ensures old(stagingGeneration) == Some(generation) ==>
                && stagingGeneration == None && staged == None
                && committed == if old(staged) == None then old(committed) else old(staged)
      ensures old(stagingGeneration) != Some(generation) ==> Value() == old(Value())
    {
      if stagingGeneration == Some(generation) {
        if staged.Some? {
          committed := staged;
          staged := None;
        }
        stagingGeneration := None;
      }
    }

    method DiscardStage(generation: nat)
      requires FramesOk(Value())
      modifies this
      ensures Value() == Step(old(Value()), Discard(generation)) && FramesOk(Value())
      ensures old(stagingGeneration) == Some(generation) ==>
                stagingGeneration == None && staged == None && committed == old(committed)
      ensures old(stagingGeneration) != Some(generation) ==> Value() == old(Value())
    {
      if stagingGeneration == Some(generation) {
        stagingGeneration := None;
        staged := None;
      }
    }

    /** The stage of a generation has a frame exactly when it is open and anything is staged. */
    method StageHasFrame(generation: nat) returns (has: bool)
      requires FramesOk(Value())
      ensures has <==> stagingGeneration == Some(generation) && staged.Some?
    {
      has := stagingGeneration == Some(generation) && staged.Some?
             && staged.value.geometry.Some? && staged.value.geometry.value.generation == generation;
    }

    /** The cropped pixels of a logical rectangle; they can only be refused for a frame of the wrong size. */
    method CaptureRoot(rect: Geometry.LogicalRect) returns (r: Result<seq<Byte>, CaptureError>)
      requires FramesOk(Value())
      requires committed.Some? && committed.value.geometry.Some? ==>
                 committed.value.geometry.value.physicalWidth > 0 && committed.value.geometry.value.physicalHeight > 0
      ensures committed.None? <==> r == Failure(Unavailable)
      ensures committed.Some? && committed.value.geometry.None? <==> r == Failure(GeometryUnavailable)
      ensures (committed.Some? && committed.value.geometry.Some?
               && committed.value.width == committed.value.geometry.value.physicalWidth
               && committed.value.height == committed.value.geometry.value.physicalHeight) ==> r.Success?
      ensures r.Success? ==>
        var frame := committed.value;
        var crop := Geometry.PhysicalCrop(frame.geometry.value, rect);
        && crop.x >= 0 && crop.y >= 0 && crop.width >= 0 && crop.height >= 0
        && ScreenCapture.Cropped(frame.packed, frame.width, frame.height, crop.x, crop.y, crop.width, crop.height)
          == Success(r.value)
    {
      if committed.None? {
        return Failure(Unavailable);
      }
      var frame := committed.value;
      if frame.geometry.None? {
        return Failure(GeometryUnavailable);
      }
      var crop := Geometry.PhysicalCrop(frame.geometry.value, rect);
      Geometry.CropInsideScanout(frame.geometry.value, rect);
      var pixels := ScreenCapture.CropXrgb8888(frame.packed, frame.width, frame.height, crop.x, crop.y, crop.width,
                                               crop.height);
      if pixels.Failure? {
        return Failure(CropExceedsScanout);
      }
      return Success(pixels.value);
    }
  }

  // ---------------------------------------------------------------- three rotation tables agree

  /** The capture rotation, the crop of a logical pixel and the input mapping name the same pixel. */
  lemma RotationTablesAgree(s: Geometry.Snapshot, u: nat, v: nat)
    requires Geometry.WellFormed(s) && s.factor == 1.0
    requires var t := CapturePixelRotation(s.rotation);
             u < ScreenCapture.ViewWidth(s.physicalWidth, s.physicalHeight, t)
             && v < ScreenCapture.ViewHeight(s.physicalWidth, s.physicalHeight, t)
    ensures var o := ScreenCapture.Origin(CapturePixelRotation(s.rotation), s.physicalWidth, s.physicalHeight, u, v);
            && Geometry.PhysicalCrop(s, Geometry.LogicalRect(u as real, v as real, 1.0, 1.0))
              == Geometry.PixelRect(o.0, o.1, 1, 1)
            && PhysicalPointToLogical(s.rotation, o.0 as real, o.1 as real, s.physicalWidth, s.physicalHeight)
              == (u as real, v as real)
  {
    var r := Geometry.LogicalRect(u as real, v as real, 1.0, 1.0);
    var w, h, t := s.physicalWidth, s.physicalHeight, CapturePixelRotation(s.rotation);
    var o := ScreenCapture.Origin(t, w, h, u, v);
    ScreenCapture.TargetIsBijective(t, w, h, 0, 0, u, v);
    InputAgrees(s.rotation, w, h, u, v);
    Geometry.CropIsRoundedImage(s, r);
    UnitImage(s, u, v);
    RoundInt(o.0);
    RoundInt(o.1);
    RoundInt(o.0 + 1);
    RoundInt(o.1 + 1);
    assert Geometry.PhysicalCrop(s, r) == Geometry.PixelRect(o.0, o.1, 1, 1) by {
      assert forall k: int, m: int :: 0 <= k <= m ==> Geometry.ClampInt(k, m) == k by { ClampInside(); }
    }
  }

  lemma ClampInside()
    ensures forall k: int, m: int :: 0 <= k <= m ==> Geometry.ClampInt(k, m) == k
  {
  }

  lemma RoundInt(n: int)
    ensures Geometry.Floor(n as real) == n && Geometry.Ceil(n as real) == n
  {
  }

  lemma InputAgrees(r: Rotation, w: nat, h: nat, u: nat, v: nat)
    requires var t := CapturePixelRotation(r);
             u < ScreenCapture.ViewWidth(w, h, t) && v < ScreenCapture.ViewHeight(w, h, t)
    ensures var o := ScreenCapture.Origin(CapturePixelRotation(r), w, h, u, v);
            PhysicalPointToLogical(r, o.0 as real, o.1 as real, w, h) == (u as real, v as real)
  {
  }

  lemma UnitImage(s: Geometry.Snapshot, u: nat, v: nat)
    requires s.factor == 1.0
    ensures var r := Geometry.LogicalRect(u as real, v as real, 1.0, 1.0);
            var o := ScreenCapture.Origin(CapturePixelRotation(s.rotation), s.physicalWidth, s.physicalHeight, u, v);
            && Geometry.ImageX(s, r) == Geometry.Interval(o.0 as real, (o.0 + 1) as real)
            && Geometry.ImageY(s, r) == Geometry.Interval(o.1 as real, (o.1 + 1) as real)
  {
    assert forall a: real :: Geometry.Scaled(s, a) == a;
  }

  /**
   At factor 1, cropping the logical pixel (u, v) out of the raw scanout gives exactly pixel (u, v)
   of the rotated view, for every rotation and size.
   */
  lemma ViewPixelIsCroppedPixel(s: Geometry.Snapshot, src: seq<Byte>, u: nat, v: nat)
    requires Geometry.WellFormed(s) && s.factor == 1.0 && |src| == 4 * Area(s.physicalWidth, s.physicalHeight)
    requires var t := CapturePixelRotation(s.rotation);
             u < ScreenCapture.ViewWidth(s.physicalWidth, s.physicalHeight, t)
             && v < ScreenCapture.ViewHeight(s.physicalWidth, s.physicalHeight, t)
    ensures var w, h, t := s.physicalWidth, s.physicalHeight, CapturePixelRotation(s.rotation);
            var crop := Geometry.PhysicalCrop(s, Geometry.LogicalRect(u as real, v as real, 1.0, 1.0));
            var p := Index(u, v, ScreenCapture.ViewWidth(w, h, t));
            && crop.x >= 0 && crop.y >= 0 && crop.width == crop.height == 1 && p < Area(w, h)
            && ScreenCapture.Cropped(src, w, h, crop.x, crop.y, 1, 1)
               == Success(ScreenCapture.Rotated(src, w, h, t)[4 * p..4 * p + 4])
  {
    var w, h, t := s.physicalWidth, s.physicalHeight, CapturePixelRotation(s.rotation);
    var vw, vh := ScreenCapture.ViewWidth(w, h, t), ScreenCapture.ViewHeight(w, h, t);
    RotationTablesAgree(s, u, v);
    var o := ScreenCapture.Origin(t, w, h, u, v);
    var p := Index(u, v, vw);
    ScreenCapture.TargetIsBijective(t, w, h, 0, 0, u, v);
    ScreenCapture.ViewArea(w, h, t);
    IndexInArea(u, v, vw, vh);
    IndexInvert(u, v, vw);
    assert ScreenCapture.OriginOf(t, w, h, p) == o;
    OnePixelCrop(src, w, h, o.0, o.1);
    ViewPixel(src, w, h, t, p);
  }

  /** The four bytes of a view pixel are those of its origin. */
  lemma ViewPixel(src: seq<Byte>, w: nat, h: nat, t: PixelRotation, p: nat)
    requires |src| == 4 * Area(w, h) && p < Area(w, h)
    ensures var o := ScreenCapture.OriginOf(t, w, h, p);
            var i := 4 * Index(o.0, o.1, w);
            i + 4 <= |src| && ScreenCapture.Rotated(src, w, h, t)[4 * p..4 * p + 4] == src[i..i + 4]
  {
    hide *;
    ScreenCapture.RotatedByte(src, w, h, t, p, 0);
    ScreenCapture.RotatedByte(src, w, h, t, p, 1);
    ScreenCapture.RotatedByte(src, w, h, t, p, 2);
    ScreenCapture.RotatedByte(src, w, h, t, p, 3);
  }

  lemma OnePixelCrop(src: seq<Byte>, w: nat, h: nat, x: nat, y: nat)
    requires |src| == 4 * Area(w, h) && x < w && y < h
    ensures Index(x, y, w) < Area(w, h)
    ensures var i := 4 * Index(x, y, w); ScreenCapture.Cropped(src, w, h, x, y, 1, 1) == Success(src[i..i + 4])
  {
    IndexInArea(x, y, w, h);
    var i := 4 * Index(x, y, w);
    assert ScreenCapture.CropRows(src, w, x, y, 1, 0) == [];
    assert y + 1 - 1 == y;
    assert ScreenCapture.CropRows(src, w, x, y, 1, 1) == [] + src[i..i + 4] == src[i..i + 4];
    assert !(x + 1 > w || y + 1 > h);
  }
}
