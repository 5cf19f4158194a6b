/**
 Pixel loops of the screen capture: packing scanout rows, cropping and rotating XRGB8888 buffers.

 A buffer is a sequence of bytes, four per pixel, rows from the top. Each loop is proved to build
 the buffer a per-byte function describes; the laws below are about those functions. Buffer sizes
 are mathematical integers: the source's saturating products only differ for buffers larger than
 the address space.
 */
module ScreenCapture {
  import opened Basics
  import opened OutputRotation
  import opened RowMajor

  // ---------------------------------------------------------------- rotation

  predicate Quarter(t: PixelRotation) {
    t.Rotate90Clockwise? || t.Rotate90Counterclockwise?
  }

  function ViewWidth(w: nat, h: nat, t: PixelRotation): nat {
    if Quarter(t) then h else w
  }

  function ViewHeight(w: nat, h: nat, t: PixelRotation): nat {
    if Quarter(t) then w else h
  }

  /** Where the loop sends source pixel (x, y). */
  function Target(t: PixelRotation, w: int, h: int, x: int, y: int): (int, int) {
    match t
    case Identity => (x, y)
    case Rotate90Clockwise => (h - 1 - y, x)
    case Rotate180 => (w - 1 - x, h - 1 - y)
    case Rotate90Counterclockwise => (y, w - 1 - x)
  }

  /** Which source pixel is seen at view pixel (u, v). */
  function Origin(t: PixelRotation, w: int, h: int, u: int, v: int): (int, int) {
    match t
    case Identity => (u, v)
    case Rotate90Clockwise => (v, h - 1 - u)
    case Rotate180 => (w - 1 - u, h - 1 - v)
    case Rotate90Counterclockwise => (w - 1 - v, u)
  }

  /** Every view pixel is the target of exactly one source pixel. */
  lemma TargetIsBijective(t: PixelRotation, w: nat, h: nat, x: nat, y: nat, u: nat, v: nat)
    requires x < w && y < h && u < ViewWidth(w, h, t) && v < ViewHeight(w, h, t)
    ensures 0 <= Target(t, w, h, x, y).0 < ViewWidth(w, h, t) && 0 <= Target(t, w, h, x, y).1 < ViewHeight(w, h, t)
    ensures 0 <= Origin(t, w, h, u, v).0 < w && 0 <= Origin(t, w, h, u, v).1 < h
    ensures Target(t, w, h, x, y) == (u, v) <==> Origin(t, w, h, u, v) == (x, y)
  {
  }

  lemma ViewArea(w: nat, h: nat, t: PixelRotation)
    ensures Area(ViewWidth(w, h, t), ViewHeight(w, h, t)) == Area(w, h)
  {
    AreaCommutes(w, h);
  }

  /** The view pixel index of source pixel (x, y). */
  function TargetIndex(t: PixelRotation, w: nat, h: nat, x: nat, y: nat): (p: nat)
    requires x < w && y < h
    ensures p < Area(w, h)
  {
    var (u, v) := Target(t, w, h, x, y);
    IndexInArea(u, v, ViewWidth(w, h, t), ViewHeight(w, h, t));
    ViewArea(w, h, t);
    Index(u, v, ViewWidth(w, h, t))
  }

  /** The source pixel seen at view pixel index p, as (x, y). */
  function OriginOf(t: PixelRotation, w: nat, h: nat, p: nat): (o: (nat, nat))
    requires p < Area(w, h)
    ensures o.0 < w && o.1 < h
  {
    ViewArea(w, h, t);
    IndexCovers(p, ViewWidth(w, h, t), ViewHeight(w, h, t));
    Origin(t, w, h, Col(p, ViewWidth(w, h, t)), Row(p, ViewWidth(w, h, t)))
  }

  lemma OriginOfTarget(t: PixelRotation, w: nat, h: nat, x: nat, y: nat, p: nat)
    requires x < w && y < h && p < Area(w, h)
    ensures OriginOf(t, w, h, p) == (x, y) <==> p == TargetIndex(t, w, h, x, y)
  {
    var vw := ViewWidth(w, h, t);
    ViewArea(w, h, t);
    IndexCovers(p, vw, ViewHeight(w, h, t));
    var (u, v) := Target(t, w, h, x, y);
    IndexInvert(u, v, vw);
    TargetIsBijective(t, w, h, x, y, Col(p, vw), Row(p, vw));
  }

  /** Byte i of a rotated buffer: the origin's byte, or 0 where the source buffer is too short. */
  function ViewByte(src: seq<Byte>, w: nat, h: nat, t: PixelRotation, i: nat): Byte
    requires i < 4 * Area(w, h)
  {
    var o := OriginOf(t, w, h, i / 4);
    var s := 4 * Index(o.0, o.1, w);
    if s + 4 <= |src| then src[s + i % 4] else 0
  }

  function Rotated(src: seq<Byte>, w: nat, h: nat, t: PixelRotation): (dst: seq<Byte>)
    ensures |dst| == 4 * Area(w, h)
  {
    seq(4 * Area(w, h), i requires 0 <= i < 4 * Area(w, h) => ViewByte(src, w, h, t, i))
  }

  /** The loop standing at source pixel (x, y) has passed the origin of byte i. */
  predicate Passed(t: PixelRotation, w: nat, h: nat, i: nat, x: nat, y: nat)
    requires i < 4 * Area(w, h)
  {
    var o := OriginOf(t, w, h, i / 4);
    o.1 < y || (o.1 == y && o.0 < x)
  }

  /** Byte i while the loop stands at (x, y): set if its origin is passed, still 0 if not. */
  function ByteSoFar(src: seq<Byte>, w: nat, h: nat, t: PixelRotation, x: nat, y: nat, i: nat): Byte
    requires i < 4 * Area(w, h)
  {
    if Passed(t, w, h, i, x, y) then ViewByte(src, w, h, t, i) else 0
  }

  ghost predicate Progress(dst: seq<Byte>, src: seq<Byte>, w: nat, h: nat, t: PixelRotation, x: nat, y: nat) {
    && |dst| == 4 * Area(w, h)
    && forall i :: 0 <= i < |dst| ==> dst[i] == ByteSoFar(src, w, h, t, x, y, i)
  }

  /** Passing (x, y) changes four bytes, those of its target. */
  lemma ByteStep(src: seq<Byte>, w: nat, h: nat, t: PixelRotation, x: nat, y: nat, i: nat)
    requires x < w && y < h && i < 4 * Area(w, h)
    ensures var d, s := 4 * TargetIndex(t, w, h, x, y), 4 * Index(x, y, w);
            ByteSoFar(src, w, h, t, x + 1, y, i) ==
            if d <= i < d + 4 then (if s + 4 <= |src| then src[s + (i - d)] else 0)
              else ByteSoFar(src, w, h, t, x, y, i)
    ensures var d := 4 * TargetIndex(t, w, h, x, y);
            d <= i < d + 4 ==> ByteSoFar(src, w, h, t, x, y, i) == 0
  {
    hide Index, Area, OriginOf, TargetIndex;
    OriginOfTarget(t, w, h, x, y, i / 4);
  }

  lemma ProgressStep(dst: seq<Byte>, next: seq<Byte>, src: seq<Byte>, w: nat, h: nat, t: PixelRotation, x: nat, y: nat)
    requires x < w && y < h && Progress(dst, src, w, h, t, x, y) && |next| == |dst|
    requires var d, s := 4 * TargetIndex(t, w, h, x, y), 4 * Index(x, y, w);
             forall i :: 0 <= i < |next| ==>
               next[i] == if s + 4 <= |src| && d <= i < d + 4 then src[s + (i - d)] else dst[i]
    ensures Progress(next, src, w, h, t, x + 1, y)
  {
    forall i | 0 <= i < |next|
      ensures next[i] == ByteSoFar(src, w, h, t, x + 1, y, i)
    {
      hide ByteSoFar, TargetIndex, Index, Area;
      ByteStep(src, w, h, t, x, y, i);
    }
  }

  lemma ProgressStart(dst: seq<Byte>, src: seq<Byte>, w: nat, h: nat, t: PixelRotation)
    requires |dst| == 4 * Area(w, h) && forall i :: 0 <= i < |dst| ==> dst[i] == 0
    ensures Progress(dst, src, w, h, t, 0, 0)
  {
  }

  lemma ProgressRow(dst: seq<Byte>, src: seq<Byte>, w: nat, h: nat, t: PixelRotation, y: nat)
    requires Progress(dst, src, w, h, t, w, y)
    ensures Progress(dst, src, w, h, t, 0, y + 1)
  {
  }

  lemma ProgressEnd(dst: seq<Byte>, src: seq<Byte>, w: nat, h: nat, t: PixelRotation)
    requires Progress(dst, src, w, h, t, 0, h)
    ensures dst == Rotated(src, w, h, t)
  {
  }

  /** Copies the four bytes of a pixel, if both buffers hold them. */
  method CopyPixel(src: seq<Byte>, srcIndex: nat, dst: array<Byte>, dstIndex: nat)
    modifies dst
    ensures forall i :: 0 <= i < dst.Length ==>
              dst[i] == if srcIndex + 4 <= |src| && dstIndex + 4 <= dst.Length && dstIndex <= i < dstIndex + 4
                        then src[srcIndex + (i - dstIndex)] else old(dst[i])
  {
    if srcIndex + 4 <= |src| && dstIndex + 4 <= dst.Length {
      forall k | 0 <= k < 4 {
        dst[dstIndex + k] := src[srcIndex + k];
      }
    }
  }

  method RotateXrgb8888(src: seq<Byte>, w: nat, h: nat, t: PixelRotation)
    returns (vw: nat, vh: nat, view: seq<Byte>)
    ensures vw == ViewWidth(w, h, t) && vh == ViewHeight(w, h, t)
    ensures view == Rotated(src, w, h, t)
  {
    hide Progress, Rotated, Index, Area;
    vw, vh := if Quarter(t) then h else w, if Quarter(t) then w else h;
    ViewArea(w, h, t);
    AreaIsProduct(vw, vh);
    var dst := new Byte[vw * vh * 4](_ => 0);
    ProgressStart(dst[..], src, w, h, t);
    for y := 0 to h
      invariant Progress(dst[..], src, w, h, t, 0, y)
    {
      for x := 0 to w
        invariant Progress(dst[..], src, w, h, t, x, y)
      {
        var (u, v) := Target(t, w, h, x, y);
        IndexIsProduct(x, y, w);
        IndexIsProduct(u, v, vw);
        var srcIndex := (y * w + x) * 4;
        var dstIndex := (v * vw + u) * 4;
        ghost var before := dst[..];
        CopyPixel(src, srcIndex, dst, dstIndex);
        ProgressStep(before, dst[..], src, w, h, t, x, y);
      }
      ProgressRow(dst[..], src, w, h, t, y);
    }
    ProgressEnd(dst[..], src, w, h, t);
    view := dst[..];
  }

  /** The view of a scanout under an output rotation. */
  method RotateScanoutToView(src: seq<Byte>, w: nat, h: nat, r: Rotation)
    returns (vw: nat, vh: nat, view: seq<Byte>)
    ensures vw == ViewWidth(w, h, CapturePixelRotation(r)) && vh == ViewHeight(w, h, CapturePixelRotation(r))
    ensures view == if r.Deg0? then src else Rotated(src, w, h, CapturePixelRotation(r))
    ensures !r.Deg0? ==> forall x: nat, y: nat, c: nat :: x < w && y < h && c < 4 ==>
            ViewPixel(view, src, w, h, r, x, y, c)
  {
    forall x: nat, y: nat, c: nat | x < w && y < h && c < 4
      ensures ViewPixel(Rotated(src, w, h, CapturePixelRotation(r)), src, w, h, r, x, y, c)
    {
      hide ViewPixel, Rotated;
      ViewPixelIs(src, w, h, r, x, y, c);
    }
    match CapturePixelRotation(r)
    case Identity => return w, h, src;
    case Rotate90Clockwise => vw, vh, view := RotateXrgb8888(src, w, h, Rotate90Clockwise);
    case Rotate180 => vw, vh, view := RotateXrgb8888(src, w, h, Rotate180);
    case Rotate90Counterclockwise => vw, vh, view := RotateXrgb8888(src, w, h, Rotate90Counterclockwise);
  }

  /**
   A view in plain numbers: scanout pixel (x, y) of a root turned by 90 degrees is h - 1 - y pixels from
   the left and x from the top, and so on; where the scanout does not hold the whole pixel it is 0.
   */
  predicate ViewPixel(view: seq<Byte>, src: seq<Byte>, w: nat, h: nat, r: Rotation, x: nat, y: nat, c: nat)
    requires x < w && y < h && c < 4
  {
    var (u, v, vw) := match r
      case Deg0 => (x, y, w)
      case Deg90 => (h - 1 - y, x, h)
      case Deg180 => (w - 1 - x, h - 1 - y, w)
      case Deg270 => (y, w - 1 - x, h);
    var i, at := (v * vw + u) * 4 + c, (y * w + x) * 4;
    0 <= i < |view| && view[i] == if 0 <= at && at + 4 <= |src| then src[at + c] else 0
  }

  lemma ViewPixelIs(src: seq<Byte>, w: nat, h: nat, r: Rotation, x: nat, y: nat, c: nat)
    requires x < w && y < h && c < 4
    ensures var view := Rotated(src, w, h, CapturePixelRotation(r));
            |view| == 4 * (w * h) && ViewPixel(view, src, w, h, r, x, y, c)
  {
    hide Index, Area, OriginOf, TargetIndex;
    var t := CapturePixelRotation(r);
    var p := TargetIndex(t, w, h, x, y);
    AreaIsProduct(w, h);
    OriginOfTarget(t, w, h, x, y, p);
    IndexIsProduct(x, y, w);
    TargetIsProduct(t, w, h, x, y);
    ByteOfPixel(p, c);
  }

  lemma TargetIsProduct(t: PixelRotation, w: nat, h: nat, x: nat, y: nat)
    requires x < w && y < h
    ensures var (u, v) := Target(t, w, h, x, y);
            TargetIndex(t, w, h, x, y) == v * (if Quarter(t) then h else w) + u
  {
    var (u, v) := Target(t, w, h, x, y);
    IndexIsProduct(u, v, ViewWidth(w, h, t));
  }

  // ---------------------------------------------------------------- rotation laws

  /** The turn that has the effect of `first` followed by `second`. */
  function Compose(first: PixelRotation, second: PixelRotation): PixelRotation {
    match first
    case Identity => second
    case Rotate90Clockwise => Next(second)
    case Rotate180 => Next(Next(second))
    case Rotate90Counterclockwise => Next(Next(Next(second)))
  }

  /** One more clockwise quarter turn. */
  function Next(t: PixelRotation): PixelRotation {
    match t
    case Identity => Rotate90Clockwise
    case Rotate90Clockwise => Rotate180
    case Rotate180 => Rotate90Counterclockwise
    case Rotate90Counterclockwise => Identity
  }

  lemma TurnsCompose(w: nat, h: nat, a: PixelRotation, b: PixelRotation)
    ensures ViewWidth(ViewWidth(w, h, a), ViewHeight(w, h, a), b) == ViewWidth(w, h, Compose(a, b))
    ensures ViewHeight(ViewWidth(w, h, a), ViewHeight(w, h, a), b) == ViewHeight(w, h, Compose(a, b))
  {
  }

  lemma CoordinatesCompose(w: nat, h: nat, a: PixelRotation, b: PixelRotation, u: int, v: int)
    ensures var m := Origin(b, ViewWidth(w, h, a), ViewHeight(w, h, a), u, v);
            Origin(a, w, h, m.0, m.1) == Origin(Compose(a, b), w, h, u, v)
  {
  }

  lemma OriginsCompose(w: nat, h: nat, a: PixelRotation, b: PixelRotation, p: nat)
    requires p < Area(w, h)
    ensures var vw, vh := ViewWidth(w, h, a), ViewHeight(w, h, a);
            && Area(vw, vh) == Area(w, h)
            && var o := OriginOf(b, vw, vh, p);
               Index(o.0, o.1, vw) < Area(w, h)
               && OriginOf(a, w, h, Index(o.0, o.1, vw)) == OriginOf(Compose(a, b), w, h, p)
  {
    var vw, vh := ViewWidth(w, h, a), ViewHeight(w, h, a);
    ViewArea(w, h, a);
    var o := OriginOf(b, vw, vh, p);
    IndexInArea(o.0, o.1, vw, vh);
    IndexInvert(o.0, o.1, vw);
    var c := Compose(a, b);
    TurnsCompose(w, h, a, b);
    ViewArea(w, h, c);
    IndexCovers(p, ViewWidth(w, h, c), ViewHeight(w, h, c));
    CoordinatesCompose(w, h, a, b, Col(p, ViewWidth(w, h, c)), Row(p, ViewWidth(w, h, c)));
  }

  /**
   Rotations of a complete buffer form the group of quarter turns: rotating twice is rotating once
   by the composed turn. In particular the two quarter turns are inverse, the half turn is its own
   inverse, and two clockwise quarter turns make the half turn.
   */
  lemma RotationsCompose(src: seq<Byte>, w: nat, h: nat, a: PixelRotation, b: PixelRotation)
    requires |src| == 4 * Area(w, h)
    ensures Rotated(Rotated(src, w, h, a), ViewWidth(w, h, a), ViewHeight(w, h, a), b)
         == Rotated(src, w, h, Compose(a, b))
  {
    var vw, vh := ViewWidth(w, h, a), ViewHeight(w, h, a);
    ViewArea(w, h, a);
    var mid := Rotated(src, w, h, a);
    forall i | 0 <= i < 4 * Area(w, h)
      ensures Rotated(mid, vw, vh, b)[i] == Rotated(src, w, h, Compose(a, b))[i]
    {
      PixelComposes(src, w, h, a, b, i / 4, i % 4);
    }
  }

  lemma PixelComposes(src: seq<Byte>, w: nat, h: nat, a: PixelRotation, b: PixelRotation, p: nat, c: nat)
    requires |src| == 4 * Area(w, h) && p < Area(w, h) && c < 4
    requires Area(ViewWidth(w, h, a), ViewHeight(w, h, a)) == Area(w, h)
    ensures Rotated(Rotated(src, w, h, a), ViewWidth(w, h, a), ViewHeight(w, h, a), b)[4 * p + c]
         == Rotated(src, w, h, Compose(a, b))[4 * p + c]
  {
    hide *;
    var vw, vh := ViewWidth(w, h, a), ViewHeight(w, h, a);
    OriginsCompose(w, h, a, b, p);
    RotatedByte(Rotated(src, w, h, a), vw, vh, b, p, c);
    var o := OriginOf(b, vw, vh, p);
    RotatedByte(src, w, h, a, Index(o.0, o.1, vw), c);
    RotatedByte(src, w, h, Compose(a, b), p, c);
  }

  /** Byte c of pixel p of a complete rotated buffer is byte c of its origin. */
  lemma RotatedByte(src: seq<Byte>, w: nat, h: nat, t: PixelRotation, p: nat, c: nat)
    requires |src| == 4 * Area(w, h) && p < Area(w, h) && c < 4
    ensures Index(OriginOf(t, w, h, p).0, OriginOf(t, w, h, p).1, w) < Area(w, h)
    ensures Rotated(src, w, h, t)[4 * p + c]
         == src[4 * Index(OriginOf(t, w, h, p).0, OriginOf(t, w, h, p).1, w) + c]
  {
    var o := OriginOf(t, w, h, p);
    IndexInArea(o.0, o.1, w, h);
    ByteOfPixel(p, c);
  }

  lemma ByteOfPixel(p: nat, c: nat)
    requires c < 4
    ensures (4 * p + c) / 4 == p && (4 * p + c) % 4 == c
  {
  }

  lemma IdentityRotation(src: seq<Byte>, w: nat, h: nat)
    requires |src| == 4 * Area(w, h)
    ensures Rotated(src, w, h, Identity) == src
  {
    forall i | 0 <= i < 4 * Area(w, h)
      ensures ViewByte(src, w, h, Identity, i) == src[i]
    {
      IndexCovers(i / 4, w, h);
    }
  }

  /** The named laws, from the group law. */
  lemma RotationInverses(src: seq<Byte>, w: nat, h: nat)
    requires |src| == 4 * Area(w, h)
    ensures Rotated(Rotated(src, w, h, Rotate90Clockwise), h, w, Rotate90Counterclockwise) == src
    ensures Rotated(Rotated(src, w, h, Rotate90Counterclockwise), h, w, Rotate90Clockwise) == src
    ensures Rotated(Rotated(src, w, h, Rotate180), w, h, Rotate180) == src
    ensures Rotated(Rotated(src, w, h, Rotate90Clockwise), h, w, Rotate90Clockwise) == Rotated(src, w, h, Rotate180)
  {
    assert forall t ::
        && ViewWidth(w, h, t) == (if Quarter(t) then h else w)
        && ViewHeight(w, h, t) == (if Quarter(t) then w else h);
    assert Compose(Rotate90Clockwise, Rotate90Counterclockwise) == Compose(Rotate90Counterclockwise, Rotate90Clockwise)
        == Compose(Rotate180, Rotate180) == Identity;
    assert Compose(Rotate90Clockwise, Rotate90Clockwise) == Rotate180;
    assert Quarter(Rotate90Clockwise) && Quarter(Rotate90Counterclockwise) && !Quarter(Rotate180);
    RotationsCompose(src, w, h, Rotate90Clockwise, Rotate90Counterclockwise);
    RotationsCompose(src, w, h, Rotate90Counterclockwise, Rotate90Clockwise);
    RotationsCompose(src, w, h, Rotate180, Rotate180);
    RotationsCompose(src, w, h, Rotate90Clockwise, Rotate90Clockwise);
    IdentityRotation(src, w, h);
  }

  // ---------------------------------------------------------------- packing

  /** Byte i of a packed frame: the scanout byte it stands for, or 0 past the end of the scanout. */
  function PackedByte(src: seq<Byte>, stride: nat, w: nat, h: nat, flipped: bool, i: nat): Byte
    requires i < Area(4 * w, h)
  {
    IndexCovers(i, 4 * w, h);
    var row := Row(i, 4 * w);
    var at := Index(Col(i, 4 * w), if flipped then h - 1 - row else row, stride);
    if stride > 0 && at < |src| then src[at] else 0
  }

  function Packed(src: seq<Byte>, stride: nat, w: nat, h: nat, flipped: bool): (packed: seq<Byte>)
    ensures |packed| == 4 * Area(w, h)
  {
    AreaIsProduct(4 * w, h);
    AreaIsProduct(w, h);
    seq(Area(4 * w, h), i requires 0 <= i < Area(4 * w, h) => PackedByte(src, stride, w, h, flipped, i))
  }

  /**
   A packed frame in plain numbers: pixel (x, y) is that of scanout row y, or of the y-th row from below
   if the scanout is flipped, and 0 where the scanout is too short.
   */
  predicate PackedPixel(packed: seq<Byte>, src: seq<Byte>, stride: nat, w: nat, h: nat, flipped: bool,
                        x: nat, y: nat, c: nat)
    requires x < w && y < h && c < 4
  {
    var row := if flipped then h - 1 - y else y;
    var i, at := (y * w + x) * 4 + c, row * stride + x * 4 + c;
    0 <= i < |packed| && packed[i] == if stride > 0 && 0 <= at < |src| then src[at] else 0
  }

  lemma PackedPixelIs(src: seq<Byte>, stride: nat, w: nat, h: nat, flipped: bool, x: nat, y: nat, c: nat)
    requires x < w && y < h && c < 4
    ensures PackedPixel(Packed(src, stride, w, h, flipped), src, stride, w, h, flipped, x, y, c)
  {
    hide Index, Area, Row, Col;
    var u, wide := 4 * x + c, 4 * w;
    var row: nat := if flipped then h - 1 - y else y;
    IndexIsProduct(u, y, wide);
    IndexIsProduct(u, row, stride);
    IndexInArea(u, y, wide, h);
    IndexInvert(u, y, wide);
    Products(y, w, x, c);
    AreaIsProduct(w, h);
    AreaIsProduct(wide, h);
    Products(h, w, 0, 0);
  }

  lemma Products(y: nat, w: nat, x: nat, c: nat)
    ensures y * (4 * w) + (4 * x + c) == (y * w + x) * 4 + c && (4 * w) * y == 4 * (w * y)
  {
  }

  /** The first y rows of the frame are packed and the others still 0. */
  ghost predicate RowsPacked(packed: seq<Byte>, src: seq<Byte>, stride: nat, w: nat, h: nat, flipped: bool, y: nat) {
    && |packed| == Area(4 * w, h)
    && w > 0
    && forall i :: 0 <= i < |packed| ==>
         packed[i] == if Row(i, 4 * w) < y then PackedByte(src, stride, w, h, flipped, i) else 0
  }

  lemma PackStep(packed: seq<Byte>, next: seq<Byte>, src: seq<Byte>, stride: nat, w: nat, h: nat, flipped: bool, y: nat)
    requires w > 0 && stride > 0 && y < h && RowsPacked(packed, src, stride, w, h, flipped, y) && |next| == |packed|
    requires var s, d := Index(0, if flipped then h - 1 - y else y, stride), Index(0, y, 4 * w);
             forall i :: 0 <= i < |next| ==>
               next[i] == if d <= i < d + 4 * w && s + (i - d) < |src| then src[s + (i - d)] else packed[i]
    ensures RowsPacked(next, src, stride, w, h, flipped, y + 1)
  {
    forall i | 0 <= i < |next|
      ensures next[i] == if Row(i, 4 * w) < y + 1 then PackedByte(src, stride, w, h, flipped, i) else 0
    {
      RowRange(i, y, 4 * w);
      IndexOffset(Col(i, 4 * w), if flipped then h - 1 - y else y, stride);
    }
  }

  method PackXrgb8888(src: seq<Byte>, stride: nat, w: nat, h: nat, flipped: bool) returns (frame: seq<Byte>)
    ensures frame == Packed(src, stride, w, h, flipped)
  {
    var rowLen := w * 4;
    AreaIsProduct(rowLen, h);
    var packed := new Byte[h * rowLen](_ => 0);
    if rowLen == 0 || stride == 0 {
      return packed[..];
    }
    for y := 0 to h
      invariant RowsPacked(packed[..], src, stride, w, h, flipped, y)
    {
      var srcY := if flipped then h - 1 - y else y;
      IndexIsProduct(0, srcY, stride);
      IndexIsProduct(0, y, rowLen);
      IndexInArea(0, y, rowLen, h);
      var srcStart := srcY * stride;
      var srcEnd := Min(srcStart + rowLen, |src|);
      var dstStart := y * rowLen;
      ghost var before := packed[..];
      if srcEnd > srcStart {
        forall k | 0 <= k < srcEnd - srcStart {
          packed[dstStart + k] := src[srcStart + k];
        }
      }
      PackStep(before, packed[..], src, stride, w, h, flipped, y);
    }
    forall i | 0 <= i < packed.Length
      ensures packed[i] == PackedByte(src, stride, w, h, flipped, i)
    {
      IndexCovers(i, rowLen, h);
    }
    return packed[..];
  }

  // ---------------------------------------------------------------- cropping

  datatype CropError = CropExceedsScanout

  /** The last of n rows of a crop ends within the buffer. */
  predicate RowsFit(src: seq<Byte>, w: nat, x: nat, y: nat, cw: nat, n: nat) {
    n == 0 || 4 * (Index(x, y + n - 1, w) + cw) <= |src|
  }

  /** The rows y .. y + n of the columns x .. x + cw, one after the other. */
  function CropRows(src: seq<Byte>, w: nat, x: nat, y: nat, cw: nat, n: nat): seq<Byte>
    requires RowsFit(src, w, x, y, cw, n)
    decreases n
  {
    if n == 0 then []
    else
      var start := 4 * Index(x, y + n - 1, w);
      CropRows(src, w, x, y, cw, n - 1) + src[start..start + 4 * cw]
  }

  /** The end of a crop's last row, in a frame that holds the crop. */
  lemma RowEnd(w: nat, h: nat, x: nat, cw: nat, row: nat)
    requires x + cw <= w && row < h
    ensures Index(x, row, w) + cw <= Area(w, h)
  {
    IndexInArea(x + cw, row, w, h);
    IndexOffset(x, row, w);
    IndexOffset(x + cw, row, w);
  }

  /** A crop inside the frame reads a complete frame, or at least one that is complete up to the crop's end. */
  predicate CropReads(src: seq<Byte>, w: nat, h: nat, x: nat, y: nat, cw: nat, ch: nat) {
    x + cw <= w && y + ch <= h ==> |src| >= 4 * Area(w, h) || RowsFit(src, w, x, y, cw, ch)
  }

  lemma CropFits(src: seq<Byte>, w: nat, h: nat, x: nat, y: nat, cw: nat, ch: nat)
    requires CropReads(src, w, h, x, y, cw, ch) && x + cw <= w && y + ch <= h
    ensures RowsFit(src, w, x, y, cw, ch)
  {
    if ch > 0 {
      RowEnd(w, h, x, cw, y + ch - 1);
    }
  }

  /** The crop of a frame: an error exactly when it leaves the frame. */
  function Cropped(src: seq<Byte>, w: nat, h: nat, x: nat, y: nat, cw: nat, ch: nat): Result<seq<Byte>, CropError>
    requires CropReads(src, w, h, x, y, cw, ch)
  {
    if x + cw > w || y + ch > h then Failure(CropExceedsScanout)
    else
      CropFits(src, w, h, x, y, cw, ch);
      Success(CropRows(src, w, x, y, cw, ch))
  }

  method CropXrgb8888(src: seq<Byte>, w: nat, h: nat, x: nat, y: nat, cw: nat, ch: nat)
    returns (r: Result<seq<Byte>, CropError>)
    requires CropReads(src, w, h, x, y, cw, ch)
    ensures r == Cropped(src, w, h, x, y, cw, ch)
    ensures r.Success? <==> x + cw <= w && y + ch <= h
    ensures r.Success? ==> forall u: nat, v: nat, c: nat :: u < cw && v < ch && c < 4 ==>
                             CroppedPixel(r.value, src, w, x, y, cw, u, v, c)
  {
    if x + cw > w || y + ch > h {
      return Failure(CropExceedsScanout);
    }
    CropFits(src, w, h, x, y, cw, ch);
    FewerRowsFit(src, w, x, y, cw, ch);
    var cropped: seq<Byte> := [];
    for row := y to y + ch
      invariant forall n :: 0 <= n <= ch ==> RowsFit(src, w, x, y, cw, n)
      invariant cropped == CropRows(src, w, x, y, cw, row - y)
    {
      IndexIsProduct(x, row, w);
      assert RowsFit(src, w, x, y, cw, row + 1 - y);
      var start := (row * w + x) * 4;
      var end := start + cw * 4;
      cropped := cropped + src[start..end];
    }
    forall u: nat, v: nat, c: nat | u < cw && v < ch && c < 4
      ensures CroppedPixel(cropped, src, w, x, y, cw, u, v, c)
    {
      hide CroppedPixel, CropRows, RowsFit;
      CroppedPixelIs(src, w, x, y, cw, ch, u, v, c);
    }
    return Success(cropped);
  }

  lemma {:induction false} FewerRowsFit(src: seq<Byte>, w: nat, x: nat, y: nat, cw: nat, n: nat)
    requires RowsFit(src, w, x, y, cw, n)
    ensures forall m :: 0 <= m <= n ==> RowsFit(src, w, x, y, cw, m)
    decreases n
  {
    if n > 0 {
      FewerRowsFit(src, w, x, y, cw, n - 1);
    }
  }

  /** A crop has `n` rows of `cw` pixels, and its pixel (u, v) is the scanout pixel (x + u, y + v). */
  lemma {:induction false} CropPixel(src: seq<Byte>, w: nat, x: nat, y: nat, cw: nat, n: nat, u: nat, v: nat, c: nat)
    requires RowsFit(src, w, x, y, cw, n) && u < cw && v < n && c < 4
    ensures var crop := CropRows(src, w, x, y, cw, n);
            && |crop| == 4 * Area(cw, n)
            && Index(u, v, cw) < Area(cw, n) && 4 * Index(x + u, y + v, w) + c < |src|
            && crop[4 * Index(u, v, cw) + c] == src[4 * Index(x + u, y + v, w) + c]
    decreases n
  {
    hide Index, Area;
    FewerRowsFit(src, w, x, y, cw, n);
    RowCount(cw, n - 1);
    IndexInArea(u, v, cw, n);
    CropLength(src, w, x, y, cw, n);
    CropLength(src, w, x, y, cw, n - 1);
    if v < n - 1 {
      CropPixel(src, w, x, y, cw, n - 1, u, v, c);
    } else {
      IndexOffset(u, v, cw);
      IndexOffset(x + u, y + v, w);
      IndexOffset(x, y + v, w);
    }
  }

  /** A crop in plain numbers: pixel (u, v) is that of the scanout at (x + u, y + v). */
  predicate CroppedPixel(crop: seq<Byte>, src: seq<Byte>, w: nat, x: nat, y: nat, cw: nat, u: nat, v: nat, c: nat) {
    var i, at := (v * cw + u) * 4 + c, ((y + v) * w + (x + u)) * 4 + c;
    0 <= i < |crop| && 0 <= at < |src| && crop[i] == src[at]
  }

  lemma CroppedPixelIs(src: seq<Byte>, w: nat, x: nat, y: nat, cw: nat, n: nat, u: nat, v: nat, c: nat)
    requires RowsFit(src, w, x, y, cw, n) && u < cw && v < n && c < 4
    ensures var crop := CropRows(src, w, x, y, cw, n);
            |crop| == 4 * (cw * n) && CroppedPixel(crop, src, w, x, y, cw, u, v, c)
  {
    hide Index, Area, CropRows;
    CropPixel(src, w, x, y, cw, n, u, v, c);
    IndexIsProduct(u, v, cw);
    IndexIsProduct(x + u, y + v, w);
    AreaIsProduct(cw, n);
  }

  lemma {:induction false} CropLength(src: seq<Byte>, w: nat, x: nat, y: nat, cw: nat, n: nat)
    requires RowsFit(src, w, x, y, cw, n)
    ensures |CropRows(src, w, x, y, cw, n)| == 4 * Area(cw, n)
    decreases n
  {
    if n > 0 {
      CropLength(src, w, x, y, cw, n - 1);
    }
  }

  lemma {:induction false} RowCount(w: nat, y: nat)
    ensures Index(0, y, w) == Area(w, y) && Area(w, y + 1) == Area(w, y) + w
    decreases y
  {
    if y > 0 {
      RowCount(w, y - 1);
    }
  }
}
