/**
 Root geometry: snapshots that map between oriented logical and raw physical coordinates, and the
 authority that publishes one committed geometry at a time.

 Coordinates are exact reals; the largest float below a length is the parameter of
 `PhysicalToLogical`, any value below the length and not below zero.
 */
module RootGeometry {
  import opened Basics
  import opened OutputRotation

  const DEFAULT_DISPLAY_SCALE_FACTOR := 2.0
  const MIN_DISPLAY_SCALE_FACTOR := 1.0
  const MAX_DISPLAY_SCALE_FACTOR := 4.0
  const MAX_ROOT_GEOMETRY_GENERATION: nat := 9_007_199_254_740_991

  datatype ScaleSource = Default | Config

  datatype Snapshot = Snapshot(
    physicalWidth: int, physicalHeight: int, logicalWidth: real, logicalHeight: real,
    factor: real, source: ScaleSource, rotation: Rotation, generation: nat)

  datatype LogicalRect = LogicalRect(x: real, y: real, width: real, height: real)

  datatype PixelRect = PixelRect(x: int, y: int, width: int, height: int)

  datatype GeometryError = InvalidDisplayScale | DisplayScaleApplyFailed | RootGeometryGenerationExhausted

  // ---------------------------------------------------------------- snapshots

  predicate FactorInRange(factor: real) {
    MIN_DISPLAY_SCALE_FACTOR <= factor <= MAX_DISPLAY_SCALE_FACTOR
  }

  function NewSnapshot(width: int, height: int, factor: real, source: ScaleSource, rotation: Rotation, generation: nat)
    : Result<Snapshot, GeometryError>
    requires factor != 0.0
  {
    if width <= 0 || height <= 0 then Failure(DisplayScaleApplyFailed)
    else
      var (orientedWidth, orientedHeight) := LogicalSize(rotation, width, height);
      Success(Snapshot(width, height, orientedWidth as real / factor, orientedHeight as real / factor,
                       factor, source, rotation, generation))
  }

  /** A positive size, a factor in range, and a logical size that is the oriented physical size. */
  predicate WellFormed(s: Snapshot) {
    && s.physicalWidth > 0 && s.physicalHeight > 0 && FactorInRange(s.factor)
    && var (orientedWidth, orientedHeight) := LogicalSize(s.rotation, s.physicalWidth, s.physicalHeight);
       s.logicalWidth * s.factor == orientedWidth as real && s.logicalHeight * s.factor == orientedHeight as real
  }

  predicate ValidSnapshot(s: Snapshot) {
    && FactorInRange(s.factor) && s.physicalWidth > 0 && s.physicalHeight > 0
    && s.logicalWidth > 0.0 && s.logicalHeight > 0.0
  }

  /** With a factor in range a new snapshot is well formed, and staging cannot reject it. */
  lemma NewSnapshotWellFormed(width: int, height: int, factor: real, source: ScaleSource, rotation: Rotation,
                              generation: nat)
    requires FactorInRange(factor)
    ensures var r := NewSnapshot(width, height, factor, source, rotation, generation);
            && (r.Success? <==> width > 0 && height > 0)
            && (r.Success? ==> WellFormed(r.value) && ValidSnapshot(r.value) && r.value.generation == generation)
  {
    var r := NewSnapshot(width, height, factor, source, rotation, generation);
    if r.Success? {
      QuotientPositive(width, factor);
      QuotientPositive(height, factor);
    }
  }

  lemma QuotientPositive(n: int, factor: real)
    requires n > 0 && factor > 0.0
    ensures n as real / factor > 0.0 && n as real / factor * factor == n as real
  {
    var q := n as real / factor;
    assert q * factor == n as real;
    assert q <= 0.0 ==> q * factor <= 0.0;
  }

  // ---------------------------------------------------------------- coordinate maps

  function Scaled(s: Snapshot, v: real): real {
    v * s.factor
  }

  function Unscaled(s: Snapshot, v: real): real
    requires s.factor != 0.0
  {
    v / s.factor
  }

  lemma ScaledInverse(s: Snapshot, v: real)
    requires s.factor != 0.0
    ensures Unscaled(s, Scaled(s, v)) == v && Scaled(s, Unscaled(s, v)) == v
  {
  }

  lemma ScaledOrder(s: Snapshot, a: real, b: real)
    requires s.factor > 0.0
    ensures a <= b <==> Scaled(s, a) <= Scaled(s, b)
  {
    if a <= b {
      assert (b - a) * s.factor >= 0.0;
    } else {
      assert (a - b) * s.factor > 0.0;
    }
  }

  function LogicalToPhysical(s: Snapshot, ox: real, oy: real): (real, real) {
    var width, height := s.physicalWidth as real, s.physicalHeight as real;
    match s.rotation
    case Deg0 => (Scaled(s, ox), Scaled(s, oy))
    case Deg90 => (Scaled(s, oy), height - Scaled(s, ox))
    case Deg180 => (width - Scaled(s, ox), height - Scaled(s, oy))
    case Deg270 => (width - Scaled(s, oy), Scaled(s, ox))
  }

  /** `PhysicalToLogical` before its clamp. */
  function Unclamped(s: Snapshot, px: real, py: real): (real, real)
    requires s.factor != 0.0
  {
    var width, height := s.physicalWidth as real, s.physicalHeight as real;
    match s.rotation
    case Deg0 => (Unscaled(s, px), Unscaled(s, py))
    case Deg90 => (Unscaled(s, height - py), Unscaled(s, px))
    case Deg180 => (Unscaled(s, width - px), Unscaled(s, height - py))
    case Deg270 => (Unscaled(s, py), Unscaled(s, width - px))
  }

  function ClampHalfOpen(value: real, nextDown: real): real {
    var v := if value > 0.0 then value else 0.0;
    if v < nextDown then v else nextDown
  }

  function PhysicalToLogical(s: Snapshot, px: real, py: real, nextDown: real -> real): (real, real)
    requires s.factor != 0.0
  {
    var (x, y) := Unclamped(s, px, py);
    (ClampHalfOpen(x, nextDown(s.logicalWidth)), ClampHalfOpen(y, nextDown(s.logicalHeight)))
  }

  /** The maps are mutual inverses, up to the clamp that keeps results in the logical root. */
  lemma CoordinateMapsInvert(s: Snapshot, x: real, y: real)
    requires s.factor != 0.0
    ensures var (px, py) := LogicalToPhysical(s, x, y); Unclamped(s, px, py) == (x, y)
    ensures var (ox, oy) := Unclamped(s, x, y); LogicalToPhysical(s, ox, oy) == (x, y)
  {
    hide Scaled, Unscaled;
    var width, height := s.physicalWidth as real, s.physicalHeight as real;
    ScaledInverse(s, x);
    ScaledInverse(s, y);
    ScaledInverse(s, width - x);
    ScaledInverse(s, height - y);
  }

  /** Any physical point maps into the half-open logical root; one seen strictly inside it maps back. */
  lemma PhysicalToLogicalInRoot(s: Snapshot, px: real, py: real, nextDown: real -> real)
    requires WellFormed(s) && forall v :: v > 0.0 ==> 0.0 <= nextDown(v) < v
    ensures var (x, y) := PhysicalToLogical(s, px, py, nextDown);
            && 0.0 <= x < s.logicalWidth && 0.0 <= y < s.logicalHeight
            && (0.0 <= Unclamped(s, px, py).0 <= nextDown(s.logicalWidth)
                && 0.0 <= Unclamped(s, px, py).1 <= nextDown(s.logicalHeight) ==>
                LogicalToPhysical(s, x, y) == (px, py))
    ensures var (x, y) := PhysicalToLogical(s, px, py, nextDown);
            && NearestIn(Unclamped(s, px, py).0, x, nextDown(s.logicalWidth))
            && NearestIn(Unclamped(s, px, py).1, y, nextDown(s.logicalHeight))
  {
    hide LogicalToPhysical, Unclamped;
    LogicalSizePositive(s);
    CoordinateMapsInvert(s, px, py);
  }

  /** Of the numbers from 0 to the top, r is the one closest to v. */
  ghost predicate NearestIn(v: real, r: real, top: real) {
    && 0.0 <= r <= top
    && forall other: real :: 0.0 <= other <= top ==> Distance(v, r) <= Distance(v, other)
  }

  function Distance(a: real, b: real): real {
    if a <= b then b - a else a - b
  }

  lemma LogicalSizePositive(s: Snapshot)
    requires WellFormed(s)
    ensures s.logicalWidth > 0.0 && s.logicalHeight > 0.0
  {
    assert s.logicalWidth <= 0.0 ==> s.logicalWidth * s.factor <= 0.0;
    assert s.logicalHeight <= 0.0 ==> s.logicalHeight * s.factor <= 0.0;
  }

  // ---------------------------------------------------------------- pixel crops

  function Floor(r: real): int {
    r.Floor
  }

  function Ceil(r: real): int {
    -(-r).Floor
  }

  function ClampInt(v: int, hi: int): int {
    if v < 0 then 0 else if v > hi then hi else v
  }

  function Least(a: real, b: real, c: real, d: real): (m: real)
    ensures m <= a && m <= b && m <= c && m <= d && (m == a || m == b || m == c || m == d)
  {
    var ab, cd := if a <= b then a else b, if c <= d then c else d;
    if ab <= cd then ab else cd
  }

  function Greatest(a: real, b: real, c: real, d: real): (m: real)
    ensures m >= a && m >= b && m >= c && m >= d && (m == a || m == b || m == c || m == d)
  {
    -Least(-a, -b, -c, -d)
  }

  function PhysicalCrop(s: Snapshot, r: LogicalRect): PixelRect {
    var p := LogicalToPhysical(s, r.x, r.y);
    var q := LogicalToPhysical(s, r.x + r.width, r.y);
    var t := LogicalToPhysical(s, r.x, r.y + r.height);
    var u := LogicalToPhysical(s, r.x + r.width, r.y + r.height);
    var x0 := ClampInt(Floor(Least(p.0, q.0, t.0, u.0)), s.physicalWidth);
    var y0 := ClampInt(Floor(Least(p.1, q.1, t.1, u.1)), s.physicalHeight);
    var x1 := ClampInt(Ceil(Greatest(p.0, q.0, t.0, u.0)), s.physicalWidth);
    var y1 := ClampInt(Ceil(Greatest(p.1, q.1, t.1, u.1)), s.physicalHeight);
    PixelRect(x0, y0, x1 - x0, y1 - y0)
  }

  /** The physical interval a logical interval covers on one axis, before rounding. */
  datatype Interval = Interval(lo: real, hi: real)

  function ImageX(s: Snapshot, r: LogicalRect): Interval {
    var width := s.physicalWidth as real;
    match s.rotation
    case Deg0 => Interval(Scaled(s, r.x), Scaled(s, r.x + r.width))
    case Deg90 => Interval(Scaled(s, r.y), Scaled(s, r.y + r.height))
    case Deg180 => Interval(width - Scaled(s, r.x + r.width), width - Scaled(s, r.x))
    case Deg270 => Interval(width - Scaled(s, r.y + r.height), width - Scaled(s, r.y))
  }

  function ImageY(s: Snapshot, r: LogicalRect): Interval {
    var height := s.physicalHeight as real;
    match s.rotation
    case Deg0 => Interval(Scaled(s, r.y), Scaled(s, r.y + r.height))
    case Deg90 => Interval(height - Scaled(s, r.x + r.width), height - Scaled(s, r.x))
    case Deg180 => Interval(height - Scaled(s, r.y + r.height), height - Scaled(s, r.y))
    case Deg270 => Interval(Scaled(s, r.x), Scaled(s, r.x + r.width))
  }

  predicate Nonnegative(r: LogicalRect) {
    r.width >= 0.0 && r.height >= 0.0
  }

  /** The crop rounds the image of the rectangle outwards on each axis and clamps it to the screen. */
  lemma CropIsRoundedImage(s: Snapshot, r: LogicalRect)
    requires s.factor > 0.0 && Nonnegative(r)
    ensures var crop, ix, iy := PhysicalCrop(s, r), ImageX(s, r), ImageY(s, r);
            && ix.lo <= ix.hi && iy.lo <= iy.hi
            && crop.x == ClampInt(Floor(ix.lo), s.physicalWidth)
            && crop.x + crop.width == ClampInt(Ceil(ix.hi), s.physicalWidth)
            && crop.y == ClampInt(Floor(iy.lo), s.physicalHeight)
            && crop.y + crop.height == ClampInt(Ceil(iy.hi), s.physicalHeight)
  {
    hide Scaled, Least, Greatest, Floor, Ceil, ClampInt;
    ScaledOrder(s, r.x, r.x + r.width);
    ScaledOrder(s, r.y, r.y + r.height);
  }

  /** Whatever rectangle is asked for, its crop lies inside the scanout. */
  lemma CropInsideScanout(s: Snapshot, r: LogicalRect)
    requires s.physicalWidth > 0 && s.physicalHeight > 0
    ensures var crop := PhysicalCrop(s, r);
            && 0 <= crop.x && 0 <= crop.width && crop.x + crop.width <= s.physicalWidth
            && 0 <= crop.y && 0 <= crop.height && crop.y + crop.height <= s.physicalHeight
  {
    hide LogicalToPhysical, Least, Greatest;
    var p := LogicalToPhysical(s, r.x, r.y);
    var q := LogicalToPhysical(s, r.x + r.width, r.y);
    var t := LogicalToPhysical(s, r.x, r.y + r.height);
    var u := LogicalToPhysical(s, r.x + r.width, r.y + r.height);
    FloorBelowCeil(Least(p.0, q.0, t.0, u.0), Greatest(p.0, q.0, t.0, u.0));
    FloorBelowCeil(Least(p.1, q.1, t.1, u.1), Greatest(p.1, q.1, t.1, u.1));
  }

  lemma FloorBelowCeil(a: real, b: real)
    requires a <= b
    ensures Floor(a) <= Ceil(b)
    ensures Floor(a) as real <= a < (Floor(a) + 1) as real
    ensures (Ceil(b) - 1) as real < b <= Ceil(b) as real
  {
  }

  /** The image of a logical point of the rectangle. */
  predicate ShowsPoint(s: Snapshot, r: LogicalRect, px: real, py: real) {
    ImageX(s, r).lo <= px <= ImageX(s, r).hi && ImageY(s, r).lo <= py <= ImageY(s, r).hi
  }

  /** The image of a rectangle is exactly the set of its points' physical positions. */
  lemma ImageIsPointwise(s: Snapshot, r: LogicalRect, px: real, py: real)
    requires s.factor > 0.0 && Nonnegative(r)
    ensures ShowsPoint(s, r, px, py) <==>
            var (x, y) := Unclamped(s, px, py); r.x <= x <= r.x + r.width && r.y <= y <= r.y + r.height
  {
    hide Scaled, Unscaled;
    var (x, y) := Unclamped(s, px, py);
    CoordinateMapsInvert(s, px, py);
    ScaledOrder(s, r.x, x);
    ScaledOrder(s, x, r.x + r.width);
    ScaledOrder(s, r.y, y);
    ScaledOrder(s, y, r.y + r.height);
  }

  /** Every on-screen point of the rectangle's image lies inside the crop. */
  lemma CropCoversImage(s: Snapshot, r: LogicalRect, px: real, py: real)
    requires s.factor > 0.0 && Nonnegative(r) && ShowsPoint(s, r, px, py)
    requires 0.0 <= px <= s.physicalWidth as real && 0.0 <= py <= s.physicalHeight as real
    ensures var crop := PhysicalCrop(s, r);
            && crop.x as real <= px <= (crop.x + crop.width) as real
            && crop.y as real <= py <= (crop.y + crop.height) as real
  {
    CropIsRoundedImage(s, r);
    FloorBelowCeil(ImageX(s, r).lo, ImageX(s, r).hi);
    FloorBelowCeil(ImageY(s, r).lo, ImageY(s, r).hi);
  }

  predicate InRoot(s: Snapshot, r: LogicalRect) {
    Nonnegative(r) && 0.0 <= r.x && r.x + r.width <= s.logicalWidth && 0.0 <= r.y && r.y + r.height <= s.logicalHeight
  }

  lemma RootIsOnScreen(s: Snapshot, r: LogicalRect)
    requires WellFormed(s) && InRoot(s, r)
    ensures 0.0 <= ImageX(s, r).lo <= ImageX(s, r).hi <= s.physicalWidth as real
    ensures 0.0 <= ImageY(s, r).lo <= ImageY(s, r).hi <= s.physicalHeight as real
  {
    var (orientedWidth, orientedHeight) := LogicalSize(s.rotation, s.physicalWidth, s.physicalHeight);
    assert Scaled(s, 0.0) == 0.0;
    assert Scaled(s, s.logicalWidth) == orientedWidth as real && Scaled(s, s.logicalHeight) == orientedHeight as real;
    ScaledOrder(s, 0.0, r.x);
    ScaledOrder(s, 0.0, r.y);
    ScaledOrder(s, r.x, r.x + r.width);
    ScaledOrder(s, r.y, r.y + r.height);
    ScaledOrder(s, r.x + r.width, s.logicalWidth);
    ScaledOrder(s, r.y + r.height, s.logicalHeight);
  }

  lemma RoundInside(lo: real, hi: real, limit: int)
    requires 0.0 <= lo <= hi <= limit as real
    ensures lo - 1.0 < ClampInt(Floor(lo), limit) as real <= lo
    ensures hi <= ClampInt(Ceil(hi), limit) as real < hi + 1.0
  {
    FloorBelowCeil(lo, hi);
  }

  /** The crop of a rectangle inside the logical root is less than one pixel larger on each side. */
  lemma CropIsTight(s: Snapshot, r: LogicalRect)
    requires WellFormed(s) && InRoot(s, r)
    ensures var crop, ix, iy := PhysicalCrop(s, r), ImageX(s, r), ImageY(s, r);
            && ix.lo - 1.0 < crop.x as real <= ix.lo && ix.hi <= (crop.x + crop.width) as real < ix.hi + 1.0
            && iy.lo - 1.0 < crop.y as real <= iy.lo && iy.hi <= (crop.y + crop.height) as real < iy.hi + 1.0
  {
    RootIsOnScreen(s, r);
    RoundInside(ImageX(s, r).lo, ImageX(s, r).hi, s.physicalWidth);
    RoundInside(ImageY(s, r).lo, ImageY(s, r).hi, s.physicalHeight);
    CropIsRoundedImage(s, r);
  }

  predicate InRect(r: PixelRect, px: int, py: int) {
    r.x <= px < r.x + r.width && r.y <= py < r.y + r.height
  }

  /** A rectangle cut at logical distance `at` from its left edge, or from its top edge. */
  function CutFirst(r: LogicalRect, vertical: bool, at: real): LogicalRect {
    if vertical then r.(width := at) else r.(height := at)
  }

  function CutSecond(r: LogicalRect, vertical: bool, at: real): LogicalRect {
    if vertical then r.(x := r.x + at, width := r.width - at) else r.(y := r.y + at, height := r.height - at)
  }

  /**
   Cutting a rectangle in two: the crops of the parts together hold exactly the pixels of the whole
   crop, and pixels in both lie on one single line.
   */
  lemma CropsOfCut(s: Snapshot, r: LogicalRect, vertical: bool, at: real, px: int, py: int, qx: int, qy: int)
    requires s.factor > 0.0 && Nonnegative(r) && 0.0 <= at <= if vertical then r.width else r.height
    ensures var whole, a := PhysicalCrop(s, r), PhysicalCrop(s, CutFirst(r, vertical, at));
            var b := PhysicalCrop(s, CutSecond(r, vertical, at));
            && (InRect(whole, px, py) <==> InRect(a, px, py) || InRect(b, px, py))
            && (InRect(a, px, py) && InRect(b, px, py) && InRect(a, qx, qy) && InRect(b, qx, qy) ==>
                if vertical == SwapsAxes(s.rotation) then py == qy else px == qx)
  {
    hide PhysicalCrop, ImageX, ImageY, Floor, Ceil;
    var first, second := CutFirst(r, vertical, at), CutSecond(r, vertical, at);
    CropIsRoundedImage(s, r);
    CropIsRoundedImage(s, first);
    CropIsRoundedImage(s, second);
    CutImages(s, r, vertical, at);
    if vertical == SwapsAxes(s.rotation) {
      RoundedCut(ImageY(s, r), ImageY(s, first), ImageY(s, second));
    } else {
      RoundedCut(ImageX(s, r), ImageX(s, first), ImageX(s, second));
    }
  }

  predicate CutAt(whole: Interval, a: Interval, b: Interval) {
    && whole.lo <= whole.hi
    && ((a.lo == whole.lo && a.hi == b.lo && b.hi == whole.hi)
        || (b.lo == whole.lo && b.hi == a.lo && a.hi == whole.hi))
  }

  lemma CutImages(s: Snapshot, r: LogicalRect, vertical: bool, at: real)
    requires s.factor > 0.0 && Nonnegative(r) && 0.0 <= at <= if vertical then r.width else r.height
    ensures var a, b := CutFirst(r, vertical, at), CutSecond(r, vertical, at);
            if vertical == SwapsAxes(s.rotation)
            then CutAt(ImageY(s, r), ImageY(s, a), ImageY(s, b)) && ImageX(s, r) == ImageX(s, a) == ImageX(s, b)
            else CutAt(ImageX(s, r), ImageX(s, a), ImageX(s, b)) && ImageY(s, r) == ImageY(s, a) == ImageY(s, b)
  {
    hide Scaled, Unscaled;
    assert r.x + at + (r.width - at) == r.x + r.width && r.y + at + (r.height - at) == r.y + r.height;
    ScaledOrder(s, r.x, r.x + r.width);
    ScaledOrder(s, r.y, r.y + r.height);
  }

  lemma RoundedCut(whole: Interval, a: Interval, b: Interval)
    requires CutAt(whole, a, b) && a.lo <= a.hi && b.lo <= b.hi
    ensures Floor(whole.lo) == Min(Floor(a.lo), Floor(b.lo)) && Ceil(whole.hi) == Max(Ceil(a.hi), Ceil(b.hi))
    ensures Max(Floor(a.lo), Floor(b.lo)) <= Min(Ceil(a.hi), Ceil(b.hi)) <= Max(Floor(a.lo), Floor(b.lo)) + 1
  {
    FloorBelowCeil(a.lo, a.hi);
    FloorBelowCeil(b.lo, b.hi);
  }

  // ---------------------------------------------------------------- native buffers

  const I32_MIN := -0x8000_0000
  const I32_MAX := 0x7FFF_FFFF

  /** Rust's `as i32` on a float that holds an integer: saturating. */
  function AsI32(v: int): int {
    if v < I32_MIN then I32_MIN else if v > I32_MAX then I32_MAX else v
  }

  /** Subtraction of 32-bit integers, which wraps around where overflow is not checked. */
  function SubI32(a: int, b: int): (r: int)
    ensures I32_MIN <= r <= I32_MAX && (a - b - r) % 0x1_0000_0000 == 0
  {
    (a - b - I32_MIN) % 0x1_0000_0000 + I32_MIN
  }

  datatype NativeBuffer = NativeBuffer(originX: int, originY: int, width: int, height: int, phaseX: real, phaseY: real)

  function NativeBufferOf(s: Snapshot, r: LogicalRect): NativeBuffer {
    var originX := AsI32(Floor(Scaled(s, r.x)));
    var originY := AsI32(Floor(Scaled(s, r.y)));
    NativeBuffer(originX, originY,
                 SubI32(AsI32(Ceil(Scaled(s, r.x + r.width))), originX),
                 SubI32(AsI32(Ceil(Scaled(s, r.y + r.height))), originY),
                 Scaled(s, r.x) - originX as real, Scaled(s, r.y) - originY as real)
  }

  /** The pixels from origin on are the fewest that hold everything from a to b, and a is in the first one. */
  predicate CoversTightly(origin: int, extent: int, phase: real, a: real, b: real) {
    && 0.0 <= phase < 1.0 && origin as real + phase == a
    && (origin + extent - 1) as real < b <= (origin + extent) as real
  }

  /** Both edges and the extent between them fit 32 bits. */
  predicate FitsI32(a: real, b: real) {
    && I32_MIN <= Floor(a) <= I32_MAX && I32_MIN <= Ceil(b) <= I32_MAX
    && I32_MIN <= Ceil(b) - Floor(a) <= I32_MAX
  }

  lemma AxisCoversExactly(a: real, b: real)
    ensures var origin := AsI32(Floor(a));
            CoversTightly(origin, SubI32(AsI32(Ceil(b)), origin), a - origin as real, a, b) <==> FitsI32(a, b)
  {
    var origin, far := AsI32(Floor(a)), AsI32(Ceil(b));
    var extent := SubI32(far, origin);
    FarEdge(origin + extent, b);
    WrapsOnce(far, origin);
  }

  /** The rounded far edge is the only one that covers tightly. */
  lemma FarEdge(edge: int, b: real)
    ensures (edge - 1) as real < b <= edge as real <==> edge == Ceil(b)
  {
  }

  lemma WrapsOnce(a: int, b: int)
    requires I32_MIN <= a <= I32_MAX && I32_MIN <= b <= I32_MAX
    ensures var d, r := a - b, SubI32(a, b);
            r == if d > I32_MAX then d - 0x1_0000_0000 else if d < I32_MIN then d + 0x1_0000_0000 else d
  {
  }

  /**
   On each axis the buffer is the tight pixel cover of the scaled rectangle exactly when the rounded
   edges and the extent between them fit 32 bits.
   */
  lemma NativeBufferCovers(s: Snapshot, r: LogicalRect)
    ensures var b := NativeBufferOf(s, r);
            var left, right := Scaled(s, r.x), Scaled(s, r.x + r.width);
            var top, bottom := Scaled(s, r.y), Scaled(s, r.y + r.height);
            && (CoversTightly(b.originX, b.width, b.phaseX, left, right) <==> FitsI32(left, right))
            && (CoversTightly(b.originY, b.height, b.phaseY, top, bottom) <==> FitsI32(top, bottom))
  {
    hide *;
    NativeBufferIs(s, r);
    AxisCoversExactly(Scaled(s, r.x), Scaled(s, r.x + r.width));
    AxisCoversExactly(Scaled(s, r.y), Scaled(s, r.y + r.height));
  }

  lemma NativeBufferIs(s: Snapshot, r: LogicalRect)
    ensures var b := NativeBufferOf(s, r);
            && b.originX == AsI32(Floor(Scaled(s, r.x))) && b.originY == AsI32(Floor(Scaled(s, r.y)))
            && b.width == SubI32(AsI32(Ceil(Scaled(s, r.x + r.width))), b.originX)
            && b.height == SubI32(AsI32(Ceil(Scaled(s, r.y + r.height))), b.originY)
            && b.phaseX == Scaled(s, r.x) - b.originX as real && b.phaseY == Scaled(s, r.y) - b.originY as real
  {
  }

  /** Edges that fit are not enough: here the extent does not, and the width wraps to -1. */
  lemma NativeWidthWraps(s: Snapshot)
    requires s.factor == 1.0
    ensures var r := LogicalRect(-2147483648.0, 0.0, 4294967295.0, 1.0);
            && Floor(Scaled(s, r.x)) == I32_MIN && Ceil(Scaled(s, r.x + r.width)) == I32_MAX
            && NativeBufferOf(s, r).width == -1
  {
    var r := LogicalRect(-2147483648.0, 0.0, 4294967295.0, 1.0);
    assert Scaled(s, r.x) == -2147483648.0 && Scaled(s, r.x + r.width) == 2147483647.0;
    WrapsOnce(I32_MAX, I32_MIN);
  }

  // ---------------------------------------------------------------- committed geometry

  /** The published value: the snapshot and its seven projections. */
  datatype Committed = Committed(
    snapshot: Snapshot, rootLayout: Snapshot, compositedContent: Snapshot, nativeMaterialization: Snapshot,
    viewports: Snapshot, captures: Snapshot, input: Snapshot, status: Snapshot)

  predicate Coherent(c: Committed) {
    && c.rootLayout == c.snapshot && c.compositedContent == c.snapshot && c.nativeMaterialization == c.snapshot
    && c.viewports == c.snapshot && c.captures == c.snapshot && c.input == c.snapshot && c.status == c.snapshot
  }

  function StageAll(s: Snapshot): Result<Committed, GeometryError> {
    if ValidSnapshot(s) then Success(Committed(s, s, s, s, s, s, s, s)) else Failure(DisplayScaleApplyFailed)
  }

  function ValidateFactor(factor: real): Result<real, GeometryError> {
    if FactorInRange(factor) then Success(factor) else Failure(InvalidDisplayScale)
  }

  /** The authority's value: the startup scale and what is published. */
  datatype View = View(startupFactor: real, startupSource: ScaleSource, committed: Option<Committed>)

  predicate GoodCommit(c: Committed) {
    && Coherent(c) && WellFormed(c.snapshot)
    && 1 <= c.snapshot.generation <= MAX_ROOT_GEOMETRY_GENERATION
  }

  /** Every published geometry is coherent, well formed and numbered within range. */
  predicate GoodView(v: View) {
    && FactorInRange(v.startupFactor)
    && (v.committed.Some? ==> GoodCommit(v.committed.value))
  }

  /** The configured changes of the root geometry. */
  datatype Change =
    | Initialize(width: int, height: int, rotation: Rotation)
    | Scale(factor: real, source: ScaleSource)
    | Rotate(rotation: Rotation)
    | Mode(width: int, height: int)

  function StageNew(s: Result<Snapshot, GeometryError>): Result<Committed, GeometryError> {
    if s.Failure? then Failure(s.error) else StageAll(s.value)
  }

  /** `prepare_initialize`, `prepare_scale`, `prepare_rotation` and `prepare_mode`: nothing is published. */
  function Prepare(v: View, c: Change): Result<Committed, GeometryError>
    requires GoodView(v)
  {
    match c
    case Initialize(width, height, rotation) =>
      if v.committed.Some? then Failure(DisplayScaleApplyFailed)
      else StageNew(NewSnapshot(width, height, v.startupFactor, v.startupSource, rotation, 1))
    case Scale(factor, source) =>
      if ValidateFactor(factor).Failure? then Failure(ValidateFactor(factor).error)
      else if v.committed.None? then Failure(DisplayScaleApplyFailed)
      else
        var base := v.committed.value.snapshot;
        if base.generation == MAX_ROOT_GEOMETRY_GENERATION then Failure(RootGeometryGenerationExhausted)
        else StageNew(NewSnapshot(base.physicalWidth, base.physicalHeight, factor, source, base.rotation,
                                  base.generation + 1))
    case Rotate(rotation) =>
      if v.committed.None? then Failure(DisplayScaleApplyFailed)
      else
        var base := v.committed.value.snapshot;
        if base.generation == MAX_ROOT_GEOMETRY_GENERATION then Failure(RootGeometryGenerationExhausted)
        else StageNew(NewSnapshot(base.physicalWidth, base.physicalHeight, base.factor, base.source, rotation,
                                  base.generation + 1))
    case Mode(width, height) =>
      if v.committed.None? then Failure(DisplayScaleApplyFailed)
      else
        var base := v.committed.value.snapshot;
        if base.generation == MAX_ROOT_GEOMETRY_GENERATION then Failure(RootGeometryGenerationExhausted)
        else StageNew(NewSnapshot(width, height, base.factor, base.source, base.rotation, base.generation + 1))
  }

  /** What a setter does: a mode set before initialization initializes, unrotated; all else is `Prepare`. */
  function Effective(v: View, c: Change): Change {
    if c.Mode? && v.committed.None? then Initialize(c.width, c.height, Deg0) else c
  }

  /** The result and the new value when a preparation is published on success and dropped on failure. */
  function Publish(v: View, prepared: Result<Committed, GeometryError>): (View, Result<Snapshot, GeometryError>) {
    if prepared.Failure? then (v, Failure(prepared.error))
    else (v.(committed := Some(prepared.value)), Success(prepared.value.snapshot))
  }

  /** A preparation from a good value is good, and is the first generation or the next one. */
  lemma PrepareIsGood(v: View, c: Change)
    requires GoodView(v)
    ensures var r := Prepare(v, c);
            r.Success? ==>
              && GoodCommit(r.value)
              && r.value.snapshot.generation == (if v.committed.None? then 1
                                                 else v.committed.value.snapshot.generation + 1)
  {
    if v.committed.None? {
      if c.Initialize? {
        NewSnapshotWellFormed(c.width, c.height, v.startupFactor, v.startupSource, c.rotation, 1);
      }
    } else {
      var base := v.committed.value.snapshot;
      var g := base.generation + 1;
      if c.Scale? && FactorInRange(c.factor) {
        NewSnapshotWellFormed(base.physicalWidth, base.physicalHeight, c.factor, c.source, base.rotation, g);
      } else if c.Rotate? {
        NewSnapshotWellFormed(base.physicalWidth, base.physicalHeight, base.factor, base.source, c.rotation, g);
      } else if c.Mode? {
        NewSnapshotWellFormed(c.width, c.height, base.factor, base.source, base.rotation, g);
      }
    }
  }

  // ---------------------------------------------------------------- what a change sets

  /** The published geometry has exactly these fields. */
  predicate Shows(c: Option<Committed>, width: int, height: int, factor: real, source: ScaleSource, rotation: Rotation,
                  generation: nat)
  {
    c.Some?
    && var s := c.value.snapshot;
       && s.physicalWidth == width && s.physicalHeight == height && s.factor == factor && s.source == source
       && s.rotation == rotation && s.generation == generation
  }

  predicate MayAdvance(c: Option<Committed>) {
    c.Some? && c.value.snapshot.generation < 9_007_199_254_740_991
  }

  /** When a preparation succeeds. */
  predicate Possible(v: View, c: Change) {
    match c
    case Initialize(width, height, _) => v.committed.None? && width > 0 && height > 0
    case Scale(factor, _) => 1.0 <= factor <= 4.0 && MayAdvance(v.committed)
    case Rotate(_) => MayAdvance(v.committed)
    case Mode(width, height) => MayAdvance(v.committed) && width > 0 && height > 0
  }

  /** Why it fails otherwise. */
  function Refusal(v: View, c: Change): GeometryError {
    if c.Scale? && !(1.0 <= c.factor <= 4.0) then InvalidDisplayScale
    else if v.committed.None? || c.Initialize? then DisplayScaleApplyFailed
    else if !MayAdvance(v.committed) then RootGeometryGenerationExhausted
    else DisplayScaleApplyFailed
  }

  /** What the published geometry is after the change: the fields it sets, and all others as before. */
  predicate Changed(v: View, c: Change, now: Option<Committed>)
    requires v.committed.None? ==> c.Initialize?
  {
    match c
    case Initialize(width, height, rotation) =>
      Shows(now, width, height, v.startupFactor, v.startupSource, rotation, 1)
    case Scale(factor, source) =>
      var s := v.committed.value.snapshot;
      Shows(now, s.physicalWidth, s.physicalHeight, factor, source, s.rotation, s.generation + 1)
    case Rotate(rotation) =>
      var s := v.committed.value.snapshot;
      Shows(now, s.physicalWidth, s.physicalHeight, s.factor, s.source, rotation, s.generation + 1)
    case Mode(width, height) =>
      var s := v.committed.value.snapshot;
      Shows(now, width, height, s.factor, s.source, s.rotation, s.generation + 1)
  }

  lemma SnapshotShows(width: int, height: int, factor: real, source: ScaleSource, rotation: Rotation, generation: nat)
    requires FactorInRange(factor)
    ensures var staged := StageNew(NewSnapshot(width, height, factor, source, rotation, generation));
            && (staged.Success? <==> width > 0 && height > 0)
            && (staged.Success? ==> Shows(Some(staged.value), width, height, factor, source, rotation, generation))
            && (staged.Failure? ==> staged.error == DisplayScaleApplyFailed)
  {
    NewSnapshotWellFormed(width, height, factor, source, rotation, generation);
  }

  /** Exactly when a preparation succeeds, what it sets, and why it fails. */
  lemma PrepareExactly(v: View, c: Change)
    requires GoodView(v)
    ensures var r := Prepare(v, c);
            && (r.Success? <==> Possible(v, c))
            && (r.Failure? ==> r.error == Refusal(v, c))
            && (r.Success? ==> Changed(v, c, Some(r.value)))
  {
    hide StageNew, NewSnapshot, Shows;
    if c.Initialize? {
      SnapshotShows(c.width, c.height, v.startupFactor, v.startupSource, c.rotation, 1);
    } else if MayAdvance(v.committed) {
      var s := v.committed.value.snapshot;
      var g := s.generation + 1;
      match c
      case Scale(factor, source) =>
        if FactorInRange(factor) {
          SnapshotShows(s.physicalWidth, s.physicalHeight, factor, source, s.rotation, g);
        }
      case Rotate(rotation) => SnapshotShows(s.physicalWidth, s.physicalHeight, s.factor, s.source, rotation, g);
      case Mode(width, height) => SnapshotShows(width, height, s.factor, s.source, s.rotation, g);
    }
  }

  // ---------------------------------------------------------------- runs

  /** One call: a setter, or a preparation from the current value followed by its commit. */
  datatype Call = Set(change: Change) | PrepareAndCommit(change: Change)

  function CallResult(v: View, call: Call): (View, Result<Snapshot, GeometryError>)
    requires GoodView(v)
  {
    Publish(v, Prepare(v, if call.Set? then Effective(v, call.change) else call.change))
  }

  function Run(start: View, calls: seq<Call>): (v: View)
    requires GoodView(start)
    ensures GoodView(v)
  {
    if calls == [] then start
    else
      var before := Run(start, calls[..|calls| - 1]);
      var call := calls[|calls| - 1];
      PrepareIsGood(before, if call.Set? then Effective(before, call.change) else call.change);
      CallResult(before, call).0
  }

  /** How many calls of a run succeeded. */
  function Successes(start: View, calls: seq<Call>): nat
    requires GoodView(start)
  {
    if calls == [] then 0
    else
      var front := calls[..|calls| - 1];
      Successes(start, front) + if CallResult(Run(start, front), calls[|calls| - 1]).1.Success? then 1 else 0
  }

  /**
   Over every run from an unpublished authority: nothing is published before the first success, and
   afterwards the generation counts the successes (1 plus the later ones) and stays in range; the
   seven projections carry the committed snapshot, whose logical size times the factor is the
   oriented physical size.
   */
  lemma {:induction false} RunCountsGenerations(start: View, calls: seq<Call>)
    requires GoodView(start) && start.committed == None
    ensures var v := Run(start, calls);
            && (v.committed.None? <==> Successes(start, calls) == 0)
            && (v.committed.Some? ==>
                  && GoodCommit(v.committed.value)
                  && v.committed.value.snapshot.generation == Successes(start, calls))
    decreases |calls|
  {
    if calls != [] {
      var before := Run(start, calls[..|calls| - 1]);
      var call := calls[|calls| - 1];
      RunCountsGenerations(start, calls[..|calls| - 1]);
      PrepareIsGood(before, if call.Set? then Effective(before, call.change) else call.change);
    }
  }

  /** A call that fails changes nothing. */
  lemma FailureChangesNothing(v: View, call: Call)
    requires GoodView(v)
    ensures CallResult(v, call).1.Failure? <==> CallResult(v, call).0 == v
  {
    PrepareIsGood(v, if call.Set? then Effective(v, call.change) else call.change);
  }

  predicate SetsSize(c: Change) {
    c.Initialize? || c.Mode?
  }

  /** The change that the call at n makes there. */
  function MadeAt(start: View, calls: seq<Call>, n: nat): Change
    requires GoodView(start) && n < |calls|
  {
    if calls[n].Set? then Effective(Run(start, calls[..n]), calls[n].change) else calls[n].change
  }

  predicate SucceedsAt(start: View, calls: seq<Call>, n: nat)
    requires GoodView(start) && n < |calls|
  {
    Possible(Run(start, calls[..n]), MadeAt(start, calls, n))
  }

  /** The call at n is the last successful one that makes such a change. */
  predicate LastMade(start: View, calls: seq<Call>, n: nat, sets: Change -> bool)
    requires GoodView(start)
  {
    && n < |calls| && SucceedsAt(start, calls, n) && sets(MadeAt(start, calls, n))
    && forall m: nat :: n < m < |calls| && SucceedsAt(start, calls, m) ==> !sets(MadeAt(start, calls, m))
  }

  predicate NoneMade(start: View, calls: seq<Call>, sets: Change -> bool)
    requires GoodView(start)
  {
    forall m: nat :: m < |calls| && SucceedsAt(start, calls, m) ==> !sets(MadeAt(start, calls, m))
  }

  predicate SetsRotation(c: Change) {
    c.Initialize? || c.Rotate?
  }

  predicate SetsScale(c: Change) {
    c.Scale?
  }

  predicate SizeFrom(s: Snapshot, c: Change) {
    SetsSize(c) && s.physicalWidth == c.width && s.physicalHeight == c.height
  }

  predicate RotationFrom(s: Snapshot, c: Change) {
    SetsRotation(c) && s.rotation == c.rotation
  }

  predicate ScaleFrom(s: Snapshot, c: Change) {
    SetsScale(c) && s.factor == c.factor && s.source == c.source
  }

  /** Each field is the one set by the last successful call that sets it, and the scale else that of the start. */
  ghost predicate FieldsAreLast(start: View, calls: seq<Call>)
    requires GoodView(start)
  {
    var v := Run(start, calls);
    v.committed.Some? ==>
      var s := v.committed.value.snapshot;
      && (exists n: nat :: LastMade(start, calls, n, SetsSize) && SizeFrom(s, MadeAt(start, calls, n)))
      && (exists n: nat :: LastMade(start, calls, n, SetsRotation) && RotationFrom(s, MadeAt(start, calls, n)))
      && (|| (exists n: nat :: LastMade(start, calls, n, SetsScale) && ScaleFrom(s, MadeAt(start, calls, n)))
          || (NoneMade(start, calls, SetsScale) && s.factor == start.startupFactor && s.source == start.startupSource))
  }

  lemma FrontCalls(start: View, calls: seq<Call>, n: nat)
    requires GoodView(start) && n < |calls| - 1
    ensures var front := calls[..|calls| - 1];
            MadeAt(start, front, n) == MadeAt(start, calls, n)
              && (SucceedsAt(start, front, n) <==> SucceedsAt(start, calls, n))
  {
    assert calls[..|calls| - 1][..n] == calls[..n];
  }

  /** What the last call makes of "last made". */
  lemma LastStep(start: View, calls: seq<Call>, sets: Change -> bool)
    requires GoodView(start) && calls != []
    ensures var front, n := calls[..|calls| - 1], |calls| - 1;
            if SucceedsAt(start, calls, n) && sets(MadeAt(start, calls, n)) then LastMade(start, calls, n, sets)
            else
              && (forall m: nat :: LastMade(start, front, m, sets) ==> LastMade(start, calls, m, sets))
              && (NoneMade(start, front, sets) ==> NoneMade(start, calls, sets))
  {
    hide SucceedsAt, MadeAt;
    forall m: nat | m < |calls| - 1
      ensures MadeAt(start, calls[..|calls| - 1], m) == MadeAt(start, calls, m)
      ensures SucceedsAt(start, calls[..|calls| - 1], m) <==> SucceedsAt(start, calls, m)
    {
      FrontCalls(start, calls, m);
    }
  }

  /** What the last call of a run makes of the published geometry. */
  lemma LastCall(start: View, calls: seq<Call>)
    requires GoodView(start) && calls != []
    ensures var n := |calls| - 1;
            var before, made, after := Run(start, calls[..n]), MadeAt(start, calls, n), Run(start, calls);
            && after.startupFactor == before.startupFactor && after.startupSource == before.startupSource
            && if SucceedsAt(start, calls, n)
               then (before.committed.None? ==> made.Initialize?) && Changed(before, made, after.committed)
               else after == before
  {
    hide Prepare, Possible, Changed, GoodView;
    var n := |calls| - 1;
    var before, made := Run(start, calls[..n]), MadeAt(start, calls, n);
    PrepareExactly(before, made);
    PossibleFirst(before, made);
  }

  lemma PossibleFirst(v: View, c: Change)
    ensures Possible(v, c) && v.committed.None? ==> c.Initialize?
    ensures Possible(v, c) && c.Initialize? ==> v.committed.None?
  {
  }

  lemma {:induction false} StartupStays(start: View, calls: seq<Call>)
    requires GoodView(start)
    ensures Run(start, calls).startupFactor == start.startupFactor
            && Run(start, calls).startupSource == start.startupSource
    decreases |calls|
  {
    hide Prepare, GoodView, Changed;
    if calls != [] {
      StartupStays(start, calls[..|calls| - 1]);
      LastCall(start, calls);
    }
  }

  lemma {:induction false} FirstIsInitial(start: View, calls: seq<Call>)
    requires GoodView(start) && start.committed.None? && Run(start, calls).committed.None?
    ensures forall n: nat :: n < |calls| ==> !SucceedsAt(start, calls, n)
    decreases |calls|
  {
    hide Prepare, GoodView, SucceedsAt, Run, MadeAt, Possible, CallResult;
    if calls != [] {
      LastCall(start, calls);
      FirstIsInitial(start, calls[..|calls| - 1]);
      forall n: nat | n < |calls| - 1
        ensures !SucceedsAt(start, calls, n)
      {
        FrontCalls(start, calls, n);
      }
    }
  }

  /** The published fields over every run of calls. */
  lemma {:induction false} RunShowsLast(start: View, calls: seq<Call>)
    requires GoodView(start) && start.committed.None?
    ensures FieldsAreLast(start, calls)
    decreases |calls|
  {
    hide Prepare, GoodView, SucceedsAt, MadeAt, Possible, LastMade, NoneMade, CallResult, Run;
    RunNothing(start);
    if calls != [] {
      var front, n: nat := calls[..|calls| - 1], |calls| - 1;
      var made := MadeAt(start, calls, n);
      RunShowsLast(start, front);
      LastCall(start, calls);
      LastStep(start, calls, SetsSize);
      LastStep(start, calls, SetsRotation);
      LastStep(start, calls, SetsScale);
      StartupStays(start, front);
      if Run(start, front).committed.None? {
        FirstIsInitial(start, front);
        NoneYet(start, front);
      } else {
        forall m: nat | m < n
          ensures MadeAt(start, front, m) == MadeAt(start, calls, m)
        {
          FrontCalls(start, calls, m);
        }
        MadeWithin(start, front);
        NotInitialAgain(start, calls);
      }
    }
  }

  lemma RunNothing(start: View)
    requires GoodView(start)
    ensures Run(start, []) == start
  {
  }

  lemma NoneYet(start: View, calls: seq<Call>)
    requires GoodView(start) && forall n: nat :: n < |calls| ==> !SucceedsAt(start, calls, n)
    ensures NoneMade(start, calls, SetsScale)
  {
  }

  lemma MadeWithin(start: View, calls: seq<Call>)
    requires GoodView(start)
    ensures forall n: nat, sets :: LastMade(start, calls, n, sets) ==> n < |calls|
  {
  }

  lemma NotInitialAgain(start: View, calls: seq<Call>)
    requires GoodView(start) && calls != [] && Run(start, calls[..|calls| - 1]).committed.Some?
    ensures SucceedsAt(start, calls, |calls| - 1) ==> !MadeAt(start, calls, |calls| - 1).Initialize?
  {
    hide Run, MadeAt;
  }

  /** A setter is the preparation followed by its commit, except for the mode set that initializes. */
  lemma SetIsPrepareAndCommit(v: View, c: Change)
    requires GoodView(v)
    ensures CallResult(v, Set(c)) == CallResult(v, PrepareAndCommit(c)) <==>
            !(c.Mode? && v.committed.None? && c.width > 0 && c.height > 0)
  {
    if c.Mode? && v.committed.None? {
      NewSnapshotWellFormed(c.width, c.height, v.startupFactor, v.startupSource, Deg0, 1);
    }
  }

  // ---------------------------------------------------------------- preparations committed later

  function Generation(v: View): nat {
    if v.committed.None? then 0 else v.committed.value.snapshot.generation
  }

  /** A preparation that can still be committed, and the generation it was made from. */
  datatype Pending = Pending(base: nat, staged: Committed)

  /** The authority's value and all preparations made so far; committing one does not use it up. */
  datatype Session = Session(view: View, pending: seq<Pending>)

  datatype Step = Stage(change: Change) | Commit(slot: nat) | Apply(change: Change)

  predicate GoodSession(s: Session) {
    && GoodView(s.view)
    && forall k :: 0 <= k < |s.pending| ==>
         GoodCommit(s.pending[k].staged) && s.pending[k].staged.snapshot.generation == s.pending[k].base + 1
  }

  function Next(s: Session, step: Step): Session
    requires GoodSession(s)
  {
    match step
    case Stage(change) =>
      var staged := Prepare(s.view, change);
      if staged.Failure? then s else s.(pending := s.pending + [Pending(Generation(s.view), staged.value)])
    case Commit(slot) =>
      if slot < |s.pending| then s.(view := s.view.(committed := Some(s.pending[slot].staged))) else s
    case Apply(change) => s.(view := CallResult(s.view, Set(change)).0)
  }

  predicate Publishes(s: Session, step: Step)
    requires GoodSession(s)
  {
    match step
    case Stage(_) => false
    case Commit(slot) => slot < |s.pending|
    case Apply(change) => CallResult(s.view, Set(change)).1.Success?
  }

  lemma NextIsGood(s: Session, step: Step)
    requires GoodSession(s)
    ensures GoodSession(Next(s, step))
    ensures !step.Commit? ==>
              Generation(Next(s, step).view) == Generation(s.view) + if Publishes(s, step) then 1 else 0
  {
    match step
    case Stage(change) => PrepareIsGood(s.view, change);
    case Commit(_) =>
    case Apply(change) => PrepareIsGood(s.view, Effective(s.view, change));
  }

  /** Any mix of setters, preparations and commits of earlier preparations. */
  function Play(start: View, steps: seq<Step>): (s: Session)
    requires GoodView(start)
    ensures GoodSession(s)
  {
    if steps == [] then Session(start, [])
    else
      var before := Play(start, steps[..|steps| - 1]);
      NextIsGood(before, steps[|steps| - 1]);
      Next(before, steps[|steps| - 1])
  }

  lemma PlayStep(start: View, steps: seq<Step>, n: nat)
    requires GoodView(start) && n < |steps|
    ensures Play(start, steps[..n + 1]) == Next(Play(start, steps[..n]), steps[n])
  {
    assert steps[..n + 1][..n] == steps[..n];
  }

  /** Every pending preparation is the result of an earlier step, made from the value of that moment. */
  lemma {:induction false} PendingOrigin(start: View, steps: seq<Step>, slot: nat) returns (n: nat)
    requires GoodView(start) && slot < |Play(start, steps).pending|
    ensures n < |steps| && steps[n].Stage?
    ensures var made, p := Play(start, steps[..n]).view, Play(start, steps).pending[slot];
            Prepare(made, steps[n].change) == Success(p.staged) && p.base == Generation(made)
    decreases |steps|
  {
    hide Prepare, GoodView, GoodCommit;
    var front := steps[..|steps| - 1];
    var before := Play(start, front);
    if slot < |before.pending| {
      n := PendingOrigin(start, front, slot);
      assert front[..n] == steps[..n];
    } else {
      n := |front|;
    }
  }

  /**
   A commit, whatever came between it and its preparation, gives the generation after the one the
   preparation was made from. So it raises the generation by exactly one if and only if that
   generation is still current; it repeats or lowers it exactly if a later one is current.
   */
  lemma CommitCountsExactly(start: View, steps: seq<Step>, slot: nat) returns (n: nat)
    requires GoodView(start) && slot < |Play(start, steps).pending|
    ensures n < |steps| && steps[n].Stage?
    ensures var s, base := Play(start, steps), Generation(Play(start, steps[..n]).view);
            var now, after := Generation(s.view), Generation(Next(s, Commit(slot)).view);
            && Prepare(Play(start, steps[..n]).view, steps[n].change) == Success(s.pending[slot].staged)
            && after == base + 1
            && (after == now + 1 <==> now == base)
            && (after == now <==> now == base + 1)
            && (after < now <==> now > base + 1)
            && (after > now + 1 <==> now < base)
  {
    hide Prepare, GoodView, GoodCommit, Play;
    n := PendingOrigin(start, steps, slot);
  }

  /** The commit is of a preparation made from the current generation. */
  predicate Fresh(s: Session, step: Step) {
    step.Commit? && step.slot < |s.pending| ==> s.pending[step.slot].base == Generation(s.view)
  }

  predicate AllFresh(start: View, steps: seq<Step>)
    requires GoodView(start)
  {
    forall n :: 0 <= n < |steps| ==> Fresh(Play(start, steps[..n]), steps[n])
  }

  /** Each step that publishes raises the generation by one, and no other step changes it. */
  ghost predicate CountsEach(start: View, steps: seq<Step>)
    requires GoodView(start)
  {
    forall n: nat :: n < |steps| ==> CountsStep(start, steps, n)
  }

  predicate CountsStep(start: View, steps: seq<Step>, n: nat)
    requires GoodView(start) && n < |steps|
  {
    Generation(Play(start, steps[..n + 1]).view)
    == Generation(Play(start, steps[..n]).view) + if Publishes(Play(start, steps[..n]), steps[n]) then 1 else 0
  }

  /** Over every run the generation counts what is published exactly if every commit is fresh. */
  lemma RunCountsExactly(start: View, steps: seq<Step>)
    requires GoodView(start)
    ensures CountsEach(start, steps) <==> AllFresh(start, steps)
  {
    hide Play, Next, Prepare, GoodView;
    forall n: nat | n < |steps|
      ensures CountsStep(start, steps, n) <==> Fresh(Play(start, steps[..n]), steps[n])
    {
      PlayStep(start, steps, n);
      StepCounts(Play(start, steps[..n]), steps[n]);
    }
  }

  lemma StepCounts(s: Session, step: Step)
    requires GoodSession(s)
    ensures Fresh(s, step) <==>
            Generation(Next(s, step).view) == Generation(s.view) + if Publishes(s, step) then 1 else 0
  {
    NextIsGood(s, step);
  }

  lemma {:induction false} FreshBases(start: View, steps: seq<Step>)
    requires GoodView(start) && AllFresh(start, steps)
    ensures NoneAhead(Play(start, steps))
    decreases |steps|
  {
    hide Prepare, GoodView, GoodCommit, NoneAhead, Next, Fresh;
    if steps == [] {
      PlayNothing(start);
      NothingPending(start);
    } else {
      var front, last := steps[..|steps| - 1], steps[|steps| - 1];
      forall n | 0 <= n < |front|
        ensures Fresh(Play(start, front[..n]), front[n])
      {
        assert front[..n] == steps[..n];
      }
      FreshBases(start, front);
      NoneAheadStep(Play(start, front), last);
    }
  }

  /** No preparation was made from a later generation than the current one. */
  predicate NoneAhead(s: Session) {
    forall k :: 0 <= k < |s.pending| ==> s.pending[k].base <= Generation(s.view)
  }

  lemma NothingPending(v: View)
    ensures NoneAhead(Session(v, []))
  {
  }

  lemma NoneAheadStep(s: Session, step: Step)
    requires GoodSession(s) && NoneAhead(s) && Fresh(s, step)
    ensures NoneAhead(Next(s, step))
  {
    hide Prepare, GoodView, GoodCommit, CallResult;
    StepCounts(s, step);
  }

  /** The first commit that is not fresh repeats the generation or lowers it. */
  lemma StaleCommitRepeatsGeneration(start: View, steps: seq<Step>, slot: nat)
    requires GoodView(start) && AllFresh(start, steps) && slot < |Play(start, steps).pending|
    ensures var s := Play(start, steps);
            !Fresh(s, Commit(slot)) <==> Generation(Next(s, Commit(slot)).view) <= Generation(s.view)
  {
    FreshBases(start, steps);
  }

  /** A preparation two publications old makes the generation go back. */
  lemma StaleCommitGoesBack(v: View, a: Change, b: Change, c: Change)
    requires GoodView(v) && Prepare(v, a).Success?
    requires CallResult(v, Set(b)).1.Success?
    requires GoodView(CallResult(v, Set(b)).0) && CallResult(CallResult(v, Set(b)).0, Set(c)).1.Success?
    ensures var steps := [Stage(a), Apply(b), Apply(c)];
            && |Play(v, steps).pending| == 1
            && Generation(Play(v, steps).view) == Generation(v) + 2
            && Generation(Next(Play(v, steps), Commit(0)).view) == Generation(v) + 1
  {
    hide Prepare, CallResult, GoodView, GoodCommit, Play;
    var steps := [Stage(a), Apply(b), Apply(c)];
    PlayNothing(v);
    PlayStep(v, steps, 0);
    PlayStep(v, steps, 1);
    PlayStep(v, steps, 2);
    assert steps[..0] == [] && steps[..3] == steps;
    NextIsGood(Play(v, steps[..1]), steps[1]);
    NextIsGood(Play(v, steps[..2]), steps[2]);
  }

  lemma PlayNothing(v: View)
    requires GoodView(v)
    ensures Play(v, []) == Session(v, [])
  {
  }

  // ---------------------------------------------------------------- the authority

  /** The startup scale in a configuration: absent, present but not a number, or a number. */
  datatype ConfigValue = Absent | NotANumber | Number(value: real)

  class RootGeometryAuthority {
    const startupFactor: real
    const startupSource: ScaleSource
    var committed: Option<Committed>

    function Value(): View
      reads this
    {
      View(startupFactor, startupSource, committed)
    }

    /** Construction from a factor the configuration check accepted. */
    constructor (factor: real, source: ScaleSource)
      requires FactorInRange(factor)
      ensures Value() == View(factor, source, None)
    {
      startupFactor, startupSource, committed := factor, source, None;
    }

    static method FromConfig(config: ConfigValue) returns (r: Result<RootGeometryAuthority, GeometryError>)
      ensures r.Success? <==> config.Absent? || (config.Number? && 1.0 <= config.value <= 4.0)
      ensures r.Failure? ==> r.error == InvalidDisplayScale
      ensures r.Success? ==> fresh(r.value) && GoodView(r.value.Value())
      ensures r.Success? ==>
                r.value.Value() == if config.Absent? then View(2.0, Default, None)
                                   else View(config.value, Config, None)
    {
      match config
      case Absent =>
        var a := new RootGeometryAuthority(DEFAULT_DISPLAY_SCALE_FACTOR, Default);
        return Success(a);
      case NotANumber =>
        return Failure(InvalidDisplayScale);
      case Number(value) =>
        var checked := ValidateFactor(value);
        if checked.Failure? {
          return Failure(checked.error);
        }
        var a := new RootGeometryAuthority(checked.value, Config);
        return Success(a);
    }

    method CommitPrepared(prepared: Committed)
      modifies this
      ensures committed == Some(prepared)
    {
      committed := Some(prepared);
    }

    method InitializeGeometry(width: int, height: int, rotation: Rotation) returns (r: Result<Snapshot, GeometryError>)
      requires GoodView(Value())
      modifies this
      ensures (Value(), r) == CallResult(old(Value()), Set(Initialize(width, height, rotation)))
      ensures GoodView(Value())
      ensures r.Success? <==> old(committed).None? && width > 0 && height > 0
      ensures r.Success? ==> Shows(committed, width, height, startupFactor, startupSource, rotation, 1)
      ensures r.Success? ==> r.value == committed.value.snapshot
      ensures r.Failure? ==> r.error == DisplayScaleApplyFailed && committed == old(committed)
    {
      PrepareExactly(Value(), Initialize(width, height, rotation));
      var staged := Prepare(Value(), Initialize(width, height, rotation));
      PrepareIsGood(Value(), Initialize(width, height, rotation));
      if staged.Failure? {
        return Failure(staged.error);
      }
      committed := Some(staged.value);
      return Success(staged.value.snapshot);
    }

    /** The common part of the setters: build the next snapshot from the base, stage it, publish it. */
    method Mutate(build: (Snapshot, nat) --> Result<Snapshot, GeometryError>)
      returns (r: Result<Snapshot, GeometryError>)
      requires committed.Some? ==> build.requires(committed.value.snapshot, committed.value.snapshot.generation + 1)
      modifies this
      ensures old(committed).None? ==> r == Failure(DisplayScaleApplyFailed)
      ensures old(committed).Some? && old(committed).value.snapshot.generation == MAX_ROOT_GEOMETRY_GENERATION ==>
                r == Failure(RootGeometryGenerationExhausted)
      ensures old(committed).Some? && old(committed).value.snapshot.generation != MAX_ROOT_GEOMETRY_GENERATION ==>
                var base := old(committed).value.snapshot;
                var staged := StageNew(build(base, base.generation + 1));
                (Value(), r) == Publish(old(Value()), staged)
      ensures r.Failure? ==> committed == old(committed)
    {
      if committed.None? {
        return Failure(DisplayScaleApplyFailed);
      }
      var base := committed.value.snapshot;
      if base.generation == MAX_ROOT_GEOMETRY_GENERATION {
        return Failure(RootGeometryGenerationExhausted);
      }
      var staged := build(base, base.generation + 1);
      if staged.Failure? {
        return Failure(staged.error);
      }
      var projections := StageAll(staged.value);
      if projections.Failure? {
        return Failure(projections.error);
      }
      committed := Some(projections.value);
      return Success(staged.value);
    }

    method SetScaleFromSource(factor: real, source: ScaleSource) returns (r: Result<Snapshot, GeometryError>)
      requires GoodView(Value())
      modifies this
      ensures (Value(), r) == CallResult(old(Value()), Set(Scale(factor, source)))
      ensures GoodView(Value())
      ensures r.Success? <==> 1.0 <= factor <= 4.0 && MayAdvance(old(committed))
      ensures r.Success? ==>
                var s := old(committed).value.snapshot;
                && Shows(committed, s.physicalWidth, s.physicalHeight, factor, source, s.rotation, s.generation + 1)
                && r.value == committed.value.snapshot
      ensures r.Failure? ==>
                && committed == old(committed)
                && r.error == if !(1.0 <= factor <= 4.0) then InvalidDisplayScale
                              else if old(committed).None? then DisplayScaleApplyFailed
                              else RootGeometryGenerationExhausted
    {
      PrepareExactly(Value(), Scale(factor, source));
      PrepareIsGood(Value(), Scale(factor, source));
      var checked := ValidateFactor(factor);
      if checked.Failure? {
        return Failure(checked.error);
      }
      r := Mutate((base: Snapshot, g: nat) =>
        NewSnapshot(base.physicalWidth, base.physicalHeight, factor, source, base.rotation, g));
    }

    method SetScale(factor: real) returns (r: Result<Snapshot, GeometryError>)
      requires GoodView(Value())
      modifies this
      ensures (Value(), r) == CallResult(old(Value()), Set(Scale(factor, Config)))
      ensures GoodView(Value())
      ensures r.Success? <==> 1.0 <= factor <= 4.0 && MayAdvance(old(committed))
      ensures r.Success? ==>
                var s := old(committed).value.snapshot;
                Shows(committed, s.physicalWidth, s.physicalHeight, factor, Config, s.rotation, s.generation + 1)
      ensures r.Failure? ==> committed == old(committed)
    {
      r := SetScaleFromSource(factor, Config);
    }

    method SetRotation(rotation: Rotation) returns (r: Result<Snapshot, GeometryError>)
      requires GoodView(Value())
      modifies this
      ensures (Value(), r) == CallResult(old(Value()), Set(Rotate(rotation)))
      ensures GoodView(Value())
      ensures r.Success? <==> MayAdvance(old(committed))
      ensures r.Success? ==>
                var s := old(committed).value.snapshot;
                && Shows(committed, s.physicalWidth, s.physicalHeight, s.factor, s.source, rotation, s.generation + 1)
                && r.value == committed.value.snapshot
      ensures r.Failure? ==>
                && committed == old(committed)
                && r.error == if old(committed).None? then DisplayScaleApplyFailed else RootGeometryGenerationExhausted
    {
      PrepareExactly(Value(), Rotate(rotation));
      PrepareIsGood(Value(), Rotate(rotation));
      r := Mutate((base: Snapshot, g: nat) requires base.factor != 0.0 =>
        NewSnapshot(base.physicalWidth, base.physicalHeight, base.factor, base.source, rotation, g));
    }

    method SetMode(width: int, height: int) returns (r: Result<Snapshot, GeometryError>)
      requires GoodView(Value())
      modifies this
      ensures (Value(), r) == CallResult(old(Value()), Set(Mode(width, height)))
      ensures GoodView(Value())
      ensures r.Success? <==> width > 0 && height > 0 && (old(committed).None? || MayAdvance(old(committed)))
      ensures r.Success? && old(committed).None? ==>
                Shows(committed, width, height, startupFactor, startupSource, Deg0, 1)
      ensures r.Success? && old(committed).Some? ==>
                var s := old(committed).value.snapshot;
                Shows(committed, width, height, s.factor, s.source, s.rotation, s.generation + 1)
      ensures r.Success? ==> r.value == committed.value.snapshot
      ensures r.Failure? ==>
                && committed == old(committed)
                && r.error == if old(committed).None? || MayAdvance(old(committed)) then DisplayScaleApplyFailed
                              else RootGeometryGenerationExhausted
    {
      PrepareExactly(Value(), Mode(width, height));
      if committed.None? {
        r := InitializeGeometry(width, height, Deg0);
        return;
      }
      PrepareIsGood(Value(), Mode(width, height));
      r := Mutate((base: Snapshot, g: nat) requires base.factor != 0.0 =>
        NewSnapshot(width, height, base.factor, base.source, base.rotation, g));
    }
  }
}
