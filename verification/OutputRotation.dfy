/** The rotation table shared by scanout capture, root geometry and input mapping. */
module OutputRotation {

  datatype Rotation = Deg0 | Deg90 | Deg180 | Deg270

  datatype PixelRotation = Identity | Rotate90Clockwise | Rotate180 | Rotate90Counterclockwise

  predicate SwapsAxes(r: Rotation) {
    r.Deg90? || r.Deg270?
  }

  function CapturePixelRotation(r: Rotation): PixelRotation {
    match r
    case Deg0 => Identity
    case Deg90 => Rotate90Clockwise
    case Deg180 => Rotate180
    case Deg270 => Rotate90Counterclockwise
  }

  function LogicalSize(r: Rotation, width: int, height: int): (int, int) {
    if SwapsAxes(r) then (height, width) else (width, height)
  }

  function Clamp(v: real, lo: real, hi: real): real {
    if v < lo then lo else if v > hi then hi else v
  }

  /** The largest pixel coordinate of an axis, 0 for an empty one. */
  function MaxCoordinate(length: int): real {
    (if length > 1 then length - 1 else 0) as real
  }

  function PhysicalPointToLogical(r: Rotation, px: real, py: real, width: int, height: int): (real, real) {
    var x := Clamp(px, 0.0, MaxCoordinate(width));
    var y := Clamp(py, 0.0, MaxCoordinate(height));
    var (logicalWidth, logicalHeight) := LogicalSize(r, width, height);
    var maxX := MaxCoordinate(logicalWidth);
    var maxY := MaxCoordinate(logicalHeight);
    match r
    case Deg0 => (x, y)
    case Deg180 => (maxX - x, maxY - y)
    case Deg90 => (maxX - y, x)
    case Deg270 => (y, maxY - x)
  }

  /**
   Any point is mapped into the view, and no further away from the points of the screen than it was; two
   points of the screen keep their distances along the axes.
   */
  lemma PointsStayInView(r: Rotation, px: real, py: real, qx: real, qy: real, width: int, height: int)
    requires 0.0 <= qx <= MaxCoordinate(width) && 0.0 <= qy <= MaxCoordinate(height)
    ensures var (x, y) := PhysicalPointToLogical(r, px, py, width, height);
            var (u, v) := PhysicalPointToLogical(r, qx, qy, width, height);
            var (dx, dy) := if SwapsAxes(r) then (y - v, x - u) else (x - u, y - v);
            && 0.0 <= x <= MaxCoordinate(LogicalSize(r, width, height).0)
            && 0.0 <= y <= MaxCoordinate(LogicalSize(r, width, height).1)
            && Size(dx) <= Size(px - qx) && Size(dy) <= Size(py - qy)
            && (0.0 <= px <= MaxCoordinate(width) ==> Size(dx) == Size(px - qx))
            && (0.0 <= py <= MaxCoordinate(height) ==> Size(dy) == Size(py - qy))
  {
  }

  function Size(v: real): real {
    if v < 0.0 then -v else v
  }
}
