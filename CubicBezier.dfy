/** One cubic Bezier segment from knot P0 to knot P3 with control points P1
    and P2, and the derivatives at its two ends that decide how segments join. */
module CubicBezier {
  import opened Geometry

  datatype Segment = Segment(p0: Point, p1: Point, p2: Point, p3: Point)

  /** One coordinate of B(t) = (1-t)^3 P0 + 3(1-t)^2 t P1 + 3(1-t) t^2 P2 + t^3 P3. */
  function Blend(c0: real, c1: real, c2: real, c3: real, t: real): real
  {
    var u := 1.0 - t;
    u * u * u * c0 + 3.0 * u * u * t * c1 + 3.0 * u * t * t * c2 + t * t * t * c3
  }

  /** The point of the segment at parameter t in [0, 1]. */
  function At(s: Segment, t: real): Point
  {
    Point(Blend(s.p0.x, s.p1.x, s.p2.x, s.p3.x, t), Blend(s.p0.y, s.p1.y, s.p2.y, s.p3.y, t))
  }

  /** A segment starts at its first knot and ends at its second one. */
  lemma PassesThroughKnots(s: Segment)
    ensures At(s, 0.0) == s.p0 && At(s, 1.0) == s.p3
  {
  }

  /** B'(0) = 3 (P1 - P0) */
  function StartVelocity(s: Segment): Point
  {
    Scale(3.0, Sub(s.p1, s.p0))
  }

  /** B'(1) = 3 (P3 - P2) */
  function EndVelocity(s: Segment): Point
  {
    Scale(3.0, Sub(s.p3, s.p2))
  }

  /** B''(0) = 6 (P0 - 2 P1 + P2) */
  function StartAcceleration(s: Segment): Point
  {
    Scale(6.0, Add(Sub(s.p0, Scale(2.0, s.p1)), s.p2))
  }

  /** B''(1) = 6 (P1 - 2 P2 + P3) */
  function EndAcceleration(s: Segment): Point
  {
    Scale(6.0, Add(Sub(s.p1, Scale(2.0, s.p2)), s.p3))
  }
}
