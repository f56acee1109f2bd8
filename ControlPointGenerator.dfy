/** `ControlPointGenerator.generateControlPoints`: given knots
    points[0] .. points[n], compute for each segment i (from points[i] to
    points[i+1]) its two Bezier control points P1 and P2, so that the
    piecewise cubic curve passes through every knot and joins smoothly.
    The Java `float` arithmetic is modelled over `real`; Java lists are
    sequence values that the steps reassign; `null` is `None`. */
module ControlPointGenerator {
  import opened Wrappers
  import opened Exceptions
  import opened Geometry
  import opened CubicBezier
  import opened Tridiagonal
  import opened CollectionUtils

  /** The value the result map holds for one segment: `first` is P1 (read
      from a list that may still hold null), `second` is P2. */
  datatype ControlPair = ControlPair(first: Option<Point>, second: Point)

  // ---------------------------------------------------------------------------
  // The tridiagonal system for the first control points

  /** (a, b, c) of row i of an n-row system: the first row, the last row and
      the interior rows have fixed coefficients. */
  function RowCoefficients(i: nat, n: nat): (real, real, real)
  {
    if i == 0 then (0.0, 2.0, 1.0)
    else if i == n - 1 then (2.0, 7.0, 0.0)
    else (1.0, 4.0, 1.0)
  }

  /** Right-hand side of row i, from the knots P0 = points[i] and P3 = points[i+1]. */
  function RowRhs(p0: Point, p3: Point, i: nat, n: nat): Point
  {
    if i == 0 then Point(p0.x + 2.0 * p3.x, p0.y + 2.0 * p3.y)
    else if i == n - 1 then Point(8.0 * p0.x + p3.x, 8.0 * p0.y + p3.y)
    else Point(4.0 * p0.x + 2.0 * p3.x, 4.0 * p0.y + 2.0 * p3.y)
  }

  predicate IsCoefficientTable(a: seq<real>, b: seq<real>, c: seq<real>)
  {
    |a| == |b| == |c| &&
    forall i :: 0 <= i < |a| ==> (a[i], b[i], c[i]) == RowCoefficients(i, |a|)
  }

  predicate IsRhsTable(points: seq<Point>, rhs: seq<Point>)
  {
    |points| == |rhs| + 1 &&
    forall i :: 0 <= i < |rhs| ==> rhs[i] == RowRhs(points[i], points[i + 1], i, |rhs|)
  }

  /** Row i of the system on one axis, written out with the knots K:
        2 P1[0] + P1[1]                  == K[0] + 2 K[1]
        P1[i-1] + 4 P1[i] + P1[i+1]      == 4 K[i] + 2 K[i+1]
        2 P1[n-2] + 7 P1[n-1]            == 8 K[n-1] + K[n]          */
  predicate ControlRowHolds(points: seq<Point>, p1: seq<Point>, i: nat, ax: Axis)
    requires |points| == |p1| + 1 && |p1| >= 2 && i < |p1|
  {
    var k0, k3 := Coord(points[i], ax), Coord(points[i + 1], ax);
    if i == 0 then
      2.0 * Coord(p1[0], ax) + Coord(p1[1], ax) == k0 + 2.0 * k3
    else if i == |p1| - 1 then
      2.0 * Coord(p1[i - 1], ax) + 7.0 * Coord(p1[i], ax) == 8.0 * k0 + k3
    else
      Coord(p1[i - 1], ax) + 4.0 * Coord(p1[i], ax) + Coord(p1[i + 1], ax) == 4.0 * k0 + 2.0 * k3
  }

  /** p1 (one first control point per segment) solves the system on both axes. */
  predicate SolvesControlSystem(points: seq<Point>, p1: seq<Point>)
  {
    |points| == |p1| + 1 && |p1| >= 2 &&
    forall i :: 0 <= i < |p1| ==> ControlRowHolds(points, p1, i, X) && ControlRowHolds(points, p1, i, Y)
  }

  /** The generic system built from the table is the control-point system. */
  lemma TableSystemIsControlSystem(points: seq<Point>, a: seq<real>, b: seq<real>, c: seq<real>,
                                   rhs: seq<Point>, x: seq<Point>)
    requires IsCoefficientTable(a, b, c) && IsRhsTable(points, rhs) && |a| == |x| == |rhs| >= 2
    ensures Solves(a, b, c, rhs, x) <==> SolvesControlSystem(points, x)
  {
    var n := |x|;
    forall i, ax | 0 <= i < n
      ensures (RowSum(a, b, c, x, i, ax) == Coord(rhs[i], ax)) <==> ControlRowHolds(points, x, i, ax)
    {
      assert (a[i], b[i], c[i]) == RowCoefficients(i, n);
      assert rhs[i] == RowRhs(points[i], points[i + 1], i, n);
    }
    forall i | 0 <= i < n
      ensures RowHolds(a, b, c, rhs, x, i) <==> ControlRowHolds(points, x, i, X) && ControlRowHolds(points, x, i, Y)
    {
      assert Coord(rhs[i], X) == rhs[i].x && Coord(rhs[i], Y) == rhs[i].y;
    }
  }

  function Abs(v: real): real
  {
    if v < 0.0 then -v else v
  }

  /** An index whose entry is largest in absolute value. */
  lemma {:induction false} LargestEntry(e: seq<real>) returns (j: nat)
    requires |e| > 0
    ensures j < |e| && forall i :: 0 <= i < |e| ==> Abs(e[i]) <= Abs(e[j])
  {
    if |e| == 1 {
      j := 0;
    } else {
      var k := LargestEntry(e[..|e| - 1]);
      assert forall i :: 0 <= i < |e| - 1 ==> e[i] == e[..|e| - 1][i];
      j := if Abs(e[|e| - 1]) > Abs(e[k]) then |e| - 1 else k;
    }
  }

  /** Two solutions of the system agree on one axis: their difference solves
      the homogeneous system, whose diagonal (2, 4, 7) outweighs the
      off-diagonal entries of its row, so the largest difference is zero. */
  lemma SolutionsAgreeOnAxis(points: seq<Point>, x: seq<Point>, y: seq<Point>, ax: Axis)
    requires SolvesControlSystem(points, x) && SolvesControlSystem(points, y)
    ensures forall i :: 0 <= i < |x| ==> Coord(x[i], ax) == Coord(y[i], ax)
  {
    var n := |x|;
    var e := seq(n, i requires 0 <= i < n => Coord(x[i], ax) - Coord(y[i], ax));
    var j := LargestEntry(e);
    assert ControlRowHolds(points, x, j, ax) && ControlRowHolds(points, y, j, ax);
    if j == 0 {
      assert 2.0 * e[0] + e[1] == 0.0;
    } else if j == n - 1 {
      assert 2.0 * e[j - 1] + 7.0 * e[j] == 0.0;
    } else {
      assert e[j - 1] + 4.0 * e[j] + e[j + 1] == 0.0;
    }
    assert Abs(e[j]) == 0.0;
    forall i | 0 <= i < n ensures Coord(x[i], ax) == Coord(y[i], ax) {
      assert Abs(e[i]) <= Abs(e[j]);
    }
  }

  /** The system has at most one solution, so it determines the first
      control points completely. */
  lemma ControlSystemSolutionUnique(points: seq<Point>, x: seq<Point>, y: seq<Point>)
    requires SolvesControlSystem(points, x) && SolvesControlSystem(points, y)
    ensures x == y
  {
    SolutionsAgreeOnAxis(points, x, y, X);
    SolutionsAgreeOnAxis(points, x, y, Y);
    forall i | 0 <= i < |x| ensures x[i] == y[i] {
      assert Coord(x[i], X) == Coord(y[i], X) && Coord(x[i], Y) == Coord(y[i], Y);
    }
  }

  // ---------------------------------------------------------------------------
  // Second control points and the smoothness of the joined curve

  /** P2 of every segment but the last is the reflection of the next
      segment's P1 through their shared knot; the last segment's P2 is the
      midpoint of its P1 and the final knot. */
  predicate IsMirrored(points: seq<Point>, p1: seq<Point>, p2: seq<Point>)
  {
    |p1| == |p2| == |points| - 1 &&
    (forall i :: 0 <= i < |p1| - 1 ==>
       p2[i] == Point(2.0 * points[i + 1].x - p1[i + 1].x, 2.0 * points[i + 1].y - p1[i + 1].y)) &&
    (|p1| > 0 ==>
       p2[|p1| - 1] == Point((points[|p1|].x + p1[|p1| - 1].x) / 2.0, (points[|p1|].y + p1[|p1| - 1].y) / 2.0))
  }

  function SegmentOf(points: seq<Point>, p1: seq<Point>, p2: seq<Point>, i: nat): Segment
    requires |p1| == |p2| == |points| - 1 && i < |p1|
  {
    Segment(points[i], p1[i], p2[i], points[i + 1])
  }

  /** Whatever the control points, the joined curve goes through every knot:
      segment i runs from knot i to knot i+1. */
  lemma CurvePassesThroughKnots(points: seq<Point>, p1: seq<Point>, p2: seq<Point>)
    requires |p1| == |p2| == |points| - 1
    ensures forall i :: 0 <= i < |p1| ==>
              At(SegmentOf(points, p1, p2, i), 0.0) == points[i] &&
              At(SegmentOf(points, p1, p2, i), 1.0) == points[i + 1]
  {
  }

  /** The segments form a natural cubic spline: at every interior knot the
      incoming and outgoing segments have the same first and second
      derivatives (C2), and the second derivative vanishes at both ends. */
  predicate IsNaturalSpline(points: seq<Point>, p1: seq<Point>, p2: seq<Point>)
  {
    |p1| == |p2| == |points| - 1 >= 1 &&
    StartAcceleration(SegmentOf(points, p1, p2, 0)) == Origin &&
    EndAcceleration(SegmentOf(points, p1, p2, |p1| - 1)) == Origin &&
    forall i :: 0 <= i < |p1| - 1 ==>
      EndVelocity(SegmentOf(points, p1, p2, i)) == StartVelocity(SegmentOf(points, p1, p2, i + 1)) &&
      EndAcceleration(SegmentOf(points, p1, p2, i)) == StartAcceleration(SegmentOf(points, p1, p2, i + 1))
  }

  /** C1 continuity: at an interior knot the tangents of the two segments
      agree exactly when P2 of the incoming segment and P1 of the outgoing
      one are mirror images about the knot. */
  lemma TangentsAgreeIffMirrored(points: seq<Point>, p1: seq<Point>, p2: seq<Point>, i: nat)
    requires |p1| == |p2| == |points| - 1 && i + 1 < |p1|
    ensures EndVelocity(SegmentOf(points, p1, p2, i)) == StartVelocity(SegmentOf(points, p1, p2, i + 1))
        <==> p2[i] == Point(2.0 * points[i + 1].x - p1[i + 1].x, 2.0 * points[i + 1].y - p1[i + 1].y)
  {
  }

  /** With mirrored second control points, row i of the system says exactly
      that the second derivative is zero at the start (row 0) or continuous
      at knot i (every later row). */
  lemma RowIsCurvatureCondition(points: seq<Point>, p1: seq<Point>, p2: seq<Point>, i: nat)
    requires IsMirrored(points, p1, p2) && |p1| >= 2 && i < |p1|
    ensures ControlRowHolds(points, p1, i, X) && ControlRowHolds(points, p1, i, Y)
        <==> if i == 0 then StartAcceleration(SegmentOf(points, p1, p2, 0)) == Origin
             else EndAcceleration(SegmentOf(points, p1, p2, i - 1)) == StartAcceleration(SegmentOf(points, p1, p2, i))
  {
    var n := |p1|;
    if i == 0 {
      assert p2[0] == Point(2.0 * points[1].x - p1[1].x, 2.0 * points[1].y - p1[1].y);
    } else if i == n - 1 {
      assert p2[i - 1] == Point(2.0 * points[i].x - p1[i].x, 2.0 * points[i].y - p1[i].y);
    } else {
      assert p2[i - 1] == Point(2.0 * points[i].x - p1[i].x, 2.0 * points[i].y - p1[i].y);
      assert p2[i] == Point(2.0 * points[i + 1].x - p1[i + 1].x, 2.0 * points[i + 1].y - p1[i + 1].y);
    }
  }

  /** The system solved for the first control points is exactly the natural
      C2 spline condition once the second control points are mirrored: the
      system holds if and only if the curve is a natural spline. */
  lemma SystemIffNaturalSpline(points: seq<Point>, p1: seq<Point>, p2: seq<Point>)
    requires IsMirrored(points, p1, p2) && |p1| >= 2
    ensures SolvesControlSystem(points, p1) <==> IsNaturalSpline(points, p1, p2)
  {
    var n := |p1|;
    forall i | 0 <= i < n
      ensures ControlRowHolds(points, p1, i, X) && ControlRowHolds(points, p1, i, Y)
          <==> if i == 0 then StartAcceleration(SegmentOf(points, p1, p2, 0)) == Origin
               else EndAcceleration(SegmentOf(points, p1, p2, i - 1)) == StartAcceleration(SegmentOf(points, p1, p2, i))
    {
      RowIsCurvatureCondition(points, p1, p2, i);
    }
    forall i | 0 <= i < n - 1
      ensures EndVelocity(SegmentOf(points, p1, p2, i)) == StartVelocity(SegmentOf(points, p1, p2, i + 1))
    {
      TangentsAgreeIffMirrored(points, p1, p2, i);
    }
    assert EndAcceleration(SegmentOf(points, p1, p2, n - 1)) == Origin;
    if SolvesControlSystem(points, p1) {
      assert ControlRowHolds(points, p1, 0, X) && ControlRowHolds(points, p1, 0, Y);
      forall i | 0 <= i < n - 1
        ensures EndAcceleration(SegmentOf(points, p1, p2, i)) == StartAcceleration(SegmentOf(points, p1, p2, i + 1))
      {
        assert ControlRowHolds(points, p1, i + 1, X) && ControlRowHolds(points, p1, i + 1, Y);
      }
    }
    if IsNaturalSpline(points, p1, p2) {
      forall i | 0 <= i < n
        ensures ControlRowHolds(points, p1, i, X) && ControlRowHolds(points, p1, i, Y)
      {
        if i > 0 {
          assert EndAcceleration(SegmentOf(points, p1, p2, i - 1)) == StartAcceleration(SegmentOf(points, p1, p2, i));
        }
      }
    }
  }

  // ---------------------------------------------------------------------------
  // The two-point closed form

  /** One segment: 3 P1 = 2 P0 + P3 and P2 = 2 P1 - P0, so P1 and P2 divide
      the chord from P0 to P3 into thirds. */
  function TwoPointControlPoints(p0: Point, p3: Point): (r: (Point, Point))
    ensures r.0 == Add(p0, Scale(1.0 / 3.0, Sub(p3, p0)))
    ensures r.1 == Add(p0, Scale(2.0 / 3.0, Sub(p3, p0)))
  {
    var p1x := (2.0 * p0.x + p3.x) / 3.0;
    var p1y := (2.0 * p0.y + p3.y) / 3.0;
    (Point(p1x, p1y), Point(2.0 * p1x - p0.x, 2.0 * p1y - p0.y))
  }

  /** The closed form is the one-segment natural spline: its second
      derivative vanishes at both knots. */
  lemma TwoPointIsNaturalSpline(p0: Point, p3: Point)
    ensures var (p1, p2) := TwoPointControlPoints(p0, p3);
            IsNaturalSpline([p0, p3], [p1], [p2])
  {
  }

  /** One coordinate of the chord identity: with the closed-form control
      coordinates c1 = (2a + b)/3 and c2 = (a + 2b)/3 the cubic blend is the
      linear one, (1-t) a + t b. */
  lemma ChordCoordinate(a: real, c1: real, c2: real, b: real, t: real)
    requires c1 == (2.0 * a + b) / 3.0 && c2 == (a + 2.0 * b) / 3.0
    ensures Blend(a, c1, c2, b, t) == (1.0 - t) * a + t * b
  {
  }

  /** The closed form traces the straight chord from P0 to P3. */
  lemma TwoPointIsChord(p0: Point, p3: Point, t: real)
    ensures var (p1, p2) := TwoPointControlPoints(p0, p3);
            At(Segment(p0, p1, p2, p3), t) == Add(Scale(1.0 - t, p0), Scale(t, p3))
  {
    var (p1, p2) := TwoPointControlPoints(p0, p3);
    ChordCoordinate(p0.x, p1.x, p2.x, p3.x, t);
    ChordCoordinate(p0.y, p1.y, p2.y, p3.y, t);
  }

  /** The worked example: knots (0,0) and (9,0) give P1 = (3,0) and P2 = (6,0). */
  lemma TwoPointExample()
    ensures TwoPointControlPoints(Point(0.0, 0.0), Point(9.0, 0.0)) == (Point(3.0, 0.0), Point(6.0, 0.0))
  {
  }

  // ---------------------------------------------------------------------------
  // The steps of the solver

  /** Lines 55-89: one row per segment, appended in order. */
  method BuildSystem(points: seq<Point>) returns (a: seq<real>, b: seq<real>, c: seq<real>, rhs: seq<Point>)
    requires |points| >= 1
    ensures |a| == |points| - 1
    ensures IsCoefficientTable(a, b, c)
    ensures IsRhsTable(points, rhs)
  {
    var count := |points| - 1;
    a, b, c, rhs := [], [], [], [];
    for i := 0 to count
      invariant |a| == |b| == |c| == |rhs| == i
      invariant forall k :: 0 <= k < i ==> (a[k], b[k], c[k]) == RowCoefficients(k, count)
      invariant forall k :: 0 <= k < i ==> rhs[k] == RowRhs(points[k], points[k + 1], k, count)
    {
      var rhsX: real, rhsY: real;
      var p0, p3 := points[i], points[i + 1];
      if i == 0 {
        a, b, c := a + [0.0], b + [2.0], c + [1.0];
        rhsX := p0.x + 2.0 * p3.x;
        rhsY := p0.y + 2.0 * p3.y;
      } else if i == count - 1 {
        a, b, c := a + [2.0], b + [7.0], c + [0.0];
        rhsX := 8.0 * p0.x + p3.x;
        rhsY := 8.0 * p0.y + p3.y;
      } else {
        a, b, c := a + [1.0], b + [4.0], c + [1.0];
        rhsX := 4.0 * p0.x + 2.0 * p3.x;
        rhsY := 4.0 * p0.y + 2.0 * p3.y;
      }
      rhs := rhs + [Point(rhsX, rhsY)];
    }
  }

  /** Lines 93-109: forward elimination. Only b[i] and rhs[i] for i >= 1 are
      replaced (a, c, b[0] and rhs[0] stay as they were), and every pivot ends
      at least 2, so each division the solver makes is defined. */
  method ForwardSweep(a: seq<real>, b: seq<real>, c: seq<real>, rhs: seq<Point>)
    returns (pivots: seq<real>, sweptRhs: seq<Point>)
    requires IsCoefficientTable(a, b, c) && |rhs| == |b|
    ensures IsForwardSweep(a, b, c, rhs, pivots, sweptRhs)
    ensures forall i :: 0 <= i < |pivots| ==> pivots[i] >= 2.0
  {
    var count := |b|;
    pivots, sweptRhs := b, rhs;
    var i := 1;
    while i < count
      invariant 1 <= i && (i <= count || count == 0)
      invariant |pivots| == count && |sweptRhs| == count
      invariant forall k :: i <= k < count ==> pivots[k] == b[k] && sweptRhs[k] == rhs[k]
      invariant count > 0 ==> pivots[0] == b[0] && sweptRhs[0] == rhs[0]
      invariant forall k :: 0 <= k < i && k < count ==> pivots[k] >= 2.0
      invariant forall k :: 1 <= k < i && k < count ==>
                  pivots[k - 1] != 0.0 && EliminatedRow(a, b, c, rhs, pivots, sweptRhs, k)
    {
      assert (a[i], b[i], c[i]) == RowCoefficients(i, count);
      assert (a[i - 1], b[i - 1], c[i - 1]) == RowCoefficients(i - 1, count);
      var rhsX, rhsY := sweptRhs[i].x, sweptRhs[i].y;
      var prevRhsX, prevRhsY := sweptRhs[i - 1].x, sweptRhs[i - 1].y;
      var m := a[i] / pivots[i - 1];
      assert 0.0 <= m <= 1.0;
      var b1 := pivots[i] - m * c[i - 1];
      assert c[i - 1] == 1.0 && pivots[i] >= 4.0;
      assert b1 >= 2.0;
      ghost var oldPivots, oldRhs := pivots, sweptRhs;
      pivots := pivots[i := b1];
      var r2x := rhsX - m * prevRhsX;
      var r2y := rhsY - m * prevRhsY;
      sweptRhs := sweptRhs[i := Point(r2x, r2y)];
      assert EliminatedRow(a, b, c, rhs, pivots, sweptRhs, i);
      forall k | 1 <= k < i
        ensures pivots[k - 1] != 0.0 && EliminatedRow(a, b, c, rhs, pivots, sweptRhs, k)
      {
        EliminatedRowFrame(a, b, c, rhs, oldPivots, oldRhs, pivots, sweptRhs, k);
      }
      i := i + 1;
    }
  }

  predicate AllPresent(s: seq<Option<Point>>)
  {
    forall i :: 0 <= i < |s| ==> s[i].Some?
  }

  /** The points of a list that holds no null. */
  function Values(s: seq<Option<Point>>): (r: seq<Point>)
    requires AllPresent(s)
    ensures |r| == |s| && forall i :: 0 <= i < |s| ==> s[i] == Some(r[i])
  {
    seq(|s|, i requires 0 <= i < |s| => s[i].value)
  }

  /** Lines 113-126: back substitution into the pre-sized list, from the last
      slot down. Every slot ends filled, and the points solve the eliminated
      system. */
  method BackSubstitute(pivots: seq<real>, c: seq<real>, sweptRhs: seq<Point>, first: seq<Option<Point>>)
    returns (solved: seq<Option<Point>>)
    requires |pivots| == |c| == |sweptRhs| == |first| >= 1
    requires forall i :: 0 <= i < |pivots| ==> pivots[i] != 0.0
    ensures |solved| == |first| && AllPresent(solved)
    ensures SolvesReduced(pivots, c, sweptRhs, Values(solved))
  {
    var count := |pivots|;
    ghost var xs: seq<Point> := seq(count, _ => Origin);
    var lastX := sweptRhs[count - 1].x / pivots[count - 1];
    var lastY := sweptRhs[count - 1].y / pivots[count - 1];
    solved := first[count - 1 := Some(Point(lastX, lastY))];
    xs := xs[count - 1 := Point(lastX, lastY)];
    assert ReducedRowHolds(pivots, c, sweptRhs, xs, count - 1);
    var i := count - 2;
    while i >= 0
      invariant -1 <= i <= count - 2
      invariant |solved| == count && |xs| == count
      invariant forall k :: i < k < count ==> solved[k] == Some(xs[k])
      invariant forall k :: i < k < count ==> ReducedRowHolds(pivots, c, sweptRhs, xs, k)
    {
      var nextControlPoint := solved[i + 1];
      if nextControlPoint.Some? {
        var controlPointX := (sweptRhs[i].x - c[i] * nextControlPoint.value.x) / pivots[i];
        var controlPointY := (sweptRhs[i].y - c[i] * nextControlPoint.value.y) / pivots[i];
        ghost var oldXs := xs;
        solved := solved[i := Some(Point(controlPointX, controlPointY))];
        xs := xs[i := Point(controlPointX, controlPointY)];
        assert ReducedRowHolds(pivots, c, sweptRhs, xs, i);
        forall k | i < k < count ensures ReducedRowHolds(pivots, c, sweptRhs, xs, k) {
          assert ReducedRowHolds(pivots, c, sweptRhs, oldXs, k);
          assert xs[k] == oldXs[k] && (k + 1 < count ==> xs[k + 1] == oldXs[k + 1]);
          assert ReducedRowSum(pivots, c, xs, k, X) == ReducedRowSum(pivots, c, oldXs, k, X);
          assert ReducedRowSum(pivots, c, xs, k, Y) == ReducedRowSum(pivots, c, oldXs, k, Y);
        }
      }
      i := i - 1;
    }
    assert Values(solved) == xs;
  }

  /** Lines 130-156: the second control points, appended in order; a slot
      whose needed first control point is null is skipped. With no nulls
      every segment gets its mirrored P2. */
  method DeriveSecondControlPoints(points: seq<Point>, first: seq<Option<Point>>)
    returns (second: seq<Point>)
    requires |first| == |points| - 1
    ensures |second| <= |first|
    ensures AllPresent(first) ==> IsMirrored(points, Values(first), second)
  {
    var count := |first|;
    second := [];
    for i := 0 to count
      invariant |second| <= i
      invariant AllPresent(first) ==> |second| == i
      invariant AllPresent(first) ==> forall k :: 0 <= k < i && k < count - 1 ==>
                  second[k] == Point(2.0 * points[k + 1].x - first[k + 1].value.x,
                                     2.0 * points[k + 1].y - first[k + 1].value.y)
      invariant AllPresent(first) && i == count && count > 0 ==>
                  second[count - 1] == Point((points[count].x + first[count - 1].value.x) / 2.0,
                                             (points[count].y + first[count - 1].value.y) / 2.0)
    {
      if i == count - 1 {
        var p3 := points[i + 1];
        var p1 := first[i];
        if p1.None? {
          continue;
        }
        var controlPointX := (p3.x + p1.value.x) / 2.0;
        var controlPointY := (p3.y + p1.value.y) / 2.0;
        second := second + [Point(controlPointX, controlPointY)];
      } else {
        var p3 := points[i + 1];
        var nextP1 := first[i + 1];
        if nextP1.None? {
          continue;
        }
        var controlPointX := 2.0 * p3.x - nextP1.value.x;
        var controlPointY := 2.0 * p3.y - nextP1.value.y;
        second := second + [Point(controlPointX, controlPointY)];
      }
    }
  }

  // ---------------------------------------------------------------------------
  // The result map

  /** The distinct points of a sequence. */
  function KnotSet(s: seq<Point>): set<Point>
  {
    set p | p in s
  }

  /** No later segment ends at the knot that ends segment i. */
  predicate EndsLast(points: seq<Point>, i: nat)
    requires i + 1 < |points|
  {
    forall j :: i + 1 < j < |points| ==> points[j] != points[i + 1]
  }

  /** The map keys every segment by its leading knot points[i+1]; where
      several segments end at equal knots, the latest segment's pair wins. */
  predicate IsSegmentMap(points: seq<Point>, first: seq<Option<Point>>, second: seq<Point>,
                         m: map<Point, ControlPair>)
    requires |points| >= 1 && |first| >= |points| - 1 && |second| >= |points| - 1
  {
    m.Keys == KnotSet(points[1..]) &&
    forall i :: 0 <= i < |points| - 1 && EndsLast(points, i) ==>
      m[points[i + 1]] == ControlPair(first[i], second[i])
  }

  /** Lines 161-167: one `put` per segment, in segment order. */
  method BuildMap(points: seq<Point>, first: seq<Option<Point>>, second: seq<Point>)
    returns (m: map<Point, ControlPair>)
    requires |points| >= 1 && |first| >= |points| - 1 && |second| >= |points| - 1
    ensures IsSegmentMap(points, first, second, m)
  {
    var count := |points| - 1;
    m := map[];
    for i := 0 to count
      invariant m.Keys == KnotSet(points[1..i + 1])
      invariant forall k :: 0 <= k < i && (forall j :: k + 1 < j <= i ==> points[j] != points[k + 1]) ==>
                  m[points[k + 1]] == ControlPair(first[k], second[k])
    {
      assert points[1..i + 2] == points[1..i + 1] + [points[i + 1]];
      m := m[points[i + 1] := ControlPair(first[i], second[i])];
    }
    assert points[1..count + 1] == points[1..];
  }

  predicate IsDistinct(s: seq<Point>)
  {
    forall i, j :: 0 <= i < j < |s| ==> s[i] != s[j]
  }

  /** A sequence has as many different elements as entries exactly when no
      element repeats. */
  lemma {:induction false} DistinctElementsCount(s: seq<Point>)
    ensures |KnotSet(s)| <= |s|
    ensures |KnotSet(s)| == |s| <==> IsDistinct(s)
  {
    if |s| > 0 {
      DistinctElementsCount(s[1..]);
      var rest := KnotSet(s[1..]);
      assert KnotSet(s) == rest + {s[0]};
      if s[0] in rest {
        var j :| 0 <= j < |s[1..]| && s[1..][j] == s[0];
        assert s[0] == s[j + 1];
      } else {
        if IsDistinct(s[1..]) {
          forall i, j | 0 <= i < j < |s| ensures s[i] != s[j] {
            if i > 0 {
              assert s[i] == s[1..][i - 1] && s[j] == s[1..][j - 1];
            } else {
              assert s[j] == s[1..][j - 1];
            }
          }
        }
        if IsDistinct(s) {
          forall i, j | 0 <= i < j < |s[1..]| ensures s[1..][i] != s[1..][j] {
            assert s[1..][i] == s[i + 1] && s[1..][j] == s[j + 1];
          }
        }
      }
    }
  }

  /** The map has one entry per segment exactly when the leading knots are
      pairwise distinct, and then every segment's own pair is in it. */
  lemma SegmentMapSize(points: seq<Point>, first: seq<Option<Point>>, second: seq<Point>,
                       m: map<Point, ControlPair>)
    requires |points| >= 1 && |first| >= |points| - 1 && |second| >= |points| - 1
    requires IsSegmentMap(points, first, second, m)
    ensures |m| == |points| - 1 <==> IsDistinct(points[1..])
    ensures IsDistinct(points[1..]) ==>
              forall i :: 0 <= i < |points| - 1 ==> m[points[i + 1]] == ControlPair(first[i], second[i])
  {
    DistinctElementsCount(points[1..]);
    assert |m| == |m.Keys|;
    if IsDistinct(points[1..]) {
      forall i | 0 <= i < |points| - 1 ensures EndsLast(points, i) {
        forall j | i + 1 < j < |points| ensures points[j] != points[i + 1] {
          assert points[1..][i] == points[i + 1] && points[1..][j - 1] == points[j];
        }
      }
    }
  }

  // ---------------------------------------------------------------------------
  // The whole solver

  /** Lines 26-168. Fewer than two knots raise the exception the Java code
      raises; two knots use the closed form, whose P1 is appended after the
      null that createFilledList(1) left at index 0, so the map's single
      entry has a null first control point; three or more knots solve the
      tridiagonal system. The ghost results are the two intermediate lists. */
  method GenerateControlPoints(points: seq<Point>)
    returns (r: Result<map<Point, ControlPair>, Exception>,
             ghost firstControlPoints: seq<Option<Point>>, ghost secondControlPoints: seq<Point>)
    ensures |points| == 0 <==> r == Failure(IllegalArgument(-1))
    ensures |points| == 1 <==> r == Failure(IndexOutOfBounds(-1))
    ensures |points| >= 2 ==>
              r.Success? && |firstControlPoints| >= |points| - 1 && |secondControlPoints| >= |points| - 1 &&
              IsSegmentMap(points, firstControlPoints, secondControlPoints, r.value)
    ensures |points| == 2 ==>
              var (p1, p2) := TwoPointControlPoints(points[0], points[1]);
              firstControlPoints == [None, Some(p1)] && secondControlPoints == [p2] &&
              r.value == map[points[1] := ControlPair(None, p2)]
    ensures |points| >= 2 ==> (|r.value| == |points| - 1 <==> IsDistinct(points[1..]))
    ensures |points| >= 3 ==>
              AllPresent(firstControlPoints) &&
              SolvesControlSystem(points, Values(firstControlPoints)) &&
              IsMirrored(points, Values(firstControlPoints), secondControlPoints) &&
              IsNaturalSpline(points, Values(firstControlPoints), secondControlPoints)
  {
    var count := |points| - 1;
    var filled := CreateNullFilledList<Point>(count);
    if filled.Failure? {
      r, firstControlPoints, secondControlPoints := Failure(filled.error), [], [];
      return;
    }
    var first := filled.value;
    var second: seq<Point> := [];
    if count == 1 {
      var (p1, p2) := TwoPointControlPoints(points[0], points[1]);
      first := first + [Some(p1)];
      second := second + [p2];
    } else {
      var a, b, c, rhs := BuildSystem(points);
      var pivots, sweptRhs := ForwardSweep(a, b, c, rhs);
      if count - 1 < 0 {
        r, firstControlPoints, secondControlPoints := Failure(IndexOutOfBounds(count - 1)), first, second;
        return;
      }
      first := BackSubstitute(pivots, c, sweptRhs, first);
      ThomasEquivalence(a, b, c, rhs, pivots, sweptRhs, Values(first));
      TableSystemIsControlSystem(points, a, b, c, rhs, Values(first));
      second := DeriveSecondControlPoints(points, first);
      SystemIffNaturalSpline(points, Values(first), second);
    }
    var m := BuildMap(points, first, second);
    if count == 1 {
      assert EndsLast(points, 0);
      assert KnotSet(points[1..]) == {points[1]};
    }
    SegmentMapSize(points, first, second, m);
    r, firstControlPoints, secondControlPoints := Success(m), first, second;
  }
}
