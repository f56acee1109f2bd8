# Bezier control-point solver, modelled in Dafny

This project models `ControlPointGenerator.generateControlPoints` from the
Android Bezier demo, together with the helper `CollectionUtils.createFilledList`
that it uses. Given knots `points[0] .. points[n]`, the solver finds two Bezier
control points for each segment `i` (from `points[i]` to `points[i+1]`):

* P1 is the control point next to the segment's trailing knot P0 = `points[i]`.
* P2 is the control point next to its leading knot P3 = `points[i+1]`.

"Trailing" and "leading" follow the Java doc comment, which calls P0 the
trailing point and P3 the leading point.

The resulting piecewise cubic passes through every knot and joins smoothly.
The result is a map keyed by each segment's leading knot.

The model follows the Java code step by step. Each step is a method with loop
invariants over sequences, and each Java list is a sequence value that the step
reassigns:

* `BuildSystem` appends one row of the tridiagonal system per segment.
* `ForwardSweep` is the elimination half of the Thomas algorithm. It replaces
  pivots and right-hand sides one index at a time.
* `BackSubstitute` fills the pre-sized null list from the last slot down.
* `DeriveSecondControlPoints` appends the P2 points.
* `BuildMap` puts one entry per segment.

`GenerateControlPoints` strings these steps together. With fewer than two
knots it raises the same exceptions the Java method raises, as `Result.Failure`:

* With no knots, `createFilledList(-1)` makes `Collections.nCopies` throw
  `IllegalArgumentException`.
* With one knot, `count` is 0, so `createFilledList(0)` succeeds. The build and
  sweep loops do nothing, and `rhsPoints.get(-1)` at line 113 throws
  `IndexOutOfBoundsException`.

The method's two ghost results are the intermediate lists `firstControlPoints`
and `secondControlPoints`. They exist only so that its contract can state what
the solver computed.

What is proved:

* **The system.** The rows have the coefficients (0,2,1), (1,4,1) and (2,7,0)
  and the stated right-hand sides. After elimination every pivot is at least 2,
  so every division is defined. The solution satisfies the original system, and
  this follows from the Thomas algorithm's correctness: after elimination, the
  eliminated and the original systems have exactly the same solutions. The
  system also has only one solution.
* **The curve.** Each P2 mirrors the next segment's P1 about the shared knot.
  For the last segment, P2 is the midpoint of P1 and the final knot. Under that
  mirror rule, the system holds if and only if the curve is a natural cubic
  spline:
  * first and second derivatives agree at every interior knot (C1 and C2);
  * the second derivative is zero at both ends.
* **The map.** Every leading knot is a key. When several segments end at equal
  knots, the latest segment wins. The map has one entry per segment exactly when
  the leading knots are pairwise distinct.
* **Two knots.** The closed form puts P1 and P2 at the thirds of the chord, and
  the segment is then the straight chord. The code appends P1 after the null
  that `createFilledList(1)` left at index 0, and line 164 reads index 0. So the
  map's single entry has a null first control point, although the doc comment at
  lines 19-21 promises P1 there. The model keeps the code's behaviour.

`Point` is a datatype of two reals with value equality. The Java `float`
arithmetic is modelled over `real`.

## Model

| member | source | states |
|---|---|---|
| `CollectionUtils.CreateFilledList` | app/src/main/java/com/coalminesoftware/bezier/CollectionUtils.java:17-22 | fails with IllegalArgument(count) exactly when count is negative; otherwise the list has exactly count entries, each equal to value |
| `CollectionUtils.CreateNullFilledList` | app/src/main/java/com/coalminesoftware/bezier/CollectionUtils.java:10-15 | is the two-argument overload with null: fails exactly on a negative count, otherwise count entries, all null |
| `CubicBezier.PassesThroughKnots` | app/src/main/java/com/coalminesoftware/bezier/ControlPointGenerator.java:13-14 | a cubic segment starts at its trailing knot P0 and ends at its leading knot P3 |
| `ControlPointGenerator.CurvePassesThroughKnots` | app/src/main/java/com/coalminesoftware/bezier/ControlPointGenerator.java:13-14 | whatever the control points, segment i of the joined curve starts at knot i and ends at knot i+1, so the curve goes through every data point |
| `Tridiagonal.ResidualStep` | app/src/main/java/com/coalminesoftware/bezier/ControlPointGenerator.java:93-109 | the residual of an original row is the residual of its eliminated row plus the multiplier times the previous eliminated row's residual |
| `Tridiagonal.PrefixEquivalence` | app/src/main/java/com/coalminesoftware/bezier/ControlPointGenerator.java:91-126 | on every prefix of rows, the eliminated rows hold exactly when the original rows hold |
| `Tridiagonal.ThomasEquivalence` | app/src/main/java/com/coalminesoftware/bezier/ControlPointGenerator.java:91-126 | after forward elimination, a vector solves the eliminated system if and only if it solves the original tridiagonal system |
| `ControlPointGenerator.TableSystemIsControlSystem` | app/src/main/java/com/coalminesoftware/bezier/ControlPointGenerator.java:55-89 | the generic system built from the coefficient table is, row by row, 2x0+x1 = K0+2K1, x(i-1)+4x(i)+x(i+1) = 4Ki+2K(i+1), 2x(n-2)+7x(n-1) = 8K(n-1)+Kn, on each axis |
| `ControlPointGenerator.SolutionsAgreeOnAxis` | app/src/main/java/com/coalminesoftware/bezier/ControlPointGenerator.java:55-89 | two solutions of the control-point system have equal coordinates on a given axis, because the diagonal dominates every row |
| `ControlPointGenerator.ControlSystemSolutionUnique` | app/src/main/java/com/coalminesoftware/bezier/ControlPointGenerator.java:91-126 | the system has at most one solution, so the first control points the solver returns are fully determined by the knots |
| `ControlPointGenerator.TangentsAgreeIffMirrored` | app/src/main/java/com/coalminesoftware/bezier/ControlPointGenerator.java:143-155 | at an interior knot the incoming and outgoing tangents are equal exactly when P2 of the incoming segment mirrors P1 of the outgoing one about the knot (C1) |
| `ControlPointGenerator.RowIsCurvatureCondition` | app/src/main/java/com/coalminesoftware/bezier/ControlPointGenerator.java:55-89 | with mirrored P2, row 0 holds exactly when the curve's second derivative is zero at the first knot, and row i > 0 exactly when the second derivative is continuous at knot i |
| `ControlPointGenerator.SystemIffNaturalSpline` | app/src/main/java/com/coalminesoftware/bezier/ControlPointGenerator.java:55-156 | with mirrored P2, the first control points solve the system if and only if the curve is a natural C2 spline: C1 and C2 at every interior knot and zero second derivative at both ends |
| `ControlPointGenerator.TwoPointControlPoints` | app/src/main/java/com/coalminesoftware/bezier/ControlPointGenerator.java:36-45 | P1 and P2 of the single segment lie one third and two thirds of the way along the chord from P0 to P3 |
| `ControlPointGenerator.TwoPointIsNaturalSpline` | app/src/main/java/com/coalminesoftware/bezier/ControlPointGenerator.java:36-45 | the two-point closed form is the one-segment natural spline: zero second derivative at both knots |
| `ControlPointGenerator.TwoPointIsChord` | app/src/main/java/com/coalminesoftware/bezier/ControlPointGenerator.java:36-45 | with the closed-form control points the segment at every t is the point (1-t)P0 + tP3 of the straight chord |
| `ControlPointGenerator.TwoPointExample` | app/src/main/java/com/coalminesoftware/bezier/ControlPointGenerator.java:38-45 | knots (0,0) and (9,0) give P1 = (3,0) and P2 = (6,0) |
| `ControlPointGenerator.BuildSystem` | app/src/main/java/com/coalminesoftware/bezier/ControlPointGenerator.java:55-89 | the a, b, c and right-hand-side lists have exactly count entries; row 0 is (0,2,1) with P0+2P3, the last row (2,7,0) with 8P0+P3, every other row (1,4,1) with 4P0+2P3 |
| `ControlPointGenerator.ForwardSweep` | app/src/main/java/com/coalminesoftware/bezier/ControlPointGenerator.java:93-109 | keeps b[0] and rhs[0] and eliminates each later row against the previous one; every resulting pivot is at least 2, so the divisions at lines 100, 113 and 121-122 are defined |
| `ControlPointGenerator.BackSubstitute` | app/src/main/java/com/coalminesoftware/bezier/ControlPointGenerator.java:113-126 | every slot of the pre-sized list ends non-null, and the points solve the eliminated upper-bidiagonal system on both axes |
| `ControlPointGenerator.DeriveSecondControlPoints` | app/src/main/java/com/coalminesoftware/bezier/ControlPointGenerator.java:130-156 | never more P2 than segments; with no null P1 there is one P2 per segment, each the mirror of the next P1 about the shared knot and the last one the midpoint of its P1 and the final knot |
| `ControlPointGenerator.BuildMap` | app/src/main/java/com/coalminesoftware/bezier/ControlPointGenerator.java:161-167 | the keys are exactly the leading knots; each key maps to the (P1, P2) pair of the last segment that ends there |
| `ControlPointGenerator.SegmentMapSize` | app/src/main/java/com/coalminesoftware/bezier/ControlPointGenerator.java:161-167 | the map has one entry per segment if and only if the leading knots are pairwise distinct, and then every segment's own pair is stored under its knot |
| `ControlPointGenerator.GenerateControlPoints` | app/src/main/java/com/coalminesoftware/bezier/ControlPointGenerator.java:26-168 | no knots: IllegalArgument; one knot: IndexOutOfBounds(-1); two knots: the single entry is (null, closed-form P2) with the P1 list [null, P1]; three or more: no null P1, P1 solves the system, P2 is mirrored, the curve is a natural C2 spline, and the map is keyed by leading knots with count entries exactly when they are distinct |

## Left out

- IEEE single-precision rounding of the Java `float` arithmetic: every computation is over exact reals. No error bounds are stated.
- `Point.equals` and `Point.hashCode` are not part of this model. Points are assumed to compare by coordinate value, as a datatype does. `HashMap` hashing and iteration order are not modelled; the result is a Dafny `map`.
- `android.util.Pair` becomes `ControlPair`. Its `second` is a plain point because the second-control-point list only ever receives non-null points.
- CollectionUtils.CreateFilledList: returns a sequence value, so "a fresh, modifiable `ArrayList`" carries no separate meaning. An update `s[i := v]` changes only index i and keeps the length by the semantics of sequences. Aliasing between lists does not arise.
- ControlPointGenerator.DeriveSecondControlPoints: when the first-control-point list holds a null, the contract only bounds the number of P2 points. It does not say which segments were skipped. The solver never passes such a list, as `BackSubstitute` proves.
- A null `dataPoints` list or a null knot: the Java method throws `NullPointerException` at line 27 or at the first coordinate read (line 38 or 68). The model's `seq<Point>` cannot be null or hold null, so these error paths are excluded by the types.
- The Java exceptions carry their type and the offending length or index, not their message text.
- Both `BezierView` classes (Android drawing, layout and view plumbing) and `BezierUtils`, whose source is not available, are not part of this model.
