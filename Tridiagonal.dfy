/** A tridiagonal linear system whose unknowns and right-hand sides are
    points, solved on each axis separately with the same coefficients. Row i
    reads

      a[i] * x[i-1] + b[i] * x[i] + c[i] * x[i+1] == r[i]

    where the neighbours outside 0 .. n-1 are absent. Forward elimination (the
    first half of the Thomas algorithm) turns it into the upper-bidiagonal
    system b'[i] * x[i] + c[i] * x[i+1] == r'[i]; this module proves that the
    two systems have exactly the same solutions. */
module Tridiagonal {
  import opened Geometry

  /** Left-hand side of row i of the original system, on one axis. */
  function RowSum(a: seq<real>, b: seq<real>, c: seq<real>, x: seq<Point>, i: nat, ax: Axis): real
    requires |a| == |b| == |c| == |x| && i < |x|
  {
    (if i > 0 then a[i] * Coord(x[i - 1], ax) else 0.0)
    + b[i] * Coord(x[i], ax)
    + (if i + 1 < |x| then c[i] * Coord(x[i + 1], ax) else 0.0)
  }

  /** Left-hand side of row i of the eliminated (upper-bidiagonal) system, on one axis. */
  function ReducedRowSum(d: seq<real>, c: seq<real>, x: seq<Point>, i: nat, ax: Axis): real
    requires |d| == |c| == |x| && i < |x|
  {
    d[i] * Coord(x[i], ax) + (if i + 1 < |x| then c[i] * Coord(x[i + 1], ax) else 0.0)
  }

  predicate RowHolds(a: seq<real>, b: seq<real>, c: seq<real>, r: seq<Point>, x: seq<Point>, i: nat)
    requires |a| == |b| == |c| == |r| == |x| && i < |x|
  {
    RowSum(a, b, c, x, i, X) == r[i].x && RowSum(a, b, c, x, i, Y) == r[i].y
  }

  predicate ReducedRowHolds(d: seq<real>, c: seq<real>, s: seq<Point>, x: seq<Point>, i: nat)
    requires |d| == |c| == |s| == |x| && i < |x|
  {
    ReducedRowSum(d, c, x, i, X) == s[i].x && ReducedRowSum(d, c, x, i, Y) == s[i].y
  }

  /** x solves the original system on both axes. */
  predicate Solves(a: seq<real>, b: seq<real>, c: seq<real>, r: seq<Point>, x: seq<Point>)
  {
    |a| == |b| == |c| == |r| == |x| &&
    forall i :: 0 <= i < |x| ==> RowHolds(a, b, c, r, x, i)
  }

  /** x solves the eliminated system on both axes. */
  predicate SolvesReduced(d: seq<real>, c: seq<real>, s: seq<Point>, x: seq<Point>)
  {
    |d| == |c| == |s| == |x| &&
    forall i :: 0 <= i < |x| ==> ReducedRowHolds(d, c, s, x, i)
  }

  /** Row i >= 1 after elimination: the original row minus m = a[i] / d[i-1]
      times the eliminated row i-1, which clears its sub-diagonal entry. */
  predicate EliminatedRow(a: seq<real>, b: seq<real>, c: seq<real>, r: seq<Point>,
                          d: seq<real>, s: seq<Point>, i: nat)
    requires |a| == |b| == |c| == |r| == |d| == |s| && 1 <= i < |b| && d[i - 1] != 0.0
  {
    var m := a[i] / d[i - 1];
    d[i] == b[i] - m * c[i - 1] &&
    s[i] == Point(r[i].x - m * s[i - 1].x, r[i].y - m * s[i - 1].y)
  }

  /** Eliminated row k depends only on entries k-1 and k of d and s. */
  lemma EliminatedRowFrame(a: seq<real>, b: seq<real>, c: seq<real>, r: seq<Point>,
                           d: seq<real>, s: seq<Point>, d': seq<real>, s': seq<Point>, k: nat)
    requires |a| == |b| == |c| == |r| == |d| == |s| == |d'| == |s'| && 1 <= k < |b| && d[k - 1] != 0.0
    requires d'[k - 1] == d[k - 1] && d'[k] == d[k] && s'[k - 1] == s[k - 1] && s'[k] == s[k]
    requires EliminatedRow(a, b, c, r, d, s, k)
    ensures d'[k - 1] != 0.0 && EliminatedRow(a, b, c, r, d', s', k)
  {
  }

  /** (d, s) is what forward elimination makes of the diagonal b and the
      right-hand sides r: row 0 is kept, every later row is eliminated
      against the one before it, and no pivot is zero. */
  predicate IsForwardSweep(a: seq<real>, b: seq<real>, c: seq<real>, r: seq<Point>,
                           d: seq<real>, s: seq<Point>)
  {
    |a| == |b| == |c| == |r| == |d| == |s| &&
    (|b| > 0 ==> d[0] == b[0] && s[0] == r[0]) &&
    forall i :: 1 <= i < |b| ==> d[i - 1] != 0.0 && EliminatedRow(a, b, c, r, d, s, i)
  }

  /** The residual of original row i is the residual of eliminated row i plus
      m times the residual of eliminated row i-1. */
  lemma ResidualStep(a: seq<real>, b: seq<real>, c: seq<real>, r: seq<Point>,
                     d: seq<real>, s: seq<Point>, x: seq<Point>, i: nat, ax: Axis)
    requires IsForwardSweep(a, b, c, r, d, s) && |x| == |b| && 1 <= i < |x|
    ensures d[i - 1] != 0.0
    ensures RowSum(a, b, c, x, i, ax) - Coord(r[i], ax)
         == (ReducedRowSum(d, c, x, i, ax) - Coord(s[i], ax))
            + a[i] / d[i - 1] * (ReducedRowSum(d, c, x, i - 1, ax) - Coord(s[i - 1], ax))
  {
    assert EliminatedRow(a, b, c, r, d, s, i);
    var m := a[i] / d[i - 1];
    var prev, cur := Coord(x[i - 1], ax), Coord(x[i], ax);
    var next := if i + 1 < |x| then c[i] * Coord(x[i + 1], ax) else 0.0;
    assert m * d[i - 1] == a[i];
    assert m * (d[i - 1] * prev) == a[i] * prev;
    assert d[i] * cur == b[i] * cur - m * (c[i - 1] * cur);
    assert Coord(s[i], ax) == Coord(r[i], ax) - m * Coord(s[i - 1], ax);
    assert RowSum(a, b, c, x, i, ax) == a[i] * prev + b[i] * cur + next;
    assert ReducedRowSum(d, c, x, i, ax) == d[i] * cur + next;
    assert ReducedRowSum(d, c, x, i - 1, ax) == d[i - 1] * prev + c[i - 1] * cur;
  }

  /** On every prefix of rows, the eliminated rows hold exactly when the original ones do. */
  lemma {:induction false} PrefixEquivalence(a: seq<real>, b: seq<real>, c: seq<real>, r: seq<Point>,
                                             d: seq<real>, s: seq<Point>, x: seq<Point>, k: nat)
    requires IsForwardSweep(a, b, c, r, d, s) && |x| == |b| && k <= |x|
    ensures (forall i :: 0 <= i < k ==> ReducedRowHolds(d, c, s, x, i))
        <==> (forall i :: 0 <= i < k ==> RowHolds(a, b, c, r, x, i))
  {
    if k > 0 {
      PrefixEquivalence(a, b, c, r, d, s, x, k - 1);
      var i := k - 1;
      if i == 0 {
        assert RowSum(a, b, c, x, 0, X) == ReducedRowSum(d, c, x, 0, X);
        assert RowSum(a, b, c, x, 0, Y) == ReducedRowSum(d, c, x, 0, Y);
        assert RowHolds(a, b, c, r, x, 0) <==> ReducedRowHolds(d, c, s, x, 0);
      } else {
        ResidualStep(a, b, c, r, d, s, x, i, X);
        ResidualStep(a, b, c, r, d, s, x, i, Y);
        if forall j :: 0 <= j < k - 1 ==> ReducedRowHolds(d, c, s, x, j) {
          assert ReducedRowHolds(d, c, s, x, i - 1);
          assert RowHolds(a, b, c, r, x, i) <==> ReducedRowHolds(d, c, s, x, i);
        }
      }
    }
  }

  /** Correctness of the Thomas algorithm: after forward elimination, solving
      the eliminated system is the same as solving the original one. */
  lemma ThomasEquivalence(a: seq<real>, b: seq<real>, c: seq<real>, r: seq<Point>,
                          d: seq<real>, s: seq<Point>, x: seq<Point>)
    requires IsForwardSweep(a, b, c, r, d, s) && |x| == |b|
    ensures SolvesReduced(d, c, s, x) <==> Solves(a, b, c, r, x)
  {
    PrefixEquivalence(a, b, c, r, d, s, x, |x|);
  }
}
