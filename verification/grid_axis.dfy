/** One axis of the reachable-region grid: starting at `lo`, points are taken
    `step` apart for as long as they stay strictly below `hi`
    (the `while v < max { push v; v += step }` loops of
    `get_reachable_region` in openrr-planner/src/ik.rs). Coordinates are exact
    reals, so the points are exactly `lo + i * step`. */
module GridAxis {

  /** The i-th candidate point of an axis. */
  function Point(lo: real, step: real, i: nat): real {
    lo + i as real * step
  }

  /** The least integer not below q. */
  function Ceil(q: real): (c: int)
    ensures c as real - 1.0 < q <= c as real
  {
    -((-q).Floor)
  }

  /** With a positive step the candidate points strictly increase. */
  lemma PointMonotone(lo: real, step: real, i: nat, j: nat)
    requires step > 0.0
    ensures i < j <==> Point(lo, step, i) < Point(lo, step, j)
  {
    if i < j {
      assert (j - i) as real * step > 0.0;
      assert Point(lo, step, j) == Point(lo, step, i) + (j - i) as real * step;
    } else {
      assert (i - j) as real * step >= 0.0;
      assert Point(lo, step, i) == Point(lo, step, j) + (i - j) as real * step;
    }
  }

  /** The number of candidate points strictly below `hi`. The loop only runs
      when `lo < hi`, and only terminates then when the step is positive. */
  function StepCount(lo: real, hi: real, step: real): (n: nat)
    requires hi <= lo || step > 0.0
    ensures forall i: nat | i < n :: Point(lo, step, i) < hi
    ensures hi <= Point(lo, step, n)
  {
    if hi <= lo then 0
    else
      var q := (hi - lo) / step;
      assert q * step == hi - lo;
      var n := Ceil(q);
      assert n as real * step >= q * step;
      forall i: nat | i < n
        ensures Point(lo, step, i) < hi
      {
        assert i as real <= n as real - 1.0 < q;
        assert i as real * step < q * step;
      }
      n
  }

  /** The coordinates one axis loop visits, in visiting order: exactly the
      candidate points below `hi`, up to the first one that is not. */
  function Axis(lo: real, hi: real, step: real): (pts: seq<real>)
    requires hi <= lo || step > 0.0
    ensures forall i | 0 <= i < |pts| :: pts[i] == Point(lo, step, i) && pts[i] < hi
    ensures hi <= Point(lo, step, |pts|)
    ensures pts == [] <==> hi <= lo
  {
    seq(StepCount(lo, hi, step), (i: int) requires 0 <= i => Point(lo, step, i))
  }

  /** The axis loop of `get_reachable_region` itself: push the current value, then add the step,
      while the value is below `hi`. It visits exactly the axis points. */
  method ScanAxis(lo: real, hi: real, step: real) returns (pts: seq<real>)
    requires hi <= lo || step > 0.0
    ensures pts == Axis(lo, hi, step)
  {
    var all := Axis(lo, hi, step);
    pts := [];
    var v := lo;
    while v < hi
      invariant |pts| <= |all|
      invariant v == Point(lo, step, |pts|)
      invariant pts == all[..|pts|]
      decreases |all| - |pts|
    {
      // the point after the last axis point is already at or above hi
      assert |pts| < |all|;
      pts := pts + [v];
      v := v + step;
    }
  }

  /** A coordinate is on the axis exactly when it is a candidate point below
      `hi`; the axis points are all at or above `lo` and strictly
      increasing, so none is visited twice. */
  lemma AxisMembership(lo: real, hi: real, step: real, v: real)
    requires step > 0.0
    ensures v in Axis(lo, hi, step) <==> v < hi && exists i: nat :: v == Point(lo, step, i)
    ensures v in Axis(lo, hi, step) ==> lo <= v
  {
    var pts := Axis(lo, hi, step);
    if v < hi && exists i: nat :: v == Point(lo, step, i) {
      var i: nat :| v == Point(lo, step, i);
      if i >= |pts| {
        PointMonotone(lo, step, |pts|, i);
        assert false;
      }
      assert pts[i] == v;
    }
    if v in pts {
      var i :| 0 <= i < |pts| && pts[i] == v;
      PointMonotone(lo, step, 0, i);
    }
  }

  /** With a positive step the axis points are strictly increasing. */
  lemma AxisIncreasing(lo: real, hi: real, step: real, i: int, j: int)
    requires step > 0.0
    requires 0 <= i < j < |Axis(lo, hi, step)|
    ensures Axis(lo, hi, step)[i] < Axis(lo, hi, step)[j]
  {
    PointMonotone(lo, step, i, j);
  }
}
