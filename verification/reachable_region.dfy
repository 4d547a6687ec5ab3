/** The reachable-region scan (`get_reachable_region` in
    openrr-planner/src/ik.rs): every point of a half-open 3-D grid is tried as
    a target translation, keeping the orientation of the initial pose, and
    the targets the solver reaches are collected.

    `get_reachable_region` splits the z coordinates over parallel workers, each with its
    own copy of the arm, and appends to a shared list under a lock. Here the
    z slices are scanned one after the other; `SliceOrderIrrelevant` shows
    that the collected multiset does not depend on the order of the slices. */
module ReachableRegion {
  import opened Kinematics
  import opened GridAxis
  import RandomInitializeIk

  /** The initial pose moved to translation (x, y, z). */
  function TargetAt(pose: Pose, x: real, y: real, z: real): Pose {
    pose.(translation := Vec3(x, y, z))
  }

  /** `p` is a grid point: the pose's orientation at coordinates taken from
      the three axes. */
  predicate OnGrid(pose: Pose, xs: seq<real>, ys: seq<real>, zs: seq<real>, p: Pose) {
    && p.rotation == pose.rotation
    && p.translation.x in xs
    && p.translation.y in ys
    && p.translation.z in zs
  }

  /** The grid points whose solve, started from `initial`, succeeds: what the
      scan is meant to collect. */
  predicate Reachable(solver: Solver, initial: Config, pose: Pose,
                      xs: seq<real>, ys: seq<real>, zs: seq<real>, p: Pose) {
    OnGrid(pose, xs, ys, zs, p) && solver(initial, p).Solved?
  }

  /** One innermost x loop at fixed y and z. Before every solve the arm is
      reset, without validation, to the initial angles, so whatever the
      previous solve left on the arm is discarded: each solve starts from
      `initial`. */
  function Row(solver: Solver, initial: Config, pose: Pose, xs: seq<real>, y: real, z: real): (found: seq<Pose>)
    decreases |xs|
    ensures |found| <= |xs|
    ensures forall p | p in found ::
      && p == TargetAt(pose, p.translation.x, y, z)
      && p.translation.x in xs
      && solver(initial, p).Solved?
  {
    if xs == [] then []
    else
      var target := TargetAt(pose, xs[0], y, z);
      var rest := Row(solver, initial, pose, xs[1..], y, z);
      if solver(initial, target).Solved? then [target] + rest else rest
  }

  /** One worker's z slice: the y loop around the x loop. */
  function Slice(solver: Solver, initial: Config, pose: Pose, xs: seq<real>, ys: seq<real>, z: real): (found: seq<Pose>)
    decreases |ys|
    ensures forall p | p in found ::
      && p == TargetAt(pose, p.translation.x, p.translation.y, z)
      && p.translation.x in xs && p.translation.y in ys
      && solver(initial, p).Solved?
  {
    if ys == [] then []
    else Row(solver, initial, pose, xs, ys[0], z) + Slice(solver, initial, pose, xs, ys[1..], z)
  }

  /** All slices, in the order given. */
  function Slices(solver: Solver, initial: Config, pose: Pose, xs: seq<real>, ys: seq<real>, zs: seq<real>): (found: seq<Pose>)
    decreases |zs|
    ensures forall p | p in found :: Reachable(solver, initial, pose, xs, ys, zs, p)
  {
    if zs == [] then []
    else Slice(solver, initial, pose, xs, ys, zs[0]) + Slices(solver, initial, pose, xs, ys, zs[1..])
  }

  /** The whole scan. The arm's angles at the call are the initial angles;
      note the parameter order, the upper corner before the lower one. The
      z loop runs before any solve, and with a step that is not positive it
      only terminates when the z range is empty. */
  function Region(solver: Solver, arm: Config, initialPose: Pose,
                  maxPoint: Vec3, minPoint: Vec3, step: real): (found: seq<Pose>)
    requires step > 0.0 || maxPoint.z <= minPoint.z
    ensures step <= 0.0 ==> found == []
  {
    var zs := Axis(minPoint.z, maxPoint.z, step);
    if zs == [] then []
    else
      var ys := Axis(minPoint.y, maxPoint.y, step);
      var xs := Axis(minPoint.x, maxPoint.x, step);
      Slices(solver, arm, initialPose, xs, ys, zs)
  }

  lemma {:induction false} RowMembership(solver: Solver, initial: Config, pose: Pose,
                                         xs: seq<real>, y: real, z: real, p: Pose)
    ensures p in Row(solver, initial, pose, xs, y, z) <==>
      && p.rotation == pose.rotation
      && p.translation.x in xs
      && p.translation.y == y
      && p.translation.z == z
      && solver(initial, p).Solved?
    decreases |xs|
  {
    if xs != [] {
      RowMembership(solver, initial, pose, xs[1..], y, z, p);
      assert xs == [xs[0]] + xs[1..];
    }
  }

  lemma {:induction false} SliceMembership(solver: Solver, initial: Config, pose: Pose,
                                           xs: seq<real>, ys: seq<real>, z: real, p: Pose)
    ensures p in Slice(solver, initial, pose, xs, ys, z) <==>
      && p.rotation == pose.rotation
      && p.translation.x in xs
      && p.translation.y in ys
      && p.translation.z == z
      && solver(initial, p).Solved?
    decreases |ys|
  {
    if ys != [] {
      RowMembership(solver, initial, pose, xs, ys[0], z, p);
      SliceMembership(solver, initial, pose, xs, ys[1..], z, p);
      assert ys == [ys[0]] + ys[1..];
    }
  }

  /** A pose is collected exactly when it is a grid point whose solve from
      the initial angles succeeds. In particular the outcome at one point
      does not depend on which points were tried before it. */
  lemma {:induction false} SlicesMembership(solver: Solver, initial: Config, pose: Pose,
                                            xs: seq<real>, ys: seq<real>, zs: seq<real>, p: Pose)
    ensures p in Slices(solver, initial, pose, xs, ys, zs) <==> Reachable(solver, initial, pose, xs, ys, zs, p)
    decreases |zs|
  {
    if zs != [] {
      SliceMembership(solver, initial, pose, xs, ys, zs[0], p);
      SlicesMembership(solver, initial, pose, xs, ys, zs[1..], p);
      assert zs == [zs[0]] + zs[1..];
    }
  }

  lemma {:induction false} SliceSize(solver: Solver, initial: Config, pose: Pose,
                                     xs: seq<real>, ys: seq<real>, z: real)
    ensures |Slice(solver, initial, pose, xs, ys, z)| <= |ys| * |xs|
    decreases |ys|
  {
    if ys != [] {
      SliceSize(solver, initial, pose, xs, ys[1..], z);
      assert |ys| * |xs| == |xs| + (|ys| - 1) * |xs|;
    }
  }

  /** No more poses are collected than the grid has points. */
  lemma {:induction false} SlicesSize(solver: Solver, initial: Config, pose: Pose,
                                      xs: seq<real>, ys: seq<real>, zs: seq<real>)
    ensures |Slices(solver, initial, pose, xs, ys, zs)| <= |zs| * (|ys| * |xs|)
    decreases |zs|
  {
    if zs != [] {
      var cells := |ys| * |xs|;
      SliceSize(solver, initial, pose, xs, ys, zs[0]);
      SlicesSize(solver, initial, pose, xs, ys, zs[1..]);
      assert |zs| * cells == cells + (|zs| - 1) * cells;
    }
  }

  lemma {:induction false} SlicesAppend(solver: Solver, initial: Config, pose: Pose,
                                        xs: seq<real>, ys: seq<real>, a: seq<real>, b: seq<real>)
    ensures Slices(solver, initial, pose, xs, ys, a + b)
            == Slices(solver, initial, pose, xs, ys, a) + Slices(solver, initial, pose, xs, ys, b)
    decreases |a|
  {
    if a == [] {
      assert a + b == b;
    } else {
      SlicesAppend(solver, initial, pose, xs, ys, a[1..], b);
      assert (a + b)[0] == a[0] && (a + b)[1..] == a[1..] + b;
    }
  }

  /** Taking one element out of two permutations of each other leaves two
      permutations of each other. */
  lemma PermutationTail<T>(order: seq<T>, zs: seq<T>, k: int)
    requires multiset(order) == multiset(zs)
    requires order != [] && 0 <= k < |zs| && zs[k] == order[0]
    ensures multiset(order[1..]) == multiset(zs[..k] + zs[k + 1..])
  {
    var z := order[0];
    assert order == [z] + order[1..];
    assert zs == zs[..k] + [z] + zs[k + 1..];
    assert multiset(order[1..]) == multiset(order) - multiset{z};
    assert multiset(zs[..k] + zs[k + 1..]) == multiset(zs) - multiset{z};
  }

  /** The poses of one slice can be set apart from those of the others. */
  lemma SlicesPick(solver: Solver, initial: Config, pose: Pose,
                   xs: seq<real>, ys: seq<real>, zs: seq<real>, k: int)
    requires 0 <= k < |zs|
    ensures multiset(Slices(solver, initial, pose, xs, ys, zs))
            == multiset(Slice(solver, initial, pose, xs, ys, zs[k]))
               + multiset(Slices(solver, initial, pose, xs, ys, zs[..k] + zs[k + 1..]))
  {
    var tail := [zs[k]] + zs[k + 1..];
    assert zs == zs[..k] + tail;
    SlicesAppend(solver, initial, pose, xs, ys, zs[..k], tail);
    SlicesAppend(solver, initial, pose, xs, ys, zs[..k], zs[k + 1..]);
    assert tail[0] == zs[k] && tail[1..] == zs[k + 1..];
  }

  /** Scanning the z slices in any order (any permutation of the z
      coordinates) collects the same poses the same number of times, which
      is what makes the parallel split over z safe. */
  lemma {:induction false} SliceOrderIrrelevant(solver: Solver, initial: Config, pose: Pose,
                                                xs: seq<real>, ys: seq<real>, zs: seq<real>, order: seq<real>)
    requires multiset(order) == multiset(zs)
    ensures multiset(Slices(solver, initial, pose, xs, ys, order))
            == multiset(Slices(solver, initial, pose, xs, ys, zs))
    decreases |order|
  {
    if order != [] {
      assert order[0] in multiset(zs);
      var k :| 0 <= k < |zs| && zs[k] == order[0];
      PermutationTail(order, zs, k);
      SliceOrderIrrelevant(solver, initial, pose, xs, ys, zs[..k] + zs[k + 1..], order[1..]);
      SlicesPick(solver, initial, pose, xs, ys, zs, k);
    } else {
      assert zs == [];
    }
  }

  /** Every collected pose keeps the initial pose's orientation, lies in the
      half-open box [minPoint, maxPoint) on every axis, sits on the grid
      `minPoint + i * step`, and is reached by the solver from the initial
      angles; conversely every such grid point is collected. */
  lemma RegionContents(solver: Solver, arm: Config, initialPose: Pose,
                       maxPoint: Vec3, minPoint: Vec3, step: real, p: Pose)
    requires step > 0.0
    ensures p in Region(solver, arm, initialPose, maxPoint, minPoint, step) <==>
      && p.rotation == initialPose.rotation
      && p.translation.x < maxPoint.x && (exists i: nat :: p.translation.x == Point(minPoint.x, step, i))
      && p.translation.y < maxPoint.y && (exists i: nat :: p.translation.y == Point(minPoint.y, step, i))
      && p.translation.z < maxPoint.z && (exists i: nat :: p.translation.z == Point(minPoint.z, step, i))
      && solver(arm, p).Solved?
    ensures p in Region(solver, arm, initialPose, maxPoint, minPoint, step) ==>
      && minPoint.x <= p.translation.x < maxPoint.x
      && minPoint.y <= p.translation.y < maxPoint.y
      && minPoint.z <= p.translation.z < maxPoint.z
  {
    var xs := Axis(minPoint.x, maxPoint.x, step);
    var ys := Axis(minPoint.y, maxPoint.y, step);
    var zs := Axis(minPoint.z, maxPoint.z, step);
    SlicesMembership(solver, arm, initialPose, xs, ys, zs, p);
    AxisMembership(minPoint.x, maxPoint.x, step, p.translation.x);
    AxisMembership(minPoint.y, maxPoint.y, step, p.translation.y);
    AxisMembership(minPoint.z, maxPoint.z, step, p.translation.z);
  }

  /** The scan collects no more poses than the grid has points. */
  lemma RegionSize(solver: Solver, arm: Config, initialPose: Pose,
                   maxPoint: Vec3, minPoint: Vec3, step: real)
    requires step > 0.0 || maxPoint.z <= minPoint.z
    ensures var zs := Axis(minPoint.z, maxPoint.z, step);
      zs != [] ==>
        |Region(solver, arm, initialPose, maxPoint, minPoint, step)|
        <= |zs| * (|Axis(minPoint.y, maxPoint.y, step)| * |Axis(minPoint.x, maxPoint.x, step)|)
  {
    var zs := Axis(minPoint.z, maxPoint.z, step);
    if zs != [] {
      SlicesSize(solver, arm, initialPose, Axis(minPoint.x, maxPoint.x, step),
                 Axis(minPoint.y, maxPoint.y, step), zs);
    }
  }

  /** Strictly increasing coordinates, as every axis with a positive step is. */
  predicate Increasing(s: seq<real>) {
    forall i, j | 0 <= i < j < |s| :: s[i] < s[j]
  }

  /** Along an increasing x axis the x loop keeps each target at most once. */
  lemma {:induction false} RowNoDup(solver: Solver, initial: Config, pose: Pose,
                                    xs: seq<real>, y: real, z: real, p: Pose)
    requires Increasing(xs)
    ensures multiset(Row(solver, initial, pose, xs, y, z))[p] <= 1
    decreases |xs|
  {
    if xs != [] {
      var rest := Row(solver, initial, pose, xs[1..], y, z);
      RowNoDup(solver, initial, pose, xs[1..], y, z, p);
      if p == TargetAt(pose, xs[0], y, z) {
        forall k | 0 <= k < |xs[1..]| ensures xs[1..][k] != p.translation.x {
          assert xs[0] < xs[k + 1];
        }
        assert p !in rest;
      }
    }
  }

  /** Along increasing x and y axes one slice keeps each pose at most once:
      rows for different y values share no pose. */
  lemma {:induction false} SliceNoDup(solver: Solver, initial: Config, pose: Pose,
                                      xs: seq<real>, ys: seq<real>, z: real, p: Pose)
    requires Increasing(xs) && Increasing(ys)
    ensures multiset(Slice(solver, initial, pose, xs, ys, z))[p] <= 1
    decreases |ys|
  {
    if ys != [] {
      var row := Row(solver, initial, pose, xs, ys[0], z);
      var rest := Slice(solver, initial, pose, xs, ys[1..], z);
      RowNoDup(solver, initial, pose, xs, ys[0], z, p);
      SliceNoDup(solver, initial, pose, xs, ys[1..], z, p);
      if p in row {
        forall k | 0 <= k < |ys[1..]| ensures ys[1..][k] != p.translation.y {
          assert ys[0] < ys[k + 1];
        }
        assert p !in rest;
      }
      assert multiset(row + rest)[p] == multiset(row)[p] + multiset(rest)[p];
    }
  }

  /** Along increasing axes the slices together keep each pose at most
      once: slices for different z values share no pose. */
  lemma {:induction false} SlicesNoDup(solver: Solver, initial: Config, pose: Pose,
                                       xs: seq<real>, ys: seq<real>, zs: seq<real>, p: Pose)
    requires Increasing(xs) && Increasing(ys) && Increasing(zs)
    ensures multiset(Slices(solver, initial, pose, xs, ys, zs))[p] <= 1
    decreases |zs|
  {
    if zs != [] {
      var slice := Slice(solver, initial, pose, xs, ys, zs[0]);
      var rest := Slices(solver, initial, pose, xs, ys, zs[1..]);
      SliceNoDup(solver, initial, pose, xs, ys, zs[0], p);
      SlicesNoDup(solver, initial, pose, xs, ys, zs[1..], p);
      if p in slice {
        forall k | 0 <= k < |zs[1..]| ensures zs[1..][k] != p.translation.z {
          assert zs[0] < zs[k + 1];
        }
        assert p !in rest;
      }
      assert multiset(slice + rest)[p] == multiset(slice)[p] + multiset(rest)[p];
    }
  }

  /** With a positive step no pose is returned twice: the result holds each
      grid point at most once. */
  lemma RegionNoDup(solver: Solver, arm: Config, initialPose: Pose,
                    maxPoint: Vec3, minPoint: Vec3, step: real, p: Pose)
    requires step > 0.0
    ensures multiset(Region(solver, arm, initialPose, maxPoint, minPoint, step))[p] <= 1
  {
    var xs := Axis(minPoint.x, maxPoint.x, step);
    var ys := Axis(minPoint.y, maxPoint.y, step);
    var zs := Axis(minPoint.z, maxPoint.z, step);
    forall i, j | 0 <= i < j < |xs| ensures xs[i] < xs[j] {
      AxisIncreasing(minPoint.x, maxPoint.x, step, i, j);
    }
    forall i, j | 0 <= i < j < |ys| ensures ys[i] < ys[j] {
      AxisIncreasing(minPoint.y, maxPoint.y, step, i, j);
    }
    forall i, j | 0 <= i < j < |zs| ensures zs[i] < zs[j] {
      AxisIncreasing(minPoint.z, maxPoint.z, step, i, j);
    }
    SlicesNoDup(solver, arm, initialPose, xs, ys, zs, p);
  }

  /** With the restart solver as the solver, a grid point is collected
      exactly when a restart solve started from the initial angles succeeds
      on it, whatever any earlier point's solve left on the arm. */
  lemma RestartRegionContents(env: RandomInitializeIk.Collaborators, numMaxTry: nat, arm: Config,
                              initialPose: Pose, maxPoint: Vec3, minPoint: Vec3, step: real, p: Pose)
    requires step > 0.0
    ensures p in Region(RandomInitializeIk.AsSolver(env, numMaxTry), arm, initialPose, maxPoint, minPoint, step)
            <==> && OnGrid(initialPose, Axis(minPoint.x, maxPoint.x, step), Axis(minPoint.y, maxPoint.y, step),
                           Axis(minPoint.z, maxPoint.z, step), p)
                 && RandomInitializeIk.Solve(env, numMaxTry, arm, p).attempt.Solved?
  {
    SlicesMembership(RandomInitializeIk.AsSolver(env, numMaxTry), arm, initialPose,
                     Axis(minPoint.x, maxPoint.x, step), Axis(minPoint.y, maxPoint.y, step),
                     Axis(minPoint.z, maxPoint.z, step), p);
  }

  /** The box of the `get_region` test in openrr-planner/src/ik.rs,
      x in [0, 0.8), y in [-0.9, 0.9), z in [0, 0.9) with step 0.1, has 8 x 18 x 9 = 1296 grid points, so at
      most 1296 poses come back whatever the solver. */
  lemma SampleBoxSize(solver: Solver, arm: Config, initialPose: Pose)
    ensures |Axis(0.0, 0.8, 0.1)| == 8
    ensures |Axis(-0.9, 0.9, 0.1)| == 18
    ensures |Axis(0.0, 0.9, 0.1)| == 9
    ensures |Region(solver, arm, initialPose, Vec3(0.8, 0.9, 0.9), Vec3(0.0, -0.9, 0.0), 0.1)| <= 1296
  {
    assert Ceil(8.0) == 8 && Ceil(18.0) == 18 && Ceil(9.0) == 9;
    RegionSize(solver, arm, initialPose, Vec3(0.8, 0.9, 0.9), Vec3(0.0, -0.9, 0.0), 0.1);
  }
}
