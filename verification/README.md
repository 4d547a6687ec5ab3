# Restart IK solver, reachable-region scan and ROS 2 trajectory translation

A Dafny model of two pieces of openrr:

- `RandomInitializeIkSolver` and `get_reachable_region`
  (openrr-planner/src/ik.rs). The restart solver wraps a single-shot
  inverse-kinematics engine. It tries up to `num_max_try` times. After every
  failed try it installs a random configuration, repaired toward the initial
  angles. When every try fails it resets the arm to the initial angles. The
  reachable-region scan tries every point of a half-open 3-D grid as a target
  and collects the poses the solver reaches.
- The data translations of `Ros2ControlClient` (arci-ros2/src/ros2_control.rs).
  These are reading joint positions out of a controller state by joint name,
  and turning a trajectory into a FollowJointTrajectory goal.

Files and modules:

- `kinematics.dfy` (`Kinematics`): configurations, poses, the kinematics
  error (non-convergence with residuals, or a structural error), and the
  outcome of one solve.
- `random_initialize_ik.dfy` (`RandomInitializeIk`): the retry loop. It is
  written as the recursive function `Tries`. The engine, the random draws,
  the nearest-angle repair and the two validated setters are parameters,
  bundled as `Collaborators`. A solve returns a `Run`, which holds the
  result, the final arm angles, the engine's starting angles for each call,
  the restart seeds handed to the setter, and whether the final reset
  happened.
- `grid_axis.dfy` (`GridAxis`): one axis of the grid, using exact reals.
  `ScanAxis` is `get_reachable_region`'s `while v < max { push v; v += step }` loop.
  `Axis` is its reference definition: the points `lo + i*step` below `hi`.
- `reachable_region.dfy` (`ReachableRegion`): the grid scan. It loops over z
  slices, then y, then x, as a sequential fold.
- `ros2_control.dfy` (`Ros2Control`): name-based position lookup, duration
  conversions, and building the goal trajectory.

Behaviour of the code that the model keeps:

- A random restart is installed after every failed try, including the last.
  The seed installed after the last try is then overwritten by the reset. So
  a failing solve with `num_max_try = 1` makes one engine call and one
  randomisation. A successful try returns before any randomisation.
- Restarts go through the validated setter `set_joint_positions_with_constraints`
  and not an unchecked one. A refusal there ends the solve at once through `?`.
  The arm is then left where the setter left it, and the setter's error
  replaces the convergence error, even after the final try (`RefusedSeedAborts`).
- The final reset uses the validated `set_joint_positions`. Its error, if
  any, is returned instead of the last try's error.
- Restart seeds are always repaired against the angles the arm had when the
  solve was called, never against the last failed trial.
- `get_reachable_region` takes the upper corner before the lower one.
- Any engine error counts as a failed try. The error returned with no tries
  at all is a non-convergence error with zero tries and zero residuals.
- In the ROS 2 goal, `time_from_start.sec` saturates at `i32::MAX`. The
  header stamp's seconds are cast with `as i32`, which wraps
  (`StampWrapsWhereDurationSaturates`).

## Model

| member | source | states |
|---|---|---|
| RandomInitializeIk.Tries | openrr-planner/src/ik.rs:74-94 | From try i on: at most `num_max_try - i` engine calls, with setter calls trailing them by at most one. The reset happens only after every remaining try was made and each was followed by a seed |
| RandomInitializeIk.TriesLog | openrr-planner/src/ik.rs:74-94 | From try i on, the first engine call starts from the current arm and call j from seed i+j-1. Seed j (`Seed`, lines 91-92) is draw i+j repaired against the initial angles, never against a failed trial |
| RandomInitializeIk.Solve | openrr-planner/src/ik.rs:59-103 | At most `num_max_try` engine calls. Engine call j starts from the initial angles (j = 0) or from restart seed j-1. Seed j is draw j repaired against the initial angles, never against a failed trial. A reset means all `num_max_try` tries were made and each was followed by a seed |
| RandomInitializeIk.Restore | openrr-planner/src/ik.rs:95-102 | The reset always yields an error. If the plain setter accepts the initial angles, the arm is at them and the error is the last try's. If it refuses, the `?` returns the setter's error with the arm where the setter left it |
| RandomInitializeIk.TriesRestartedBeforeLast | openrr-planner/src/ik.rs:81-93 | Every engine call but the last failed and was followed by an accepted seed; if the run reached the reset, so was the last |
| RandomInitializeIk.TriesSolved | openrr-planner/src/ik.rs:81-90 | A successful run stops at the engine call that succeeded: no reset, and the result is that call's |
| RandomInitializeIk.TriesExhausted | openrr-planner/src/ik.rs:95-102 | A run that reaches the reset returns the reset's outcome. After at least one try it is the reset from the last seed carrying the last engine call's error. With no try left it is the reset from the current arm carrying the error handed in (the pre-built one for a solve with no tries) |
| RandomInitializeIk.TriesAborted | openrr-planner/src/ik.rs:91-93 | A run that fails without a reset stopped at a seed the setter refused. It returns that refusal's error and arm |
| RandomInitializeIk.SolveOutcome | openrr-planner/src/ik.rs:74-102 | For any collaborators: success iff the last engine call succeeded, with the arm at its solution. After an accepted reset, the error is the final engine call's and the arm is at the initial angles. After a refused reset, the reset setter's error and arm are returned. With no tries the result is the reset with the pre-built error. Without a reset, the error comes from a refused seed |
| RandomInitializeIk.RestartSolverSucceeds | openrr-planner/src/ik.rs:54-103 | Used as a solver (`AsSolver`, the `InverseKinematicsSolver` impl), the restart solver succeeds iff some try k below `num_max_try` is the first to succeed: tries 0..k-1 failed with their seeds installed. It then answers with try k's solution |
| RandomInitializeIk.ZeroTries | openrr-planner/src/ik.rs:66-102 | With `num_max_try = 0` the engine is never called. The arm is reset, and the pre-built `NotConverged{0, zero, zero}` is returned |
| RandomInitializeIk.TriesFirstSuccess | openrr-planner/src/ik.rs:74-94 | From try i, if tries i..k-1 restart and try k succeeds, the run makes k-i+1 engine calls and k-i restarts, then returns try k's success |
| RandomInitializeIk.FirstSuccess | openrr-planner/src/ik.rs:74-90 | If tries 0..k-1 fail and try k succeeds: exactly k+1 engine calls, k restarts, no reset, and the arm keeps the engine's solution |
| RandomInitializeIk.TriesAllFail | openrr-planner/src/ik.rs:74-102 | From try i, when every remaining try restarts, the run makes every remaining call. It ends in the reset, carrying the last try's error |
| RandomInitializeIk.AllTriesFail | openrr-planner/src/ik.rs:81-102 | If all `num_max_try >= 1` tries fail and the setters accept: `num_max_try` engine calls, a seed after every failure including the last, the arm back at the initial angles, and the final try's error |
| RandomInitializeIk.TriesRefusedSeed | openrr-planner/src/ik.rs:91-93 | From try i, a refused seed at try k ends the run after k-i+1 engine calls. There is no reset, and the refusal is returned |
| RandomInitializeIk.RefusedSeedAborts | openrr-planner/src/ik.rs:91-93 | A refused restart seed after try k aborts: k+1 engine calls, no reset, and the setter's error and arm are returned |
| RandomInitializeIk.EndsSolvedOrInitial | openrr-planner/src/ik.rs:74-102 | When the setters accept everything, the arm ends either at the engine's solution, that of the last engine call, or exactly at the initial angles |
| GridAxis.StepCount | openrr-planner/src/ik.rs:124-129 | The number of loop iterations: every earlier candidate point is below `hi`, and the next one is not |
| GridAxis.Axis | openrr-planner/src/ik.rs:124-129 | The visited coordinates are `lo + i*step` in order. All lie below `hi`, the next candidate does not, and the axis is empty iff `hi <= lo` |
| GridAxis.ScanAxis | openrr-planner/src/ik.rs:124-129 | The push-then-step axis loop of `get_reachable_region` visits exactly `Axis(lo, hi, step)` |
| GridAxis.AxisMembership | openrr-planner/src/ik.rs:124-129 | A value is on the axis iff it is below `hi` and equals `lo + i*step` for some natural i. Such values are at least `lo` |
| GridAxis.AxisIncreasing | openrr-planner/src/ik.rs:124-129 | With a positive step the axis points strictly increase, so no coordinate is visited twice |
| ReachableRegion.Row | openrr-planner/src/ik.rs:138-149 | One x loop keeps no more poses than there are x points. Each kept pose is the initial pose moved to (x, y, z) with x on the axis, and the solver reaches it from the initial angles |
| ReachableRegion.Slice | openrr-planner/src/ik.rs:135-151 | Every pose one z slice collects is the initial pose moved to (x, y, z), with x and y on their axes, and the solver reaches it from the initial angles |
| ReachableRegion.Slices | openrr-planner/src/ik.rs:131-152 | Every pose the fold over z slices collects is a grid point that the solver reaches from the initial angles |
| ReachableRegion.Region | openrr-planner/src/ik.rs:107-154 | With a non-positive step the call only returns (an empty list) when the z range is empty |
| ReachableRegion.RowMembership | openrr-planner/src/ik.rs:138-149 | A pose is kept by the x loop iff it has the initial orientation, x is on the axis, y and z are the row's, and the solve from the initial angles succeeds |
| ReachableRegion.SliceMembership | openrr-planner/src/ik.rs:135-151 | The same for one z slice, with y ranging over the y axis |
| ReachableRegion.SlicesMembership | openrr-planner/src/ik.rs:131-152 | A pose is collected iff it is a grid point whose solve from the initial angles succeeds. The arm reset before each point makes this independent of earlier points |
| ReachableRegion.SliceSize | openrr-planner/src/ik.rs:135-151 | One slice yields at most (number of y points) × (number of x points) poses |
| ReachableRegion.SlicesSize | openrr-planner/src/ik.rs:124-153 | All slices together yield at most (z points) × (y points) × (x points) poses |
| ReachableRegion.SliceOrderIrrelevant | openrr-planner/src/ik.rs:131-153 | Processing the z slices in any permuted order collects the same multiset of poses |
| ReachableRegion.RegionContents | openrr-planner/src/ik.rs:122-153 | For step > 0, p is returned iff it has the initial orientation, each coordinate is `min + i*step` below `max`, and the solver reaches p from the initial angles. Returned poses lie in [min, max) on every axis |
| ReachableRegion.RegionSize | openrr-planner/src/ik.rs:124-153 | The result has at most (z points) × (y points) × (x points) poses |
| ReachableRegion.RowNoDup | openrr-planner/src/ik.rs:138-149 | Along a strictly increasing x axis, the x loop returns each pose at most once |
| ReachableRegion.SliceNoDup | openrr-planner/src/ik.rs:135-151 | Along strictly increasing x and y axes, one z slice returns each pose at most once; rows for different y share no pose |
| ReachableRegion.SlicesNoDup | openrr-planner/src/ik.rs:131-152 | Along strictly increasing axes, all slices together return each pose at most once; slices for different z share no pose |
| ReachableRegion.RegionNoDup | openrr-planner/src/ik.rs:107-154 | With a positive step no grid point is returned twice: each pose occurs at most once in the result |
| ReachableRegion.RestartRegionContents | openrr-planner/src/ik.rs:141-147 | With the restart solver plugged in, a grid point is collected iff a restart solve from the initial angles succeeds on it |
| ReachableRegion.SampleBoxSize | openrr-planner/src/ik.rs:181-190 | The test's box has 8, 18 and 9 points per axis, so at most 1296 poses come back |
| Ros2Control.Position | arci-ros2/src/ros2_control.rs:74 | The first index holding the name, or none exactly when the name is absent |
| Ros2Control.ReadPositions | arci-ros2/src/ros2_control.rs:70-76 | Returns iff every name is listed with a position. Then there is one value per name, in order, each read at the name's first index |
| Ros2Control.CurrentJointPositions | arci-ros2/src/ros2_control.rs:68-77 | One value per client joint, in the client's order, read at the joint's first index in the state. It panics iff some joint is missing or has no position |
| Ros2Control.CurrentJointPositionsFirstMatch | arci-ros2/src/ros2_control.rs:74 | Value i is `actual.positions[j]`, for the least j at which the state lists client joint i |
| Ros2Control.SameOrderReadsUnchanged | arci-ros2/src/ros2_control.rs:68-77 | If the state lists the client's distinct joints in the client's order, the positions come back unchanged |
| Ros2Control.Zeros | arci-ros2/src/ros2_control.rs:114 | `vec![0.0; n]` has n entries, all zero |
| Ros2Control.SaturatingSecs | arci-ros2/src/ros2_control.rs:117-121 | The seconds are kept when they fit in i32, otherwise they become `i32::MAX`. The result is never above the input |
| Ros2Control.WrappingSecs | arci-ros2/src/ros2_control.rs:129 | `as i32` gives the value in the i32 range that is congruent to the input modulo 2^32 |
| Ros2Control.ToMsgDuration | arci-ros2/src/ros2_control.rs:116-123 | Seconds that fit in i32 are kept, larger ones become `i32::MAX`, and the nanoseconds pass through unchanged |
| Ros2Control.DurationRoundTrip | arci-ros2/src/ros2_control.rs:116-123 | Durations with at most `i32::MAX` seconds convert back unchanged. Longer ones become `(i32::MAX, nanos)`. The nanoseconds stay below 10^9 |
| Ros2Control.StampWrapsWhereDurationSaturates | arci-ros2/src/ros2_control.rs:116-131 | For seconds between 2^31 and 2^32 the stamp wraps negative, while the time from start saturates |
| Ros2Control.ToMsgPoint | arci-ros2/src/ros2_control.rs:111-125 | Positions pass through. Given velocities pass through; missing ones become one zero per position. Accelerations and effort are empty. The time from start is the converted duration: seconds in [0, i32::MAX], and exactly `(i32::MAX, nanos)` when the duration's seconds exceed `i32::MAX` |
| Ros2Control.PointRoundTrip | arci-ros2/src/ros2_control.rs:111-125 | A point whose seconds fit converts back unchanged, with absent velocities read back as zeros. Sending no velocities equals sending zeros |
| Ros2Control.ToMsgPoints | arci-ros2/src/ros2_control.rs:109-126 | The points keep their count and order, each converted by `ToMsgPoint` |
| Ros2Control.SendJointTrajectory | arci-ros2/src/ros2_control.rs:91-136 | The goal carries the client's joint names unchanged and the converted points in order. Its stamp is congruent to the clock's seconds modulo 2^32, with the clock's nanoseconds and an empty frame id |
| Ros2Control.SendJointPositions | arci-ros2/src/ros2_control.rs:79-89 | The goal has one point, carrying the positions, zero velocities (one per position) and the converted duration, under the client's joint names |

## Left out

- The single-shot IK engine, forward kinematics, the `SerialChain` internals
  and URDF loading belong to the `k` crate. The engine is a function
  parameter, and the solve constraints are captured by it and by the
  validated setter.
- `generate_random_joint_positions_from_limits` and `modify_to_nearest_angle`
  are not part of this model. They are the parameters `draw` and `nearest`,
  with no properties assumed, and randomness stays outside.
- RandomInitializeIk.Collaborators: the random source is the k-th draw of a
  single solve, so every solve starts from draw 0. The process-wide
  generator that carries state across solves is not modelled. In
  `get_reachable_region` a restart solve at one grid point draws from
  whatever generator state earlier points on the same worker left. So
  `RestartRegionContents`, and `SliceOrderIrrelevant` with the restart
  solver plugged in, describe an abstraction in which each point's solve is
  deterministic, not the program's exact draws.
- Rayon's `par_iter`, the `Mutex` around the result and the per-worker
  `arm.clone()` are concurrency. The scan is a sequential fold over z slices.
  Only a permuted order of whole slices is shown to give the same multiset;
  appends of different workers interleaving point by point are not modelled.
- ReachableRegion.Region: coordinates are exact reals, so the floating-point
  drift of `get_reachable_region`'s `z += step`, `y += step` and `x += step`
  is not modelled. Neither is its effect on whether a point near `max` is
  included. A consequence: when the step is below half an ulp of a
  coordinate (f32 with `min_point[2] = 1e8`, step 0.1 and a larger
  `max_point[2]`, say), the addition leaves the coordinate unchanged and
  that axis loop never ends. The model's axes, in exact reals, are finite
  for every positive step.
- ReachableRegion.Region: a non-positive step with a non-empty z range makes
  the z loop of `get_reachable_region` run forever. It is excluded by the
  precondition.
- ReachableRegion.SampleBoxSize: the test's expected count of 114 depends on
  the real solver and is not reproduced. Only the 1296-point bound is proved.
- ReachableRegion.RegionContents: stated for a positive step only. With a
  non-positive step the result is empty, as `Region` states.
- The `tracing::debug!` logging in ik.rs.
- The ROS 2 action client, the state subscription (`get_joint_state`), tokio
  spawning, the clock read, the goal-request plumbing and the `is_done` flag
  are I/O and async. The clock reading is a parameter of `SendJointTrajectory`.
- Ros2Control.CurrentJointPositions: the controller state is the one just
  received; receiving it is I/O. Only the joint names and actual positions of
  the state message are modelled.
- `joint_names()` returns the stored names unchanged and is not modelled
  separately.
- The goal's other fields are left at their defaults and not modelled:
  tolerances, goal time tolerance, and the header's frame id apart from
  being empty.
- `Ros2ControlConfig` (serde), arci-ros2/src/ros2_laser_scan.rs (a topic
  subscription and f32-to-f64 casts) and arci-ros/src/msg.rs (generated
  message bindings) contain no logic of the core.
