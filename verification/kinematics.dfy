/** Values shared by the restart solver and the reachable-region scan: joint
    configurations, poses, the kinematics library's error, and the outcome of
    one single-shot inverse-kinematics solve. */
module Kinematics {

  /** Joint angles of a serial chain, one per movable joint, in chain order. */
  type Config = seq<real>

  datatype Vec3 = Vec3(x: real, y: real, z: real)

  const ZeroVec3: Vec3 := Vec3(0.0, 0.0, 0.0)

  /** Orientation part of an isometry (a unit quaternion). The model only
      carries it around; it is never computed with. */
  datatype Rotation = Rotation(w: real, i: real, j: real, k: real)

  /** A rigid transform: translation plus orientation. */
  datatype Pose = Pose(translation: Vec3, rotation: Rotation)

  /** The kinematics library's error, in the two kinds the solvers tell apart:
      a numeric non-convergence carrying its residuals, and every other
      (structural) error such as an out-of-limit or wrong-length configuration. */
  datatype IkError =
    | NotConverged(numTried: nat, positionDiff: Vec3, rotationDiff: Vec3)
    | Structural(reason: string)

  /** What one solve leaves behind: success, with the arm at the solution, or
      an error, with whatever configuration the arm was left in. */
  datatype Attempt =
    | Solved(solution: Config)
    | Unsolved(left: Config, error: IkError)
  {
    /** The arm's joint angles once the solve has returned. */
    function ArmAfter(): Config {
      match this
      case Solved(s) => s
      case Unsolved(l, _) => l
    }
  }

  /** Outcome of a validated joint-position setter: the requested angles are
      installed, or the setter refuses with an error, leaving the arm in the
      given configuration. */
  datatype SetOutcome =
    | Installed
    | Refused(left: Config, error: IkError)

  /** Anything that implements the kinematics library's solver interface:
      from the arm's current angles and a target pose, one solve. The
      constraints of the call are fixed and captured by the function. */
  type Solver = (Config, Pose) -> Attempt
}
