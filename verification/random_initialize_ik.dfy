/** The randomised-restart inverse-kinematics solver: up to `numMaxTry`
    single-shot solves, with a fresh random seed configuration installed after
    every failure, and the initial angles put back when no try succeeds
    (`RandomInitializeIkSolver::solve_with_constraints` in
    openrr-planner/src/ik.rs). */
module RandomInitializeIk {
  import opened Kinematics

  /** The collaborators a solve talks to. All of them act on the arm, so each
      receives the arm's current angles and reports the angles it leaves.
      - `engine`: the wrapped single-shot solver;
      - `draw`: the k-th random configuration drawn from the joint limits
        during one solve (the randomness source, made explicit);
      - `nearest`: the nearest-angle repair, `nearest(reference, candidate)`
        is the candidate with continuous joints wrapped toward the reference;
      - `setWithConstraints`: the validated setter that honours the call's
        constraints, `setWithConstraints(current, requested)`;
      - `setPositions`: the plain validated setter, same shape. */
  datatype Collaborators = Collaborators(
    engine: Solver,
    draw: nat -> Config,
    nearest: (Config, Config) -> Config,
    setWithConstraints: (Config, Config) -> SetOutcome,
    setPositions: (Config, Config) -> SetOutcome)

  /** Everything one solve did, as seen from outside:
      - `attempt`: the returned result together with the final arm angles;
      - `tried`: the angles the engine was started from, one per engine call;
      - `seeds`: the restart configurations handed to `setWithConstraints`;
      - `restored`: whether the final reset to the initial angles was made.
      The calls always alternate engine, setter, engine, setter, ..., so
      the order between the two logs is implied. */
  datatype Run = Run(attempt: Attempt, tried: seq<Config>, seeds: seq<Config>, restored: bool)

  /** The error returned when no try is made at all. */
  const NoTryError: IkError := NotConverged(0, ZeroVec3, ZeroVec3)

  function Last<T>(s: seq<T>): T
    requires s != []
  {
    s[|s| - 1]
  }

  /** The restart configuration installed after the i-th failed try: the i-th
      random draw, repaired against the angles the arm had when the solve was
      called. */
  function Seed(env: Collaborators, initial: Config, i: nat): Config {
    env.nearest(initial, env.draw(i))
  }

  /** The angles the i-th try starts from when every earlier restart was
      installed. */
  function StartOf(env: Collaborators, initial: Config, i: nat): Config {
    if i == 0 then initial else Seed(env, initial, i - 1)
  }

  /** The engine failed from `from`, and the setter then accepted `seed`. */
  predicate Restarted(env: Collaborators, target: Pose, from: Config, seed: Config) {
    && env.engine(from, target).Unsolved?
    && env.setWithConstraints(env.engine(from, target).left, seed).Installed?
  }

  /** Try number i fails and its restart seed is installed. */
  predicate RestartsAt(env: Collaborators, initial: Config, target: Pose, i: nat) {
    Restarted(env, target, StartOf(env, initial, i), Seed(env, initial, i))
  }

  /** The final reset to the initial angles with the plain validated setter;
      on success the error of the last try is returned, otherwise the
      setter's own error, as the `?` on that call does. */
  function Restore(env: Collaborators, current: Config, initial: Config, last: IkError): (a: Attempt)
    ensures a.Unsolved?
    ensures env.setPositions(current, initial).Installed? ==> a.left == initial && a.error == last
    ensures env.setPositions(current, initial).Refused? ==>
      a == Unsolved(env.setPositions(current, initial).left, env.setPositions(current, initial).error)
  {
    match env.setPositions(current, initial)
    case Installed => Unsolved(initial, last)
    case Refused(l, e) => Unsolved(l, e)
  }

  /** The loop of the solve from try index `i` on, with the arm at `arm` and
      `last` the result of the previous try. */
  function Tries(env: Collaborators, numMaxTry: nat, initial: Config, target: Pose,
                 i: nat, arm: Config, last: IkError): (r: Run)
    requires i <= numMaxTry
    decreases numMaxTry - i
    // never more engine calls than tries left, and setter calls trail them by at most one
    ensures |r.tried| <= numMaxTry - i
    ensures |r.seeds| <= |r.tried| <= |r.seeds| + 1
    // the reset comes only after every remaining try was made and followed by a seed
    ensures r.restored ==> |r.tried| == |r.seeds| == numMaxTry - i
  {
    if i == numMaxTry then
      Run(Restore(env, arm, initial, last), [], [], true)
    else
      match env.engine(arm, target)
      case Solved(s) => Run(Solved(s), [arm], [], false)
      case Unsolved(left, e) =>
        var seed := Seed(env, initial, i);
        match env.setWithConstraints(left, seed)
        case Refused(l, e') => Run(Unsolved(l, e'), [arm], [seed], false)
        case Installed =>
          var rest := Tries(env, numMaxTry, initial, target, i + 1, seed, e);
          rest.(tried := [arm] + rest.tried, seeds := [seed] + rest.seeds)
  }

  /** One call of the restart solver on an arm at angles `arm`: the angles
      are snapshot as the initial ones and the loop runs from try 0. */
  function Solve(env: Collaborators, numMaxTry: nat, arm: Config, target: Pose): (r: Run)
    ensures |r.tried| <= numMaxTry
    ensures forall j | 0 <= j < |r.tried| :: r.tried[j] == StartOf(env, arm, j)
    ensures forall j | 0 <= j < |r.seeds| :: r.seeds[j] == Seed(env, arm, j)
    ensures r.restored ==> |r.tried| == numMaxTry && |r.seeds| == numMaxTry
  {
    TriesLog(env, numMaxTry, arm, target, 0, arm, NoTryError);
    Tries(env, numMaxTry, arm, target, 0, arm, NoTryError)
  }

  /** Where each engine call of a run from try i starts, and which seeds it
      requests: the first call starts from the current arm, every later one
      from the seed installed before it, and the j-th seed is draw i+j
      repaired against the initial angles. */
  lemma {:induction false} TriesLog(env: Collaborators, numMaxTry: nat, initial: Config,
                                    target: Pose, i: nat, arm: Config, last: IkError)
    requires i <= numMaxTry
    ensures var r := Tries(env, numMaxTry, initial, target, i, arm, last);
      && (r.tried != [] ==> r.tried[0] == arm)
      && (forall j | 1 <= j < |r.tried| :: r.tried[j] == Seed(env, initial, i + j - 1))
      && (forall j | 0 <= j < |r.seeds| :: r.seeds[j] == Seed(env, initial, i + j))
    decreases numMaxTry - i
  {
    if i < numMaxTry && env.engine(arm, target).Unsolved? {
      var e := env.engine(arm, target).error;
      var seed := Seed(env, initial, i);
      if env.setWithConstraints(env.engine(arm, target).left, seed).Installed? {
        TriesLog(env, numMaxTry, initial, target, i + 1, seed, e);
        var r := Tries(env, numMaxTry, initial, target, i, arm, last);
        var rest := Tries(env, numMaxTry, initial, target, i + 1, seed, e);
        assert r.tried == [arm] + rest.tried && r.seeds == [seed] + rest.seeds;
        forall j | 1 <= j < |r.tried|
          ensures r.tried[j] == Seed(env, initial, i + j - 1)
        {
          assert r.tried[j] == rest.tried[j - 1];
        }
        forall j | 0 <= j < |r.seeds|
          ensures r.seeds[j] == Seed(env, initial, i + j)
        {
          if j > 0 {
            assert r.seeds[j] == rest.seeds[j - 1];
          }
        }
      }
    }
  }

  /** Every engine call of a run except the last failed and was followed by
      an accepted seed; when the run ends with the reset, so was the last. */
  lemma {:induction false} TriesRestartedBeforeLast(env: Collaborators, numMaxTry: nat, initial: Config,
                                                    target: Pose, i: nat, arm: Config, last: IkError)
    requires i <= numMaxTry
    ensures var r := Tries(env, numMaxTry, initial, target, i, arm, last);
      && (forall j | 0 <= j < |r.tried| - 1 :: Restarted(env, target, r.tried[j], r.seeds[j]))
      && (r.restored ==> forall j | 0 <= j < |r.tried| :: Restarted(env, target, r.tried[j], r.seeds[j]))
    decreases numMaxTry - i
  {
    if i < numMaxTry && env.engine(arm, target).Unsolved? {
      var seed := Seed(env, initial, i);
      if env.setWithConstraints(env.engine(arm, target).left, seed).Installed? {
        var e := env.engine(arm, target).error;
        TriesRestartedBeforeLast(env, numMaxTry, initial, target, i + 1, seed, e);
        var rest := Tries(env, numMaxTry, initial, target, i + 1, seed, e);
        var r := Tries(env, numMaxTry, initial, target, i, arm, last);
        assert r.tried == [arm] + rest.tried && r.seeds == [seed] + rest.seeds;
        forall j | 1 <= j < |r.tried| - 1
          ensures Restarted(env, target, r.tried[j], r.seeds[j])
        {
          assert r.tried[j] == rest.tried[j - 1] && r.seeds[j] == rest.seeds[j - 1];
        }
        if r.restored {
          forall j | 1 <= j < |r.tried|
            ensures Restarted(env, target, r.tried[j], r.seeds[j])
          {
            assert r.tried[j] == rest.tried[j - 1] && r.seeds[j] == rest.seeds[j - 1];
          }
        }
      }
    }
  }

  /** A run that succeeds stops right after the engine call that succeeded. */
  lemma {:induction false} TriesSolved(env: Collaborators, numMaxTry: nat, initial: Config,
      target: Pose, i: nat, arm: Config, last: IkError)
    requires i <= numMaxTry
    ensures var r := Tries(env, numMaxTry, initial, target, i, arm, last);
      r.attempt.Solved? ==> && !r.restored && r.tried != [] && r.attempt == env.engine(Last(r.tried), target)
    decreases numMaxTry - i
  {
    if i < numMaxTry {
      var r := Tries(env, numMaxTry, initial, target, i, arm, last);
      match env.engine(arm, target)
      case Solved(_) =>
        assert r.tried == [arm];
      case Unsolved(left, e) =>
        var seed := Seed(env, initial, i);
        if env.setWithConstraints(left, seed).Installed? {
          TriesSolved(env, numMaxTry, initial, target, i + 1, seed, e);
          var rest := Tries(env, numMaxTry, initial, target, i + 1, seed, e);
          assert r == rest.(tried := [arm] + rest.tried, seeds := [seed] + rest.seeds);
          if rest.tried != [] {
            assert Last(r.tried) == Last(rest.tried);
          }
        }
    }
  }

  /** A run that reaches the reset returns the reset's outcome. After at
      least one try it carries the last try's error when the reset is
      accepted; with no try left it carries the error it was handed. */
  lemma {:induction false} TriesExhausted(env: Collaborators, numMaxTry: nat, initial: Config,
      target: Pose, i: nat, arm: Config, last: IkError)
    requires i <= numMaxTry
    ensures var r := Tries(env, numMaxTry, initial, target, i, arm, last);
      r.restored && r.tried != [] ==>
        && env.engine(Last(r.tried), target).Unsolved?
        && r.attempt == Restore(env, Last(r.seeds), initial, env.engine(Last(r.tried), target).error)
    ensures var r := Tries(env, numMaxTry, initial, target, i, arm, last);
      r.restored && r.tried == [] ==> r.attempt == Restore(env, arm, initial, last)
    decreases numMaxTry - i
  {
    if i < numMaxTry && env.engine(arm, target).Unsolved? {
      var left := env.engine(arm, target).left;
      var e := env.engine(arm, target).error;
      var seed := Seed(env, initial, i);
      if env.setWithConstraints(left, seed).Installed? {
        TriesExhausted(env, numMaxTry, initial, target, i + 1, seed, e);
        var r := Tries(env, numMaxTry, initial, target, i, arm, last);
        var rest := Tries(env, numMaxTry, initial, target, i + 1, seed, e);
        assert r == rest.(tried := [arm] + rest.tried, seeds := [seed] + rest.seeds);
        if r.restored && rest.tried == [] {
          assert r.tried == [arm] && r.seeds == [seed];
          assert rest.attempt == Restore(env, seed, initial, e);
        } else if r.restored {
          assert Last(r.tried) == Last(rest.tried);
          assert Last(r.seeds) == Last(rest.seeds);
        }
      }
    }
  }

  /** A run that fails without the reset stopped at a refused seed, and returns
      the setter's error and the arm it left. */
  lemma {:induction false} TriesAborted(env: Collaborators, numMaxTry: nat, initial: Config,
      target: Pose, i: nat, arm: Config, last: IkError)
    requires i <= numMaxTry
    ensures var r := Tries(env, numMaxTry, initial, target, i, arm, last);
      !r.restored && r.attempt.Unsolved? ==>
        && r.tried != []
        && |r.tried| == |r.seeds|
        && env.engine(Last(r.tried), target).Unsolved?
        && env.setWithConstraints(env.engine(Last(r.tried), target).left, Last(r.seeds))
           == Refused(r.attempt.left, r.attempt.error)
    decreases numMaxTry - i
  {
    if i < numMaxTry {
      var r := Tries(env, numMaxTry, initial, target, i, arm, last);
      match env.engine(arm, target)
      case Solved(_) =>
      case Unsolved(left, e) =>
        var seed := Seed(env, initial, i);
        match env.setWithConstraints(left, seed)
        case Refused(_, _) =>
          assert r.tried == [arm] && r.seeds == [seed];
        case Installed =>
          TriesAborted(env, numMaxTry, initial, target, i + 1, seed, e);
          var rest := Tries(env, numMaxTry, initial, target, i + 1, seed, e);
          assert r == rest.(tried := [arm] + rest.tried, seeds := [seed] + rest.seeds);
          if !r.restored && r.attempt.Unsolved? {
            assert Last(r.tried) == Last(rest.tried);
            assert Last(r.seeds) == Last(rest.seeds);
          }
    }
  }

  /** A solve returns success exactly when its last engine call succeeded;
      it fails either after the reset, with the final try's error when the
      reset is accepted and the reset's own error when it is refused, or at
      a refused seed, without any reset. */
  lemma SolveOutcome(env: Collaborators, numMaxTry: nat, arm: Config, target: Pose)
    ensures var r := Solve(env, numMaxTry, arm, target);
      && (forall j | 0 <= j < |r.tried| - 1 :: RestartsAt(env, arm, target, j))
      && (r.attempt.Solved? <==> r.tried != [] && env.engine(Last(r.tried), target).Solved?)
      && (r.attempt.Solved? ==> !r.restored && r.attempt == env.engine(Last(r.tried), target))
      && (r.restored && r.tried != [] && env.setPositions(Last(r.seeds), arm).Installed? ==>
            r.attempt == Unsolved(arm, env.engine(Last(r.tried), target).error))
      && (r.restored && r.tried != [] && env.setPositions(Last(r.seeds), arm).Refused? ==>
            r.attempt == Unsolved(env.setPositions(Last(r.seeds), arm).left,
                                  env.setPositions(Last(r.seeds), arm).error))
      && (r.restored && r.tried == [] ==> r.attempt == Restore(env, arm, arm, NoTryError))
      && (!r.restored && r.attempt.Unsolved? ==>
            && r.tried != []
            && env.engine(Last(r.tried), target).Unsolved?
            && env.setWithConstraints(env.engine(Last(r.tried), target).left, Last(r.seeds))
               == Refused(r.attempt.left, r.attempt.error))
  {
    var r := Solve(env, numMaxTry, arm, target);
    TriesRestartedBeforeLast(env, numMaxTry, arm, target, 0, arm, NoTryError);
    TriesSolved(env, numMaxTry, arm, target, 0, arm, NoTryError);
    TriesExhausted(env, numMaxTry, arm, target, 0, arm, NoTryError);
    TriesAborted(env, numMaxTry, arm, target, 0, arm, NoTryError);
    forall j | 0 <= j < |r.tried| - 1
      ensures RestartsAt(env, arm, target, j)
    {
      assert Restarted(env, target, r.tried[j], r.seeds[j]);
    }
  }

  /** The restart solver seen through the same interface as the engine it
      wraps, as the kinematics library's solver trait makes it. */
  function AsSolver(env: Collaborators, numMaxTry: nat): Solver {
    (arm: Config, target: Pose) => Solve(env, numMaxTry, arm, target).attempt
  }

  /** Try k is the first to succeed: every earlier try failed and had its
      seed installed, and the engine succeeds from try k's start. */
  predicate FirstWinAt(env: Collaborators, initial: Config, target: Pose, k: nat) {
    && (forall j | 0 <= j < k :: RestartsAt(env, initial, target, j))
    && env.engine(StartOf(env, initial, k), target).Solved?
  }

  /** Seen as a solver, the restart solver succeeds exactly when one of its
      `numMaxTry` tries is the first to succeed, and it then answers with
      that try's solution. */
  lemma RestartSolverSucceeds(env: Collaborators, numMaxTry: nat, arm: Config, target: Pose)
    ensures AsSolver(env, numMaxTry)(arm, target).Solved? <==>
            exists k | 0 <= k < numMaxTry :: FirstWinAt(env, arm, target, k)
    ensures forall k | 0 <= k < numMaxTry && FirstWinAt(env, arm, target, k) ::
            AsSolver(env, numMaxTry)(arm, target) == env.engine(StartOf(env, arm, k), target)
  {
    var r := Solve(env, numMaxTry, arm, target);
    SolveOutcome(env, numMaxTry, arm, target);
    if r.attempt.Solved? {
      var k := |r.tried| - 1;
      assert r.tried[k] == StartOf(env, arm, k);
      assert FirstWinAt(env, arm, target, k);
    }
    forall k | 0 <= k < numMaxTry && FirstWinAt(env, arm, target, k)
      ensures AsSolver(env, numMaxTry)(arm, target) == env.engine(StartOf(env, arm, k), target)
    {
      FirstSuccess(env, numMaxTry, arm, target, k);
    }
  }

  /** With no tries the engine is never called: the arm is reset to the
      snapshot it already holds and the pre-built zero-residual
      non-convergence error is returned. */
  lemma ZeroTries(env: Collaborators, arm: Config, target: Pose)
    requires env.setPositions(arm, arm).Installed?
    ensures Solve(env, 0, arm, target).tried == []
    ensures Solve(env, 0, arm, target).seeds == []
    ensures Solve(env, 0, arm, target).restored
    ensures Solve(env, 0, arm, target).attempt == Unsolved(arm, NotConverged(0, ZeroVec3, ZeroVec3))
  {
  }

  /** Try i of a run that reached it with all earlier seeds installed starts
      from `StartOf(i)`; from there the first success at try k wins. */
  lemma {:induction false} TriesFirstSuccess(env: Collaborators, numMaxTry: nat, initial: Config,
                                             target: Pose, i: nat, k: nat, last: IkError)
    requires i <= k < numMaxTry
    requires forall j | i <= j < k :: RestartsAt(env, initial, target, j)
    requires env.engine(StartOf(env, initial, k), target).Solved?
    ensures var r := Tries(env, numMaxTry, initial, target, i, StartOf(env, initial, i), last);
            && r.attempt == env.engine(StartOf(env, initial, k), target)
            && |r.tried| == k - i + 1
            && |r.seeds| == k - i
            && !r.restored
    decreases k - i
  {
    if i < k {
      assert RestartsAt(env, initial, target, i);
      var e := env.engine(StartOf(env, initial, i), target).error;
      TriesFirstSuccess(env, numMaxTry, initial, target, i + 1, k, e);
    }
  }

  /** The first success wins: when tries 0..k-1 fail with their seeds
      installed and try k succeeds, exactly k+1 engine calls and k restarts
      are made and the arm keeps the engine's solution; nothing is
      restored. */
  lemma FirstSuccess(env: Collaborators, numMaxTry: nat, arm: Config, target: Pose, k: nat)
    requires k < numMaxTry
    requires forall i | 0 <= i < k :: RestartsAt(env, arm, target, i)
    requires env.engine(StartOf(env, arm, k), target).Solved?
    ensures Solve(env, numMaxTry, arm, target).attempt == env.engine(StartOf(env, arm, k), target)
    ensures |Solve(env, numMaxTry, arm, target).tried| == k + 1
    ensures |Solve(env, numMaxTry, arm, target).seeds| == k
    ensures !Solve(env, numMaxTry, arm, target).restored
  {
    TriesFirstSuccess(env, numMaxTry, arm, target, 0, k, NoTryError);
  }

  lemma {:induction false} TriesAllFail(env: Collaborators, numMaxTry: nat, initial: Config,
                                        target: Pose, i: nat, last: IkError)
    requires 1 <= numMaxTry
    requires i < numMaxTry
    requires forall j | i <= j < numMaxTry :: RestartsAt(env, initial, target, j)
    ensures var r := Tries(env, numMaxTry, initial, target, i, StartOf(env, initial, i), last);
            && r.restored
            && |r.tried| == numMaxTry - i
            && |r.seeds| == numMaxTry - i
            && env.engine(StartOf(env, initial, numMaxTry - 1), target).Unsolved?
            && r.attempt == Restore(env, Seed(env, initial, numMaxTry - 1), initial,
                                    env.engine(StartOf(env, initial, numMaxTry - 1), target).error)
    decreases numMaxTry - i
  {
    assert RestartsAt(env, initial, target, i);
    var e := env.engine(StartOf(env, initial, i), target).error;
    if i + 1 < numMaxTry {
      TriesAllFail(env, numMaxTry, initial, target, i + 1, e);
    }
  }

  /** Exhaustion: when every try fails and every seed and the final reset are
      accepted, the engine was called `numMaxTry` times, a random seed was
      installed after every failure including the last, the arm is back at
      the initial angles, and the error is the last engine call's. */
  lemma AllTriesFail(env: Collaborators, numMaxTry: nat, arm: Config, target: Pose)
    requires numMaxTry >= 1
    requires forall i | 0 <= i < numMaxTry :: RestartsAt(env, arm, target, i)
    requires env.setPositions(Seed(env, arm, numMaxTry - 1), arm).Installed?
    ensures Solve(env, numMaxTry, arm, target).restored
    ensures |Solve(env, numMaxTry, arm, target).tried| == numMaxTry
    ensures |Solve(env, numMaxTry, arm, target).seeds| == numMaxTry
    ensures && env.engine(StartOf(env, arm, numMaxTry - 1), target).Unsolved?
            && Solve(env, numMaxTry, arm, target).attempt
               == Unsolved(arm, env.engine(StartOf(env, arm, numMaxTry - 1), target).error)
  {
    TriesAllFail(env, numMaxTry, arm, target, 0, NoTryError);
  }

  lemma {:induction false} TriesRefusedSeed(env: Collaborators, numMaxTry: nat, initial: Config,
                                            target: Pose, i: nat, k: nat, last: IkError)
    requires i <= k < numMaxTry
    requires forall j | i <= j < k :: RestartsAt(env, initial, target, j)
    requires env.engine(StartOf(env, initial, k), target).Unsolved?
    requires env.setWithConstraints(env.engine(StartOf(env, initial, k), target).left,
                                    Seed(env, initial, k)).Refused?
    ensures var r := Tries(env, numMaxTry, initial, target, i, StartOf(env, initial, i), last);
            var refusal := env.setWithConstraints(env.engine(StartOf(env, initial, k), target).left,
                                                  Seed(env, initial, k));
            && r.attempt == Unsolved(refusal.left, refusal.error)
            && |r.tried| == k - i + 1
            && !r.restored
    decreases k - i
  {
    if i < k {
      assert RestartsAt(env, initial, target, i);
      var e := env.engine(StartOf(env, initial, i), target).error;
      TriesRefusedSeed(env, numMaxTry, initial, target, i + 1, k, e);
    }
  }

  /** A refused restart aborts the solve: when tries 0..k-1 restart, try k
      fails, and the setter refuses seed k, no further engine call is made,
      the arm is not restored, and the setter's error is returned. With
      k = numMaxTry - 1 this shows that a refusal of the seed drawn after the
      final try hides that try's convergence error. */
  lemma RefusedSeedAborts(env: Collaborators, numMaxTry: nat, arm: Config, target: Pose,
                          k: nat, left: Config, e: IkError)
    requires k < numMaxTry
    requires forall i | 0 <= i < k :: RestartsAt(env, arm, target, i)
    requires env.engine(StartOf(env, arm, k), target).Unsolved?
    requires env.setWithConstraints(env.engine(StartOf(env, arm, k), target).left, Seed(env, arm, k))
             == Refused(left, e)
    ensures Solve(env, numMaxTry, arm, target).attempt == Unsolved(left, e)
    ensures |Solve(env, numMaxTry, arm, target).tried| == k + 1
    ensures !Solve(env, numMaxTry, arm, target).restored
  {
    TriesRefusedSeed(env, numMaxTry, arm, target, 0, k, NoTryError);
  }

  /** Whatever happens, when both setters accept every configuration the arm
      ends either at the engine's solution or exactly at the initial angles,
      never at a failed trial or a random seed. */
  lemma EndsSolvedOrInitial(env: Collaborators, numMaxTry: nat, arm: Config, target: Pose)
    requires forall c, n :: env.setWithConstraints(c, n).Installed?
    requires forall c, n :: env.setPositions(c, n).Installed?
    ensures var r := Solve(env, numMaxTry, arm, target);
            r.attempt.Solved? || (r.restored && r.attempt.ArmAfter() == arm)
    ensures var r := Solve(env, numMaxTry, arm, target);
            r.attempt.Solved? ==>
              && r.tried != []
              && r.attempt.ArmAfter() == env.engine(Last(r.tried), target).ArmAfter()
  {
    SolveOutcome(env, numMaxTry, arm, target);
  }
}
