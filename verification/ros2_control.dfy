/** The data translations of the ROS 2 joint-trajectory client
    (`Ros2ControlClient` in arci-ros2/src/ros2_control.rs): reading joint
    positions out of a controller state by joint name, and turning a
    trajectory into a FollowJointTrajectory goal. The action client, the
    subscriptions and the clock are left outside; the clock reading enters
    as a parameter. */
module Ros2Control {

  datatype Option<T> = None | Some(value: T)

  /** A call that either returns or panics (an `unwrap` of nothing, an index
      out of bounds). */
  datatype Reply<T> = Returns(value: T) | Panics

  const I32Max: int := 0x7fff_ffff
  const I32Min: int := -0x8000_0000
  const TwoTo32: int := 0x1_0000_0000
  const NanosPerSec: nat := 1_000_000_000

  /** A `std::time::Duration`: whole seconds and the nanoseconds below one
      second. */
  datatype Duration = Duration(secs: nat, subsecNanos: nat)

  predicate ValidDuration(d: Duration) {
    d.secs < 0x1_0000_0000_0000_0000 && d.subsecNanos < NanosPerSec
  }

  /** builtin_interfaces Duration and Time: a signed 32-bit `sec` and an
      unsigned 32-bit `nanosec`. */
  datatype MsgDuration = MsgDuration(sec: int, nanosec: nat)
  datatype Time = Time(sec: int, nanosec: nat)
  datatype Header = Header(stamp: Time, frameId: string)

  /** arci's trajectory point: velocities are optional. */
  datatype TrajectoryPoint = TrajectoryPoint(positions: seq<real>, velocities: Option<seq<real>>, timeFromStart: Duration)

  /** trajectory_msgs JointTrajectoryPoint and JointTrajectory. */
  datatype JointTrajectoryPoint = JointTrajectoryPoint(
    positions: seq<real>, velocities: seq<real>, accelerations: seq<real>, effort: seq<real>,
    timeFromStart: MsgDuration)
  datatype JointTrajectory = JointTrajectory(header: Header, jointNames: seq<string>, points: seq<JointTrajectoryPoint>)

  /** The parts of a control_msgs JointTrajectoryControllerState the client
      reads: the controller's joint names and the actual positions. */
  datatype ControllerState = ControllerState(jointNames: seq<string>, actualPositions: seq<real>)

  /** The client, reduced to the joint names it was created with. */
  datatype Client = Client(jointNames: seq<string>)

  /** `vec![0.0; n]` */
  function Zeros(n: nat): (z: seq<real>)
    ensures |z| == n
    ensures forall i | 0 <= i < n :: z[i] == 0.0
  {
    seq(n, _ => 0.0)
  }

  /** `names.iter().position(|n| n == name)`: the first index holding the
      name, or nothing when it is absent. */
  function Position(names: seq<string>, name: string): (r: Option<nat>)
    ensures r.Some? ==> r.value < |names| && names[r.value] == name
    ensures r.Some? ==> forall j | 0 <= j < r.value :: names[j] != name
    ensures r.None? <==> name !in names
  {
    if names == [] then None
    else if names[0] == name then Some(0)
    else match Position(names[1..], name)
      case None => None
      case Some(j) => Some(j + 1)
  }

  /** The controller state has the name, and a position at its first index. */
  predicate Readable(state: ControllerState, name: string) {
    var j := Position(state.jointNames, name);
    j.Some? && j.value < |state.actualPositions|
  }

  /** The position of each of `names`, looked up in the state by name. */
  function ReadPositions(names: seq<string>, state: ControllerState): (r: Reply<seq<real>>)
    ensures r.Returns? <==> forall i | 0 <= i < |names| :: Readable(state, names[i])
    ensures r.Returns? ==> |r.value| == |names|
    ensures r.Returns? ==> forall i | 0 <= i < |names| ::
      r.value[i] == state.actualPositions[Position(state.jointNames, names[i]).value]
  {
    if names == [] then Returns([])
    else
      var j := Position(state.jointNames, names[0]);
      if j.None? || j.value >= |state.actualPositions| then Panics
      else match ReadPositions(names[1..], state)
        case Panics => Panics
        case Returns(rest) => Returns([state.actualPositions[j.value]] + rest)
  }

  /** `current_joint_positions` on a freshly received controller state: one
      value per client joint, in the client's order, each read where the
      controller first lists that joint. A joint the controller does not
      list, or lists without a position, is a panic. */
  function CurrentJointPositions(client: Client, state: ControllerState): (r: Reply<seq<real>>)
    ensures r.Returns? <==> forall i | 0 <= i < |client.jointNames| :: Readable(state, client.jointNames[i])
    ensures r.Returns? ==> |r.value| == |client.jointNames|
    ensures r.Returns? ==> forall i | 0 <= i < |client.jointNames| ::
      r.value[i] == state.actualPositions[Position(state.jointNames, client.jointNames[i]).value]
  {
    ReadPositions(client.jointNames, state)
  }

  /** Said without `Position`: the i-th value is the actual position at the
      first index j where the controller lists the client's i-th joint. */
  lemma CurrentJointPositionsFirstMatch(client: Client, state: ControllerState, i: int)
    requires CurrentJointPositions(client, state).Returns?
    requires 0 <= i < |client.jointNames|
    ensures exists j | 0 <= j < |state.jointNames| ::
      && state.jointNames[j] == client.jointNames[i]
      && (forall k | 0 <= k < j :: state.jointNames[k] != client.jointNames[i])
      && j < |state.actualPositions|
      && CurrentJointPositions(client, state).value[i] == state.actualPositions[j]
  {
    assert Readable(state, client.jointNames[i]);
    var j := Position(state.jointNames, client.jointNames[i]).value;
    assert state.jointNames[j] == client.jointNames[i];
  }

  /** No repeated name. */
  predicate Distinct(names: seq<string>) {
    forall i, j | 0 <= i < j < |names| :: names[i] != names[j]
  }

  /** When the controller lists the client's joints in the client's order,
      without repeats, the positions come back unchanged. */
  lemma SameOrderReadsUnchanged(client: Client, state: ControllerState)
    requires state.jointNames == client.jointNames
    requires Distinct(client.jointNames)
    requires |state.actualPositions| == |client.jointNames|
    ensures CurrentJointPositions(client, state) == Returns(state.actualPositions)
  {
    var names := client.jointNames;
    forall i | 0 <= i < |names|
      ensures Position(names, names[i]) == Some(i)
    {
      var p := Position(names, names[i]);
      assert p.Some?;
    }
    var r := CurrentJointPositions(client, state);
    assert r.Returns?;
    assert r.value == state.actualPositions;
  }

  /** `as_secs().try_into().unwrap_or(i32::MAX)`: a 64-bit second count
      that fits a signed 32-bit field is kept, a larger one saturates. */
  function SaturatingSecs(secs: nat): (s: int)
    ensures 0 <= s <= I32Max
    ensures s <= secs
    ensures s == secs || s == I32Max
  {
    if secs <= I32Max then secs else I32Max
  }

  /** `as i32` on a 64-bit count: the low 32 bits read as two's complement. */
  function WrappingSecs(secs: nat): (s: int)
    ensures I32Min <= s <= I32Max
    ensures (secs - s) % TwoTo32 == 0
  {
    var low := secs % TwoTo32;
    if low > I32Max then low - TwoTo32 else low
  }

  /** The message form of a trajectory point's time from start. */
  function ToMsgDuration(d: Duration): (m: MsgDuration)
    ensures I32Min <= m.sec <= I32Max
    ensures d.secs <= I32Max ==> m.sec == d.secs
    ensures d.secs > I32Max ==> m.sec == I32Max
    ensures m.nanosec == d.subsecNanos
  {
    MsgDuration(SaturatingSecs(d.secs), d.subsecNanos)
  }

  /** Reading a message duration back; negative seconds have no
      `Duration`. */
  function FromMsgDuration(m: MsgDuration): Duration
    requires m.sec >= 0
  {
    Duration(m.sec, m.nanosec)
  }

  /** The conversion keeps every duration whose seconds fit the message
      field, and maps every longer one to the largest representable
      seconds, keeping its nanoseconds. */
  lemma DurationRoundTrip(d: Duration)
    ensures d.secs <= I32Max ==> FromMsgDuration(ToMsgDuration(d)) == d
    ensures d.secs > I32Max ==> ToMsgDuration(d) == MsgDuration(I32Max, d.subsecNanos)
    ensures ValidDuration(d) ==> ToMsgDuration(d).nanosec < NanosPerSec
  {
  }

  /** The header stamp wraps where the time from start saturates: for a
      clock reading past the 32-bit range the two conversions differ. */
  lemma StampWrapsWhereDurationSaturates(now: Duration)
    requires I32Max < now.secs < TwoTo32
    ensures WrappingSecs(now.secs) == now.secs - TwoTo32
    ensures WrappingSecs(now.secs) < 0
    ensures SaturatingSecs(now.secs) == I32Max
  {
  }

  /** One trajectory point as sent: positions unchanged, missing velocities
      filled with as many zeros as there are positions, no accelerations or
      efforts, and the time from start converted. */
  function ToMsgPoint(tp: TrajectoryPoint): (m: JointTrajectoryPoint)
    ensures m.positions == tp.positions
    ensures tp.velocities.Some? ==> m.velocities == tp.velocities.value
    ensures tp.velocities.None? ==> |m.velocities| == |tp.positions| && forall i | 0 <= i < |m.velocities| :: m.velocities[i] == 0.0
    ensures m.accelerations == [] && m.effort == []
    ensures 0 <= m.timeFromStart.sec <= I32Max
    ensures m.timeFromStart == ToMsgDuration(tp.timeFromStart)
    ensures tp.timeFromStart.secs > I32Max ==>
      m.timeFromStart == MsgDuration(I32Max, tp.timeFromStart.subsecNanos)
  {
    JointTrajectoryPoint(
      tp.positions,
      match tp.velocities case Some(v) => v case None => Zeros(|tp.positions|),
      [], [],
      ToMsgDuration(tp.timeFromStart))
  }

  /** Reading a sent point back as an arci trajectory point. */
  function FromMsgPoint(m: JointTrajectoryPoint): TrajectoryPoint
    requires m.timeFromStart.sec >= 0
  {
    TrajectoryPoint(m.positions, Some(m.velocities), FromMsgDuration(m.timeFromStart))
  }

  /** A point whose seconds fit comes back with its positions, velocities and
      time; absent velocities come back as zeros, so leaving them out and
      sending explicit zeros are the same on the wire. */
  lemma PointRoundTrip(tp: TrajectoryPoint)
    requires tp.timeFromStart.secs <= I32Max
    ensures tp.velocities.Some? ==> FromMsgPoint(ToMsgPoint(tp)) == tp
    ensures tp.velocities.None? ==>
      FromMsgPoint(ToMsgPoint(tp)) == tp.(velocities := Some(Zeros(|tp.positions|)))
    ensures ToMsgPoint(tp.(velocities := None)) == ToMsgPoint(tp.(velocities := Some(Zeros(|tp.positions|))))
  {
  }

  /** The trajectory's points converted one by one, in order. */
  function ToMsgPoints(trajectory: seq<TrajectoryPoint>): (points: seq<JointTrajectoryPoint>)
    ensures |points| == |trajectory|
    ensures forall i | 0 <= i < |trajectory| :: points[i] == ToMsgPoint(trajectory[i])
  {
    if trajectory == [] then []
    else [ToMsgPoint(trajectory[0])] + ToMsgPoints(trajectory[1..])
  }

  /** The goal trajectory `send_joint_trajectory` sends: the client's joint
      names, the converted points, and a header stamped with the clock
      reading `now`, whose seconds are cast (wrapping) to 32 bits. */
  function SendJointTrajectory(client: Client, trajectory: seq<TrajectoryPoint>, now: Duration): (goal: JointTrajectory)
    ensures goal.jointNames == client.jointNames
    ensures |goal.points| == |trajectory|
    ensures forall i | 0 <= i < |trajectory| :: goal.points[i] == ToMsgPoint(trajectory[i])
    ensures goal.header.stamp.nanosec == now.subsecNanos && goal.header.frameId == ""
    ensures I32Min <= goal.header.stamp.sec <= I32Max
    ensures (now.secs - goal.header.stamp.sec) % TwoTo32 == 0
  {
    JointTrajectory(Header(Time(WrappingSecs(now.secs), now.subsecNanos), ""), client.jointNames, ToMsgPoints(trajectory))
  }

  /** `send_joint_positions`: a one-point trajectory with the given positions,
      no velocities, reaching them after `duration`. */
  function SendJointPositions(client: Client, positions: seq<real>, duration: Duration, now: Duration): (goal: JointTrajectory)
    ensures goal.jointNames == client.jointNames
    ensures |goal.points| == 1
    ensures goal.points[0].positions == positions
    ensures goal.points[0].velocities == Zeros(|positions|)
    ensures goal.points[0].timeFromStart == ToMsgDuration(duration)
  {
    SendJointTrajectory(client, [TrajectoryPoint(positions, None, duration)], now)
  }
}
