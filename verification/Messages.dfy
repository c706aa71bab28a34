/** Message types and constants shared by the three nodes. */
module Messages {
  type uint8 = x: int | 0 <= x < 256

  // mona_msgs/msg/FdirState.msg
  const STATE_SYSTEM_STARTUP: uint8 := 0
  const STATE_SOFTWARE_OK: uint8 := 1
  const STATE_DEGRADED: uint8 := 2
  const STATE_RECONFIGURED: uint8 := 3
  const STATE_PROTECTIVE_STOP: uint8 := 4
  const STATE_EMERGENCY: uint8 := 5

  // mona_msgs/msg/SafetyState.msg
  const SAFETY_NORMAL: uint8 := 0
  const SAFETY_DEGRADED: uint8 := 1
  const SAFETY_PROTECTIVE_STOP: uint8 := 2
  const SAFETY_EMERGENCY: uint8 := 3

  // mona_msgs/msg/TwistMuxState.msg
  const MUX_IDLE: uint8 := 0
  const MUX_MANUAL: uint8 := 1
  const MUX_AUTONOMOUS: uint8 := 2
  const MUX_BLOCKED_BY_SAFETY: uint8 := 3

  // lifecycle_msgs State and Transition identifiers
  const PRIMARY_STATE_UNKNOWN: uint8 := 0
  const PRIMARY_STATE_UNCONFIGURED: uint8 := 1
  const PRIMARY_STATE_INACTIVE: uint8 := 2
  const PRIMARY_STATE_ACTIVE: uint8 := 3
  const TRANSITION_CONFIGURE: uint8 := 1
  const TRANSITION_CLEANUP: uint8 := 2
  const TRANSITION_ACTIVATE: uint8 := 3

  datatype Option<+T> = None | Some(value: T)

  /** The planar part of a velocity message: linear.x, linear.y and angular.z. */
  datatype Twist = Twist(x: real, y: real, yaw: real)

  const ZERO_TWIST := Twist(0.0, 0.0, 0.0)

  function Max(a: uint8, b: uint8): uint8 {
    if a < b then b else a
  }

  function Abs(v: real): real {
    if v < 0.0 then -v else v
  }

  /** std::clamp(v, -limit, limit). */
  function Clamp(v: real, limit: real): real {
    if v < -limit then -limit else if limit < v then limit else v
  }

  function ClampTwist(t: Twist, limit: real): Twist {
    Twist(Clamp(t.x, limit), Clamp(t.y, limit), Clamp(t.yaw, limit))
  }

  predicate AxisNoLarger(a: real, k: real, b: real) {
    Abs(a) <= k * Abs(b)
  }

  /** Every axis of `a` is no larger in magnitude than `k` times the same axis of `b`. */
  predicate NoLarger(a: Twist, k: real, b: Twist) {
    AxisNoLarger(a.x, k, b.x) && AxisNoLarger(a.y, k, b.y) && AxisNoLarger(a.yaw, k, b.yaw)
  }

  predicate Within(t: Twist, limit: real) {
    Abs(t.x) <= limit && Abs(t.y) <= limit && Abs(t.yaw) <= limit
  }

  // the planar speed against a bound, compared on squares instead of through hypot
  predicate FasterThan(x: real, y: real, bound: real) {
    x * x + y * y > bound * bound
  }

  predicate SlowerThan(x: real, y: real, bound: real) {
    x * x + y * y < bound * bound
  }

  /** A clamp never enlarges, stays within the limit, and leaves what is within it alone. */
  lemma ClampTwistMeaning(t: Twist, limit: real)
    requires 0.0 <= limit
    ensures Within(ClampTwist(t, limit), limit)
    ensures NoLarger(ClampTwist(t, limit), 1.0, t)
    ensures ClampTwist(t, limit) == t <==> Within(t, limit)
  {
  }

  /** An event, and the clock reading at which the node handles it. */
  datatype Timed<+E> = Timed(at: real, ev: E)

  /** The clock never runs backwards; two events may share an instant. */
  predicate InOrder<E>(evs: seq<Timed<E>>) {
    forall i, j :: 0 <= i < j < |evs| ==> evs[i].at <= evs[j].at
  }

  function LastTime<E>(start: real, evs: seq<Timed<E>>): real {
    if evs == [] then start else evs[|evs| - 1].at
  }
}
