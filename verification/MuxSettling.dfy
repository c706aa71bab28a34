/** The smoothing bounds, on runs of the multiplexer. */
module MuxSettling {
  import opened Messages
  import opened Smoothing
  import opened MuxSpec

  function TickCount(evs: Trace): nat {
    if evs == [] then 0 else
    TickCount(evs[..|evs| - 1]) + if evs[|evs| - 1].ev.ControlTick? then 1 else 0
  }

  /** Every control tick of the trace aims at `goal` under the same filter weight and limit. */
  ghost predicate Steady(m: Mux, evs: Trace, goal: Twist, alpha: real, limit: real) {
    forall i: nat :: i < |evs| && evs[i].ev.ControlTick? ==> AimsAt(Run(m, evs[..i]), evs[i].at, goal, alpha, limit)
  }

  predicate AimsAt(m: Mux, now: real, goal: Twist, alpha: real, limit: real) {
    && m.active && m.configured && !m.crashed && m.cfg.alpha == alpha && SpeedLimit(m) == limit
    && Route(m, now).Some? && Route(m, now).value.1 == goal
  }

  function SettleTwist(alpha: real, goal: Twist, limit: real, v: Twist, n: nat): Twist {
    Twist(Settle(alpha, goal.x, limit, v.x, n), Settle(alpha, goal.y, limit, v.y, n),
          Settle(alpha, goal.yaw, limit, v.yaw, n))
  }

  lemma StepVelocity(m: Mux, now: real, ev: Event, goal: Twist, alpha: real, limit: real)
    requires ev.ControlTick? ==> AimsAt(m, now, goal, alpha, limit)
    ensures Step(m, now, ev).0.current
            == if ev.ControlTick? then FilterTwist(alpha, goal, limit, m.current) else m.current
  {
    hide FilterTwist;
  }

  /** The velocity of a steady run is the iterated filter, whatever callbacks come between the ticks. */
  lemma {:induction false} SteadyRun(m: Mux, evs: Trace, goal: Twist, alpha: real, limit: real)
    requires Steady(m, evs, goal, alpha, limit)
    ensures Run(m, evs).current == SettleTwist(alpha, goal, limit, m.current, TickCount(evs))
  {
    if evs != [] {
      var before, e := evs[..|evs| - 1], evs[|evs| - 1];
      assert Steady(m, before, goal, alpha, limit) by {
        assert forall i: nat :: i < |before| ==> before[..i] == evs[..i];
      }
      assert e.ev.ControlTick? ==> AimsAt(Run(m, before), e.at, goal, alpha, limit);
      SteadyRun(m, before, goal, alpha, limit);
      hide Steady, AimsAt, Filter, Step;
      StepVelocity(Run(m, before), e.at, e.ev, goal, alpha, limit);
    }
  }

  /** The distance of `v` from the goal is at most `k` times that of `v0`. */
  predicate Closer(v: real, k: real, v0: real, goal: real) {
    Abs(v - goal) <= k * Abs(v0 - goal)
  }

  predicate CloserTwist(v: Twist, k: real, v0: Twist, goal: Twist) {
    Closer(v.x, k, v0.x, goal.x) && Closer(v.y, k, v0.y, goal.y) && Closer(v.yaw, k, v0.yaw, goal.yaw)
  }

  /** Stopping bound: n steady ticks leave at most (1 - alpha)^n of the distance to the clamped goal. */
  lemma StoppingBound(m: Mux, evs: Trace, goal: Twist, alpha: real, limit: real)
    requires Steady(m, evs, goal, alpha, limit) && 0.0 <= alpha <= 1.0 && 0.0 <= limit
    ensures CloserTwist(Run(m, evs).current, Pow(1.0 - alpha, TickCount(evs)), m.current, ClampTwist(goal, limit))
  {
    hide Closer, Settle, Steady, Run;
    SteadyRun(m, evs, goal, alpha, limit);
    AxisSettles(alpha, goal.x, limit, m.current.x, TickCount(evs));
    AxisSettles(alpha, goal.y, limit, m.current.y, TickCount(evs));
    AxisSettles(alpha, goal.yaw, limit, m.current.yaw, TickCount(evs));
  }

  lemma AxisSettles(alpha: real, goal: real, limit: real, v: real, n: nat)
    requires 0.0 <= alpha <= 1.0 && 0.0 <= limit
    ensures Closer(Settle(alpha, goal, limit, v, n), Pow(1.0 - alpha, n), v, Clamp(goal, limit))
  {
    hide Settle, Pow, Clamp, Abs;
    SettleBound(alpha, goal, limit, v, n);
  }
}
