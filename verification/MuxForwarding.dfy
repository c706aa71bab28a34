/** Which command the wheels follow, within which limit, and what is published about it. */
module MuxForwarding {
  import opened Messages
  import opened MuxSpec
  import opened MuxHistory
  import opened Smoothing

  // ----- the flags -----

  /** The last health state to arrive while the multiplexer was configured. */
  function LastHealth(m: Mux, evs: Trace): Option<uint8> {
    if evs == [] then None else
    var before, ev := evs[..|evs| - 1], evs[|evs| - 1].ev;
    if ev.HealthArrives? && Hears(Run(m, before)) then Some(ev.state) else LastHealth(m, before)
  }

  /** The last safety state to arrive while the multiplexer was configured. */
  function LastSafety(m: Mux, evs: Trace): Option<uint8> {
    if evs == [] then None else
    var before, ev := evs[..|evs| - 1], evs[|evs| - 1].ev;
    if ev.SafetyArrives? && Hears(Run(m, before)) then Some(ev.state) else LastSafety(m, before)
  }

  predicate Hears(m: Mux) {
    m.configured && !m.crashed
  }

  predicate FlagsSay(m: Mux, health: Option<uint8>, safety: Option<uint8>) {
    && (m.degraded <==> health == Some(STATE_DEGRADED))
    && (m.fdirBlocked <==> health == Some(STATE_EMERGENCY) || health == Some(STATE_PROTECTIVE_STOP)
                           || health == Some(STATE_RECONFIGURED))
    && (m.estopBlocked <==> safety == Some(SAFETY_EMERGENCY))
    && (m.safetyBlocked <==> m.fdirBlocked || m.estopBlocked)
  }

  lemma FlagsStep(m: Mux, health: Option<uint8>, safety: Option<uint8>, now: real, ev: Event)
    requires FlagsSay(m, health, safety)
    ensures FlagsSay(Step(m, now, ev).0,
                     if ev.HealthArrives? && Hears(m) then Some(ev.state) else health,
                     if ev.SafetyArrives? && Hears(m) then Some(ev.state) else safety)
  {
    hide IsZero, FilterTwist;
  }

  /** The flags of the multiplexer say what the last health and safety states were, and nothing else. */
  lemma {:induction false} FlagsFollow(start: real, evs: Trace)
    ensures var m := Created(start); FlagsSay(Run(m, evs), LastHealth(m, evs), LastSafety(m, evs))
  {
    if evs != [] {
      var m, before, e := Created(start), evs[..|evs| - 1], evs[|evs| - 1];
      FlagsFollow(start, before);
      hide Step, FlagsSay, Hears;
      FlagsStep(Run(m, before), LastHealth(m, before), LastSafety(m, before), e.at, e.ev);
    }
  }

  // ----- the tick -----

  /** What the mode of a tick means for its goal, in terms of the messages received. */
  predicate Follows(mode: Mode, goal: Twist, evs: Trace, teleop: Option<nat>, nav: Option<nat>) {
    match mode
    case Manual => teleop.Some? && teleop.value < |evs| && Commands(evs[teleop.value].ev, goal)
    case Autonomous => nav.Some? && nav.value < |evs| && evs[nav.value].ev == Nav(goal)
    case _ => goal == ZERO_TWIST
  }

  predicate Recent(evs: Trace, i: Option<nat>, timeout: real, now: real) {
    i.Some? && i.value < |evs| && now - evs[i.value].at <= timeout
  }

  /** The published code of a mode. */
  predicate CodeOf(mode: Mode, code: uint8) {
    && (code == MUX_IDLE <==> mode == Idle)
    && (code == MUX_MANUAL <==> mode == Manual)
    && (code == MUX_AUTONOMOUS <==> mode == Autonomous)
    && (code == MUX_BLOCKED_BY_SAFETY <==> mode == Blocked)
  }

  /** A control tick of the running node that does not throw leaves a goal, publishes exactly one velocity, the new
      smoothed one, and exactly one state, that of the mode it leaves. */
  predicate Ticked(m: Mux, n: Mux, out: Output) {
    && out.velocities == [n.current]
    && |out.states| == 1 && CodeOf(n.mode, out.states[0])
    && !out.cancels
  }

  lemma TickPublishes(m: Mux, now: real)
    requires m.configured && m.active && m.mode != Unconfigured
    ensures var (n, out) := Step(m, now, ControlTick);
            !n.crashed ==> Ticked(m, n, out)
  {
    hide FilterTwist;
  }

  /** Where a tick of the running node takes its goal, in terms of the stored messages, and what it leaves alone. */
  lemma TickGoal(m: Mux, was: real, now: real)
    requires Reachable(m, was) && was <= now && m.active && !m.crashed
    ensures var n := Step(m, now, ControlTick).0;
            && (n.crashed ==> n == m.(crashed := true) && !m.safetyBlocked && m.mode != Manual && m.mode != Autonomous)
            && (!n.crashed ==>
                  && (n.mode == Blocked <==> m.safetyBlocked)
                  && (n.mode == Manual ==> m.mode == Manual && n.target == m.lastTeleop)
                  && (n.mode == Autonomous ==> m.mode == Autonomous && n.target == m.lastNav)
                  && (n.mode == Blocked || n.mode == Idle ==> n.target == ZERO_TWIST)
                  && (n.mode == Idle && !m.safetyBlocked ==>
                        now - m.lastTeleopTime > m.cfg.cmdTimeout && now - m.lastNavTime > m.cfg.cmdTimeout)
                  && n.mode != Unconfigured
                  && n == m.(mode := n.mode, target := n.target, current := n.current))
  {
    hide FilterTwist;
  }

  /** The velocity of a tick: within the limit the last health state prescribes, never past the reachable part of
      the goal, and nearer to it by the factor 1 - alpha at least. */
  predicate Approaches(v: real, v0: real, goal: real, alpha: real, limit: real) {
    var c := Clamp(goal, limit);
    && -limit <= v <= limit
    && Abs(v - c) <= (1.0 - alpha) * Abs(v0 - c)
    && (v0 <= c ==> v <= c) && (c <= v0 ==> c <= v)
    && (Abs(goal) <= limit && Abs(v0) <= limit ==> v == goal + (1.0 - alpha) * (v0 - goal))
  }

  predicate ApproachesTwist(v: Twist, v0: Twist, goal: Twist, alpha: real, limit: real) {
    && Approaches(v.x, v0.x, goal.x, alpha, limit)
    && Approaches(v.y, v0.y, goal.y, alpha, limit)
    && Approaches(v.yaw, v0.yaw, goal.yaw, alpha, limit)
  }

  lemma AxisApproaches(alpha: real, goal: real, limit: real, v: real)
    requires 0.0 <= alpha <= 1.0 && 0.0 <= limit
    ensures Approaches(Filter(alpha, goal, limit, v), v, goal, alpha, limit)
  {
    TickContracts(alpha, goal, limit, v);
    AxisInLimit(alpha, goal, limit, v);
    if Abs(goal) <= limit && Abs(v) <= limit {
      FilterInside(alpha, goal, limit, v);
      Blend(alpha, goal, v);
    }
    hide Filter;
  }

  lemma AxisInLimit(alpha: real, goal: real, limit: real, v: real)
    requires 0.0 <= limit
    ensures -limit <= Filter(alpha, goal, limit, v) <= limit
  {
  }

  lemma Blend(alpha: real, goal: real, v: real)
    ensures alpha * goal + (1.0 - alpha) * v == goal + (1.0 - alpha) * (v - goal)
  {
  }

  lemma TickVelocity(m: Mux, now: real)
    requires Sensible(m.cfg) && m.configured && m.active && !m.crashed && !Step(m, now, ControlTick).0.crashed
    ensures var n := Step(m, now, ControlTick).0;
            ApproachesTwist(n.current, m.current, n.target, m.cfg.alpha,
                            if m.degraded then m.cfg.maxDegraded else m.cfg.maxNormal)
  {
    var limit := if m.degraded then m.cfg.maxDegraded else m.cfg.maxNormal;
    var goal := Step(m, now, ControlTick).0.target;
    AxisApproaches(m.cfg.alpha, goal.x, limit, m.current.x);
    AxisApproaches(m.cfg.alpha, goal.y, limit, m.current.y);
    AxisApproaches(m.cfg.alpha, goal.yaw, limit, m.current.yaw);
    hide Filter, Approaches;
  }

  /** What a tick of the running node does, read off the messages of its life. If it does not throw, it is blocked
      exactly when the last health state is an emergency, a protective stop or a reconfiguration, or the last safety
      state an emergency; in MANUAL it aims at the newest stick message, in AUTONOMOUS at the newest navigation
      message, otherwise at zero; it moves towards that goal within the degraded limit if the last health state was
      DEGRADED and the normal one otherwise; and it publishes that one velocity and its mode. */
  lemma {:induction false} TickFollows(start: real, evs: Trace, now: real)
    requires Life(start, evs) && AllSensible(evs) && LastTime(start, evs) <= now
    requires Run(Created(start), evs).active && !Run(Created(start), evs).crashed
    ensures var m := Run(Created(start), evs);
            var (n, out) := Step(m, now, ControlTick);
            var health, safety := LastHealth(Created(start), evs), LastSafety(Created(start), evs);
            !n.crashed ==>
              && Ticked(m, n, out)
              && (n.mode == Blocked <==> health == Some(STATE_EMERGENCY) || health == Some(STATE_PROTECTIVE_STOP)
                                         || health == Some(STATE_RECONFIGURED) || safety == Some(SAFETY_EMERGENCY))
              && Follows(n.mode, n.target, evs, LastTeleopMessage(Created(start), evs),
                         LastNavMessage(Created(start), evs))
              && ApproachesTwist(n.current, m.current, n.target, m.cfg.alpha,
                                 if health == Some(STATE_DEGRADED) then m.cfg.maxDegraded else m.cfg.maxNormal)
  {
    var m := Run(Created(start), evs);
    RunReachable(start, evs);
    FlagsFollow(start, evs);
    History(start, evs);
    TickPublishes(m, now);
    TickGoal(m, LastTime(start, evs), now);
    if !Step(m, now, ControlTick).0.crashed { TickVelocity(m, now); }
    hide Run, Step, Life, LastHealth, LastSafety, LastTeleopMessage, LastNavMessage, LastStick, ApproachesTwist, Ticked;
  }

  /** An inactive node publishes nothing and cancels nothing on a tick, and no callback ever publishes. */
  lemma OnlyTicksPublish(m: Mux, now: real, ev: Event)
    ensures var out := Step(m, now, ev).1;
            out.velocities != [] || out.states != [] ==> ev.ControlTick? && m.active && m.configured && !m.crashed
  {
    hide FilterTwist;
  }

  // ----- the callbacks -----

  /** A stick message commands motion when its planar speed or its turn rate reaches a thousandth. */
  predicate Moves(msg: Twist) {
    msg.x * msg.x + msg.y * msg.y >= 0.000001 || msg.yaw >= 0.001 || msg.yaw <= -0.001
  }

  /** What a stick message does: dropped in a block; else stored; and it takes over, restarting the takeover time,
      exactly when it commands motion. */
  lemma StickTakesOver(m: Mux, now: real, msg: Twist, ready: bool)
    requires Hears(m)
    ensures var n := Step(m, now, Teleop(msg, ready)).0;
            if m.safetyBlocked then n == m
            else if Moves(msg) then n == m.(lastTeleop := msg, mode := Manual, lastTeleopTime := now)
            else n == m.(lastTeleop := msg)
  {
  }

  /** What a navigation message does: dropped in a block; else it refreshes the watchdog; and it takes control, and is
      stored, exactly when the takeover time since the last stick command has passed. */
  lemma NavigationTakesOver(m: Mux, now: real, msg: Twist)
    requires Hears(m)
    ensures var (n, out) := Step(m, now, Nav(msg));
            && out == SILENT
            && if m.safetyBlocked then n == m
               else if m.lastTeleopTime + m.cfg.manualTimeout <= now
               then n == m.(lastNavTime := now, mode := Autonomous, lastNav := msg)
               else n == m.(lastNavTime := now)
  {
  }

  /** The navigation goal is cancelled exactly when control passes from navigation to the stick and the action
      server is ready. */
  lemma CancelsOnHandover(m: Mux, now: real, ev: Event)
    ensures Step(m, now, ev).1.cancels
            <==> m.mode == Autonomous && Step(m, now, ev).0.mode == Manual && ev.Teleop? && ev.ready
  {
    hide FilterTwist;
  }

  // ----- the lifecycle -----

  /** Where the node stands in its lifecycle. */
  datatype Standing = Absent | Standby | Operating

  function StandingAfter(at: Standing, ev: Event): Standing {
    match ev
    case Configure(_) => if at == Absent then Standby else at
    case Activate => if at == Standby then Operating else at
    case Deactivate => if at == Operating then Standby else at
    case Cleanup => if at == Standby then Absent else at
    case _ => at
  }

  function StandingOf(evs: Trace): Standing {
    if evs == [] then Absent else StandingAfter(StandingOf(evs[..|evs| - 1]), evs[|evs| - 1].ev)
  }

  predicate Stands(m: Mux, at: Standing) {
    && (m.configured <==> at != Absent)
    && (m.active <==> at == Operating)
  }

  /** The last configuration to take effect. */
  function ConfigOf(evs: Trace): Option<Config> {
    if evs == [] then None else
    var before, ev := evs[..|evs| - 1], evs[|evs| - 1].ev;
    if ev.Configure? && StandingOf(before) == Absent then Some(ev.cfg) else ConfigOf(before)
  }

  /** The node follows its transitions: until it crashes it is configured and active as they say, whatever else
      arrives, and its parameters are those of the last configuration that took effect. */
  lemma {:induction false} LifecycleFollows(start: real, evs: Trace)
    ensures !Run(Created(start), evs).crashed ==>
              && Stands(Run(Created(start), evs), StandingOf(evs))
              && (StandingOf(evs) != Absent ==> ConfigOf(evs) == Some(Run(Created(start), evs).cfg))
  {
    if evs != [] {
      var before, e := evs[..|evs| - 1], evs[|evs| - 1];
      LifecycleFollows(start, before);
      LifecycleStep(Run(Created(start), before), StandingOf(before), e.at, e.ev);
      hide Step, Stands;
    }
  }

  lemma LifecycleStep(m: Mux, at: Standing, now: real, ev: Event)
    ensures m.crashed ==> Step(m, now, ev).0.crashed
    ensures !m.crashed && Stands(m, at) ==>
              var n := Step(m, now, ev).0;
              && Stands(n, StandingAfter(at, ev))
              && n.cfg == (if ev.Configure? && at == Absent then ev.cfg else m.cfg)
  {
    hide IsZero, FilterTwist;
  }
}
