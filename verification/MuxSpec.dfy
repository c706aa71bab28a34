/** The twist multiplexer as a state machine over its callbacks. */
module MuxSpec {
  import opened Messages
  import opened Smoothing

  datatype Config = Config(cmdTimeout: real, manualTimeout: real, alpha: real, maxNormal: real, maxDegraded: real)

  datatype Mode = Unconfigured | Idle | Manual | Autonomous | Blocked

  datatype Mux = Mux(
    cfg: Config, mode: Mode,
    lastTeleopTime: real, lastNavTime: real, lastTeleop: Twist, lastNav: Twist,
    target: Twist, current: Twist,
    degraded: bool, fdirBlocked: bool, estopBlocked: bool, safetyBlocked: bool,
    configured: bool,  // subscriptions and timer exist
    active: bool,      // publishers are activated
    crashed: bool)     // control_loop threw; the process is gone

  /** A stick command carries whether the navigation action server is ready when it is handled. */
  datatype Event =
    | Teleop(msg: Twist, ready: bool) | Nav(msg: Twist)
    | HealthArrives(state: uint8) | SafetyArrives(state: uint8)
    | ControlTick
    | Configure(cfg: Config) | Activate | Deactivate | Cleanup

  /** What a step publishes, and whether it cancels the navigation goal. */
  datatype Output = Output(velocities: seq<Twist>, states: seq<uint8>, cancels: bool)

  const SILENT := Output([], [], false)

  /** The assumptions on parameters: a filter weight, and no negative limit or timeout. */
  predicate Sensible(cfg: Config) {
    && 0.0 <= cfg.alpha <= 1.0 && 0.0 <= cfg.maxNormal && 0.0 <= cfg.maxDegraded
    && 0.0 <= cfg.cmdTimeout && 0.0 <= cfg.manualTimeout
  }

  function Created(now: real): Mux {
    Mux(Config(0.5, 2.0, 0.1, 0.0, 0.0), Unconfigured, now, now, ZERO_TWIST, ZERO_TWIST,
        ZERO_TWIST, ZERO_TWIST, false, false, false, false, false, false, false)
  }

  predicate IsZero(msg: Twist) {
    SlowerThan(msg.x, msg.y, 0.001) && Abs(msg.yaw) < 0.001
  }

  predicate FdirBlocks(state: uint8) {
    state == STATE_EMERGENCY || state == STATE_PROTECTIVE_STOP || state == STATE_RECONFIGURED
  }

  function StateMessage(mode: Mode): uint8 {
    match mode
    case Idle => MUX_IDLE
    case Manual => MUX_MANUAL
    case Autonomous => MUX_AUTONOMOUS
    case Blocked => MUX_BLOCKED_BY_SAFETY
    case Unconfigured => MUX_BLOCKED_BY_SAFETY
  }

  function SpeedLimit(m: Mux): real {
    if m.degraded then m.cfg.maxDegraded else m.cfg.maxNormal
  }

  /** No command of either kind has refreshed the watchdog within the command timeout. */
  predicate Stale(m: Mux, now: real) {
    now - m.lastTeleopTime > m.cfg.cmdTimeout && now - m.lastNavTime > m.cfg.cmdTimeout
  }

  /** Where a control tick takes its goal from; None is the undefined state. */
  function Route(m: Mux, now: real): Option<(Mode, Twist)> {
    if m.safetyBlocked then Some((Blocked, ZERO_TWIST))
    else if Stale(m, now) then Some((Idle, ZERO_TWIST))
    else if m.mode == Manual then Some((Manual, m.lastTeleop))
    else if m.mode == Autonomous then Some((Autonomous, m.lastNav))
    else None
  }

  function TeleopStep(m: Mux, now: real, msg: Twist, ready: bool): (Mux, Output) {
    if m.safetyBlocked then (m, SILENT)
    else if IsZero(msg) then (m.(lastTeleop := msg), SILENT)
    else
      (m.(lastTeleopTime := now, mode := Manual, lastTeleop := msg),
       Output([], [], m.mode == Autonomous && ready))
  }

  function NavStep(m: Mux, now: real, msg: Twist): Mux {
    if m.safetyBlocked then m
    else if now - m.lastTeleopTime < m.cfg.manualTimeout then m.(lastNavTime := now)
    else m.(lastNavTime := now, mode := Autonomous, lastNav := msg)
  }

  function TickStep(m: Mux, now: real): (Mux, Output) {
    if !m.active then (m, SILENT) else
    match Route(m, now)
    case None => (m.(crashed := true), SILENT)
    case Some((mode, goal)) =>
      var v := FilterTwist(m.cfg.alpha, goal, SpeedLimit(m), m.current);
      (m.(mode := mode, target := goal, current := v), Output([v], [StateMessage(mode)], false))
  }

  function ActivateStep(m: Mux, now: real): Mux {
    var past := now - (m.cfg.manualTimeout + 1.0);
    m.(active := true, lastTeleopTime := past, lastNavTime := past, mode := Idle)
  }

  /** One event. Callbacks need a configured node, and transitions their source state. */
  function Step(m: Mux, now: real, ev: Event): (Mux, Output) {
    if m.crashed then (m, SILENT)
    else if !m.configured then
      (if ev.Configure? then m.(configured := true, cfg := ev.cfg) else m, SILENT)
    else
      match ev
      case Teleop(msg, ready) => TeleopStep(m, now, msg, ready)
      case Nav(msg) => (NavStep(m, now, msg), SILENT)
      case HealthArrives(state) =>
        (m.(degraded := state == STATE_DEGRADED, fdirBlocked := FdirBlocks(state),
            safetyBlocked := FdirBlocks(state) || m.estopBlocked), SILENT)
      case SafetyArrives(state) =>
        (m.(estopBlocked := state == SAFETY_EMERGENCY,
            safetyBlocked := m.fdirBlocked || state == SAFETY_EMERGENCY), SILENT)
      case ControlTick => TickStep(m, now)
      case Configure(_) => (m, SILENT)
      case Activate => (if m.active then m else ActivateStep(m, now), SILENT)
      case Deactivate => (m.(active := false), SILENT)
      case Cleanup => (if m.active then m else m.(configured := false), SILENT)
  }

  /** What a configured node does with each callback. */
  lemma StepIsCallback(m: Mux, now: real, ev: Event)
    requires m.configured && !m.crashed
    ensures ev.ControlTick? ==> Step(m, now, ev) == TickStep(m, now)
    ensures ev.Teleop? ==> Step(m, now, ev) == TeleopStep(m, now, ev.msg, ev.ready)
    ensures ev.Nav? ==> Step(m, now, ev) == (NavStep(m, now, ev.msg), SILENT)
  {
    hide TickStep, TeleopStep, NavStep;
  }

  type Trace = seq<Timed<Event>>

  function Run(m: Mux, evs: Trace): Mux {
    if evs == [] then m else
    var e := evs[|evs| - 1];
    Step(Run(m, evs[..|evs| - 1]), e.at, e.ev).0
  }

  lemma RunExtend(m: Mux, evs: Trace, e: Timed<Event>)
    ensures Run(m, evs + [e]) == Step(Run(m, evs), e.at, e.ev).0
  {
    assert (evs + [e])[..|evs|] == evs;
  }

  /** A trace of the node's life: it starts when the node is created and time never runs backwards. */
  predicate Life(start: real, evs: Trace) {
    InOrder(evs) && (evs != [] ==> start <= evs[0].at)
  }

  /** Every configuration in the trace satisfies the assumptions on parameters. */
  predicate AllSensible(evs: Trace) {
    forall i :: 0 <= i < |evs| && evs[i].ev.Configure? ==> Sensible(evs[i].ev.cfg)
  }

  lemma LifePrefix(start: real, evs: Trace)
    requires Life(start, evs) && evs != []
    ensures Life(start, evs[..|evs| - 1])
    ensures LastTime(start, evs[..|evs| - 1]) <= evs[|evs| - 1].at
    ensures start <= LastTime(start, evs)
    ensures AllSensible(evs) ==> AllSensible(evs[..|evs| - 1])
  {
    var before := evs[..|evs| - 1];
    if before != [] {
      assert evs[|before| - 1].at <= evs[|evs| - 1].at;
      assert evs[0].at <= evs[|evs| - 1].at;
    }
  }

  /** A life in which every configuration is one of `cfgs`. */
  ghost predicate LifeWith(cfgs: iset<Config>, start: real, evs: Trace) {
    Life(start, evs) && forall i :: 0 <= i < |evs| && evs[i].ev.Configure? ==> evs[i].ev.cfg in cfgs
  }

  ghost predicate AreSensible(cfgs: iset<Config>) {
    forall cfg :: cfg in cfgs ==> Sensible(cfg)
  }

  lemma LifeWithPrefix(cfgs: iset<Config>, start: real, evs: Trace)
    requires LifeWith(cfgs, start, evs) && evs != []
    ensures LifeWith(cfgs, start, evs[..|evs| - 1]) && LastTime(start, evs[..|evs| - 1]) <= evs[|evs| - 1].at
  {
    LifePrefix(start, evs);
  }

  lemma {:induction false} ConfiguredFrom(cfgs: iset<Config>, start: real, evs: Trace)
    requires LifeWith(cfgs, start, evs)
    ensures var m := Run(Created(start), evs); (m.active ==> m.configured) && (m.configured ==> m.cfg in cfgs)
  {
    if evs != [] {
      var before, e := evs[..|evs| - 1], evs[|evs| - 1];
      LifeWithPrefix(cfgs, start, evs);
      ConfiguredFrom(cfgs, start, before);
      ConfiguredStep(Run(Created(start), before), e.at, e.ev);
      hide Step;
    }
  }

  lemma ConfiguredStep(m: Mux, now: real, ev: Event)
    requires m.active ==> m.configured
    ensures var n := Step(m, now, ev).0;
            && (n.active ==> n.configured)
            && (n.configured ==> (m.configured && n.cfg == m.cfg) || (ev.Configure? && n.cfg == ev.cfg))
  {
    hide IsZero, FilterTwist;
  }

  lemma LifeAmong(cfgs: iset<Config>, cfg: Config, start: real, evs: Trace)
    requires cfg in cfgs && LifeWith(iset{cfg}, start, evs)
    ensures LifeWith(cfgs, start, evs)
  {
  }

  // ----- what every reachable state satisfies -----

  /** While the node is active, the mode records which command stream owns the robot. */
  predicate Reachable(m: Mux, now: real) {
    && Sensible(m.cfg)
    && m.lastTeleopTime <= now && m.lastNavTime <= now
    && (m.active ==> m.configured && m.mode != Unconfigured)
    && (m.safetyBlocked <==> m.fdirBlocked || m.estopBlocked)
    && (m.active && m.mode == Autonomous ==> m.lastNavTime >= m.lastTeleopTime + m.cfg.manualTimeout)
    && (m.active && m.mode == Manual ==>
          m.lastNavTime <= m.lastTeleopTime || m.lastNavTime < m.lastTeleopTime + m.cfg.manualTimeout)
  }

  lemma StepReachable(m: Mux, was: real, now: real, ev: Event)
    requires Reachable(m, was) && was <= now && (ev.Configure? ==> Sensible(ev.cfg))
    ensures Reachable(Step(m, now, ev).0, now)
  {
    hide FilterTwist;
  }

  lemma {:induction false} RunReachable(start: real, evs: Trace)
    requires Life(start, evs) && AllSensible(evs)
    ensures Reachable(Run(Created(start), evs), LastTime(start, evs))
  {
    if evs != [] {
      var before, e := evs[..|evs| - 1], evs[|evs| - 1];
      LifePrefix(start, evs);
      RunReachable(start, before);
      StepReachable(Run(Created(start), before), LastTime(start, before), e.at, e.ev);
    }
  }

  /** A tick at `now` would route the navigation stream, or the stick. */
  predicate RoutesNav(m: Mux, now: real) {
    m.active && !m.crashed && Route(m, now).Some? && Route(m, now).value.0 == Autonomous
  }

  predicate RoutesTeleop(m: Mux, now: real) {
    m.active && !m.crashed && Route(m, now).Some? && Route(m, now).value.0 == Manual
  }
}
