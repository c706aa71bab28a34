/** The three nodes joined by lossy FIFO queues. */
module SystemSpec {
  import opened Messages
  import Mon = MonitorSpec
  import Mux = MuxSpec
  import Saf = SafetySpec

  /** A velocity the multiplexer published, with the limit it was clamped to and the filter weight used. */
  datatype Sent = Sent(velocity: Twist, limit: real, alpha: real)

  /** A velocity under way; `index` says which of the published ones it is. */
  datatype Message = Message(velocity: Twist, index: nat)

  /** A motor command of the safety node: the velocity it answers, if it is not a stop, and the state it was sent in. */
  datatype MotorCommand = MotorCommand(command: Twist, origin: Option<nat>, sender: Saf.Safety)

  datatype System = System(
    nodes: Mon.Nodes, mux: Mux.Mux, safety: Saf.Safety,
    healthToMux: seq<uint8>, healthToSafety: seq<uint8>,
    velocityToSafety: seq<Message>,
    muxStateToSafety: seq<uint8>, safetyStateToMux: seq<uint8>,
    healthLog: seq<uint8>, sent: seq<Sent>, motor: seq<MotorCommand>)

  /** Arrivals take the head of a queue; any queued message may be lost at any time. */
  datatype Event =
    | FdirTick(tick: Mon.Tick)
    | MuxInput(mux: Mux.Event)        // stick, navigation, control tick or lifecycle
    | SafetyInput(safety: Saf.Event)  // odometry, services or lifecycle
    | HealthReachesMux | HealthReachesSafety | VelocityReachesSafety | MuxStateReachesSafety | SafetyStateReachesMux
    | LoseHealthToMux(i: nat) | LoseHealthToSafety(i: nat) | LoseVelocity(i: nat)
    | LoseMuxState(i: nat) | LoseSafetyState(i: nat)

  /** Messages of the other nodes reach a node only through the queues. */
  predicate Admissible(ev: Event) {
    match ev
    case MuxInput(e) => !e.HealthArrives? && !e.SafetyArrives?
    case SafetyInput(e) => !e.Smoothed? && !e.Health? && !e.MuxState?
    case _ => true
  }

  function Without<T>(q: seq<T>, i: nat): seq<T> {
    if i < |q| then q[..i] + q[i + 1..] else q
  }

  ghost function FdirStep(s: System, t: Mon.Tick): System {
    var level := Mon.Published(s.nodes, t);
    s.(nodes := Mon.TickNodes(s.nodes, t), healthLog := s.healthLog + [level],
       healthToMux := s.healthToMux + [level], healthToSafety := s.healthToSafety + [level])
  }

  /** The multiplexer handles an event; what it publishes joins the queues. */
  function MuxStep(s: System, now: real, ev: Mux.Event): System {
    var (m, out) := Mux.Step(s.mux, now, ev);
    var t := s.(mux := m, muxStateToSafety := s.muxStateToSafety + out.states);
    if out.velocities == [] then t else
    t.(sent := s.sent + [Sent(out.velocities[0], Mux.SpeedLimit(s.mux), s.mux.cfg.alpha)],
       velocityToSafety := s.velocityToSafety + [Message(out.velocities[0], |s.sent|)])
  }

  /** The safety node handles an event; `origin` is the velocity it may be answering. */
  function SafetyStep(s: System, ev: Saf.Event, origin: Option<nat>): System {
    var (f, out) := Saf.Step(s.safety, ev);
    var t := s.(safety := f, safetyStateToMux := s.safetyStateToMux + out.states);
    if out.motor == [] then t else
    t.(motor := s.motor + [MotorCommand(out.motor[0], if Saf.Halted(s.safety) then None else origin, s.safety)])
  }

  ghost function Step(s: System, now: real, ev: Event): System {
    match ev
    case FdirTick(t) => FdirStep(s, t)
    case MuxInput(e) => MuxStep(s, now, e)
    case SafetyInput(e) => SafetyStep(s, e, None)
    case HealthReachesMux =>
      if s.healthToMux == [] then s else
      MuxStep(s.(healthToMux := s.healthToMux[1..]), now, Mux.HealthArrives(s.healthToMux[0]))
    case HealthReachesSafety =>
      if s.healthToSafety == [] then s else
      SafetyStep(s.(healthToSafety := s.healthToSafety[1..]), Saf.Health(s.healthToSafety[0]), None)
    case VelocityReachesSafety =>
      if s.velocityToSafety == [] then s else
      SafetyStep(s.(velocityToSafety := s.velocityToSafety[1..]),
                 Saf.Smoothed(s.velocityToSafety[0].velocity), Some(s.velocityToSafety[0].index))
    case MuxStateReachesSafety =>
      if s.muxStateToSafety == [] then s else
      SafetyStep(s.(muxStateToSafety := s.muxStateToSafety[1..]), Saf.MuxState(s.muxStateToSafety[0]), None)
    case SafetyStateReachesMux =>
      if s.safetyStateToMux == [] then s else
      MuxStep(s.(safetyStateToMux := s.safetyStateToMux[1..]), now, Mux.SafetyArrives(s.safetyStateToMux[0]))
    case LoseHealthToMux(i) => s.(healthToMux := Without(s.healthToMux, i))
    case LoseHealthToSafety(i) => s.(healthToSafety := Without(s.healthToSafety, i))
    case LoseVelocity(i) => s.(velocityToSafety := Without(s.velocityToSafety, i))
    case LoseMuxState(i) => s.(muxStateToSafety := Without(s.muxStateToSafety, i))
    case LoseSafetyState(i) => s.(safetyStateToMux := Without(s.safetyStateToMux, i))
  }

  type Trace = seq<Timed<Event>>

  ghost function Run(s: System, evs: Trace): System {
    if evs == [] then s else
    Step(Run(s, evs[..|evs| - 1]), evs[|evs| - 1].at, evs[|evs| - 1].ev)
  }

  /** The manager's passes in a run of the system. */
  function TicksOf(evs: Trace): seq<Mon.Tick> {
    if evs == [] then [] else
    var ev := evs[|evs| - 1].ev;
    TicksOf(evs[..|evs| - 1]) + if ev.FdirTick? then [ev.tick] else []
  }

  lemma OneMorePass(nodes: Mon.Nodes, ticks: seq<Mon.Tick>, t: Mon.Tick)
    ensures Mon.RunNodes(nodes, ticks + [t]) == Mon.TickNodes(Mon.RunNodes(nodes, ticks), t)
    ensures Mon.HealthLog(nodes, ticks + [t])
            == Mon.HealthLog(nodes, ticks) + [Mon.Published(Mon.RunNodes(nodes, ticks), t)]
  {
    assert (ticks + [t])[..|ticks|] == ticks;
  }

  lemma ManagerStep(s: System, now: real, ev: Event)
    ensures var t := Step(s, now, ev);
            if ev.FdirTick? then
              && t.nodes == Mon.TickNodes(s.nodes, ev.tick)
              && t.healthLog == s.healthLog + [Mon.Published(s.nodes, ev.tick)]
            else
              t.nodes == s.nodes && t.healthLog == s.healthLog
  {
    hide Mon.TickNodes, Mon.Published, Mux.Step, Saf.Step;
  }

  /** Within the system the manager runs as it does alone, and the health log is its own. */
  lemma {:induction false} ManagerRun(s: System, evs: Trace)
    ensures Run(s, evs).nodes == Mon.RunNodes(s.nodes, TicksOf(evs))
    ensures Run(s, evs).healthLog == s.healthLog + Mon.HealthLog(s.nodes, TicksOf(evs))
  {
    if evs != [] {
      hide Step, Mon.RunNodes, Mon.HealthLog, Mon.TickNodes, Mon.Published;
      var before, e := evs[..|evs| - 1], evs[|evs| - 1];
      assert Run(s, evs) == Step(Run(s, before), e.at, e.ev);
      assert TicksOf(evs) == TicksOf(before) + if e.ev.FdirTick? then [e.ev.tick] else [];
      hide Run, TicksOf;
      ManagerRun(s, before);
      ManagerStep(Run(s, before), e.at, e.ev);
      if e.ev.FdirTick? {
        OneMorePass(s.nodes, TicksOf(before), e.ev.tick);
      } else {
        assert TicksOf(evs) == TicksOf(before);
      }
    }
  }

  /** The system at start-up: no messages yet, and components as configured. */
  predicate Initial(s: System, now: real) {
    && Mon.AllDisciplined(s.nodes)
    && s.mux == Mux.Created(now) && s.safety == Saf.Created()
    && s.healthToMux == [] && s.healthToSafety == [] && s.velocityToSafety == []
    && s.muxStateToSafety == [] && s.safetyStateToMux == []
    && s.healthLog == [] && s.sent == [] && s.motor == []
  }

  /** The assumptions on the environment: parameters are sensible, and messages travel by queue. */
  predicate Permitted(ev: Event) {
    && Admissible(ev)
    && (ev.MuxInput? && ev.mux.Configure? ==> Mux.Sensible(ev.mux.cfg))
    && (ev.SafetyInput? && ev.safety.Configure? ==> 0.0 <= ev.safety.maxNormal && 0.0 <= ev.safety.maxDegraded)
  }

  predicate AllPermitted(evs: Trace) {
    forall i :: 0 <= i < |evs| ==> Permitted(evs[i].ev)
  }

  /** Limits are never negative, and the block flag is the disjunction of its causes. */
  predicate WellSet(s: System) {
    && Mux.Sensible(s.mux.cfg)
    && (s.mux.safetyBlocked <==> s.mux.fdirBlocked || s.mux.estopBlocked)
    && 0.0 <= s.safety.maxNormal && 0.0 <= s.safety.maxDegraded
  }

  lemma MuxWellSet(m: Mux.Mux, now: real, ev: Mux.Event)
    requires Mux.Sensible(m.cfg) && (m.safetyBlocked <==> m.fdirBlocked || m.estopBlocked)
    requires ev.Configure? ==> Mux.Sensible(ev.cfg)
    ensures var n := Mux.Step(m, now, ev).0;
            Mux.Sensible(n.cfg) && (n.safetyBlocked <==> n.fdirBlocked || n.estopBlocked)
  {
  }

  lemma SafetyWellSet(s: Saf.Safety, ev: Saf.Event)
    requires 0.0 <= s.maxNormal && 0.0 <= s.maxDegraded
    requires ev.Configure? ==> 0.0 <= ev.maxNormal && 0.0 <= ev.maxDegraded
    ensures 0.0 <= Saf.Step(s, ev).0.maxNormal && 0.0 <= Saf.Step(s, ev).0.maxDegraded
  {
    if ev.Health? {
      HealthWellSet(s, ev.state);
      hide Saf.HealthStep;
    }
  }

  lemma HealthWellSet(s: Saf.Safety, state: uint8)
    ensures var t := Saf.HealthStep(s, state).0; t.maxNormal == s.maxNormal && t.maxDegraded == s.maxDegraded
  {
  }

  lemma StepWellSet(s: System, now: real, ev: Event)
    requires WellSet(s) && Permitted(ev)
    ensures WellSet(Step(s, now, ev))
  {
    var fed := MuxFeed(s, ev);
    if fed.Some? { MuxWellSet(s.mux, now, fed.value); }
    var given := SafetyFeed(s, ev);
    if given.Some? { SafetyWellSet(s.safety, given.value); }
    StepParts(s, now, ev);
    hide Step, Mux.Step, Saf.Step, MuxFeed, SafetyFeed;
  }

  /** The event this step feeds to the multiplexer, if any. */
  function MuxFeed(s: System, ev: Event): Option<Mux.Event> {
    match ev
    case MuxInput(e) => Some(e)
    case HealthReachesMux => if s.healthToMux == [] then None else Some(Mux.HealthArrives(s.healthToMux[0]))
    case SafetyStateReachesMux =>
      if s.safetyStateToMux == [] then None else Some(Mux.SafetyArrives(s.safetyStateToMux[0]))
    case _ => None
  }

  /** The event this step feeds to the safety node, if any. */
  function SafetyFeed(s: System, ev: Event): Option<Saf.Event> {
    match ev
    case SafetyInput(e) => Some(e)
    case HealthReachesSafety => if s.healthToSafety == [] then None else Some(Saf.Health(s.healthToSafety[0]))
    case VelocityReachesSafety =>
      if s.velocityToSafety == [] then None else Some(Saf.Smoothed(s.velocityToSafety[0].velocity))
    case MuxStateReachesSafety =>
      if s.muxStateToSafety == [] then None else Some(Saf.MuxState(s.muxStateToSafety[0]))
    case _ => None
  }

  /** Each node takes part in a step exactly through what it is fed. */
  lemma StepParts(s: System, now: real, ev: Event)
    ensures var t := Step(s, now, ev);
            && t.mux == (match MuxFeed(s, ev) case Some(e) => Mux.Step(s.mux, now, e).0 case None => s.mux)
            && t.safety == (match SafetyFeed(s, ev) case Some(e) => Saf.Step(s.safety, e).0 case None => s.safety)
            && t.nodes == (if ev.FdirTick? then Mon.TickNodes(s.nodes, ev.tick) else s.nodes)
    ensures var t := Step(s, now, ev);
            && t.sent == (match MuxFeed(s, ev)
                          case Some(e) => s.sent + SentBy(s.mux, now, e)
                          case None => s.sent)
            && t.motor == (match SafetyFeed(s, ev)
                           case Some(e) => s.motor + CommandsBy(s.safety, e, Origin(s, ev))
                           case None => s.motor)
  {
    hide *;
    MuxParts(s, now, ev);
    SafetyParts(s, now, ev);
  }

  lemma MuxParts(s: System, now: real, ev: Event)
    ensures var t := Step(s, now, ev);
            && t.mux == (match MuxFeed(s, ev) case Some(e) => Mux.Step(s.mux, now, e).0 case None => s.mux)
            && t.sent == (match MuxFeed(s, ev)
                          case Some(e) => s.sent + SentBy(s.mux, now, e)
                          case None => s.sent)
  {
    hide Mux.Step, Saf.Step, Mon.TickNodes, Mon.Published;
  }

  lemma SafetyParts(s: System, now: real, ev: Event)
    ensures var t := Step(s, now, ev);
            && t.safety == (match SafetyFeed(s, ev) case Some(e) => Saf.Step(s.safety, e).0 case None => s.safety)
            && t.motor == (match SafetyFeed(s, ev)
                           case Some(e) => s.motor + CommandsBy(s.safety, e, Origin(s, ev))
                           case None => s.motor)
            && t.nodes == (if ev.FdirTick? then Mon.TickNodes(s.nodes, ev.tick) else s.nodes)
  {
    hide Mux.Step, Saf.Step, Mon.TickNodes, Mon.Published;
  }

  function SentBy(m: Mux.Mux, now: real, ev: Mux.Event): seq<Sent> {
    var out := Mux.Step(m, now, ev).1;
    if out.velocities == [] then [] else [Sent(out.velocities[0], Mux.SpeedLimit(m), m.cfg.alpha)]
  }

  function CommandsBy(s: Saf.Safety, ev: Saf.Event, origin: Option<nat>): seq<MotorCommand> {
    var out := Saf.Step(s, ev).1;
    if out.motor == [] then [] else
    [MotorCommand(out.motor[0], if Saf.Halted(s) then None else origin, s)]
  }

  function Origin(s: System, ev: Event): Option<nat> {
    if ev.VelocityReachesSafety? && s.velocityToSafety != [] then Some(s.velocityToSafety[0].index) else None
  }
}
