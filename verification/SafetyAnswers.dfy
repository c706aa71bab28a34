/** What the safety node sends in answer to each event: motor commands, contactor messages, states. */
module SafetyAnswers {
  import opened Messages
  import opened SafetySpec

  /** Callbacks are processed and publications go out. */
  predicate Operating(s: Safety) {
    s.processing && s.publishers == Some(true)
  }

  /** The answer to one axis of a velocity: unchanged within the limit, else the limit with the sign of the input. */
  predicate Clipped(c: real, v: real, limit: real) {
    && (-limit <= v <= limit ==> c == v)
    && (v > limit ==> c == limit)
    && (v < -limit ==> c == -limit)
  }

  predicate ClippedTwist(c: Twist, v: Twist, limit: real) {
    Clipped(c.x, v.x, limit) && Clipped(c.y, v.y, limit) && Clipped(c.yaw, v.yaw, limit)
  }

  /** An operating node answers every velocity with exactly one motor command: zero when it is latched or in a stop
      mode, and otherwise the velocity clipped to the limit of its mode. */
  lemma VelocityAnswer(s: Safety, msg: Twist)
    requires Operating(s) && 0.0 <= s.maxNormal && 0.0 <= s.maxDegraded
    ensures var (t, out) := Step(s, Smoothed(msg));
            && t == s && out.contactor == [] && out.states == [] && |out.motor| == 1
            && if s.eStop || s.mode == ProtectiveStop || s.mode == Emergency then out.motor[0] == ZERO_TWIST
               else ClippedTwist(out.motor[0], msg, if s.mode == Degraded then s.maxDegraded else s.maxNormal)
  {
  }

  /** Every other motor command is a stop, and these are they: one for each health message that demands a stop, the
      reconfiguration included, one for each call of the emergency-stop service, and none for anything else. */
  lemma StopAnswers(s: Safety, ev: Event)
    requires !ev.Smoothed?
    ensures Step(s, ev).1.motor
            == if Operating(s) && (ev == EStop || (ev.Health? && DemandsStop(ev.state))) then [ZERO_TWIST] else []
  {
  }

  predicate DemandsStop(state: uint8) {
    state == STATE_SYSTEM_STARTUP || state == STATE_EMERGENCY || state == STATE_PROTECTIVE_STOP
    || state == STATE_RECONFIGURED
  }

  lemma NothingWhenIdle(s: Safety, msg: Twist)
    requires !Operating(s)
    ensures Step(s, Smoothed(msg)) == (s, SILENT)
  {
  }

  /** The code published for a state: the latch first, then the mode. */
  predicate Announces(s: Safety, code: uint8) {
    && (code == SAFETY_EMERGENCY <==> s.eStop || s.mode == Emergency)
    && (code == SAFETY_PROTECTIVE_STOP <==> !s.eStop && s.mode == ProtectiveStop)
    && (code == SAFETY_DEGRADED <==> !s.eStop && s.mode == Degraded)
    && (code == SAFETY_NORMAL <==> !s.eStop && s.mode == Normal)
  }

  /** The node announces its state in answer to each multiplexer state, each call of the emergency-stop service, each
      escalation by odometry and each reset that succeeds; once each, nothing else, and it is the state it is in
      then. */
  predicate Reports(s: Safety, ev: Event) {
    match ev
    case MuxState(_) => Operating(s)
    case EStop => Operating(s)
    case Odom(x, y) => Operating(s) && s.mode == ProtectiveStop && x * x + y * y > 0.0025
    case Reset => s.publishers == Some(true) && (s.eStop || s.mode == Emergency)
    case _ => false
  }

  lemma StateAnswers(s: Safety, ev: Event)
    ensures var (t, out) := Step(s, ev);
            if Reports(s, ev) then |out.states| == 1 && Announces(t, out.states[0]) else out.states == []
  {
  }

  /** The hardware is told of every change of the contactors, and only of changes, whenever the publisher is active
      at the time. */
  lemma ContactorAnswers(s: Safety, ev: Event)
    ensures var (t, out) := Step(s, ev);
            out.contactor == if t.closed != s.closed && (Publishing(s) || (ev == Activate && s.stage == Inactive))
                             then [t.closed] else []
  {
    if ev.Health? {
      HealthContactors(s, ev.state);
      hide HealthStep;
    }
  }

  lemma HealthContactors(s: Safety, state: uint8)
    ensures var (t, out) := HealthStep(s, state);
            out.contactor == if t.closed != s.closed && Publishing(s) then [t.closed] else []
  {
  }

  /** Odometry trips the emergency stop exactly above 0.05 m/s in a protective stop, in every direction. */
  lemma OdometryTrips(s: Safety, x: real, y: real)
    requires s.publishers.Some?
    ensures var t := Step(s, Odom(x, y)).0;
            if s.processing && s.mode == ProtectiveStop && x * x + y * y > 0.0025
            then t == s.(eStop := true, mode := Emergency, closed := false) else t == s
  {
  }

  /** What is recorded of the other nodes. */
  lemma Records(s: Safety, ev: Event)
    ensures var t := Step(s, ev).0;
            && t.lastFdir == (if ev.Health? && s.processing && s.publishers.Some? then ev.state else s.lastFdir)
            && t.lastMux == (if ev.MuxState? && s.processing && s.publishers.Some? then ev.state else s.lastMux)
  {
  }

  predicate Quiet(evs: Trace) {
    forall i :: 0 <= i < |evs| ==> !evs[i].Health? && evs[i] != EStop
  }

  /** Until the first health message or call of the emergency-stop service the node is in NORMAL, not latched, and
      believes the contactors open; so once active it forwards velocities before anybody has vouched for them. */
  lemma {:induction false} NormalAtFirst(evs: Trace)
    requires Quiet(evs)
    ensures var s := Run(Created(), evs); s.mode == Normal && !s.eStop && !s.closed && s.lastFdir == 255
    ensures ContactorLog(Created(), evs) == []
  {
    if evs != [] {
      var before := evs[..|evs| - 1];
      NormalAtFirst(before);
      hide ContactorLog, Run;
      ContactorLogOf(evs);
      QuietStep(Run(Created(), before), evs[|evs| - 1]);
    }
  }

  lemma ContactorLogOf(evs: Trace)
    requires evs != []
    ensures var s := Run(Created(), evs[..|evs| - 1]);
            && Run(Created(), evs) == Step(s, evs[|evs| - 1]).0
            && ContactorLog(Created(), evs)
               == ContactorLog(Created(), evs[..|evs| - 1]) + Step(s, evs[|evs| - 1]).1.contactor
  {
    hide Step;
  }

  lemma QuietStep(s: Safety, ev: Event)
    requires s.mode == Normal && !s.eStop && !s.closed && !ev.Health? && ev != EStop
    ensures var (t, out) := Step(s, ev);
            t.mode == Normal && !t.eStop && !t.closed && t.lastFdir == s.lastFdir && out.contactor == []
  {
  }

  // ----- the lifecycle -----

  /** The stage after an event. */
  function StageAfter(stage: Stage, ev: Event): Stage {
    match ev
    case Configure(_, _) => if stage == Unconfigured then Inactive else stage
    case Activate => if stage == Inactive then Active else stage
    case Deactivate => if stage == Active then Inactive else stage
    case Cleanup => if stage == Inactive then Unconfigured else stage
    case Shutdown => Finalized
    case Error => if stage == Finalized then Finalized else Unconfigured
    case _ => stage
  }

  function StageOf(evs: Trace): Stage {
    if evs == [] then Unconfigured else StageAfter(StageOf(evs[..|evs| - 1]), evs[|evs| - 1])
  }

  /** The limits of the last configuration to take effect. */
  function LimitsOf(evs: Trace): (real, real) {
    if evs == [] then (0.0, 0.0) else
    var before, ev := evs[..|evs| - 1], evs[|evs| - 1];
    if ev.Configure? && StageOf(before) == Unconfigured then (ev.maxNormal, ev.maxDegraded) else LimitsOf(before)
  }

  /** Processing is allowed exactly in the active stage, where the publishers are activated too. */
  predicate StandsIn(s: Safety, stage: Stage, limits: (real, real)) {
    && s.stage == stage && (s.maxNormal, s.maxDegraded) == limits
    && (s.processing <==> stage == Active)
    && (stage == Active ==> s.publishers == Some(true))
    && (stage == Inactive ==> s.publishers == Some(false))
  }

  lemma StandsStep(s: Safety, limits: (real, real), ev: Event)
    requires StandsIn(s, s.stage, limits)
    ensures StandsIn(Step(s, ev).0, StageAfter(s.stage, ev),
                     if ev.Configure? && s.stage == Unconfigured then (ev.maxNormal, ev.maxDegraded) else limits)
  {
    if ev.Health? {
      HealthKeeps(s, ev.state);
      hide HealthStep;
    }
  }

  lemma HealthKeeps(s: Safety, state: uint8)
    ensures var t := HealthStep(s, state).0;
            && t.stage == s.stage && t.processing == s.processing && t.publishers == s.publishers
            && t.maxNormal == s.maxNormal && t.maxDegraded == s.maxDegraded
  {
  }

  /** The node follows its transitions: it operates exactly while they have it active, under the limits of the last
      configuration. */
  lemma {:induction false} LifecycleFollows(evs: Trace)
    ensures StandsIn(Run(Created(), evs), StageOf(evs), LimitsOf(evs))
    ensures StageOf(evs) == Active <==> Run(Created(), evs).processing
    ensures Run(Created(), evs).processing ==> Operating(Run(Created(), evs))
  {
    if evs != [] {
      var before := evs[..|evs| - 1];
      LifecycleFollows(before);
      hide Step;
      StandsStep(Run(Created(), before), LimitsOf(before), evs[|evs| - 1]);
    }
  }
}
