/** The safety node as a state machine over its callbacks and lifecycle transitions. */
module SafetySpec {
  import opened Messages

  datatype Mode = Normal | Degraded | ProtectiveStop | Emergency

  datatype Stage = Unconfigured | Inactive | Active | Finalized

  datatype Safety = Safety(
    mode: Mode, lastFdir: uint8, lastMux: uint8,
    eStop: bool, processing: bool, closed: bool,
    maxNormal: real, maxDegraded: real,
    stage: Stage,
    publishers: Option<bool>)  // None before they exist; else whether they are activated

  datatype Event =
    | Smoothed(msg: Twist) | Health(state: uint8) | MuxState(state: uint8) | Odom(x: real, y: real)
    | EStop | Reset
    | Configure(maxNormal: real, maxDegraded: real) | Activate | Deactivate | Cleanup | Shutdown | Error

  datatype Output = Output(motor: seq<Twist>, contactor: seq<bool>, states: seq<uint8>)

  const SILENT := Output([], [], [])

  function Created(): Safety {
    Safety(Normal, 255, MUX_IDLE, false, false, false, 0.0, 0.0, Unconfigured, None)
  }

  predicate Publishing(s: Safety) {
    s.publishers == Some(true)
  }

  /** Drives the contactors, telling the hardware only on a change and only when publishing. */
  function SetContactors(s: Safety, enable: bool): (Safety, seq<bool>) {
    if s.closed == enable then (s, []) else
    (s.(closed := enable), if Publishing(s) then [enable] else [])
  }

  function StopMessage(s: Safety): seq<Twist> {
    if Publishing(s) then [ZERO_TWIST] else []
  }

  function GlobalState(s: Safety): seq<uint8> {
    if !Publishing(s) then []
    else if s.eStop || s.mode == Emergency then [SAFETY_EMERGENCY]
    else if s.mode == ProtectiveStop then [SAFETY_PROTECTIVE_STOP]
    else if s.mode == Degraded then [SAFETY_DEGRADED]
    else [SAFETY_NORMAL]
  }

  predicate Halted(s: Safety) {
    s.eStop || s.mode == ProtectiveStop || s.mode == Emergency
  }

  function SpeedLimit(s: Safety): real {
    if s.mode == Degraded then s.maxDegraded else s.maxNormal
  }

  function SmoothedStep(s: Safety, msg: Twist): Output {
    if !s.processing || !Publishing(s) then SILENT
    else if Halted(s) then Output(StopMessage(s), [], [])
    else Output([ClampTwist(msg, SpeedLimit(s))], [], [])
  }

  /** The contactors close unless the emergency stop is latched. */
  function CloseUnlessLatched(s: Safety): (Safety, seq<bool>) {
    if s.eStop then (s, []) else SetContactors(s, true)
  }

  /** The states that permit power, and how each of them restricts motion. */
  predicate PermitsPower(state: uint8) {
    state in {STATE_SOFTWARE_OK, STATE_DEGRADED, STATE_RECONFIGURED, STATE_PROTECTIVE_STOP}
  }

  function PermitStep(s: Safety, state: uint8): (Safety, Output)
    requires PermitsPower(state)
  {
    if state == STATE_PROTECTIVE_STOP then
      var (t, c) := CloseUnlessLatched(s.(mode := ProtectiveStop));
      (t, Output(StopMessage(s), c, []))
    else if state == STATE_DEGRADED then
      var (t, c) := CloseUnlessLatched(s.(mode := Degraded));
      (t, Output([], c, []))
    else if state == STATE_SOFTWARE_OK then
      if s.eStop then (s, SILENT) else
      var (t, c) := SetContactors(s.(mode := Normal), true);
      (t, Output([], c, []))
    else
      var (t, c) := CloseUnlessLatched(s.(mode := Degraded));
      (t, Output(StopMessage(s), c, []))
  }

  function HealthStep(s: Safety, state: uint8): (Safety, Output) {
    if !s.processing then (s, SILENT) else
    var heard := s.(lastFdir := state);
    if state == STATE_SYSTEM_STARTUP then
      var (t, c) := SetContactors(heard.(mode := ProtectiveStop), false);
      (t, Output(StopMessage(s), c, []))
    else if state == STATE_EMERGENCY then
      var (t, c) := SetContactors(heard.(eStop := true, mode := Emergency), false);
      (t, Output(StopMessage(s), c, []))
    else if PermitsPower(state) then
      PermitStep(heard, state)
    else
      var (t, c) := SetContactors(heard, false);
      (t, Output([], c, []))
  }

  function OdomStep(s: Safety, x: real, y: real): (Safety, Output) {
    if s.processing && s.mode == ProtectiveStop && FasterThan(x, y, 0.05) then
      var (t, c) := SetContactors(s.(eStop := true, mode := Emergency), false);
      (t, Output([], c, GlobalState(t)))
    else (s, SILENT)
  }

  function EStopStep(s: Safety): (Safety, Output) {
    if !s.processing then (s, SILENT) else
    var (t, c) := SetContactors(s.(eStop := true, mode := Emergency), false);
    (t, Output(StopMessage(s), c, GlobalState(t)))
  }

  /** The reset service has no processing gate. */
  function ResetStep(s: Safety): (Safety, Output) {
    if s.mode == Emergency || s.eStop then
      var (t, c) := SetContactors(s.(mode := Normal, eStop := false), true);
      (t, Output([], c, GlobalState(t)))
    else (s, SILENT)
  }

  /** Processing stops and the contactors open, as every transition out of operation does. */
  function Stand(s: Safety): (Safety, seq<bool>) {
    SetContactors(s.(processing := false), false)
  }

  /** One event. Callbacks need the subscriptions and services, transitions their source stage. */
  function Step(s: Safety, ev: Event): (Safety, Output) {
    match ev
    case Smoothed(msg) => (s, if s.publishers.Some? then SmoothedStep(s, msg) else SILENT)
    case Health(state) => if s.publishers.Some? then HealthStep(s, state) else (s, SILENT)
    case MuxState(state) =>
      if s.publishers.Some? && s.processing then (s.(lastMux := state), Output([], [], GlobalState(s)))
      else (s, SILENT)
    case Odom(x, y) => if s.publishers.Some? then OdomStep(s, x, y) else (s, SILENT)
    case EStop => if s.publishers.Some? then EStopStep(s) else (s, SILENT)
    case Reset => if s.publishers.Some? then ResetStep(s) else (s, SILENT)
    case Configure(normal, degraded) =>
      (if s.stage == Unconfigured
       then s.(maxNormal := normal, maxDegraded := degraded, stage := Inactive, publishers := Some(false)) else s,
       SILENT)
    case Activate =>
      if s.stage == Inactive then
        var (t, c) := SetContactors(s.(processing := true, stage := Active, publishers := Some(true)), false);
        (t, Output([], c, []))
      else (s, SILENT)
    case Deactivate =>
      if s.stage == Active then
        var (t, c) := Stand(s);
        (t.(stage := Inactive, publishers := Some(false)), Output([], c, []))
      else (s, SILENT)
    case Cleanup =>
      if s.stage == Inactive then
        var (t, c) := Stand(s);
        (t.(stage := Unconfigured, publishers := None), Output([], c, []))
      else (s, SILENT)
    case Shutdown =>
      if s.stage != Finalized then
        var (t, c) := Stand(s);
        (t.(stage := Finalized), Output([], c, []))
      else (s, SILENT)
    case Error =>
      if s.stage != Finalized then
        var (t, c) := Stand(s);
        (t.(stage := Unconfigured), Output([], c, []))
      else (s, SILENT)
  }

  /** What a configured node does with each callback. */
  lemma StepIsCallback(s: Safety, ev: Event)
    requires s.publishers.Some?
    ensures ev.Health? ==> Step(s, ev) == HealthStep(s, ev.state)
    ensures ev.Odom? ==> Step(s, ev) == OdomStep(s, ev.x, ev.y)
    ensures ev.EStop? ==> Step(s, ev) == EStopStep(s)
    ensures ev.Reset? ==> Step(s, ev) == ResetStep(s)
    ensures ev.Smoothed? ==> Step(s, ev) == (s, SmoothedStep(s, ev.msg))
  {
    hide HealthStep, OdomStep, EStopStep, ResetStep, SmoothedStep;
  }

  type Trace = seq<Event>

  function Run(s: Safety, evs: Trace): Safety {
    if evs == [] then s else Step(Run(s, evs[..|evs| - 1]), evs[|evs| - 1]).0
  }

  /** Everything sent to the contactors during a run. */
  function ContactorLog(s: Safety, evs: Trace): seq<bool> {
    if evs == [] then [] else
    ContactorLog(s, evs[..|evs| - 1]) + Step(Run(s, evs[..|evs| - 1]), evs[|evs| - 1]).1.contactor
  }

  lemma RunExtend(s: Safety, evs: Trace, ev: Event)
    ensures Run(s, evs + [ev]) == Step(Run(s, evs), ev).0
    ensures ContactorLog(s, evs + [ev]) == ContactorLog(s, evs) + Step(Run(s, evs), ev).1.contactor
  {
    assert (evs + [ev])[..|evs|] == evs;
  }
}
