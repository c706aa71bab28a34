/** One managed component and its timed recovery machine, as values. */
module Recovery {
  import opened Messages

  const MAX_RECOVERY_RETRIES := 3

  datatype Tier = Fatal | Primary | Auxiliary

  datatype ResetMechanism = LifecycleService | HardwareRelay

  datatype Phase = Nominal | PowerOff | WaitDischarge | PowerOn | WaitBoot | Defective

  datatype Component = Component(
    name: string, tier: Tier, retryCount: int, currentState: uint8,
    phase: Phase, lastPhaseChange: real, isDefective: bool,
    startupTime: real, powerOffTime: real, mechanism: ResetMechanism, resetTopic: string)

  /** A message on a component's relay topic: closed restores power, open cuts it. */
  datatype RelayCommand = RelayCommand(closed: bool, at: real)

  /** What one evaluation of a component does: its new state, and what is sent on its behalf. */
  datatype Outcome = Outcome(node: Component, relay: seq<RelayCommand>, transitions: seq<uint8>)

  /** A component's answer to a state query, and the clock reading of its evaluation. */
  datatype Reading = Reading(state: uint8, now: real)

  /** Neither ACTIVE, UNCONFIGURED nor INACTIVE. */
  predicate IsFailure(state: uint8) {
    state != PRIMARY_STATE_ACTIVE && state != PRIMARY_STATE_UNCONFIGURED && state != PRIMARY_STATE_INACTIVE
  }

  function Recover(c: Component, now: real): Outcome {
    match c.phase
    case Nominal =>
      var struck := c.(retryCount := c.retryCount + 1);
      if struck.retryCount > MAX_RECOVERY_RETRIES then
        Outcome(struck.(isDefective := true, phase := Defective), [], [])
      else
        Outcome(struck.(phase := PowerOff), [], [])
    case PowerOff =>
      var waiting := c.(phase := WaitDischarge, lastPhaseChange := now);
      if c.mechanism == HardwareRelay then
        Outcome(waiting, [RelayCommand(false, now)], [])
      else
        Outcome(waiting, [], [TRANSITION_CLEANUP])
    case WaitDischarge =>
      Outcome(if now - c.lastPhaseChange >= c.powerOffTime then c.(phase := PowerOn) else c, [], [])
    case PowerOn =>
      var booting := c.(phase := WaitBoot, lastPhaseChange := now);
      Outcome(booting, if c.mechanism == HardwareRelay then [RelayCommand(true, now)] else [], [])
    case WaitBoot =>
      if now - c.lastPhaseChange >= c.startupTime then
        Outcome(c.(phase := Nominal, lastPhaseChange := now), [], [])
      else
        Outcome(c, [], [])
    case Defective => Outcome(c, [], [])
  }

  /** One visit of the monitoring loop to one component. A defective one is not even queried. */
  function Observe(c: Component, r: Reading): Outcome {
    if c.isDefective then
      Outcome(c, [], [])
    else
      var seen := c.(currentState := r.state);
      if r.state == PRIMARY_STATE_ACTIVE then
        Outcome(seen.(retryCount := 0, phase := Nominal), [], [])
      else if r.state == PRIMARY_STATE_UNCONFIGURED then
        Outcome(seen, [], [TRANSITION_CONFIGURE])
      else if r.state == PRIMARY_STATE_INACTIVE then
        Outcome(seen, [], [TRANSITION_ACTIVATE])
      else
        Recover(seen, r.now)
  }

  // ----- runs -----

  /** The component after a sequence of evaluations. */
  function Run(c: Component, rs: seq<Reading>): Component {
    if rs == [] then c else Observe(Run(c, rs[..|rs| - 1]), rs[|rs| - 1]).node
  }

  /** Everything sent on its relay topic during the run. */
  function RelayLog(c: Component, rs: seq<Reading>): seq<RelayCommand> {
    if rs == [] then [] else
    RelayLog(c, rs[..|rs| - 1]) + Observe(Run(c, rs[..|rs| - 1]), rs[|rs| - 1]).relay
  }

  /** Every lifecycle transition requested of it during the run. */
  function TransitionLog(c: Component, rs: seq<Reading>): seq<uint8> {
    if rs == [] then [] else
    TransitionLog(c, rs[..|rs| - 1]) + Observe(Run(c, rs[..|rs| - 1]), rs[|rs| - 1]).transitions
  }

  /** A component as the configuration creates it. */
  predicate Fresh(c: Component) {
    c.phase == Nominal && c.retryCount == 0 && !c.isDefective
  }

  predicate Monotone(rs: seq<Reading>) {
    forall i, j :: 0 <= i < j < |rs| ==> rs[i].now <= rs[j].now
  }

  predicate MidRecovery(p: Phase) {
    p == PowerOff || p == WaitDischarge || p == PowerOn || p == WaitBoot
  }

  /** The strike discipline every reachable component obeys. */
  predicate Disciplined(c: Component) {
    && (c.isDefective <==> c.phase == Defective)
    && 0 <= c.retryCount
    && (if c.isDefective then c.retryCount == 4 else c.retryCount <= MAX_RECOVERY_RETRIES)
    && (MidRecovery(c.phase) ==> 1 <= c.retryCount)
  }

  predicate SameConfiguration(a: Component, b: Component) {
    && a.name == b.name && a.tier == b.tier && a.startupTime == b.startupTime
    && a.powerOffTime == b.powerOffTime && a.mechanism == b.mechanism && a.resetTopic == b.resetTopic
  }

  lemma ObserveDisciplined(c: Component, r: Reading)
    requires Disciplined(c)
    ensures var o := Observe(c, r);
            && Disciplined(o.node) && SameConfiguration(c, o.node)
            && (c.isDefective ==> o == Outcome(c, [], []))
  {
  }

  lemma {:induction false} RunDisciplined(c: Component, rs: seq<Reading>)
    requires Disciplined(c)
    ensures Disciplined(Run(c, rs)) && SameConfiguration(c, Run(c, rs))
  {
    if rs != [] {
      RunDisciplined(c, rs[..|rs| - 1]);
      ObserveDisciplined(Run(c, rs[..|rs| - 1]), rs[|rs| - 1]);
    }
  }

  lemma PrefixOfPrefix<T>(s: seq<T>, i: nat, j: nat)
    requires i <= j <= |s|
    ensures s[..j][..i] == s[..i]
  {
  }

  /** Lockout is permanent: no further state change, relay message or transition request. */
  lemma {:induction false} LockoutIsPermanent(c: Component, rs: seq<Reading>, i: nat)
    requires i <= |rs| && Run(c, rs[..i]).isDefective
    ensures Run(c, rs) == Run(c, rs[..i])
    ensures RelayLog(c, rs) == RelayLog(c, rs[..i])
    ensures TransitionLog(c, rs) == TransitionLog(c, rs[..i])
  {
    if i == |rs| {
      assert rs[..i] == rs;
    } else {
      PrefixOfPrefix(rs, i, |rs| - 1);
      LockoutIsPermanent(c, rs[..|rs| - 1], i);
    }
  }
}
