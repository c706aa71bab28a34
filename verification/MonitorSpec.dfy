/** The monitoring loop over all components, free of any iteration order. */
module MonitorSpec {
  import opened Messages
  import opened Recovery
  import opened RelayDiscipline

  type Nodes = map<string, Component>

  /** One pass of the loop: when it publishes, and what each state query answered and when. */
  datatype Tick = Tick(at: real, readings: map<string, Reading>)

  /** An unanswered query reads as UNKNOWN. */
  function ReadingOf(t: Tick, name: string): Reading {
    if name in t.readings then t.readings[name] else Reading(PRIMARY_STATE_UNKNOWN, t.at)
  }

  function TickNodes(nodes: Nodes, t: Tick): Nodes {
    map name | name in nodes :: Observe(nodes[name], ReadingOf(t, name)).node
  }

  /** The severity one component adds to the pass, tier switch included. */
  function Severity(c: Component, r: Reading): uint8 {
    if c.isDefective then
      STATE_EMERGENCY
    else if !IsFailure(r.state) then
      STATE_SYSTEM_STARTUP
    else
      var after := Observe(c, r).node;
      if after.isDefective then STATE_EMERGENCY
      else if after.retryCount > MAX_RECOVERY_RETRIES then
        match c.tier
        case Fatal => STATE_EMERGENCY
        case Primary => STATE_PROTECTIVE_STOP
        case Auxiliary => STATE_DEGRADED
      else STATE_SYSTEM_STARTUP
  }

  predicate ReportsActive(c: Component, r: Reading) {
    !c.isDefective && r.state == PRIMARY_STATE_ACTIVE
  }

  ghost predicate AllActive(nodes: Nodes, t: Tick) {
    forall name :: name in nodes ==> ReportsActive(nodes[name], ReadingOf(t, name))
  }

  ghost predicate SomeSeverity(nodes: Nodes, t: Tick, level: uint8) {
    exists name :: name in nodes && Severity(nodes[name], ReadingOf(t, name)) == level
  }

  /** The published state: SOFTWARE_OK if everything is active, else the worst severity. */
  ghost function Published(nodes: Nodes, t: Tick): uint8 {
    if AllActive(nodes, t) then STATE_SOFTWARE_OK
    else if SomeSeverity(nodes, t, STATE_EMERGENCY) then STATE_EMERGENCY
    else if SomeSeverity(nodes, t, STATE_PROTECTIVE_STOP) then STATE_PROTECTIVE_STOP
    else if SomeSeverity(nodes, t, STATE_DEGRADED) then STATE_DEGRADED
    else STATE_SYSTEM_STARTUP
  }

  predicate AllDisciplined(nodes: Nodes) {
    forall name :: name in nodes ==> Disciplined(nodes[name])
  }

  predicate AnyDefective(nodes: Nodes) {
    exists name :: name in nodes && nodes[name].isDefective
  }

  lemma TickDisciplined(nodes: Nodes, t: Tick)
    requires AllDisciplined(nodes)
    ensures AllDisciplined(TickNodes(nodes, t))
    ensures AnyDefective(nodes) ==> AnyDefective(TickNodes(nodes, t))
  {
    forall name | name in nodes ensures Disciplined(TickNodes(nodes, t)[name]) {
      ObserveDisciplined(nodes[name], ReadingOf(t, name));
    }
    if name :| name in nodes && nodes[name].isDefective {
      assert TickNodes(nodes, t)[name].isDefective;
    }
  }

  /** Under the strike discipline a component adds EMERGENCY exactly when it ends the pass defective,
      and nothing otherwise: the tier switch is never reached. */
  lemma SeverityIsLockout(c: Component, r: Reading)
    requires Disciplined(c)
    ensures Severity(c, r) == if Observe(c, r).node.isDefective then STATE_EMERGENCY else STATE_SYSTEM_STARTUP
  {
    ObserveDisciplined(c, r);
  }

  /** What the health topic says, in terms of the components after the pass. */
  lemma PublishedMeaning(nodes: Nodes, t: Tick)
    requires AllDisciplined(nodes)
    ensures Published(nodes, t) == STATE_EMERGENCY <==> AnyDefective(TickNodes(nodes, t))
    ensures Published(nodes, t) == STATE_SOFTWARE_OK
            <==> !AnyDefective(TickNodes(nodes, t))
                 && forall name :: name in nodes ==> ReadingOf(t, name).state == PRIMARY_STATE_ACTIVE
    ensures Published(nodes, t) in {STATE_EMERGENCY, STATE_SOFTWARE_OK, STATE_SYSTEM_STARTUP}
  {
    var after := TickNodes(nodes, t);
    hide Observe, Severity, ReportsActive, Disciplined, ReadingOf;
    forall name | name in nodes
      ensures Severity(nodes[name], ReadingOf(t, name))
              == if after[name].isDefective then STATE_EMERGENCY else STATE_SYSTEM_STARTUP
      ensures ReportsActive(nodes[name], ReadingOf(t, name))
              <==> !after[name].isDefective && ReadingOf(t, name).state == PRIMARY_STATE_ACTIVE
    {
      SeverityIsLockout(nodes[name], ReadingOf(t, name));
      ActiveMeansNotLockedOut(nodes[name], ReadingOf(t, name));
    }
    if name :| name in after && after[name].isDefective {
      assert Severity(nodes[name], ReadingOf(t, name)) == STATE_EMERGENCY;
    }
  }

  lemma ActiveMeansNotLockedOut(c: Component, r: Reading)
    ensures ReportsActive(c, r) <==> !Observe(c, r).node.isDefective && r.state == PRIMARY_STATE_ACTIVE
  {
  }

  // ----- runs of the manager -----

  function RunNodes(nodes: Nodes, ticks: seq<Tick>): Nodes {
    if ticks == [] then nodes else TickNodes(RunNodes(nodes, ticks[..|ticks| - 1]), ticks[|ticks| - 1])
  }

  ghost function HealthLog(nodes: Nodes, ticks: seq<Tick>): seq<uint8> {
    if ticks == [] then [] else
    HealthLog(nodes, ticks[..|ticks| - 1]) + [Published(RunNodes(nodes, ticks[..|ticks| - 1]), ticks[|ticks| - 1])]
  }

  /** The answers one component gave over a run. */
  function ReadingsOf(ticks: seq<Tick>, name: string): (rs: seq<Reading>)
    ensures |rs| == |ticks|
    ensures forall i :: 0 <= i < |ticks| ==> rs[i] == ReadingOf(ticks[i], name)
  {
    seq(|ticks|, i requires 0 <= i < |ticks| => ReadingOf(ticks[i], name))
  }

  /** Serial passes: every query is answered after the previous pass published and before this one does. */
  ghost predicate Serial(ticks: seq<Tick>) {
    && (forall i, name :: 0 <= i < |ticks| ==> ReadingOf(ticks[i], name).now <= ticks[i].at)
    && (forall i, j, name :: 0 <= i < j < |ticks| ==> ticks[i].at <= ReadingOf(ticks[j], name).now)
  }

  /** Components do not interact: each one's state in the manager's run is its own run. */
  lemma {:induction false} RunIsPointwise(nodes: Nodes, ticks: seq<Tick>, name: string)
    requires name in nodes
    ensures RunNodes(nodes, ticks).Keys == nodes.Keys
    ensures RunNodes(nodes, ticks)[name] == Run(nodes[name], ReadingsOf(ticks, name))
    ensures Serial(ticks) ==> Monotone(ReadingsOf(ticks, name))
  {
    if ticks != [] {
      var before := ticks[..|ticks| - 1];
      RunIsPointwise(nodes, before, name);
      assert ReadingsOf(before, name) == ReadingsOf(ticks, name)[..|before|];
    }
    if Serial(ticks) {
      forall i, j | 0 <= i < j < |ticks|
        ensures ReadingOf(ticks[i], name).now <= ReadingOf(ticks[j], name).now
      {
        assert ReadingOf(ticks[i], name).now <= ticks[i].at <= ReadingOf(ticks[j], name).now;
      }
    }
  }

  /** In every serial run of the manager every component's relay log is disciplined. */
  lemma ManagedRelays(nodes: Nodes, ticks: seq<Tick>, name: string)
    requires name in nodes && Fresh(nodes[name]) && Serial(ticks)
    ensures var log := RelayLog(nodes[name], ReadingsOf(ticks, name));
            PowerCycles(log) && Held(log, nodes[name].powerOffTime)
  {
    RunIsPointwise(nodes, ticks, name);
    RelayTheorem(nodes[name], ReadingsOf(ticks, name));
  }

  lemma {:induction false} RunNodesDisciplined(nodes: Nodes, ticks: seq<Tick>)
    requires AllDisciplined(nodes)
    ensures AllDisciplined(RunNodes(nodes, ticks)) && RunNodes(nodes, ticks).Keys == nodes.Keys
    ensures AnyDefective(nodes) ==> AnyDefective(RunNodes(nodes, ticks))
  {
    if ticks != [] {
      RunNodesDisciplined(nodes, ticks[..|ticks| - 1]);
      TickDisciplined(RunNodes(nodes, ticks[..|ticks| - 1]), ticks[|ticks| - 1]);
    }
  }

  /** Lockout is announced for ever: the pass that makes a component defective and every later one publish
      EMERGENCY. */
  lemma {:induction false} LockoutIsAnnounced(nodes: Nodes, ticks: seq<Tick>, i: nat, k: nat)
    requires AllDisciplined(nodes) && i <= k + 1 <= |ticks| && AnyDefective(RunNodes(nodes, ticks[..i]))
    ensures |HealthLog(nodes, ticks)| == |ticks| && HealthLog(nodes, ticks)[k] == STATE_EMERGENCY
  {
    var before, t := ticks[..|ticks| - 1], ticks[|ticks| - 1];
    hide AnyDefective, AllDisciplined, TickNodes, HealthLog, Published;
    assert i <= |before| ==> before[..i] == ticks[..i];
    assert RunNodes(nodes, ticks) == TickNodes(RunNodes(nodes, before), t);
    hide *;
    LastPublished(nodes, ticks, k);
    if k < |before| {
      LockoutIsAnnounced(nodes, before, i, k);
    } else {
      LockoutPersists(nodes, ticks, i);
      RunNodesDisciplined(nodes, before);
      PublishedMeaning(RunNodes(nodes, before), t);
    }
  }

  /** The log grows by what the last pass publishes. */
  lemma LastPublished(nodes: Nodes, ticks: seq<Tick>, k: nat)
    requires k < |ticks|
    ensures |HealthLog(nodes, ticks)| == |ticks| && |HealthLog(nodes, ticks[..|ticks| - 1])| == |ticks| - 1
    ensures HealthLog(nodes, ticks)[k]
            == if k < |ticks| - 1 then HealthLog(nodes, ticks[..|ticks| - 1])[k]
               else Published(RunNodes(nodes, ticks[..|ticks| - 1]), ticks[|ticks| - 1])
  {
    hide Published, RunNodes;
    HealthLogLength(nodes, ticks[..|ticks| - 1]);
  }

  lemma {:induction false} LockoutPersists(nodes: Nodes, ticks: seq<Tick>, i: nat)
    requires AllDisciplined(nodes) && i <= |ticks| && AnyDefective(RunNodes(nodes, ticks[..i]))
    ensures AnyDefective(RunNodes(nodes, ticks))
  {
    hide *;
    if i == |ticks| {
      assert ticks[..i] == ticks;
    } else {
      var before := ticks[..|ticks| - 1];
      assert before[..i] == ticks[..i];
      LockoutPersists(nodes, before, i);
      LockoutSurvives(nodes, ticks);
    }
  }

  lemma LockoutSurvives(nodes: Nodes, ticks: seq<Tick>)
    requires AllDisciplined(nodes) && ticks != [] && AnyDefective(RunNodes(nodes, ticks[..|ticks| - 1]))
    ensures AnyDefective(RunNodes(nodes, ticks))
  {
    hide AnyDefective, AllDisciplined, TickNodes;
    RunNodesDisciplined(nodes, ticks[..|ticks| - 1]);
    TickDisciplined(RunNodes(nodes, ticks[..|ticks| - 1]), ticks[|ticks| - 1]);
  }

  lemma {:induction false} HealthLogLength(nodes: Nodes, ticks: seq<Tick>)
    ensures |HealthLog(nodes, ticks)| == |ticks|
  {
    if ticks != [] { HealthLogLength(nodes, ticks[..|ticks| - 1]); }
  }

  // ----- tiers -----

  predicate EqualButTier(a: Component, b: Component) {
    a == b.(tier := a.tier)
  }

  predicate AllEqualButTier(a: Nodes, b: Nodes) {
    a.Keys == b.Keys && forall name :: name in a ==> EqualButTier(a[name], b[name])
  }

  lemma StepIgnoresTier(a: Component, b: Component, r: Reading)
    requires EqualButTier(a, b)
    ensures EqualButTier(Observe(a, r).node, Observe(b, r).node)
    ensures EqualButTier(Observe(b, r).node, Observe(a, r).node)
    ensures Observe(a, r).relay == Observe(b, r).relay && Observe(a, r).transitions == Observe(b, r).transitions
  {
    if !a.isDefective && IsFailure(r.state) {
      match a.phase
      case Nominal =>
      case PowerOff =>
      case WaitDischarge =>
      case PowerOn =>
      case WaitBoot =>
      case Defective =>
    }
  }

  lemma LockoutIgnoresTier(a: Nodes, b: Nodes)
    requires AllEqualButTier(a, b)
    ensures AnyDefective(a) ==> AnyDefective(b)
  {
    if name :| name in a && a[name].isDefective { assert name in b && b[name].isDefective; }
  }

  lemma ObserveIgnoresTier(a: Nodes, b: Nodes, t: Tick)
    requires AllEqualButTier(a, b)
    ensures AllEqualButTier(TickNodes(a, t), TickNodes(b, t))
    ensures AllEqualButTier(TickNodes(b, t), TickNodes(a, t))
  {
    hide EqualButTier, Observe;
    forall name | name in a
      ensures EqualButTier(TickNodes(a, t)[name], TickNodes(b, t)[name])
      ensures EqualButTier(TickNodes(b, t)[name], TickNodes(a, t)[name])
    {
      StepIgnoresTier(a[name], b[name], ReadingOf(t, name));
    }
  }

  lemma TickIgnoresTier(a: Nodes, b: Nodes, t: Tick)
    requires AllDisciplined(a) && AllDisciplined(b) && AllEqualButTier(a, b)
    ensures AllEqualButTier(TickNodes(a, t), TickNodes(b, t))
    ensures Published(a, t) == Published(b, t)
  {
    ObserveIgnoresTier(a, b, t);
    PublishedMeaning(a, t);
    PublishedMeaning(b, t);
    LockoutIgnoresTier(TickNodes(a, t), TickNodes(b, t));
    LockoutIgnoresTier(TickNodes(b, t), TickNodes(a, t));
    hide Published, TickNodes, AnyDefective;
  }

  lemma {:induction false} RunIgnoresTier(a: Component, b: Component, rs: seq<Reading>)
    requires EqualButTier(a, b)
    ensures EqualButTier(Run(a, rs), Run(b, rs))
    ensures RelayLog(a, rs) == RelayLog(b, rs) && TransitionLog(a, rs) == TransitionLog(b, rs)
  {
    if rs != [] {
      RunIgnoresTier(a, b, rs[..|rs| - 1]);
      hide Observe, EqualButTier;
      StepIgnoresTier(Run(a, rs[..|rs| - 1]), Run(b, rs[..|rs| - 1]), rs[|rs| - 1]);
    }
  }

  predicate TierFree(level: uint8) {
    level != STATE_PROTECTIVE_STOP && level != STATE_DEGRADED && level != STATE_RECONFIGURED
  }

  /** Tiers have no observable effect: two runs that differ only in tier assignments publish the same
      health messages and drive the same relays and transitions, and PROTECTIVE_STOP, DEGRADED and
      RECONFIGURED are never published. */
  lemma {:induction false} TierNonInterference(a: Nodes, b: Nodes, ticks: seq<Tick>)
    requires AllDisciplined(a) && AllDisciplined(b) && AllEqualButTier(a, b)
    ensures AllEqualButTier(RunNodes(a, ticks), RunNodes(b, ticks))
    ensures HealthLog(a, ticks) == HealthLog(b, ticks)
    ensures forall k :: 0 <= k < |HealthLog(a, ticks)| ==> TierFree(HealthLog(a, ticks)[k])
    ensures forall name :: name in a ==>
                             && RelayLog(a[name], ReadingsOf(ticks, name)) == RelayLog(b[name], ReadingsOf(ticks, name))
                             && TransitionLog(a[name], ReadingsOf(ticks, name))
                                == TransitionLog(b[name], ReadingsOf(ticks, name))
  {
    forall name | name in a
      ensures RelayLog(a[name], ReadingsOf(ticks, name)) == RelayLog(b[name], ReadingsOf(ticks, name))
      ensures TransitionLog(a[name], ReadingsOf(ticks, name)) == TransitionLog(b[name], ReadingsOf(ticks, name))
    {
      RunIgnoresTier(a[name], b[name], ReadingsOf(ticks, name));
    }
    TierTraces(a, b, ticks);
    NoTierPublished(a, ticks);
  }

  lemma {:induction false} TierTraces(a: Nodes, b: Nodes, ticks: seq<Tick>)
    requires AllDisciplined(a) && AllDisciplined(b) && AllEqualButTier(a, b)
    ensures AllEqualButTier(RunNodes(a, ticks), RunNodes(b, ticks))
    ensures HealthLog(a, ticks) == HealthLog(b, ticks)
  {
    if ticks != [] {
      var before := ticks[..|ticks| - 1];
      hide AllDisciplined, AllEqualButTier, TickNodes, Published;
      TierTraces(a, b, before);
      RunNodesDisciplined(a, before);
      RunNodesDisciplined(b, before);
      TickIgnoresTier(RunNodes(a, before), RunNodes(b, before), ticks[|ticks| - 1]);
    }
  }

  lemma {:induction false} NoTierPublished(nodes: Nodes, ticks: seq<Tick>)
    requires AllDisciplined(nodes)
    ensures forall k :: 0 <= k < |HealthLog(nodes, ticks)| ==> TierFree(HealthLog(nodes, ticks)[k])
  {
    if ticks != [] {
      var before := ticks[..|ticks| - 1];
      hide AllDisciplined, AnyDefective, TickNodes, Published;
      NoTierPublished(nodes, before);
      RunNodesDisciplined(nodes, before);
      PublishedMeaning(RunNodes(nodes, before), ticks[|ticks| - 1]);
    }
  }
}
