/** The FDIR manager node: its configuration, its monitoring loop and its recovery machine. */
module FdirManagerNode {
  import opened Messages
  import opened Recovery
  import opened MonitorSpec

  /** The parameters of one tracked component as fetched, and when. */
  datatype ComponentParams = ComponentParams(
    enabled: bool, nodeName: string, tier: string, resetMechanism: string,
    startupTime: real, resetTopic: string, fetchedAt: real)

  datatype ConfigError = NoComponents | EmptyNodeName | UnknownTier | UnknownMechanism | MissingResetTopic

  function ParseTier(s: string): Option<Tier> {
    if s == "FATAL" then Some(Fatal) else if s == "PRIMARY" then Some(Primary)
    else if s == "AUXILIARY" then Some(Auxiliary) else None
  }

  function ParseMechanism(s: string): Option<ResetMechanism> {
    if s == "hardware_relay" then Some(HardwareRelay)
    else if s == "lifecycle_service" then Some(LifecycleService) else None
  }

  function Fault(p: ComponentParams): Option<ConfigError> {
    if !p.enabled then None
    else if p.nodeName == "" then Some(EmptyNodeName)
    else if ParseTier(p.tier) == None then Some(UnknownTier)
    else if ParseMechanism(p.resetMechanism) == None then Some(UnknownMechanism)
    else if ParseMechanism(p.resetMechanism) == Some(HardwareRelay) && p.resetTopic == "" then Some(MissingResetTopic)
    else None
  }

  /** The fault that halts the boot, if any: the first one in list order. */
  function FirstFault(ps: seq<ComponentParams>): Option<ConfigError> {
    if ps == [] then None else
    var earlier := FirstFault(ps[..|ps| - 1]);
    if earlier.Some? then earlier else Fault(ps[|ps| - 1])
  }

  function Provision(p: ComponentParams, powerOff: real): Component
    requires p.enabled && Fault(p) == None
  {
    Component(p.nodeName, ParseTier(p.tier).value, 0, PRIMARY_STATE_UNCONFIGURED, Nominal, p.fetchedAt,
              false, p.startupTime, powerOff, ParseMechanism(p.resetMechanism).value, p.resetTopic)
  }

  /** The components a fault-free list configures; a later entry replaces an earlier one of the same name. */
  function Provisioned(ps: seq<ComponentParams>, powerOff: real): Nodes
    requires FirstFault(ps) == None
  {
    if ps == [] then map[] else
    var earlier, p := Provisioned(ps[..|ps| - 1], powerOff), ps[|ps| - 1];
    if p.enabled then earlier[p.nodeName := Provision(p, powerOff)] else earlier
  }

  /** The relay topics a list sets up; one set up by an earlier entry stays if a later one of the name has none. */
  function RelayTopics(ps: seq<ComponentParams>): map<string, string> {
    if ps == [] then map[] else
    var earlier, p := RelayTopics(ps[..|ps| - 1]), ps[|ps| - 1];
    if p.enabled && ParseMechanism(p.resetMechanism) == Some(HardwareRelay) then earlier[p.nodeName := p.resetTopic]
    else earlier
  }

  /** Entry `i` is the last enabled one to carry the name and ask for a relay. */
  ghost predicate IsLastRelay(ps: seq<ComponentParams>, name: string, i: nat) {
    && i < |ps| && AsksForRelay(ps[i], name)
    && forall j :: i < j < |ps| ==> !AsksForRelay(ps[j], name)
  }

  predicate AsksForRelay(p: ComponentParams, name: string) {
    p.enabled && p.nodeName == name && p.resetMechanism == "hardware_relay"
  }

  lemma EarlierRelay(ps: seq<ComponentParams>, name: string, i: nat)
    requires ps != [] && !AsksForRelay(ps[|ps| - 1], name)
    ensures IsLastRelay(ps, name, i) <==> IsLastRelay(ps[..|ps| - 1], name, i)
  {
    hide AsksForRelay;
    var before := ps[..|ps| - 1];
    assert forall j :: 0 <= j < |before| ==> before[j] == ps[j];
  }

  lemma RelayParsed(p: ComponentParams)
    ensures ParseMechanism(p.resetMechanism) == Some(HardwareRelay) <==> p.resetMechanism == "hardware_relay"
  {
  }

  /** A name has a relay publisher exactly when some enabled entry of it asks for a relay, on the topic of the last
      one that does. */
  lemma {:induction false} RelayTopicsMeaning(ps: seq<ComponentParams>, name: string, i: nat)
    ensures IsLastRelay(ps, name, i) ==> name in RelayTopics(ps) && RelayTopics(ps)[name] == ps[i].resetTopic
    ensures name in RelayTopics(ps) ==> exists k: nat :: IsLastRelay(ps, name, k)
  {
    if ps != [] {
      var before, p := ps[..|ps| - 1], ps[|ps| - 1];
      RelayTopicsMeaning(before, name, i);
      RelayParsed(p);
      hide ParseMechanism;
      if AsksForRelay(p, name) {
        assert IsLastRelay(ps, name, |ps| - 1);
      } else {
        EarlierRelay(ps, name, i);
        if name in RelayTopics(ps) {
          var k: nat :| IsLastRelay(before, name, k);
          EarlierRelay(ps, name, k);
        }
      }
    }
  }

  /** Entry `i` is the last enabled one to carry the name. */
  ghost predicate IsLastEntry(ps: seq<ComponentParams>, name: string, i: nat) {
    && i < |ps| && ps[i].enabled && ps[i].nodeName == name
    && forall j :: i < j < |ps| && ps[j].enabled ==> ps[j].nodeName != name
  }

  lemma EarlierEntry(ps: seq<ComponentParams>, name: string, i: nat)
    requires ps != [] && !(ps[|ps| - 1].enabled && ps[|ps| - 1].nodeName == name)
    ensures IsLastEntry(ps, name, i) <==> IsLastEntry(ps[..|ps| - 1], name, i)
  {
    var before := ps[..|ps| - 1];
    assert forall j :: 0 <= j < |before| ==> before[j] == ps[j];
  }

  /** The component is the one this entry asks for, just configured. */
  predicate DescribedBy(c: Component, p: ComponentParams, powerOff: real) {
    && c.name == p.nodeName && c.startupTime == p.startupTime && c.powerOffTime == powerOff
    && c.resetTopic == p.resetTopic && c.lastPhaseChange == p.fetchedAt
    && (c.tier == Fatal <==> p.tier == "FATAL")
    && (c.tier == Primary <==> p.tier == "PRIMARY")
    && (c.tier == Auxiliary <==> p.tier == "AUXILIARY")
    && (c.mechanism == HardwareRelay <==> p.resetMechanism == "hardware_relay")
    && (c.mechanism == LifecycleService <==> p.resetMechanism == "lifecycle_service")
    && c.phase == Nominal && c.retryCount == 0 && !c.isDefective && c.currentState == PRIMARY_STATE_UNCONFIGURED
  }

  lemma ProvisionDescribes(p: ComponentParams, powerOff: real)
    requires p.enabled && Fault(p) == None
    ensures DescribedBy(Provision(p, powerOff), p, powerOff)
  {
  }

  /** An entry is sound exactly when it is disabled or its fields are, and a fault names the first field at fault. */
  lemma FaultMeaning(p: ComponentParams)
    ensures var named, tiered, reset := p.nodeName != "", p.tier in {"FATAL", "PRIMARY", "AUXILIARY"},
                                        p.resetMechanism in {"hardware_relay", "lifecycle_service"};
            var wired := p.resetMechanism != "hardware_relay" || p.resetTopic != "";
            && (Fault(p) == None <==> !p.enabled || (named && tiered && reset && wired))
            && (Fault(p) == Some(EmptyNodeName) <==> p.enabled && !named)
            && (Fault(p) == Some(UnknownTier) <==> p.enabled && named && !tiered)
            && (Fault(p) == Some(UnknownMechanism) <==> p.enabled && named && tiered && !reset)
            && (Fault(p) == Some(MissingResetTopic) <==> p.enabled && named && tiered && reset && !wired)
  {
  }

  predicate FaultsAt(ps: seq<ComponentParams>, i: nat, e: ConfigError) {
    i < |ps| && Fault(ps[i]) == Some(e) && forall j :: 0 <= j < i ==> Fault(ps[j]) == None
  }

  /** The boot halts with a fault exactly when it is the fault of an entry with only sound ones before it. */
  lemma {:induction false} FirstFaultMeaning(ps: seq<ComponentParams>, e: ConfigError)
    ensures FirstFault(ps) == None <==> forall j :: 0 <= j < |ps| ==> Fault(ps[j]) == None
    ensures FirstFault(ps) == Some(e) <==> exists i: nat :: FaultsAt(ps, i, e)
  {
    if ps != [] {
      var n := |ps| - 1;
      FirstFaultMeaning(ps[..n], e);
      hide Fault;
      if i: nat :| FaultsAt(ps[..n], i, e) { assert FaultsAt(ps, i, e); }
      if i: nat :| FaultsAt(ps, i, e) {
        assert i < n ==> FaultsAt(ps[..n], i, e);
      }
      if FirstFault(ps[..n]) == None && Fault(ps[n]) == Some(e) { assert FaultsAt(ps, n, e); }
    }
  }

  /** A name is managed exactly when some enabled entry carries it, and then as the last such entry says. */
  lemma {:induction false} ProvisionedMeaning(ps: seq<ComponentParams>, powerOff: real, name: string, i: nat)
    requires FirstFault(ps) == None
    ensures IsLastEntry(ps, name, i) ==>
              && name in Provisioned(ps, powerOff) && Fault(ps[i]) == None
              && DescribedBy(Provisioned(ps, powerOff)[name], ps[i], powerOff)
              && Fresh(Provisioned(ps, powerOff)[name])
    ensures name in Provisioned(ps, powerOff) ==> exists k: nat :: IsLastEntry(ps, name, k)
  {
    if ps != [] {
      var before, p := ps[..|ps| - 1], ps[|ps| - 1];
      ProvisionedMeaning(before, powerOff, name, i);
      hide DescribedBy, Fault, Provision;
      if p.enabled && p.nodeName == name {
        ProvisionDescribes(p, powerOff);
        FreshlyProvisioned(p, powerOff);
        assert IsLastEntry(ps, name, |ps| - 1);
      } else {
        EarlierEntry(ps, name, i);
        if name in Provisioned(ps, powerOff) {
          var k: nat :| IsLastEntry(before, name, k);
          EarlierEntry(ps, name, k);
        }
      }
    }
  }

  lemma FreshlyProvisioned(p: ComponentParams, powerOff: real)
    requires p.enabled && Fault(p) == None
    ensures Fresh(Provision(p, powerOff))
  {
  }

  lemma {:induction false} FaultIsFinal(ps: seq<ComponentParams>, i: nat)
    requires i <= |ps| && FirstFault(ps[..i]).Some?
    ensures FirstFault(ps) == FirstFault(ps[..i])
  {
    if i == |ps| {
      assert ps[..i] == ps;
    } else {
      assert ps[..|ps| - 1][..i] == ps[..i];
      FaultIsFinal(ps[..|ps| - 1], i);
    }
  }

  /** What one more sound entry does to the policy read so far. */
  lemma NextEntry(ps: seq<ComponentParams>, i: nat, powerOff: real)
    requires i < |ps| && FirstFault(ps[..i]) == None
    ensures FirstFault(ps[..i + 1]) == Fault(ps[i])
    ensures Fault(ps[i]) == None ==>
              Provisioned(ps[..i + 1], powerOff)
              == (if ps[i].enabled
                  then Provisioned(ps[..i], powerOff)[ps[i].nodeName := Provision(ps[i], powerOff)]
                  else Provisioned(ps[..i], powerOff))
    ensures RelayTopics(ps[..i + 1])
            == if ps[i].enabled && ParseMechanism(ps[i].resetMechanism) == Some(HardwareRelay)
               then RelayTopics(ps[..i])[ps[i].nodeName := ps[i].resetTopic] else RelayTopics(ps[..i])
  {
    assert ps[..i + 1][..i] == ps[..i];
    hide Fault, Provision, ParseMechanism;
  }

  class ManagedNode {
    const name: string
    const tier: Tier
    const startupTime: real
    const powerOffTime: real
    const resetMechanism: ResetMechanism
    const resetTopic: string

    var retryCount: int
    var currentState: uint8
    var phase: Phase
    var lastPhaseChange: real
    var isDefective: bool

    // what has been sent on its relay topic, and requested of it
    ghost var relaySent: seq<RelayCommand>
    ghost var requested: seq<uint8>

    constructor (p: ComponentParams, powerOff: real)
      requires p.enabled && Fault(p) == None
      ensures View() == Provision(p, powerOff) && name == p.nodeName && resetTopic == p.resetTopic
      ensures relaySent == [] && requested == []
    {
      name, tier, resetMechanism := p.nodeName, ParseTier(p.tier).value, ParseMechanism(p.resetMechanism).value;
      startupTime, powerOffTime, resetTopic := p.startupTime, powerOff, p.resetTopic;
      retryCount, currentState, phase := 0, PRIMARY_STATE_UNCONFIGURED, Nominal;
      lastPhaseChange, isDefective := p.fetchedAt, false;
      relaySent, requested := [], [];
    }

    ghost function View(): Component
      reads this
    {
      Component(name, tier, retryCount, currentState, phase, lastPhaseChange, isDefective,
                startupTime, powerOffTime, resetMechanism, resetTopic)
    }
  }

  /** The maps agree, entries carry their own keys, and every relay component has its publisher. */
  ghost predicate MapsAgree(nodes: map<string, ManagedNode>, getters: set<string>, changers: set<string>,
                            relays: map<string, string>) {
    && getters == nodes.Keys
    && changers == nodes.Keys
    && (forall n :: n in nodes ==> nodes[n].name == n)
    && (forall n :: n in nodes && nodes[n].resetMechanism == HardwareRelay ==>
                      n in relays && relays[n] == nodes[n].resetTopic)
  }

  lemma AddAgrees(nodes: map<string, ManagedNode>, getters: set<string>, changers: set<string>,
                  relays: map<string, string>, node: ManagedNode)
    requires MapsAgree(nodes, getters, changers, relays)
    ensures MapsAgree(nodes[node.name := node], getters + {node.name}, changers + {node.name},
                      if node.resetMechanism == HardwareRelay then relays[node.name := node.resetTopic] else relays)
  {
  }

  class FdirManager {
    var managedNodes: map<string, ManagedNode>
    var getStateClients: set<string>
    var changeStateClients: set<string>
    var relayPubs: map<string, string>  // topic of each relay publisher

    // what the manager itself has published
    ghost var healthSent: seq<uint8>
    ghost var contactorSent: seq<bool>
    ghost var overrideSent: seq<Twist>
    ghost var heartbeats: nat

    ghost predicate Agree()
      reads `managedNodes, `getStateClients, `changeStateClients, `relayPubs
    {
      MapsAgree(managedNodes, getStateClients, changeStateClients, relayPubs)
    }

    ghost function Views(): Nodes
      reads `managedNodes, managedNodes.Values
    {
      map n | n in managedNodes :: managedNodes[n].View()
    }

    constructor ()
      ensures Agree() && Views() == map[] && relayPubs == map[]
      ensures healthSent == [] && contactorSent == [] && overrideSent == []
    {
      managedNodes, getStateClients, changeStateClients, relayPubs := map[], {}, {}, map[];
      healthSent, contactorSent, overrideSent, heartbeats := [], [], [], 0;
    }

    /** Managed components are the earlier ones, or new ones on whose behalf nothing has been sent. */
    twostate predicate OnlyNew()
      reads this, managedNodes.Values
    {
      forall n :: n in managedNodes ==>
                    (n in old(managedNodes) && managedNodes[n] == old(managedNodes)[n]) || Untouched(managedNodes[n])
    }

    twostate predicate Untouched(new node: ManagedNode)
      reads node
    {
      fresh(node) && node.relaySent == [] && node.requested == []
    }

    /** Adds one component, replacing any earlier one of the same name. */
    method Manage(p: ComponentParams, powerOff: real)
      requires Agree() && p.enabled && Fault(p) == None
      modifies this`managedNodes, this`getStateClients, this`changeStateClients, this`relayPubs
      ensures Agree() && p.nodeName in managedNodes
      ensures managedNodes == old(managedNodes)[p.nodeName := managedNodes[p.nodeName]]
      ensures Untouched(managedNodes[p.nodeName]) && managedNodes[p.nodeName].View() == Provision(p, powerOff)
      ensures relayPubs == if managedNodes[p.nodeName].resetMechanism == HardwareRelay
                           then old(relayPubs)[p.nodeName := p.resetTopic] else old(relayPubs)
    {
      hide Provision, Fault, ParseTier, ParseMechanism, MapsAgree;
      var node := new ManagedNode(p, powerOff);
      AddAgrees(managedNodes, getStateClients, changeStateClients, relayPubs, node);
      managedNodes := managedNodes[p.nodeName := node];
      getStateClients := getStateClients + {p.nodeName};
      changeStateClients := changeStateClients + {p.nodeName};
      if node.resetMechanism == HardwareRelay {
        relayPubs := relayPubs[p.nodeName := p.resetTopic];
      }
    }

    twostate lemma OneMore(name: string, new node: ManagedNode)
      requires managedNodes == old(managedNodes)[name := node] && Untouched(node)
      requires forall n :: n in old(managedNodes) ==> unchanged(old(managedNodes)[n])
      ensures Views() == old(Views())[name := node.View()] && OnlyNew()
    {
      hide Untouched;
      assert forall n :: n in old(managedNodes) ==> old(managedNodes)[n].View() == old(managedNodes[n].View());
    }

    /** Validates one entry of the policy and, if it is enabled and sound, adds its component. */
    method Load(p: ComponentParams, powerOff: real) returns (error: Option<ConfigError>)
      requires Agree()
      modifies this`managedNodes, this`getStateClients, this`changeStateClients, this`relayPubs
      ensures Agree() && error == Fault(p) && OnlyNew()
      ensures Views() == if p.enabled && error == None
                         then old(Views())[p.nodeName := Provision(p, powerOff)] else old(Views())
      ensures error == None ==>
                relayPubs == if p.enabled && ParseMechanism(p.resetMechanism) == Some(HardwareRelay)
                             then old(relayPubs)[p.nodeName := p.resetTopic] else old(relayPubs)
    {
      if !p.enabled {
        return None;
      }
      if p.nodeName == "" {
        return Some(EmptyNodeName);
      }
      if ParseTier(p.tier) == None {
        return Some(UnknownTier);
      }
      var mechanism := ParseMechanism(p.resetMechanism);
      if mechanism == None {
        return Some(UnknownMechanism);
      }
      if mechanism.value == HardwareRelay && p.resetTopic == "" {
        return Some(MissingResetTopic);
      }
      assert Provision(p, powerOff).mechanism == mechanism.value;
      hide *;
      Manage(p, powerOff);
      assert managedNodes[p.nodeName].View().mechanism == mechanism.value;
      OneMore(p.nodeName, managedNodes[p.nodeName]);
      return None;
    }

    /** Loads the policy. A fault anywhere in the list halts the boot with the first fault; otherwise the
        components are the ones the list describes and the maps agree, duplicate names included. */
    method InitManagedNodes(tracked: seq<ComponentParams>, powerOff: real) returns (error: Option<ConfigError>)
      requires Agree() && managedNodes == map[] && relayPubs == map[]
      modifies this`managedNodes, this`getStateClients, this`changeStateClients, this`relayPubs
      ensures error == if tracked == [] then Some(NoComponents) else FirstFault(tracked)
      ensures error == None ==> Agree() && Views() == Provisioned(tracked, powerOff) && OnlyNew()
      ensures error == None ==> relayPubs == RelayTopics(tracked)
    {
      hide Fault, Provision, ParseMechanism;
      if tracked == [] {
        return Some(NoComponents);
      }
      for i := 0 to |tracked|
        invariant Agree() && FirstFault(tracked[..i]) == None
        invariant Views() == Provisioned(tracked[..i], powerOff) && OnlyNew()
        invariant relayPubs == RelayTopics(tracked[..i])
      {
        NextEntry(tracked, i, powerOff);
        error := Load(tracked[i], powerOff);
        if error.Some? {
          FaultIsFinal(tracked, i + 1);
          return;
        }
      }
      assert tracked[..|tracked|] == tracked;
      return None;
    }

    /** A state query; `answer` is what the component would say. An unmanaged name reads as UNKNOWN. */
    method GetNodeState(name: string, answer: uint8) returns (state: uint8)
      ensures state == if name in getStateClients then answer else PRIMARY_STATE_UNKNOWN
    {
      state := if name in getStateClients then answer else PRIMARY_STATE_UNKNOWN;
    }

    /** A transition request, whose outcome nobody looks at. An unmanaged name is ignored. */
    method ChangeNodeState(node: ManagedNode, transition: uint8)
      modifies node`requested
      ensures node.requested == old(node.requested) + if node.name in changeStateClients then [transition] else []
    {
      if node.name in changeStateClients {
        node.requested := node.requested + [transition];
      }
    }

    method PublishRelay(node: ManagedNode, closed: bool, now: real)
      requires node.name in relayPubs && relayPubs[node.name] == node.resetTopic
      modifies node`relaySent
      ensures node.relaySent == old(node.relaySent) + [RelayCommand(closed, now)]
    {
      node.relaySent := node.relaySent + [RelayCommand(closed, now)];
    }

    method HandleRecoveryFsm(node: ManagedNode, now: real)
      requires Agree() && node in managedNodes.Values
      modifies node
      ensures node.View() == Recover(old(node.View()), now).node
      ensures node.relaySent == old(node.relaySent) + Recover(old(node.View()), now).relay
      ensures node.requested == old(node.requested) + Recover(old(node.View()), now).transitions
    {
      var elapsed := now - node.lastPhaseChange;
      match node.phase {
        case Nominal =>
          node.retryCount := node.retryCount + 1;
          if node.retryCount > MAX_RECOVERY_RETRIES {
            node.isDefective := true;
            node.phase := Defective;
          } else {
            node.phase := PowerOff;
          }
        case PowerOff =>
          if node.resetMechanism == HardwareRelay {
            PublishRelay(node, false, now);
          } else {
            ChangeNodeState(node, TRANSITION_CLEANUP);
          }
          node.phase := WaitDischarge;
          node.lastPhaseChange := now;
        case WaitDischarge =>
          if elapsed >= node.powerOffTime {
            node.phase := PowerOn;
          }
        case PowerOn =>
          if node.resetMechanism == HardwareRelay {
            PublishRelay(node, true, now);
          }
          node.phase := WaitBoot;
          node.lastPhaseChange := now;
        case WaitBoot =>
          if elapsed >= node.startupTime {
            node.phase := Nominal;
            node.lastPhaseChange := now;
          }
        case Defective =>
      }
    }

    /** One visit of the loop: the component's new state, and its part in the global severity. */
    method Evaluate(node: ManagedNode, t: Tick, globalState: uint8, allActive: bool)
      returns (globalState': uint8, allActive': bool)
      requires Agree() && node in managedNodes.Values
      modifies node
      ensures Visited(node, t)
      ensures globalState' == Max(globalState, Severity(old(node.View()), ReadingOf(t, node.name)))
      ensures allActive' == (allActive && ReportsActive(old(node.View()), ReadingOf(t, node.name)))
    {
      hide ReadingOf;
      var r := ReadingOf(t, node.name);
      globalState', allActive' := globalState, allActive;
      if node.isDefective {
        return Max(globalState, STATE_EMERGENCY), false;
      }
      var state := GetNodeState(node.name, r.state);
      node.currentState := state;
      if state == PRIMARY_STATE_ACTIVE {
        node.retryCount := 0;
        node.phase := Nominal;
      } else if state == PRIMARY_STATE_UNCONFIGURED {
        allActive' := false;
        globalState' := Max(globalState, STATE_SYSTEM_STARTUP);
        ChangeNodeState(node, TRANSITION_CONFIGURE);
      } else if state == PRIMARY_STATE_INACTIVE {
        allActive' := false;
        globalState' := Max(globalState, STATE_SYSTEM_STARTUP);
        ChangeNodeState(node, TRANSITION_ACTIVATE);
      } else {
        allActive' := false;
        HandleRecoveryFsm(node, r.now);
        if node.isDefective {
          globalState' := Max(globalState, STATE_EMERGENCY);
        } else if node.retryCount > MAX_RECOVERY_RETRIES {
          match node.tier {
            case Fatal => globalState' := Max(globalState, STATE_EMERGENCY);
            case Primary => globalState' := Max(globalState, STATE_PROTECTIVE_STOP);
            case Auxiliary => globalState' := Max(globalState, STATE_DEGRADED);
          }
        } else {
          globalState' := Max(globalState, STATE_SYSTEM_STARTUP);
        }
      }
    }

    /** One pass over the components in whatever order the map yields them. The result does not depend on
        that order: states, relays, requests and the published severity are those of the declarative pass. */
    method MonitorLoop(order: seq<string>, t: Tick)
      requires Agree() && Enumerates(order, managedNodes.Keys)
      modifies this`healthSent, this`contactorSent, this`overrideSent, this`heartbeats, managedNodes.Values
      ensures Agree() && Views() == TickNodes(old(Views()), t)
      ensures forall n :: n in managedNodes ==> Visited(managedNodes[n], t)
      ensures healthSent == old(healthSent) + [Published(old(Views()), t)]
      ensures contactorSent == old(contactorSent)
                               + if Published(old(Views()), t) == STATE_EMERGENCY then [false] else []
      ensures overrideSent == old(overrideSent)
                              + if Published(old(Views()), t) == STATE_EMERGENCY then [ZERO_TWIST] else []
      ensures heartbeats == old(heartbeats) + 1
    {
      hide *;
      var globalState, allActive := EvaluateAll(order, t);
      Broadcast(if allActive then STATE_SOFTWARE_OK else globalState);
    }

    method EvaluateAll(order: seq<string>, t: Tick) returns (globalState: uint8, allActive: bool)
      requires Agree() && Enumerates(order, managedNodes.Keys)
      modifies managedNodes.Values
      ensures Views() == TickNodes(old(Views()), t)
      ensures forall n :: n in managedNodes ==> Visited(managedNodes[n], t)
      ensures Published(old(Views()), t) == if allActive then STATE_SOFTWARE_OK else globalState
    {
      hide FoldedOver, Published, Observe, Distinct;
      OrderIsDistinct(order, managedNodes.Keys);
      globalState, allActive := VisitAll(order, t);
      forall n | n in managedNodes ensures Visited(managedNodes[n], t) {
        assert n in order;
      }
      ViewsAdvance(t);
      FoldIsPublished(order, old(Views()), t, globalState, allActive);
    }

    /** Publishes the pass's verdict; on EMERGENCY also cuts the drive power and overrides the motors. */
    method Broadcast(globalState: uint8)
      modifies `healthSent, `contactorSent, `overrideSent, `heartbeats
      ensures healthSent == old(healthSent) + [globalState] && heartbeats == old(heartbeats) + 1
      ensures contactorSent == old(contactorSent) + if globalState == STATE_EMERGENCY then [false] else []
      ensures overrideSent == old(overrideSent) + if globalState == STATE_EMERGENCY then [ZERO_TWIST] else []
    {
      healthSent := healthSent + [globalState];
      if globalState == STATE_EMERGENCY {
        contactorSent := contactorSent + [false];
        overrideSent := overrideSent + [ZERO_TWIST];
      }
      heartbeats := heartbeats + 1;
    }

    /** The loop itself: visits every component once and folds the severities. */
    method VisitAll(order: seq<string>, t: Tick) returns (globalState: uint8, allActive: bool)
      requires Agree() && Distinct(order, managedNodes.Keys)
      modifies managedNodes.Values
      ensures forall k :: 0 <= k < |order| ==> Visited(managedNodes[order[k]], t)
      ensures FoldedOver(order, old(Views()), t, globalState, allActive)
    {
      hide FoldedOver, Observe, Severity, ReportsActive, Max, ReadingOf;
      DifferentNodes(order);
      globalState := STATE_SYSTEM_STARTUP;
      allActive := true;
      FoldNothing(old(Views()), t);
      ghost var before := Views();
      assert order[..0] == [];
      for i := 0 to |order|
        invariant forall k :: 0 <= k < i ==> Visited(managedNodes[order[k]], t)
        invariant forall k :: i <= k < |order| ==> unchanged(managedNodes[order[k]])
        invariant FoldedOver(order[..i], before, t, globalState, allActive)
      {
        var node := managedNodes[order[i]];
        FoldNext(order, i, before, t, globalState, allActive);
        globalState, allActive := Evaluate(node, t, globalState, allActive);
      }
      AllTaken(order);
    }

    /** Different names belong to different components. */
    lemma DifferentNodes(order: seq<string>)
      requires Agree() && Distinct(order, managedNodes.Keys)
      ensures forall i, j :: 0 <= i < j < |order| ==> managedNodes[order[i]] != managedNodes[order[j]]
    {
    }

    twostate lemma ViewsAdvance(t: Tick)
      requires old(Agree()) && managedNodes == old(managedNodes)
      requires forall n :: n in managedNodes ==> Visited(managedNodes[n], t)
      ensures Views() == TickNodes(old(Views()), t)
    {
    }

    twostate predicate Visited(node: ManagedNode, t: Tick)
      reads node
    {
      var o := Observe(old(node.View()), ReadingOf(t, node.name));
      && node.View() == o.node
      && node.relaySent == old(node.relaySent) + o.relay
      && node.requested == old(node.requested) + o.transitions
    }
  }

  /** The accumulators hold the worst severity, and whether all were active, over the names visited. */
  ghost predicate FoldedOver(names: seq<string>, nodes: Nodes, t: Tick, worst: uint8, allActive: bool) {
    && (forall k :: 0 <= k < |names| ==> names[k] in nodes)
    && (allActive <==> forall k :: 0 <= k < |names| ==> ReportsActive(nodes[names[k]], ReadingOf(t, names[k])))
    && (forall k :: 0 <= k < |names| ==> Severity(nodes[names[k]], ReadingOf(t, names[k])) <= worst)
    && (worst == STATE_SYSTEM_STARTUP
        || exists k :: 0 <= k < |names| && Severity(nodes[names[k]], ReadingOf(t, names[k])) == worst)
  }

  /** An order in which an iteration may yield these names: each of them, once. */
  ghost predicate Enumerates(order: seq<string>, names: set<string>) {
    && (forall n :: n in order <==> n in names)
    && (forall i, j :: 0 <= i < j < |order| ==> order[i] != order[j])
  }

  predicate Distinct(order: seq<string>, names: set<string>) {
    && (forall k :: 0 <= k < |order| ==> order[k] in names)
    && (forall i, j :: 0 <= i < j < |order| ==> order[i] != order[j])
  }

  lemma OrderIsDistinct(order: seq<string>, names: set<string>)
    requires Enumerates(order, names)
    ensures Distinct(order, names)
  {
    assert forall k :: 0 <= k < |order| ==> order[k] in order;
  }

  lemma FoldStep(names: seq<string>, name: string, nodes: Nodes, t: Tick, worst: uint8, allActive: bool)
    requires FoldedOver(names, nodes, t, worst, allActive) && name in nodes
    ensures FoldedOver(names + [name], nodes, t, Max(worst, Severity(nodes[name], ReadingOf(t, name))),
                       allActive && ReportsActive(nodes[name], ReadingOf(t, name)))
  {
    var longer := names + [name];
    assert longer[|names|] == name;
    assert forall k :: 0 <= k < |names| ==> longer[k] == names[k];
  }

  lemma FoldNothing(nodes: Nodes, t: Tick)
    ensures FoldedOver([], nodes, t, STATE_SYSTEM_STARTUP, true)
  {
  }

  lemma FoldNext(order: seq<string>, i: nat, nodes: Nodes, t: Tick, worst: uint8, allActive: bool)
    requires i < |order| && order[i] in nodes && FoldedOver(order[..i], nodes, t, worst, allActive)
    ensures FoldedOver(order[..i + 1], nodes, t, Max(worst, Severity(nodes[order[i]], ReadingOf(t, order[i]))),
                       allActive && ReportsActive(nodes[order[i]], ReadingOf(t, order[i])))
  {
    assert order[..i + 1] == order[..i] + [order[i]];
    FoldStep(order[..i], order[i], nodes, t, worst, allActive);
  }

  lemma AllTaken<T>(s: seq<T>)
    ensures s[..|s|] == s
  {
  }

  lemma FoldIsPublished(order: seq<string>, nodes: Nodes, t: Tick, worst: uint8, allActive: bool)
    requires Enumerates(order, nodes.Keys) && FoldedOver(order, nodes, t, worst, allActive)
    ensures Published(nodes, t) == if allActive then STATE_SOFTWARE_OK else worst
  {
    forall n | n in nodes ensures exists k :: 0 <= k < |order| && order[k] == n {
      assert n in order;
    }
    forall k | 0 <= k < |order| ensures order[k] in nodes {
      assert order[k] in order;
    }
  }
}
