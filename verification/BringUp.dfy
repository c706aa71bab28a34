/** The manager in a closed loop with components that do as they are asked: the stack comes up. */
module BringUp {
  import opened Messages
  import opened Recovery
  import opened MonitorSpec

  /** The lifecycle state of each component itself, by the numbers of lifecycle_msgs. */
  type Plant = map<string, uint8>

  const UNCONFIGURED: uint8 := 1
  const INACTIVE: uint8 := 2
  const ACTIVE: uint8 := 3

  /** A lifecycle node that honours a request which its state allows: 1 configures, 2 cleans up, 3 activates. */
  function Honour(state: uint8, request: uint8): uint8 {
    if state == UNCONFIGURED && request == 1 then INACTIVE
    else if state == INACTIVE && request == 2 then UNCONFIGURED
    else if state == INACTIVE && request == 3 then ACTIVE
    else state
  }

  function HonourAll(state: uint8, requests: seq<uint8>): uint8
    decreases |requests|
  {
    if requests == [] then state else HonourAll(Honour(state, requests[0]), requests[1..])
  }

  /** A pass in which every component answers with its own state. */
  function PassOf(plant: Plant, at: real): Tick {
    Tick(at, map name | name in plant :: Reading(plant[name], at))
  }

  function PlantAfter(nodes: Nodes, plant: Plant, at: real): Plant {
    map name | name in plant ::
      if name in nodes
      then HonourAll(plant[name], Observe(nodes[name], ReadingOf(PassOf(plant, at), name)).transitions)
      else plant[name]
  }

  /** The loop: the manager's passes at these times, and the components after them. */
  function Loop(nodes: Nodes, plant: Plant, times: seq<real>): (Nodes, Plant) {
    if times == [] then (nodes, plant) else
    var (n, p) := Loop(nodes, plant, times[..|times| - 1]);
    (TickNodes(n, PassOf(p, times[|times| - 1])), PlantAfter(n, p, times[|times| - 1]))
  }

  /** How many passes before the one that finds the component active. */
  function Distance(state: uint8): nat {
    if state == ACTIVE then 0 else if state == INACTIVE then 1 else 2
  }

  predicate Healthy(state: uint8) {
    state == UNCONFIGURED || state == INACTIVE || state == ACTIVE
  }

  /** Every managed component is in a primary state, not locked out, and at most `k` passes from active. */
  predicate Within(nodes: Nodes, plant: Plant, k: nat) {
    && nodes.Keys <= plant.Keys
    && forall name :: name in nodes ==>
                        Healthy(plant[name]) && Distance(plant[name]) <= k && !nodes[name].isDefective
  }

  lemma OneComponent(c: Component, state: uint8, at: real)
    requires !c.isDefective && Healthy(state)
    ensures var o := Observe(c, Reading(state, at));
            && !o.node.isDefective && Healthy(HonourAll(state, o.transitions))
            && Distance(HonourAll(state, o.transitions)) == (if Distance(state) == 0 then 0 else Distance(state) - 1)
  {
    var requests := Observe(c, Reading(state, at)).transitions;
    assert requests == [] || (|requests| == 1 && HonourAll(state, requests) == Honour(state, requests[0]));
  }

  lemma OnePass(nodes: Nodes, plant: Plant, at: real, k: nat)
    requires Within(nodes, plant, k)
    ensures Within(TickNodes(nodes, PassOf(plant, at)), PlantAfter(nodes, plant, at), if k == 0 then 0 else k - 1)
  {
    hide Observe, HonourAll, Healthy, Distance;
    forall name | name in nodes
      ensures var o := Observe(nodes[name], ReadingOf(PassOf(plant, at), name));
              && !o.node.isDefective && Healthy(HonourAll(plant[name], o.transitions))
              && Distance(HonourAll(plant[name], o.transitions))
                 == (if Distance(plant[name]) == 0 then 0 else Distance(plant[name]) - 1)
    {
      OneComponent(nodes[name], plant[name], at);
    }
  }

  lemma {:induction false} LoopWithin(nodes: Nodes, plant: Plant, times: seq<real>)
    requires Within(nodes, plant, 2)
    ensures var (n, p) := Loop(nodes, plant, times); Within(n, p, if |times| >= 2 then 0 else 2 - |times|)
    ensures AllDisciplined(nodes) ==> AllDisciplined(Loop(nodes, plant, times).0)
  {
    if times != [] {
      var last := |times| - 1;
      LoopWithin(nodes, plant, times[..last]);
      var (n, p) := Loop(nodes, plant, times[..last]);
      hide Within, TickNodes, PlantAfter, PassOf, AllDisciplined;
      OnePass(n, p, times[last], if last >= 2 then 0 else 2 - last);
      if AllDisciplined(nodes) { TickDisciplined(n, PassOf(p, times[last])); }
    }
  }

  lemma PublishedInLoop(nodes: Nodes, plant: Plant, at: real)
    requires AllDisciplined(nodes) && Within(nodes, plant, 2)
    ensures Published(nodes, PassOf(plant, at)) == STATE_SOFTWARE_OK
            <==> forall name :: name in nodes ==> plant[name] == ACTIVE
    ensures Published(nodes, PassOf(plant, at)) in {STATE_SOFTWARE_OK, STATE_SYSTEM_STARTUP}
  {
    OnePass(nodes, plant, at, 2);
    PublishedMeaning(nodes, PassOf(plant, at));
    hide Published, TickNodes, AllDisciplined;
  }

  /** Bring-up: if every component starts in some primary state and honours what it is asked, then every pass
      publishes SYSTEM_STARTUP or, exactly when all components are active, SOFTWARE_OK; and from the third pass on
      that is so. */
  lemma {:induction false} StackComesUp(nodes: Nodes, plant: Plant, times: seq<real>, at: real)
    requires AllDisciplined(nodes) && Within(nodes, plant, 2)
    ensures var (n, p) := Loop(nodes, plant, times);
            && (forall name :: name in n ==> name in p)
            && (Published(n, PassOf(p, at)) == STATE_SOFTWARE_OK <==> forall name :: name in n ==> p[name] == ACTIVE)
            && Published(n, PassOf(p, at)) in {STATE_SOFTWARE_OK, STATE_SYSTEM_STARTUP}
            && (|times| >= 2 ==> Published(n, PassOf(p, at)) == STATE_SOFTWARE_OK)
  {
    LoopWithin(nodes, plant, times);
    var (n, p) := Loop(nodes, plant, times);
    PublishedInLoop(n, p, at);
    hide Published, PassOf, Loop, AllDisciplined;
  }
}
