/** A component lockout and what it does to the whole system. */
module Lockout {
  import opened Messages
  import opened SystemSpec
  import opened Decline
  import opened EndToEnd
  import Mon = MonitorSpec
  import Mux = MuxSpec
  import Saf = SafetySpec
  import SafetyLatch
  import Recovery
  import Timing = LockoutTiming
  import opened Smoothing

  // ----- the health queues -----

  /** Behind an emergency message there are only emergency messages. */
  predicate Settled(q: seq<uint8>) {
    forall i, j :: 0 <= i < j < |q| && q[i] == STATE_EMERGENCY ==> q[j] == STATE_EMERGENCY
  }

  predicate AllEmergency(q: seq<uint8>) {
    forall i :: 0 <= i < |q| ==> q[i] == STATE_EMERGENCY
  }

  /** An emergency message in a queue is evidence of a locked-out component. */
  predicate Truthful(nodes: Mon.Nodes, q: seq<uint8>) {
    Settled(q) && (STATE_EMERGENCY in q ==> Mon.AnyDefective(nodes))
  }

  predicate Honest(s: System) {
    Mon.AllDisciplined(s.nodes) && Truthful(s.nodes, s.healthToMux) && Truthful(s.nodes, s.healthToSafety)
  }

  /** The next pass joins the queue without breaking its promise. */
  lemma PublishTruthfully(nodes: Mon.Nodes, q: seq<uint8>, t: Mon.Tick)
    requires Mon.AllDisciplined(nodes) && Truthful(nodes, q)
    ensures Truthful(Mon.TickNodes(nodes, t), q + [Mon.Published(nodes, t)])
    ensures Mon.AnyDefective(nodes) ==> Mon.Published(nodes, t) == STATE_EMERGENCY
  {
    Mon.TickDisciplined(nodes, t);
    Mon.PublishedMeaning(nodes, t);
    hide Mon.TickNodes, Mon.Published, Mon.AnyDefective, Mon.AllDisciplined;
  }

  lemma LoseTruthfully(nodes: Mon.Nodes, q: seq<uint8>, i: nat)
    requires Truthful(nodes, q)
    ensures Truthful(nodes, Without(q, i))
    ensures AllEmergency(q) ==> AllEmergency(Without(q, i))
  {
    var r := Without(q, i);
    assert forall k :: 0 <= k < |r| ==> r[k] == q[if i < |q| && i <= k then k + 1 else k];
    assert forall m :: m in r ==> m in q;
  }

  lemma TakeTruthfully(nodes: Mon.Nodes, q: seq<uint8>)
    requires Truthful(nodes, q) && q != []
    ensures Truthful(nodes, q[1..])
    ensures q[0] == STATE_EMERGENCY ==> AllEmergency(q[1..]) && Mon.AnyDefective(nodes)
  {
    assert forall k :: 0 <= k < |q| - 1 ==> q[1..][k] == q[k + 1];
  }

  /** What one step does to the health queues and the components. */
  lemma StepHonest(s: System, now: real, ev: Event)
    requires Honest(s)
    ensures var t := Step(s, now, ev);
            && Honest(t)
            && (Mon.AnyDefective(s.nodes) ==> Mon.AnyDefective(t.nodes))
            && (Mon.AnyDefective(s.nodes) && AllEmergency(s.healthToMux) ==> AllEmergency(t.healthToMux))
            && (Mon.AnyDefective(s.nodes) && AllEmergency(s.healthToSafety) ==> AllEmergency(t.healthToSafety))
  {
    hide Mon.TickNodes, Mon.Published, Mon.AnyDefective, Mon.AllDisciplined, Mux.Step, Saf.Step, Truthful;
    if ev.FdirTick? {
      Mon.TickDisciplined(s.nodes, ev.tick);
      PublishTruthfully(s.nodes, s.healthToMux, ev.tick);
      PublishTruthfully(s.nodes, s.healthToSafety, ev.tick);
    }
    if ev.LoseHealthToMux? { LoseTruthfully(s.nodes, s.healthToMux, ev.i); }
    if ev.LoseHealthToSafety? { LoseTruthfully(s.nodes, s.healthToSafety, ev.i); }
    if s.healthToMux != [] { TakeTruthfully(s.nodes, s.healthToMux); }
    if s.healthToSafety != [] { TakeTruthfully(s.nodes, s.healthToSafety); }
  }

  lemma {:induction false} RunHonest(s: System, evs: Trace)
    requires Honest(s)
    ensures Honest(Run(s, evs))
    ensures Mon.AnyDefective(s.nodes) && AllEmergency(s.healthToMux) ==> AllEmergency(Run(s, evs).healthToMux)
    ensures Mon.AnyDefective(s.nodes) && AllEmergency(s.healthToSafety) ==> AllEmergency(Run(s, evs).healthToSafety)
    ensures Mon.AnyDefective(s.nodes) ==> Mon.AnyDefective(Run(s, evs).nodes)
  {
    if evs != [] {
      var e := evs[|evs| - 1];
      RunHonest(s, evs[..|evs| - 1]);
      hide Step, Honest, AllEmergency, Mon.AnyDefective;
      StepHonest(Run(s, evs[..|evs| - 1]), e.at, e.ev);
    }
  }

  // ----- the multiplexer -----

  /** An emergency message has reached the multiplexer: nothing but emergencies can follow it. */
  predicate MuxGrounded(s: System) {
    && s.mux.fdirBlocked && s.mux.safetyBlocked
    && AllEmergency(s.healthToMux) && Mon.AnyDefective(s.nodes)
  }

  /** The running multiplexer is about to read an emergency message. */
  predicate EmergencyAtMux(s: System) {
    s.mux.configured && !s.mux.crashed && s.healthToMux != [] && s.healthToMux[0] == STATE_EMERGENCY
  }

  lemma EmergencyGroundsMux(s: System, now: real)
    requires Honest(s) && EmergencyAtMux(s)
    ensures MuxGrounded(Step(s, now, HealthReachesMux))
  {
    TakeTruthfully(s.nodes, s.healthToMux);
  }

  lemma GroundedMuxStep(s: System, now: real, ev: Event)
    requires Honest(s) && MuxGrounded(s) && Permitted(ev)
    ensures MuxGrounded(Step(s, now, ev))
  {
    StepHonest(s, now, ev);
    StepParts(s, now, ev);
    var fed := MuxFeed(s, ev);
    if fed.Some? { StaysFdirBlocked(s.mux, now, fed.value); }
    hide Step, Mux.Step, SentBy, CommandsBy, Honest, Mon.AnyDefective;
  }

  lemma StaysFdirBlocked(m: Mux.Mux, now: real, ev: Mux.Event)
    requires m.fdirBlocked && m.safetyBlocked && (ev.HealthArrives? ==> ev.state == STATE_EMERGENCY)
    ensures var n := Mux.Step(m, now, ev).0; n.fdirBlocked && n.safetyBlocked
  {
    hide FilterTwist;
  }

  lemma {:induction false} GroundedMuxRun(s: System, evs: Trace)
    requires Honest(s) && MuxGrounded(s) && AllPermitted(evs)
    ensures MuxGrounded(Run(s, evs))
  {
    if evs != [] {
      var before, e := evs[..|evs| - 1], evs[|evs| - 1];
      GroundedMuxRun(s, before);
      RunHonest(s, before);
      hide Step, Honest, MuxGrounded;
      GroundedMuxStep(Run(s, before), e.at, e.ev);
    }
  }

  lemma GroundedStaysBlocked(s: System, evs: Trace)
    requires Honest(s) && MuxGrounded(s) && AllPermitted(evs)
    ensures StaysBlocked(s, evs)
  {
    hide Run, Honest;
    forall n: nat | n <= |evs| ensures Run(s, evs[..n]).mux.safetyBlocked {
      GroundedMuxRun(s, evs[..n]);
    }
  }

  /** Lockout, the motion half. In any reachable state let an emergency message reach the running multiplexer.
      Then it is blocked in every continuation, and each further output, with every motor command that answers it,
      is at most the velocity at that moment times the product of 1 - alpha over the outputs since: (1 - alpha)^n
      for the n-th output, unless a reconfiguration changes the filter weight. */
  lemma {:induction false} LockoutStopsMotion(s0: System, start: real, past: Trace, now: real, future: Trace)
    requires Initial(s0, start) && AllPermitted(past) && AllPermitted(future)
    requires EmergencyAtMux(Run(s0, past))
    ensures DeclinesFrom(Step(Run(s0, past), now, HealthReachesMux), future)
  {
    hide *;
    InitialGood(s0, start);
    RunProper(s0, past);
    RunHonest(s0, past);
    var s := Run(s0, past);
    GroundedAtArrival(s, now);
    var g := Step(s, now, HealthReachesMux);
    GroundedStaysBlocked(g, future);
    BlockedStops(g, future);
  }

  lemma InitialGood(s: System, start: real)
    requires Initial(s, start)
    ensures WellSet(s) && AllProper(s) && Honest(s)
  {
  }

  lemma GroundedAtArrival(s: System, now: real)
    requires Honest(s) && WellSet(s) && AllProper(s) && EmergencyAtMux(s)
    ensures var g := Step(s, now, HealthReachesMux);
            Honest(g) && WellSet(g) && AllProper(g) && MuxGrounded(g)
  {
    EmergencyGroundsMux(s, now);
    PermittedArrival();
    hide Step, Honest, WellSet, AllProper, MuxGrounded, EmergencyAtMux, Permitted;
    StepHonest(s, now, HealthReachesMux);
    StepWellSet(s, now, HealthReachesMux);
    StepProper(s, now, HealthReachesMux);
  }

  lemma PermittedArrival()
    ensures Permitted(HealthReachesMux)
  {
  }

  // ----- the safety node -----

  /** Health messages are read once the node processes callbacks. */
  predicate Listening(s: Saf.Safety) {
    s.processing && s.publishers.Some?
  }

  /** A reset request came after the last health message the node accepted. */
  ghost predicate ResetSince(s: System, evs: Trace) {
    evs != [] &&
    var was, ev := Run(s, evs[..|evs| - 1]), evs[|evs| - 1].ev;
    if ev == SafetyInput(Saf.Reset) then true
    else if ev.HealthReachesSafety? && was.healthToSafety != [] && Listening(was.safety) then false
    else ResetSince(s, evs[..|evs| - 1])
  }

  /** The safety node is about to accept an emergency message. */
  predicate EmergencyAtSafety(s: System) {
    Listening(s.safety) && s.healthToSafety != [] && s.healthToSafety[0] == STATE_EMERGENCY
  }

  predicate Down(s: Saf.Safety) {
    s.eStop && !s.closed
  }

  /** Since state `s`, a reset was served after the last trip of the emergency stop. */
  ghost predicate Freed(s: System, evs: Trace) {
    evs != [] &&
    var before, ev := evs[..|evs| - 1], evs[|evs| - 1].ev;
    FreedAfter(Run(s, before), ev, Freed(s, before))
  }

  predicate FreedAfter(s: System, ev: Event, freed: bool) {
    match SafetyFeed(s, ev)
    case None => freed
    case Some(e) => SafetyLatch.ServedReset(s.safety, e) || (freed && !SafetyLatch.Trips(s.safety, e))
  }

  predicate DownUnless(s: Saf.Safety, freed: bool) {
    (s.closed ==> !s.eStop) && (s.eStop <==> !freed)
  }

  lemma DownAfter(s: System, now: real, ev: Event, freed: bool)
    requires DownUnless(s.safety, freed)
    ensures DownUnless(Step(s, now, ev).safety, FreedAfter(s, ev, freed))
  {
    StepParts(s, now, ev);
    var given := SafetyFeed(s, ev);
    if given.Some? { SafetyLatch.LatchAfter(s.safety, given.value); }
    hide Step, Saf.Step, SafetyLatch.Trips;
    assert given.Some? && SafetyLatch.ServedReset(s.safety, given.value)
           ==> !SafetyLatch.Trips(s.safety, given.value) by {
      ResetIsNoTrip(s.safety);
    }
  }

  lemma ResetIsNoTrip(s: Saf.Safety)
    ensures !SafetyLatch.Trips(s, Saf.Reset)
  {
  }

  lemma HarmlessWhenDown(s: Saf.Safety, ev: Saf.Event)
    requires Down(s) && ev != Saf.Reset
    ensures SafetyLatch.Harmless(Saf.Step(s, ev).1)
  {
    SafetyLatch.LatchStep(s, ev);
  }

  lemma EmergencyDowns(s: Saf.Safety)
    requires Listening(s)
    ensures Down(Saf.Step(s, Saf.Health(STATE_EMERGENCY)).0)
  {
  }

  /** An emergency message has reached the safety node: nothing but emergencies can follow it. */
  predicate SafetyGrounded(s: System) {
    AllEmergency(s.healthToSafety) && Mon.AnyDefective(s.nodes)
  }

  lemma {:induction false} GroundedSafetyRun(s: System, evs: Trace)
    requires Honest(s) && SafetyGrounded(s) && Down(s.safety)
    ensures Honest(Run(s, evs)) && SafetyGrounded(Run(s, evs))
    ensures DownUnless(Run(s, evs).safety, Freed(s, evs))
    ensures Freed(s, evs) ==> ResetSince(s, evs)
  {
    if evs != [] {
      var before, e := evs[..|evs| - 1], evs[|evs| - 1];
      var u := Run(s, before);
      assert Run(s, evs) == Step(u, e.at, e.ev) && Freed(s, evs) == FreedAfter(u, e.ev, Freed(s, before));
      GroundedSafetyRun(s, before);
      ResetIsSince(s, evs);
      hide Step, Run, Freed, ResetSince, DownUnless, FreedAfter, Honest, Mon.AnyDefective;
      StepHonest(u, e.at, e.ev);
      DownAfter(u, e.at, e.ev, Freed(s, before));
    }
  }

  /** Once every health message is an emergency, only a reset after the last accepted one can be after the last
      trip. */
  lemma ResetIsSince(s: System, evs: Trace)
    requires evs != [] && AllEmergency(Run(s, evs[..|evs| - 1]).healthToSafety)
    requires Freed(s, evs[..|evs| - 1]) ==> ResetSince(s, evs[..|evs| - 1])
    ensures Freed(s, evs) ==> ResetSince(s, evs)
  {
    hide Run;
  }

  /** Lockout, the power half. In any reachable state let the safety node accept an emergency message. Then a later
      state is latched with the contactors open exactly when no reset was served after the last trip, in particular
      when there was none since its last accepted health message; and while it is so, whatever is not a reset makes
      it send only zero motor commands and never close the contactors. */
  lemma {:induction false} LockoutCutsPower(s0: System, start: real, past: Trace, now: real, future: Trace,
                                            next: Event)
    requires Initial(s0, start)
    requires EmergencyAtSafety(Run(s0, past))
    ensures var g := Step(Run(s0, past), now, HealthReachesSafety);
            var t := Run(g, future);
            && (Down(t.safety) <==> !Freed(g, future))
            && (Freed(g, future) ==> ResetSince(g, future))
            && (Down(t.safety) && next != SafetyInput(Saf.Reset) ==>
                  match SafetyFeed(t, next)
                  case None => true
                  case Some(e) => SafetyLatch.Harmless(Saf.Step(t.safety, e).1))
  {
    hide Run, Honest, Mon.AnyDefective, Initial;
    InitialGood(s0, start);
    RunHonest(s0, past);
    var g := Step(Run(s0, past), now, HealthReachesSafety);
    EmergencyGroundsSafety(Run(s0, past), now);
    hide Step, SafetyGrounded, Freed, ResetSince, Saf.Step, SafetyLatch.Harmless;
    GroundedSafetyRun(g, future);
    var t := Run(g, future);
    if SafetyFeed(t, next).Some? && Down(t.safety) && next != SafetyInput(Saf.Reset) {
      HarmlessWhenDown(t.safety, SafetyFeed(t, next).value);
    }
  }

  lemma EmergencyGroundsSafety(s: System, now: real)
    requires Honest(s) && EmergencyAtSafety(s)
    ensures var g := Step(s, now, HealthReachesSafety);
            Honest(g) && SafetyGrounded(g) && Down(g.safety)
  {
    StepHonest(s, now, HealthReachesSafety);
    TakeTruthfully(s.nodes, s.healthToSafety);
    StepParts(s, now, HealthReachesSafety);
    EmergencyDowns(s.safety);
  }

  /** The proviso is needed: a reset lifts the latch and closes the contactors whatever the last health message
      said, and even when the node no longer processes callbacks. */
  lemma ResetRepowers(s: Saf.Safety)
    requires Down(s) && s.publishers.Some?
    ensures var t := Saf.Step(s, Saf.Reset).0;
            !t.eStop && t.closed && !Saf.Halted(t) && t.lastFdir == s.lastFdir && t.processing == s.processing
  {
  }

  // ----- the announcement -----

  /** In any reachable state with a locked-out component, every health message published from then on is an
      emergency. */
  lemma {:induction false} LockoutIsPublished(s0: System, start: real, past: Trace, future: Trace, k: nat)
    requires Initial(s0, start) && Mon.AnyDefective(Run(s0, past).nodes)
    requires |Run(s0, past).healthLog| <= k < |Run(Run(s0, past), future).healthLog|
    ensures Run(Run(s0, past), future).healthLog[k] == STATE_EMERGENCY
  {
    hide *;
    InitialGood(s0, start);
    RunHonest(s0, past);
    PublishedFrom(Run(s0, past), future, k);
  }

  lemma PublishedFrom(s: System, evs: Trace, k: nat)
    requires Honest(s) && Mon.AnyDefective(s.nodes)
    requires |s.healthLog| <= k < |Run(s, evs).healthLog|
    ensures Run(s, evs).healthLog[k] == STATE_EMERGENCY
  {
    var ticks := TicksOf(evs);
    assert ticks[..0] == [] && Mon.RunNodes(s.nodes, []) == s.nodes;
    hide Run, Mon.RunNodes, Mon.HealthLog, Mon.AllDisciplined, Mon.AnyDefective, Truthful;
    ManagerRun(s, evs);
    Mon.HealthLogLength(s.nodes, ticks);
    Mon.LockoutIsAnnounced(s.nodes, ticks, 0, k - |s.healthLog|);
  }

  /** The deadline, seen from the health topic. Once a component of a fresh system has spent its failure reports
      in the first `i` passes without ever reporting ACTIVE, the last of these passes and every later one publish
      EMERGENCY, in every interleaving. */
  lemma {:induction false} DeadlineIsPublished(s: System, start: real, evs: Trace, name: string, d: real,
                                               i: nat, k: nat)
    requires Initial(s, start) && name in s.nodes && Recovery.Fresh(s.nodes[name]) && 0.0 < d
    requires i <= k + 1 <= |TicksOf(evs)|
    requires Timing.Overdue(s.nodes[name], Mon.ReadingsOf(TicksOf(evs)[..i], name), d)
    ensures k < |Run(s, evs).healthLog| && Run(s, evs).healthLog[k] == STATE_EMERGENCY
  {
    ManagerRun(s, evs);
    hide Run, TicksOf, Mon.HealthLog, Timing.Overdue, Mon.AllDisciplined, Recovery.Fresh;
    Timing.ManagedDeadline(s.nodes, TicksOf(evs), name, d, i, k);
  }
}
