/** The emergency-stop latch seen from the multiplexer, across the queue between the two nodes. */
module StopLatch {
  import opened Messages
  import opened SystemSpec
  import opened Decline
  import opened EndToEnd
  import Mux = MuxSpec
  import Saf = SafetySpec
  import SafetyLatch

  predicate NoReset(evs: Trace) {
    forall i :: 0 <= i < |evs| ==> evs[i].ev != SafetyInput(Saf.Reset)
  }

  /** How many of the first `n` state messages under way are still under way after these events. */
  function Older(n: nat, evs: Trace): nat {
    if evs == [] then n else OlderAfter(Older(n, evs[..|evs| - 1]), evs[|evs| - 1].ev)
  }

  function OlderAfter(n: nat, ev: Event): nat {
    if n > 0 && (ev.SafetyStateReachesMux? || (ev.LoseSafetyState? && ev.i < n)) then n - 1 else n
  }

  /** The latch is set, and behind the first `older` state messages all are emergencies. */
  predicate Latched(s: System, older: nat) {
    && s.safety.eStop
    && older <= |s.safetyStateToMux|
    && forall i :: older <= i < |s.safetyStateToMux| ==> s.safetyStateToMux[i] == SAFETY_EMERGENCY
  }

  /** What one step does to the state messages under way. */
  lemma StateQueue(s: System, now: real, ev: Event)
    ensures var t := Step(s, now, ev);
            t.safetyStateToMux
            == match ev
               case SafetyStateReachesMux => if s.safetyStateToMux == [] then [] else s.safetyStateToMux[1..]
               case LoseSafetyState(i) => Without(s.safetyStateToMux, i)
               case _ => s.safetyStateToMux + (match SafetyFeed(s, ev)
                                               case Some(e) => Saf.Step(s.safety, e).1.states
                                               case None => [])
  {
    hide Mux.Step, Saf.Step, Without;
  }

  lemma LatchedStep(s: System, older: nat, now: real, ev: Event)
    requires Latched(s, older) && ev != SafetyInput(Saf.Reset)
    ensures Latched(Step(s, now, ev), OlderAfter(older, ev))
  {
    StateQueue(s, now, ev);
    StepParts(s, now, ev);
    var given := SafetyFeed(s, ev);
    if given.Some? { SafetyLatch.LatchStep(s.safety, given.value); }
    hide Step, Saf.Step, SentBy, CommandsBy;
  }

  lemma {:induction false} LatchedRun(g: System, n: nat, evs: Trace)
    requires Latched(g, n) && NoReset(evs)
    ensures Latched(Run(g, evs), Older(n, evs))
  {
    if evs != [] {
      var before, e := evs[..|evs| - 1], evs[|evs| - 1];
      LatchedRun(g, n, before);
      hide Step, Latched;
      LatchedStep(Run(g, before), Older(n, before), e.at, e.ev);
    }
  }

  /** This step trips the emergency stop: the service, an FDIR emergency, or motion in a soft stop. */
  predicate TripsStop(s: System, ev: Event) {
    SafetyFeed(s, ev).Some? && SafetyLatch.Trips(s.safety, SafetyFeed(s, ev).value)
  }

  /** What the tripping step announces counts as published during the latch. */
  lemma TripLatches(s: System, now: real, ev: Event)
    requires TripsStop(s, ev)
    ensures Latched(Step(s, now, ev), |s.safetyStateToMux|)
  {
    StateQueue(s, now, ev);
    StepParts(s, now, ev);
    SafetyLatch.LatchStep(s.safety, SafetyFeed(s, ev).value);
    hide Step, Saf.Step, SentBy, CommandsBy;
  }

  /** The latch is set, the multiplexer knows it, and hears nothing else. */
  predicate Told(s: System) {
    Latched(s, 0) && s.mux.estopBlocked && s.mux.safetyBlocked
  }

  lemma ToldStep(s: System, now: real, ev: Event)
    requires Told(s) && Permitted(ev) && ev != SafetyInput(Saf.Reset)
    ensures Told(Step(s, now, ev))
  {
    LatchedStep(s, 0, now, ev);
    StepParts(s, now, ev);
    var fed := MuxFeed(s, ev);
    if fed.Some? { StaysStopBlocked(s.mux, now, fed.value); }
    hide Step, Mux.Step, SentBy, CommandsBy;
  }

  lemma StaysStopBlocked(m: Mux.Mux, now: real, ev: Mux.Event)
    requires m.estopBlocked && m.safetyBlocked && (ev.SafetyArrives? ==> ev.state == SAFETY_EMERGENCY)
    ensures var n := Mux.Step(m, now, ev).0; n.estopBlocked && n.safetyBlocked
  {
    hide Mux.TickStep;
    if ev.ControlTick? { TickKeepsFlags(m, now); }
  }

  lemma TickKeepsFlags(m: Mux.Mux, now: real)
    ensures var n := Mux.TickStep(m, now).0;
            n.estopBlocked == m.estopBlocked && n.safetyBlocked == m.safetyBlocked
  {
  }

  lemma {:induction false} ToldRun(s: System, evs: Trace)
    requires Told(s) && AllPermitted(evs) && NoReset(evs)
    ensures Told(Run(s, evs))
  {
    if evs != [] {
      var before, e := evs[..|evs| - 1], evs[|evs| - 1];
      ToldRun(s, before);
      hide Step, Told;
      ToldStep(Run(s, before), e.at, e.ev);
    }
  }

  lemma ToldStaysBlocked(s: System, evs: Trace)
    requires Told(s) && AllPermitted(evs) && NoReset(evs)
    ensures StaysBlocked(s, evs)
  {
    hide Run;
    forall n: nat | n <= |evs| ensures Run(s, evs[..n]).mux.safetyBlocked {
      ToldRun(s, evs[..n]);
    }
  }

  /** The running multiplexer is about to read a state message. */
  predicate ReadsState(s: System) {
    s.mux.configured && !s.mux.crashed && s.safetyStateToMux != []
  }

  predicate AllStops(q: seq<uint8>) {
    forall i :: 0 <= i < |q| ==> q[i] == SAFETY_EMERGENCY
  }

  lemma StopIsTold(s: System, now: real)
    requires s.safety.eStop && ReadsState(s) && AllStops(s.safetyStateToMux)
    ensures Told(Step(s, now, SafetyStateReachesMux))
  {
    LatchedStep(s, 0, now, SafetyStateReachesMux);
  }

  lemma ReadingIsPermitted()
    ensures Permitted(SafetyStateReachesMux)
  {
  }

  // ----- the exact condition -----

  /** The multiplexer reads `n` more state messages, all at once. */
  function Reading(n: nat, now: real): (evs: Trace)
    ensures |evs| == n && forall i :: 0 <= i < n ==> evs[i] == Timed(now, SafetyStateReachesMux)
  {
    seq(n, i => Timed(now, SafetyStateReachesMux))
  }

  lemma ReadOne(s: System, now: real)
    requires ReadsState(s)
    ensures var t := Step(s, now, SafetyStateReachesMux);
            && t.safetyStateToMux == s.safetyStateToMux[1..] && t.mux.configured && !t.mux.crashed
            && (t.mux.estopBlocked <==> s.safetyStateToMux[0] == SAFETY_EMERGENCY)
  {
  }

  /** Read one by one, the queue decides the stop flag. */
  lemma {:induction false} ReadMany(s: System, n: nat, now: real)
    requires s.mux.configured && !s.mux.crashed && n <= |s.safetyStateToMux|
    ensures var t := Run(s, Reading(n, now));
            && t.safetyStateToMux == s.safetyStateToMux[n..] && t.mux.configured && !t.mux.crashed
            && (0 < n ==> (t.mux.estopBlocked <==> s.safetyStateToMux[n - 1] == SAFETY_EMERGENCY))
  {
    if n > 0 {
      var u := Run(s, Reading(n - 1, now));
      assert Reading(n, now)[..n - 1] == Reading(n - 1, now);
      assert Run(s, Reading(n, now)) == Step(u, now, SafetyStateReachesMux);
      hide Step, Run;
      ReadMany(s, n - 1, now);
      ReadOne(u, now);
    }
  }

  /** Until a reset the stop flag of the multiplexer stays up. */
  ghost predicate StaysStopped(g: System) {
    forall future: Trace :: AllPermitted(future) && NoReset(future) ==> Run(g, future).mux.estopBlocked
  }

  lemma SomethingElseFrees(s: System, now: real, k: nat)
    requires ReadsState(s) && k < |s.safetyStateToMux| && s.safetyStateToMux[k] != SAFETY_EMERGENCY
    ensures !StaysStopped(Step(s, now, SafetyStateReachesMux))
  {
    var g, rest := Step(s, now, SafetyStateReachesMux), Reading(k, now);
    ReadOne(s, now);
    hide Step, Run;
    ReadMany(g, k, now);
    ReadingIsPermitted();
    assert AllPermitted(rest) && NoReset(rest);
    if k == 0 { RunNothing(g); }
    assert !Run(g, rest).mux.estopBlocked;
  }

  lemma RunNothing(s: System)
    ensures forall evs: Trace :: evs == [] ==> Run(s, evs) == s
  {
  }

  /** While the latch is set, the running multiplexer that reads a state message is stopped until a reset if and
      only if that message and all those behind it are emergencies. */
  lemma {:induction false} StopHoldsIff(s: System, now: real)
    requires s.safety.eStop && ReadsState(s)
    ensures StaysStopped(Step(s, now, SafetyStateReachesMux)) <==> AllStops(s.safetyStateToMux)
  {
    hide Run, Step, Told;
    if AllStops(s.safetyStateToMux) {
      StopIsTold(s, now);
      var g := Step(s, now, SafetyStateReachesMux);
      forall future: Trace | AllPermitted(future) && NoReset(future) ensures Run(g, future).mux.estopBlocked {
        ToldRun(g, future);
        ToldMeans(Run(g, future));
      }
    } else {
      var k: nat :| k < |s.safetyStateToMux| && s.safetyStateToMux[k] != SAFETY_EMERGENCY;
      SomethingElseFrees(s, now, k);
    }
  }

  lemma ToldMeans(s: System)
    requires Told(s)
    ensures s.mux.estopBlocked && s.mux.safetyBlocked
  {
  }

  /** Once a message read under these conditions has stopped the multiplexer, it declines. */
  lemma {:induction false} StoppedDeclines(s: System, now: real, future: Trace)
    requires WellSet(s) && AllProper(s) && AllPermitted(future) && NoReset(future)
    requires s.safety.eStop && ReadsState(s) && AllStops(s.safetyStateToMux)
    ensures DeclinesFrom(Step(s, now, SafetyStateReachesMux), future)
  {
    hide *;
    ReadingIsPermitted();
    StepWellSet(s, now, SafetyStateReachesMux);
    StepProper(s, now, SafetyStateReachesMux);
    StopIsTold(s, now);
    var g := Step(s, now, SafetyStateReachesMux);
    ToldStaysBlocked(g, future);
    BlockedStops(g, future);
  }

  /** The latch across the system. From any step that trips the emergency stop in a reachable state, let a state
      message published by that step or after it, and before any reset, reach the running multiplexer. Then until
      a reset, whatever else arrives, the multiplexer is blocked, and its outputs and the motor commands answering
      them decay as after a lockout. */
  lemma {:induction false} LatchStopsMotion(s0: System, start: real, past: Trace, trip: Timed<Event>, wait: Trace,
                                            now: real, future: Trace)
    requires Initial(s0, start) && AllPermitted(past) && Permitted(trip.ev) && AllPermitted(wait)
    requires AllPermitted(future) && NoReset(wait) && NoReset(future) && TripsStop(Run(s0, past), trip.ev)
    requires ReadsState(Run(Step(Run(s0, past), trip.at, trip.ev), wait))
    requires Older(|Run(s0, past).safetyStateToMux|, wait) == 0
    ensures DeclinesFrom(Step(Run(Step(Run(s0, past), trip.at, trip.ev), wait), now, SafetyStateReachesMux), future)
  {
    hide *;
    InitialSound(s0, start);
    RunProper(s0, past);
    var s := Run(s0, past);
    var l := Step(s, trip.at, trip.ev);
    StepWellSet(s, trip.at, trip.ev);
    StepProper(s, trip.at, trip.ev);
    RunProper(l, wait);
    TripLatches(s, trip.at, trip.ev);
    LatchedRun(l, |s.safetyStateToMux|, wait);
    NoneOlder(Run(l, wait));
    StoppedDeclines(Run(l, wait), now, future);
  }

  lemma NoneOlder(s: System)
    requires Latched(s, 0)
    ensures s.safety.eStop && AllStops(s.safetyStateToMux)
  {
  }

  /** So it is with the emergency-stop service itself: with both nodes in operation and no state message under way,
      the announcement it sends is one that counts. */
  lemma AnnouncementCounts(s: System, now: real)
    requires s.safety.processing && s.safety.publishers == Some(true) && s.safetyStateToMux == []
    requires s.mux.configured && !s.mux.crashed
    ensures TripsStop(s, SafetyInput(Saf.EStop)) && ReadsState(Step(s, now, SafetyInput(Saf.EStop)))
    ensures Older(|s.safetyStateToMux|, []) == 0
  {
  }
}
