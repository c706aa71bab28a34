/** The emergency-stop latch and the contactors over whole runs of the safety node. */
module SafetyLatch {
  import opened Messages
  import opened SafetySpec

  // ----- the latch -----

  /** Nothing in this output moves the robot, powers it, or claims it is well. */
  predicate Harmless(out: Output) {
    && (forall i :: 0 <= i < |out.motor| ==> out.motor[i] == ZERO_TWIST)
    && (forall i :: 0 <= i < |out.contactor| ==> !out.contactor[i])
    && (forall i :: 0 <= i < |out.states| ==> out.states[i] == SAFETY_EMERGENCY)
  }

  /** A step that trips the emergency stop: the service, an FDIR emergency, or motion in a soft stop. */
  predicate Trips(s: Safety, ev: Event) {
    && s.processing && s.publishers.Some?
    && match ev
       case EStop => true
       case Health(state) => state == STATE_EMERGENCY
       case Odom(x, y) => s.mode == ProtectiveStop && FasterThan(x, y, 0.05)
       case _ => false
  }

  /** The latch is set by exactly the three triggers and cleared by nothing but the reset service; while it
      is set, and at the moment it is set, every output is harmless. */
  lemma LatchStep(s: Safety, ev: Event)
    ensures var (t, out) := Step(s, ev);
            && (!s.eStop ==> (t.eStop <==> Trips(s, ev)))
            && (s.eStop && ev != Reset ==> t.eStop)
            && (t.eStop ==> Harmless(out))
  {
    match ev
    case Health(state) => LatchHealth(s, state);
    case _ =>
  }

  lemma LatchHealth(s: Safety, state: uint8)
    ensures var (t, out) := HealthStep(s, state);
            && (!s.eStop ==> (t.eStop <==> s.processing && state == STATE_EMERGENCY))
            && (s.eStop ==> t.eStop)
            && (t.eStop ==> Harmless(out))
  {
  }

  predicate NoReset(evs: Trace) {
    forall i :: 0 <= i < |evs| ==> evs[i] != Reset
  }

  /** From any trigger until the next reset, over every sequence of callbacks and lifecycle transitions, the
      latch holds and each output is harmless. */
  lemma LatchHolds(s: Safety, trigger: Event, evs: Trace, n: nat)
    requires Trips(s, trigger) && NoReset(evs) && n < |evs|
    ensures Harmless(Step(s, trigger).1)
    ensures var t := Run(Step(s, trigger).0, evs[..n]);
            t.eStop && Harmless(Step(t, evs[n]).1) && Step(t, evs[n]).0.eStop
  {
    LatchStep(s, trigger);
    LatchRun(Step(s, trigger).0, evs[..n]);
    LatchStep(Run(Step(s, trigger).0, evs[..n]), evs[n]);
  }

  lemma {:induction false} LatchRun(s: Safety, evs: Trace)
    requires s.eStop && NoReset(evs)
    ensures Run(s, evs).eStop
  {
    if evs != [] {
      LatchRun(s, evs[..|evs| - 1]);
      LatchStep(Run(s, evs[..|evs| - 1]), evs[|evs| - 1]);
    }
  }

  /** A reset request that a service is there to take. */
  predicate ServedReset(s: Safety, ev: Event) {
    ev == Reset && s.publishers.Some?
  }

  /** Exactly what a step leaves latched; and contactors believed closed exclude the latch. */
  lemma LatchAfter(s: Safety, ev: Event)
    ensures Step(s, ev).0.eStop <==> Trips(s, ev) || (s.eStop && !ServedReset(s, ev))
    ensures (s.closed ==> !s.eStop) ==> (Step(s, ev).0.closed ==> !Step(s, ev).0.eStop)
  {
    LatchStep(s, ev);
    if ev.Health? {
      ClosedHealth(s, ev.state);
      hide HealthStep;
    }
  }

  lemma ClosedHealth(s: Safety, state: uint8)
    ensures var t := HealthStep(s, state).0; (s.closed ==> !s.eStop) ==> (t.closed ==> !t.eStop)
  {
  }

  predicate TripsAt(evs: Trace, i: nat)
    requires i < |evs|
  {
    Trips(Run(Created(), evs[..i]), evs[i])
  }

  predicate ResetAt(evs: Trace, i: nat)
    requires i < |evs|
  {
    ServedReset(Run(Created(), evs[..i]), evs[i])
  }

  /** Event `i` trips the emergency stop and no served reset follows. */
  ghost predicate LastTrip(evs: Trace, i: nat)
    requires i < |evs|
  {
    TripsAt(evs, i) && forall j: nat :: i < j < |evs| ==> !ResetAt(evs, j)
  }

  lemma SameHistory(evs: Trace, n: nat, i: nat)
    requires i < n <= |evs|
    ensures TripsAt(evs[..n], i) <==> TripsAt(evs, i)
    ensures ResetAt(evs[..n], i) <==> ResetAt(evs, i)
  {
    hide Run, Trips;
    assert evs[..n][..i] == evs[..i];
  }

  lemma LastTripExtends(evs: Trace, i: nat)
    requires i < |evs| - 1
    ensures LastTrip(evs, i) <==> LastTrip(evs[..|evs| - 1], i) && !ResetAt(evs, |evs| - 1)
  {
    hide TripsAt, ResetAt;
    var n := |evs| - 1;
    forall j: nat | j < n
      ensures TripsAt(evs[..n], j) <==> TripsAt(evs, j)
      ensures ResetAt(evs[..n], j) <==> ResetAt(evs, j)
    {
      SameHistory(evs, n, j);
    }
  }

  /** In every run the node is latched exactly when the last trip or served reset was a trip. */
  lemma {:induction false} LatchedIff(evs: Trace)
    ensures Run(Created(), evs).eStop <==> exists i: nat :: i < |evs| && LastTrip(evs, i)
  {
    if evs != [] {
      var n := |evs| - 1;
      LatchedIff(evs[..n]);
      LatchAfter(Run(Created(), evs[..n]), evs[n]);
      assert Run(Created(), evs) == Step(Run(Created(), evs[..n]), evs[n]).0;
      assert TripsAt(evs, n) <==> Trips(Run(Created(), evs[..n]), evs[n]);
      assert ResetAt(evs, n) <==> ServedReset(Run(Created(), evs[..n]), evs[n]);
      assert TripsAt(evs, n) ==> !ResetAt(evs, n) && LastTrip(evs, n);
      hide Run, Step, Trips, ServedReset, LastTrip, TripsAt, ResetAt;
      if i: nat :| i < n && LastTrip(evs[..n], i) { LastTripExtends(evs, i); }
      if i: nat :| i < |evs| && LastTrip(evs, i) { LastTripIsTrip(evs, i); }
    }
  }

  lemma LastTripIsTrip(evs: Trace, i: nat)
    requires i < |evs| && LastTrip(evs, i)
    ensures i == |evs| - 1 ==> TripsAt(evs, i)
    ensures i < |evs| - 1 ==> LastTrip(evs[..|evs| - 1], i) && !ResetAt(evs, |evs| - 1)
  {
    if i < |evs| - 1 { LastTripExtends(evs, i); }
  }

  /** The latch guards the outputs, not the mode: while it holds, a health message leaves every mode as it is
      exactly when it is SOFTWARE_OK or unknown, and any other one replaces the mode whatever it was. */
  lemma ModeIsOverwritten(s: Safety, state: uint8)
    requires s.eStop && s.processing && s.publishers.Some?
    ensures (forall mode: Mode :: HeardIn(s, mode, state) == mode)
            <==> state == STATE_SOFTWARE_OK || state > STATE_EMERGENCY
    ensures state != STATE_SOFTWARE_OK && state <= STATE_EMERGENCY
            ==> forall mode: Mode :: HeardIn(s, mode, state) == HeardIn(s, s.mode, state)
    ensures HeardIn(s, s.mode, STATE_DEGRADED) == Degraded
    ensures HeardIn(s, s.mode, STATE_SYSTEM_STARTUP) == ProtectiveStop
    ensures Step(s, Health(state)).0.eStop
  {
    forall mode: Mode
      ensures state == STATE_SOFTWARE_OK || state > STATE_EMERGENCY ==> HeardIn(s, mode, state) == mode
      ensures state != STATE_SOFTWARE_OK && state <= STATE_EMERGENCY
              ==> HeardIn(s, mode, state) == HeardIn(s, s.mode, state)
    {
    }
    assert HeardIn(s, Normal, state) == Normal && HeardIn(s, Degraded, state) == Degraded
           ==> state == STATE_SOFTWARE_OK || state > STATE_EMERGENCY;
    LatchStep(s, Health(state));
  }

  /** The mode after this health message, had the mode been `mode` before it. */
  function HeardIn(s: Safety, mode: Mode, state: uint8): Mode {
    Step(s.(mode := mode), Health(state)).0.mode
  }

  // ----- the contactors -----

  /** The hardware was last told to close only if the node believes the contactors closed, it believes so only
      without an emergency stop, and its publisher to the hardware is then activated. Whether anything still makes
      it publish is another matter: after a shutdown nothing does. */
  predicate Chain(s: Safety, last: bool) {
    && (last ==> s.closed)
    && (s.closed ==> !s.eStop)
    && (s.mode == Emergency ==> s.eStop)
    && (last ==> Publishing(s))
  }

  /** Unlatched health messages decide the power: after an accepted one the contactors are closed exactly when
      there is no emergency stop and the message is a known one that permits power, and motion is halted exactly
      when there is an emergency stop or the message asks for a halt, an unknown message changing nothing. */
  lemma HealthDecides(s: Safety, last: bool, state: uint8)
    requires Chain(s, last) && s.processing && s.publishers.Some?
    ensures var t := Step(s, Health(state)).0;
            && (t.eStop <==> s.eStop || state == STATE_EMERGENCY)
            && (t.closed <==> !t.eStop && PermitsPower(state))
            && (!t.eStop && state <= STATE_EMERGENCY ==>
                  (Halted(t) <==> state == STATE_SYSTEM_STARTUP || state == STATE_PROTECTIVE_STOP)
                  && (SpeedLimit(t) == if state == STATE_DEGRADED || state == STATE_RECONFIGURED
                                       then s.maxDegraded else s.maxNormal))
            && (state > STATE_EMERGENCY ==> t.mode == s.mode)
  {
  }

  /** What the hardware was last told; contactors start out open. */
  function LastTold(log: seq<bool>): bool {
    log != [] && log[|log| - 1]
  }

  /** Reconfiguring after an error, while the hardware holds the contactors closed, drops the line to it. */
  predicate Strands(s: Safety, last: bool, ev: Event) {
    ev.Configure? && s.stage == Unconfigured && last
  }

  /** A step keeps the chain exactly when it is not such a reconfiguration. */
  lemma ChainStep(s: Safety, last: bool, ev: Event)
    requires Chain(s, last)
    ensures var (t, out) := Step(s, ev);
            Chain(t, if out.contactor == [] then last else LastTold(out.contactor)) <==> !Strands(s, last, ev)
  {
    match ev
    case Health(state) => ChainHealth(s, last, state);
    case _ =>
  }

  lemma ChainHealth(s: Safety, last: bool, state: uint8)
    requires Chain(s, last)
    ensures var (t, out) := HealthStep(s, state);
            Chain(t, if out.contactor == [] then last else LastTold(out.contactor))
  {
  }

  lemma LastToldAppend(log: seq<bool>, more: seq<bool>)
    ensures LastTold(log + more) == if more == [] then LastTold(log) else LastTold(more)
  {
    if more == [] { assert log + more == log; }
  }

  ghost predicate NeverStrands(evs: Trace) {
    forall i: nat :: i < |evs|
                     ==> !Strands(Run(Created(), evs[..i]), LastTold(ContactorLog(Created(), evs[..i])), evs[i])
  }

  /** The chain holds in every state reachable without a stranding reconfiguration. */
  lemma {:induction false} ChainRun(evs: Trace)
    requires NeverStrands(evs)
    ensures Chain(Run(Created(), evs), LastTold(ContactorLog(Created(), evs)))
  {
    if evs != [] {
      var last := |evs| - 1;
      assert NeverStrands(evs[..last]) by {
        assert forall i: nat :: i < last ==> evs[..last][..i] == evs[..i];
      }
      ChainRun(evs[..last]);
      hide Chain, Step, Strands;
      var s := Run(Created(), evs[..last]);
      ChainStep(s, LastTold(ContactorLog(Created(), evs[..last])), evs[last]);
      LastToldAppend(ContactorLog(Created(), evs[..last]), Step(s, evs[last]).1.contactor);
    }
  }

  lemma NeverStrandsPrefix(evs: Trace, n: nat)
    requires NeverStrands(evs) && n <= |evs|
    ensures NeverStrands(evs[..n])
  {
    hide Strands;
    assert forall i: nat :: i < n ==> evs[..n][..i] == evs[..i];
  }

  predicate ChainAfter(evs: Trace, n: nat)
    requires n <= |evs|
  {
    Chain(Run(Created(), evs[..n]), LastTold(ContactorLog(Created(), evs[..n])))
  }

  /** The chain holds throughout a run exactly when none of its reconfigurations strands the contactors. */
  lemma {:induction false} ChainIffNeverStrands(evs: Trace)
    ensures (forall n: nat :: n <= |evs| ==> ChainAfter(evs, n)) <==> NeverStrands(evs)
  {
    hide Run, ContactorLog, Chain, Strands;
    if NeverStrands(evs) {
      forall n: nat | n <= |evs| ensures ChainAfter(evs, n) {
        NeverStrandsPrefix(evs, n);
        ChainRun(evs[..n]);
      }
    } else if forall n: nat :: n <= |evs| ==> ChainAfter(evs, n) {
      forall i: nat | i < |evs|
        ensures !Strands(Run(Created(), evs[..i]), LastTold(ContactorLog(Created(), evs[..i])), evs[i])
      {
        assert ChainAfter(evs, i) && ChainAfter(evs, i + 1);
        ChainKeptMeansNotStranded(evs, i);
      }
    }
  }

  lemma ChainKeptMeansNotStranded(evs: Trace, i: nat)
    requires i < |evs| && ChainAfter(evs, i) && ChainAfter(evs, i + 1)
    ensures !Strands(Run(Created(), evs[..i]), LastTold(ContactorLog(Created(), evs[..i])), evs[i])
  {
    assert evs[..i + 1] == evs[..i] + [evs[i]];
    RunExtend(Created(), evs[..i], evs[i]);
    var s, log := Run(Created(), evs[..i]), ContactorLog(Created(), evs[..i]);
    hide Run, ContactorLog, Chain, Strands, Step;
    ChainStep(s, LastTold(log), evs[i]);
    LastToldAppend(log, Step(s, evs[i]).1.contactor);
  }

  /** In particular it always holds when no lifecycle transition fails. */
  lemma {:induction false} ChainWithoutErrors(evs: Trace)
    requires Error !in evs
    ensures Chain(Run(Created(), evs), LastTold(ContactorLog(Created(), evs)))
    ensures var s := Run(Created(), evs);
            (s.stage == Unconfigured ==> s.publishers == None) && (s.stage == Inactive ==> !Publishing(s))
  {
    if evs != [] {
      var last := |evs| - 1;
      ChainWithoutErrors(evs[..last]);
      var s := Run(Created(), evs[..last]);
      var told := LastTold(ContactorLog(Created(), evs[..last]));
      ChainStep(s, told, evs[last]);
      LastToldAppend(ContactorLog(Created(), evs[..last]), Step(s, evs[last]).1.contactor);
      StageStep(s, evs[last]);
      assert !Strands(s, told, evs[last]);
      hide Chain, Step, Strands;
    }
  }

  lemma StageStep(s: Safety, ev: Event)
    requires (s.stage == Unconfigured ==> s.publishers == None) && (s.stage == Inactive ==> !Publishing(s))
    requires ev != Error
    ensures var t := Step(s, ev).0;
            (t.stage == Unconfigured ==> t.publishers == None) && (t.stage == Inactive ==> !Publishing(t))
  {
  }

  /** With a lifecycle error it can break: after an error in operation, which the lifecycle framework may raise
      though no handler of this node reports one, the reset service still powers the robot, and a reconfiguration
      then leaves the contactors closed with nobody to open them. */
  lemma {:induction false} StrandedContactors() returns (evs: Trace)
    ensures var s, log := Run(Created(), evs), ContactorLog(Created(), evs);
            LastTold(log) && !s.closed && s.publishers == None && !Chain(s, LastTold(log))
  {
    var s: Safety;
    evs, s := LatchedThenError();
    hide Run, ContactorLog;
    evs := After(evs, s, [], Reset);
    s := s.(eStop := false, mode := Normal, closed := true);
    evs := After(evs, s, [true], Configure(1.0, 0.3));
    s := s.(stage := Inactive, publishers := Some(false));
    evs := After(evs, s, [true], Cleanup);
  }

  lemma LatchedThenError() returns (evs: Trace, s: Safety)
    ensures Run(Created(), evs) == s && ContactorLog(Created(), evs) == []
    ensures s == Safety(Emergency, 255, MUX_IDLE, true, false, false, 1.0, 0.3, Unconfigured, Some(true))
  {
    NothingYet();
    hide Run, ContactorLog;
    evs := After([], Created(), [], Configure(1.0, 0.3));
    s := Created().(maxNormal := 1.0, maxDegraded := 0.3, stage := Inactive, publishers := Some(false));
    evs := After(evs, s, [], Activate);
    s := s.(processing := true, stage := Active, publishers := Some(true));
    evs := After(evs, s, [], EStop);
    s := s.(eStop := true, mode := Emergency);
    evs := After(evs, s, [], Error);
    s := s.(processing := false, stage := Unconfigured);
  }

  lemma NothingYet()
    ensures Run(Created(), []) == Created() && ContactorLog(Created(), []) == []
  {
  }

  lemma After(evs: Trace, s: Safety, log: seq<bool>, ev: Event) returns (evs': Trace)
    requires Run(Created(), evs) == s && ContactorLog(Created(), evs) == log
    ensures evs' == evs + [ev] && Run(Created(), evs') == Step(s, ev).0
    ensures ContactorLog(Created(), evs') == log + Step(s, ev).1.contactor
  {
    evs' := evs + [ev];
    RunExtend(Created(), evs, ev);
  }
}
