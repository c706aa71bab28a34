/** Manual priority: when a stick command holds navigation back, and for how long. */
module MuxPriority {
  import opened Messages
  import opened MuxSpec
  import opened MuxHistory
  import opened Smoothing

  // ----- from the stick to the wheels -----

  /** Event `i` is a non-zero stick command that the multiplexer accepts. */
  predicate StickAt(start: real, evs: Trace, i: nat)
    requires i < |evs|
  {
    evs[i].ev.Teleop? && Accepted(Run(Created(start), evs[..i])) && !IsZero(evs[i].ev.msg)
  }

  predicate ActivatesAt(start: real, evs: Trace, k: nat)
    requires k < |evs|
  {
    Activates(Run(Created(start), evs[..k]), evs[k].ev)
  }

  /** Activation `k` comes no sooner after event `i` than the takeover time. */
  predicate WaitsFor(start: real, evs: Trace, i: nat, k: nat)
    requires i < |evs| && k < |evs|
  {
    evs[k].at - evs[i].at >= Run(Created(start), evs[..k]).cfg.manualTimeout
  }

  /** Every activation after event `i` waits for it. */
  ghost predicate Respected(start: real, evs: Trace, i: nat)
    requires i < |evs|
  {
    forall k: nat :: i < k < |evs| && ActivatesAt(start, evs, k) ==> WaitsFor(start, evs, i, k)
  }

  /** No activation falls within the takeover time of an accepted stick command. */
  ghost predicate Patient(start: real, evs: Trace) {
    forall i: nat :: i < |evs| && StickAt(start, evs, i) ==> Respected(start, evs, i)
  }

  /** While the node is active, a stick command of time `at` is on the timer or has had its takeover time. */
  predicate Honoured(m: Mux, at: real, now: real) {
    m.active ==> at <= m.lastTeleopTime || at + m.cfg.manualTimeout <= now
  }

  lemma HonouredStep(m: Mux, was: real, at: real, e: Timed<Event>)
    requires Reachable(m, was) && was <= e.at && Honoured(m, at, was)
    requires Activates(m, e.ev) ==> e.at - at >= m.cfg.manualTimeout
    ensures Honoured(Step(m, e.at, e.ev).0, at, e.at)
  {
    hide IsZero, FilterTwist;
  }

  lemma StickIsOnTimer(m: Mux, e: Timed<Event>)
    requires e.ev.Teleop? && Accepted(m) && !IsZero(e.ev.msg)
    ensures Honoured(Step(m, e.at, e.ev).0, e.at, e.at)
  {
  }

  lemma SamePast(start: real, evs: Trace, more: Trace, i: nat)
    requires i < |evs|
    ensures (evs + more)[..i] == evs[..i] && (evs + more)[i] == evs[i]
    ensures StickAt(start, evs + more, i) <==> StickAt(start, evs, i)
    ensures ActivatesAt(start, evs + more, i) <==> ActivatesAt(start, evs, i)
  {
    assert (evs + more)[..i] == evs[..i];
  }

  lemma RespectedBefore(start: real, evs: Trace, n: nat, i: nat)
    requires i < n <= |evs| && Respected(start, evs, i)
    ensures Respected(start, evs[..n], i)
  {
    hide Run, Activates;
    forall k: nat | i < k < n && ActivatesAt(start, evs[..n], k) ensures WaitsFor(start, evs[..n], i, k) {
      assert evs[..n][..k] == evs[..k];
      assert ActivatesAt(start, evs, k) && WaitsFor(start, evs, i, k);
    }
  }

  lemma {:induction false} HonouredRun(start: real, evs: Trace, i: nat)
    requires Life(start, evs) && AllSensible(evs) && i < |evs|
    requires StickAt(start, evs, i) && Respected(start, evs, i)
    ensures Honoured(Run(Created(start), evs), evs[i].at, LastTime(start, evs))
  {
    var last := |evs| - 1;
    var before, e := evs[..last], evs[last];
    assert Run(Created(start), evs) == Step(Run(Created(start), before), e.at, e.ev).0;
    hide Step, Reachable, Life;
    if i == last {
      StickIsOnTimer(Run(Created(start), before), e);
    } else {
      LifePrefix(start, evs);
      RunReachable(start, before);
      assert before[..i] == evs[..i];
      RespectedBefore(start, evs, last, i);
      HonouredRun(start, before, i);
      assert ActivatesAt(start, evs, last) ==> WaitsFor(start, evs, i, last);
      HonouredStep(Run(Created(start), before), LastTime(start, before), evs[i].at, e);
    }
  }

  /** A forwarded navigation command is the newest one that reached the arbiter and at most the command timeout
      old, and every stick command ever accepted that later activations have waited for is at least the takeover
      time old; those of the current activation are among them. */
  lemma {:induction false} NavIsFreshAndYields(start: real, evs: Trace, now: real)
    requires Life(start, evs) && AllSensible(evs) && LastTime(start, evs) <= now
    requires RoutesNav(Run(Created(start), evs), now)
    ensures var m := Run(Created(start), evs); var nav := LastNavMessage(Created(start), evs);
            && nav.Some? && nav.value < |evs|
            && evs[nav.value] == Timed(m.lastNavTime, Nav(Step(m, now, ControlTick).0.target))
            && Step(m, now, ControlTick).0.mode == Autonomous
            && now - evs[nav.value].at <= m.cfg.cmdTimeout
    ensures var stick := LastStick(Created(start), evs);
            stick.Some? ==> stick.value < |evs|
                            && now - evs[stick.value].at >= Run(Created(start), evs).cfg.manualTimeout
    ensures forall i: nat :: i < |evs| && StickAt(start, evs, i) && Respected(start, evs, i)
                             ==> now - evs[i].at >= Run(Created(start), evs).cfg.manualTimeout
  {
    History(start, evs);
    RunReachable(start, evs);
    hide LastStick, LastTeleopMessage, LastNavMessage, Run, StickAt, Respected, Life, FilterTwist;
    forall i: nat | i < |evs| && StickAt(start, evs, i) && Respected(start, evs, i)
      ensures now - evs[i].at >= Run(Created(start), evs).cfg.manualTimeout
    {
      HonouredRun(start, evs, i);
    }
  }

  /** No tick after this life routes navigation within the takeover time of any accepted stick command. */
  ghost predicate AlwaysYields(start: real, evs: Trace) {
    forall now: real, i: nat ::
      i < |evs| && LastTime(start, evs) <= now && RoutesNav(Run(Created(start), evs), now) && StickAt(start, evs, i)
      ==> now - evs[i].at >= Run(Created(start), evs).cfg.manualTimeout
  }

  /** A continuation of the life that does not activate the node again. */
  ghost predicate Continues(start: real, evs: Trace, more: Trace) {
    Life(start, evs + more) && AllSensible(evs + more) && forall i :: 0 <= i < |more| ==> !more[i].ev.Activate?
  }

  lemma PatientContinues(start: real, evs: Trace, n: nat, more: Trace)
    requires Patient(start, evs) && n <= |evs| && Continues(start, evs[..n], more)
    ensures AlwaysYields(start, evs[..n] + more)
  {
    var all := evs[..n] + more;
    hide Run, RoutesNav, Life;
    forall now: real, i: nat | i < |all| && LastTime(start, all) <= now
                               && RoutesNav(Run(Created(start), all), now) && StickAt(start, all, i)
      ensures now - all[i].at >= Run(Created(start), all).cfg.manualTimeout
    {
      StaysRespected(start, evs, n, more, i);
      NavIsFreshAndYields(start, all, now);
    }
  }

  lemma StaysRespected(start: real, evs: Trace, n: nat, more: Trace, i: nat)
    requires Patient(start, evs) && n <= |evs| && Continues(start, evs[..n], more)
    requires i < n + |more| && StickAt(start, evs[..n] + more, i)
    ensures Respected(start, evs[..n] + more, i)
  {
    var past, all := evs[..n], evs[..n] + more;
    hide Run, IsZero, Accepted, Life;
    assert forall j :: n <= j < |all| ==> !all[j].ev.Activate?;
    forall k: nat | i < k < |all| && ActivatesAt(start, all, k) ensures WaitsFor(start, all, i, k) {
      SamePast(start, past, more, i);
      SamePast(start, past, more, k);
      SamePast(start, past, evs[n..], i);
      SamePast(start, past, evs[n..], k);
      assert past + evs[n..] == evs;
      assert Respected(start, evs, i) && WaitsFor(start, evs, i, k);
    }
  }

  /** What an activation too soon leads to: the flags cleared and one navigation command at the same instant. */
  function Freed(at: real): Trace {
    [Timed(at, HealthArrives(STATE_SOFTWARE_OK)), Timed(at, SafetyArrives(SAFETY_NORMAL)), Timed(at, Nav(ZERO_TWIST))]
  }

  lemma FreedRoutes(m: Mux, at: real)
    requires m.configured && m.active && !m.crashed && Sensible(m.cfg)
    requires m.lastTeleopTime == at - (m.cfg.manualTimeout + 1.0)
    ensures var n := Run(m, Freed(at)); RoutesNav(n, at) && n.cfg == m.cfg
  {
    var f := Freed(at);
    var none: Trace := [];
    RunExtend(m, none, f[0]);
    RunExtend(m, none + [f[0]], f[1]);
    RunExtend(m, none + [f[0]] + [f[1]], f[2]);
    assert none + [f[0]] + [f[1]] + [f[2]] == f;
  }

  lemma {:induction false} RunConcat(m: Mux, evs: Trace, more: Trace)
    ensures Run(m, evs + more) == Run(Run(m, evs), more)
  {
    if more == [] {
      assert evs + more == evs;
    } else {
      var last := |more| - 1;
      RunConcat(m, evs, more[..last]);
      RunExtend(m, evs + more[..last], more[last]);
      assert evs + more[..last] + [more[last]] == evs + more;
      assert (evs + more)[..|evs + more| - 1] == evs + more[..last];
    }
  }

  /** Activation forgets the stick: after any activation within the takeover time of an accepted stick command
      there is a continuation in which navigation is routed inside that command's window. */
  lemma ActivationForgetsStick(start: real, evs: Trace, i: nat, k: nat)
    requires Life(start, evs) && AllSensible(evs) && i < k < |evs|
    requires StickAt(start, evs, i) && ActivatesAt(start, evs, k) && !WaitsFor(start, evs, i, k)
    ensures Continues(start, evs[..k + 1], Freed(evs[k].at))
    ensures !AlwaysYields(start, evs[..k + 1] + Freed(evs[k].at))
  {
    var past, at, more := evs[..k + 1], evs[k].at, Freed(evs[k].at);
    var was, all := Run(Created(start), evs[..k]), evs[..k + 1] + more;
    FreedContinues(start, evs, k);
    ConfigIsSensible(start, evs, k);
    assert past[..k] == evs[..k];
    assert Run(Created(start), past) == Step(was, at, evs[k].ev).0 == ActivateStep(was, at);
    RunConcat(Created(start), past, more);
    FreedRoutes(ActivateStep(was, at), at);
    SamePast(start, past, more, i);
    assert past[..i] == evs[..i] && StickAt(start, past, i);
    hide Run, StickAt, RoutesNav, Life, Freed;
    assert LastTime(start, all) == at && RoutesNav(Run(Created(start), all), at) && StickAt(start, all, i);
  }

  lemma FreedContinues(start: real, evs: Trace, k: nat)
    requires Life(start, evs) && AllSensible(evs) && k < |evs|
    ensures Continues(start, evs[..k + 1], Freed(evs[k].at))
    ensures LastTime(start, evs[..k + 1] + Freed(evs[k].at)) == evs[k].at
  {
  }

  lemma ConfigIsSensible(start: real, evs: Trace, k: nat)
    requires Life(start, evs) && AllSensible(evs) && k < |evs|
    ensures Sensible(Run(Created(start), evs[..k]).cfg)
  {
    RunReachable(start, evs[..k]);
  }

  /** Manual priority, exactly: whatever point of a life is continued without another activation, navigation is
      never routed within the takeover time of an accepted stick command, however long ago the node was activated,
      if and only if no activation of the life falls within the takeover time of one. */
  lemma {:induction false} ManualPriorityIff(start: real, evs: Trace)
    requires Life(start, evs) && AllSensible(evs)
    ensures (forall n: nat, more: Trace :: n <= |evs| && Continues(start, evs[..n], more)
                                           ==> AlwaysYields(start, evs[..n] + more))
            <==> Patient(start, evs)
  {
    hide Run, StickAt, ActivatesAt, WaitsFor, Continues, AlwaysYields, Life, Freed;
    if Patient(start, evs) {
      forall n: nat, more: Trace | n <= |evs| && Continues(start, evs[..n], more)
        ensures AlwaysYields(start, evs[..n] + more)
      {
        PatientContinues(start, evs, n, more);
      }
    } else {
      var i: nat :| i < |evs| && StickAt(start, evs, i) && !Respected(start, evs, i);
      var k: nat :| i < k < |evs| && ActivatesAt(start, evs, k) && !WaitsFor(start, evs, i, k);
      ActivationForgetsStick(start, evs, i, k);
      assert Continues(start, evs[..k + 1], Freed(evs[k].at));
    }
  }

  /** Impatient lives exist under every configuration with a takeover time. */
  lemma ImpatientLife(cfg: Config) returns (evs: Trace)
    requires Sensible(cfg) && 0.0 < cfg.manualTimeout
    ensures Life(0.0, evs) && AllSensible(evs) && !Patient(0.0, evs)
  {
    PushIsCommand();
    var e0, e1 := Timed(0.0, Configure(cfg)), Timed(0.0, Teleop(PUSH, true));
    var e2, e3 := Timed(0.0, Activate), Timed(0.0, Nav(ZERO_TWIST));
    evs := [e0, e1, e2, e3];
    hide FilterTwist, IsZero;
    var three := FourEvents(Created(0.0), e0, e1, e2, e3);
    assert evs[..1] == [e0] && evs[..2] == [e0, e1];
    assert StickAt(0.0, evs, 1) && ActivatesAt(0.0, evs, 2) && !WaitsFor(0.0, evs, 1, 2);
  }

  // ----- the states -----

  /** The takeover time has passed since the stick time, if navigation drives. */
  predicate StateYields(m: Mux, now: real) {
    m.mode == Autonomous ==> now - m.lastTeleopTime >= m.cfg.manualTimeout
  }

  /** Manual priority as an invariant of the active states. */
  lemma {:induction false} ManualPriority(start: real, evs: Trace, now: real)
    requires Life(start, evs) && AllSensible(evs) && LastTime(start, evs) <= now
    ensures Run(Created(start), evs).active ==> StateYields(Run(Created(start), evs), now)
  {
    RunReachable(start, evs);
  }

  /** Navigation took control outside the takeover window, whether or not the node is active. */
  predicate Yields(m: Mux, takeover: real) {
    && (m.configured || m.mode == Autonomous ==> m.cfg.manualTimeout == takeover)
    && (m.mode == Autonomous ==> m.lastNavTime >= m.lastTeleopTime + takeover)
  }

  lemma YieldsStep(m: Mux, was: real, now: real, ev: Event, takeover: real)
    requires Reachable(m, was) && was <= now && Yields(m, takeover)
    requires ev.Configure? ==> ev.cfg.manualTimeout == takeover
    ensures Yields(Step(m, now, ev).0, takeover)
  {
    hide FilterTwist, IsZero;
  }

  ghost predicate OneTakeover(cfgs: iset<Config>) {
    forall a, b :: a in cfgs && b in cfgs ==> a.manualTimeout == b.manualTimeout
  }

  lemma {:induction false} YieldsRun(cfgs: iset<Config>, start: real, evs: Trace, cfg: Config)
    requires AreSensible(cfgs) && OneTakeover(cfgs) && cfg in cfgs && LifeWith(cfgs, start, evs)
    ensures Yields(Run(Created(start), evs), cfg.manualTimeout)
  {
    if evs != [] {
      var before, e := evs[..|evs| - 1], evs[|evs| - 1];
      LifeWithPrefix(cfgs, start, evs);
      YieldsRun(cfgs, start, before, cfg);
      RunReachable(start, before);
      assert e.ev.Configure? ==> e.ev.cfg in cfgs;
      hide Reachable, Yields, Step, Life;
      YieldsStep(Run(Created(start), before), LastTime(start, before), e.at, e.ev, cfg.manualTimeout);
    }
  }

  /** Over all reconfigurations within a set, every reachable state yields, inactive ones included, exactly when
      all the configurations have the same takeover time. */
  lemma {:induction false} StateYieldsIff(cfgs: iset<Config>)
    requires AreSensible(cfgs)
    ensures (forall start, evs, now :: LifeWith(cfgs, start, evs) && LastTime(start, evs) <= now
                                       ==> StateYields(Run(Created(start), evs), now))
            <==> OneTakeover(cfgs)
  {
    hide LifeWith, Run, Life;
    if OneTakeover(cfgs) {
      forall start, evs, now | LifeWith(cfgs, start, evs) && LastTime(start, evs) <= now
        ensures StateYields(Run(Created(start), evs), now)
      {
        OneTakeoverYields(cfgs, start, evs, now);
      }
    } else {
      var a, b :| a in cfgs && b in cfgs && a.manualTimeout < b.manualTimeout;
      var evs := ReconfiguredPriority(a, b);
      LifeAmongTwo(cfgs, a, b, evs);
      assert !StateYields(Run(Created(0.0), evs), LastTime(0.0, evs));
    }
  }

  lemma OneTakeoverYields(cfgs: iset<Config>, start: real, evs: Trace, now: real)
    requires AreSensible(cfgs) && OneTakeover(cfgs) && LifeWith(cfgs, start, evs) && LastTime(start, evs) <= now
    ensures StateYields(Run(Created(start), evs), now)
  {
    RunReachable(start, evs);
    if cfg :| cfg in cfgs {
      YieldsRun(cfgs, start, evs, cfg);
    } else {
      NeverConfigured(cfgs, start, evs);
    }
  }

  lemma {:induction false} NeverConfigured(cfgs: iset<Config>, start: real, evs: Trace)
    requires LifeWith(cfgs, start, evs) && forall cfg :: cfg !in cfgs
    ensures Run(Created(start), evs) == Created(start)
  {
    if evs != [] {
      LifeWithPrefix(cfgs, start, evs);
      NeverConfigured(cfgs, start, evs[..|evs| - 1]);
      assert !evs[|evs| - 1].ev.Configure?;
    }
  }

  lemma LifeAmongTwo(cfgs: iset<Config>, a: Config, b: Config, evs: Trace)
    requires a in cfgs && b in cfgs && LifeWith(iset{a, b}, 0.0, evs)
    ensures LifeWith(cfgs, 0.0, evs)
  {
  }

  /** Navigation may take over an inactive node, and a reconfiguration then lengthens the takeover time it had
      respected. */
  lemma ReconfiguredPriority(short: Config, long: Config) returns (evs: Trace)
    requires Sensible(short) && Sensible(long) && short.manualTimeout < long.manualTimeout
    ensures LifeWith(iset{short, long}, 0.0, evs)
    ensures !StateYields(Run(Created(0.0), evs), LastTime(0.0, evs))
  {
    var t := short.manualTimeout;
    var e0, e1 := Timed(0.0, Configure(short)), Timed(t, Nav(ZERO_TWIST));
    var e2, e3 := Timed(t, Cleanup), Timed(t, Configure(long));
    evs := [e0, e1, e2, e3];
    var three := FourEvents(Created(0.0), e0, e1, e2, e3);
  }
}
