/** The undefined-state exception in the composed system. */
module SystemException {
  import opened Messages
  import opened SystemSpec
  import opened MuxException
  import Mux = MuxSpec
  import Saf = SafetySpec
  import Mon = MonitorSpec
  import MuxHistory
  import StopLatch
  import Lockout
  import Degradation
  import EndToEnd
  import Smoothing

  // ----- the multiplexer within the system -----

  /** What the multiplexer is fed in a run of the system, and when. */
  ghost function MuxTrace(s: System, evs: Trace): Mux.Trace {
    if evs == [] then [] else
    var before, e := evs[..|evs| - 1], evs[|evs| - 1];
    MuxTrace(s, before) + Fed(Run(s, before), e)
  }

  function Fed(s: System, e: Timed<Event>): Mux.Trace {
    match MuxFeed(s, e.ev)
    case None => []
    case Some(f) => [Timed(e.at, f)]
  }

  lemma MuxStepAlone(s: System, m: Mux.Mux, evs: Mux.Trace, e: Timed<Event>)
    requires s.mux == Mux.Run(m, evs)
    ensures Step(s, e.at, e.ev).mux == Mux.Run(m, evs + Fed(s, e))
  {
    StepParts(s, e.at, e.ev);
    hide Step, Mux.Step;
    match MuxFeed(s, e.ev)
    case None => assert evs + Fed(s, e) == evs;
    case Some(f) => Mux.RunExtend(m, evs, Timed(e.at, f));
  }

  /** Within the system the multiplexer runs as it does alone on what it is fed. */
  lemma {:induction false} MuxRun(s: System, evs: Trace)
    ensures Run(s, evs).mux == Mux.Run(s.mux, MuxTrace(s, evs))
  {
    if evs != [] {
      var before, e := evs[..|evs| - 1], evs[|evs| - 1];
      assert Run(s, evs) == Step(Run(s, before), e.at, e.ev);
      assert MuxTrace(s, evs) == MuxTrace(s, before) + Fed(Run(s, before), e);
      hide *;
      MuxRun(s, before);
      MuxStepAlone(Run(s, before), s.mux, MuxTrace(s, before), e);
    }
  }

  /** A life of the system in which the multiplexer is only configured from `cfgs`. */
  ghost predicate SystemLife(cfgs: iset<Mux.Config>, s: System, start: real, evs: Trace) {
    && Initial(s, start) && AllPermitted(evs) && InOrder(evs) && (evs != [] ==> start <= evs[0].at)
    && forall i :: 0 <= i < |evs| ==> ConfiguresFrom(cfgs, evs[i].ev)
  }

  ghost predicate ConfiguresFrom(cfgs: iset<Mux.Config>, ev: Event) {
    ev.MuxInput? && ev.mux.Configure? ==> ev.mux.cfg in cfgs
  }

  lemma SystemLifeBefore(cfgs: iset<Mux.Config>, s: System, start: real, evs: Trace)
    requires SystemLife(cfgs, s, start, evs) && evs != []
    ensures SystemLife(cfgs, s, start, evs[..|evs| - 1])
    ensures LastTime(start, evs[..|evs| - 1]) <= evs[|evs| - 1].at && start <= evs[|evs| - 1].at
    ensures ConfiguresFrom(cfgs, evs[|evs| - 1].ev) && Permitted(evs[|evs| - 1].ev)
  {
    hide Initial, Permitted, ConfiguresFrom;
    assert |evs| > 1 ==> evs[|evs| - 2].at <= evs[|evs| - 1].at && evs[0].at <= evs[|evs| - 1].at;
  }

  lemma LifeGrows(cfgs: iset<Mux.Config>, start: real, evs: Mux.Trace, e: Timed<Mux.Event>)
    requires Mux.LifeWith(cfgs, start, evs) && LastTime(start, evs) <= e.at && start <= e.at
    requires e.ev.Configure? ==> e.ev.cfg in cfgs
    ensures Mux.LifeWith(cfgs, start, evs + [e])
  {
    assert evs != [] ==> forall i :: 0 <= i < |evs| ==> evs[i].at <= evs[|evs| - 1].at;
  }

  lemma {:induction false} TraceIsLife(cfgs: iset<Mux.Config>, s: System, start: real, evs: Trace)
    requires SystemLife(cfgs, s, start, evs)
    ensures Mux.LifeWith(cfgs, start, MuxTrace(s, evs))
    ensures LastTime(start, MuxTrace(s, evs)) <= LastTime(start, evs)
  {
    if evs != [] {
      var before, e := evs[..|evs| - 1], evs[|evs| - 1];
      var u := Run(s, before);
      assert MuxTrace(s, evs) == MuxTrace(s, before) + Fed(u, e);
      hide Run, MuxTrace, Mux.LifeWith;
      SystemLifeBefore(cfgs, s, start, evs);
      TraceIsLife(cfgs, s, start, before);
      hide SystemLife;
      match MuxFeed(u, e.ev)
      case None => assert MuxTrace(s, before) + Fed(u, e) == MuxTrace(s, before);
      case Some(f) => LifeGrows(cfgs, start, MuxTrace(s, before), Timed(e.at, f));
    }
  }

  // ----- crashing lives of the system -----

  /** The system with no components, at time zero. */
  function Empty(): System {
    System(map[], Mux.Created(0.0), Saf.Created(), [], [], [], [], [], [], [], [])
  }

  /** A life of the empty system told so far: its state messages, its safety node, and what was fed. */
  ghost predicate Told(cfgs: iset<Mux.Config>, evs: Trace, q: seq<uint8>, f: Saf.Safety, fed: Mux.Trace) {
    && SystemLife(cfgs, Empty(), 0.0, evs)
    && Run(Empty(), evs).safetyStateToMux == q && Run(Empty(), evs).safety == f && MuxTrace(Empty(), evs) == fed
  }

  lemma RunOne(s: System, evs: Trace, e: Timed<Event>)
    ensures Run(s, evs + [e]) == Step(Run(s, evs), e.at, e.ev)
    ensures MuxTrace(s, evs + [e]) == MuxTrace(s, evs) + Fed(Run(s, evs), e)
  {
    assert (evs + [e])[..|evs|] == evs;
  }

  lemma SystemLifeGrows(cfgs: iset<Mux.Config>, s: System, start: real, evs: Trace, e: Timed<Event>)
    requires SystemLife(cfgs, s, start, evs) && LastTime(start, evs) <= e.at && start <= e.at
    requires Permitted(e.ev) && ConfiguresFrom(cfgs, e.ev)
    ensures SystemLife(cfgs, s, start, evs + [e])
  {
    hide Initial, Permitted, ConfiguresFrom;
    assert evs != [] ==> forall i :: 0 <= i < |evs| ==> evs[i].at <= evs[|evs| - 1].at;
  }

  /** A command, a tick or a transition of the multiplexer. */
  lemma TellMux(cfgs: iset<Mux.Config>, evs: Trace, q: seq<uint8>, f: Saf.Safety, fed: Mux.Trace,
                at: real, ev: Mux.Event) returns (evs': Trace)
    requires Told(cfgs, evs, q, f, fed) && LastTime(0.0, evs) <= at && 0.0 <= at
    requires !ev.HealthArrives? && !ev.SafetyArrives? && (ev.Configure? ==> Mux.Sensible(ev.cfg) && ev.cfg in cfgs)
    ensures Told(cfgs, evs', q, f, fed + [Timed(at, ev)]) && LastTime(0.0, evs') == at
  {
    var e := Timed(at, MuxInput(ev));
    evs' := evs + [e];
    RunOne(Empty(), evs, e);
    SystemLifeGrows(cfgs, Empty(), 0.0, evs, e);
    StopLatch.StateQueue(Run(Empty(), evs), at, e.ev);
    StepParts(Run(Empty(), evs), at, e.ev);
    hide SystemLife, Run, MuxTrace, Step, Mux.Step, SentBy;
  }

  lemma SafetyEvent(s: System, at: real, ev: Saf.Event)
    ensures var t := Step(s, at, SafetyInput(ev));
            && t.safety == Saf.Step(s.safety, ev).0
            && t.safetyStateToMux == s.safetyStateToMux + Saf.Step(s.safety, ev).1.states
    ensures Fed(s, Timed(at, SafetyInput(ev))) == []
  {
    hide Saf.Step;
  }

  /** An event of the safety node. */
  lemma TellSafety(cfgs: iset<Mux.Config>, evs: Trace, q: seq<uint8>, f: Saf.Safety, fed: Mux.Trace,
                   at: real, ev: Saf.Event) returns (evs': Trace)
    requires Told(cfgs, evs, q, f, fed) && LastTime(0.0, evs) <= at && 0.0 <= at && Permitted(SafetyInput(ev))
    ensures Told(cfgs, evs', q + Saf.Step(f, ev).1.states, Saf.Step(f, ev).0, fed) && LastTime(0.0, evs') == at
  {
    hide SystemLife, Run, MuxTrace, Step, Saf.Step, Fed, Permitted;
    var e := Timed(at, SafetyInput(ev));
    evs' := evs + [e];
    RunOne(Empty(), evs, e);
    SystemLifeGrows(cfgs, Empty(), 0.0, evs, e);
    SafetyEvent(Run(Empty(), evs), at, ev);
    assert fed + [] == fed;
  }

  /** A state message reaches the multiplexer. */
  lemma TellArrival(cfgs: iset<Mux.Config>, evs: Trace, q: seq<uint8>, f: Saf.Safety, fed: Mux.Trace, at: real)
    returns (evs': Trace)
    requires Told(cfgs, evs, q, f, fed) && q != [] && LastTime(0.0, evs) <= at && 0.0 <= at
    ensures Told(cfgs, evs', q[1..], f, fed + [Timed(at, Mux.SafetyArrives(q[0]))]) && LastTime(0.0, evs') == at
  {
    var e := Timed(at, SafetyStateReachesMux);
    evs' := evs + [e];
    RunOne(Empty(), evs, e);
    SystemLifeGrows(cfgs, Empty(), 0.0, evs, e);
    StopLatch.StateQueue(Run(Empty(), evs), at, e.ev);
    StepParts(Run(Empty(), evs), at, e.ev);
    hide SystemLife, Run, MuxTrace, Step, Mux.Step, SentBy;
  }

  lemma NothingTold(cfgs: iset<Mux.Config>)
    ensures Told(cfgs, [], [], Saf.Created(), [])
  {
  }

  /** Every life of the multiplexer alone that hears from no other node is one of the system. */
  lemma {:induction false} Embedded(cfgs: iset<Mux.Config>, fed: Mux.Trace) returns (evs: Trace)
    requires Mux.AreSensible(cfgs) && Mux.LifeWith(cfgs, 0.0, fed) && NoArrivals(fed)
    ensures Told(cfgs, evs, [], Saf.Created(), fed) && LastTime(0.0, evs) == LastTime(0.0, fed)
  {
    if fed == [] {
      evs := [];
      NothingTold(cfgs);
    } else {
      var before, e := fed[..|fed| - 1], fed[|fed| - 1];
      LastOfLife(cfgs, fed);
      hide Told, Mux.LifeWith, NoArrivals, Mux.AreSensible, Mux.Sensible;
      evs := Embedded(cfgs, before);
      evs := TellMux(cfgs, evs, [], Saf.Created(), before, e.at, e.ev);
      assert before + [e] == fed;
    }
  }

  lemma LastOfLife(cfgs: iset<Mux.Config>, fed: Mux.Trace)
    requires Mux.AreSensible(cfgs) && Mux.LifeWith(cfgs, 0.0, fed) && NoArrivals(fed) && fed != []
    ensures var before, e := fed[..|fed| - 1], fed[|fed| - 1];
            && Mux.LifeWith(cfgs, 0.0, before) && NoArrivals(before)
            && LastTime(0.0, before) <= e.at && 0.0 <= e.at
            && !e.ev.HealthArrives? && !e.ev.SafetyArrives?
            && (e.ev.Configure? ==> Mux.Sensible(e.ev.cfg) && e.ev.cfg in cfgs)
  {
    Mux.LifeWithPrefix(cfgs, 0.0, fed);
    hide Mux.Sensible;
    assert |fed| > 1 ==> fed[0].at <= fed[|fed| - 1].at;
  }

  // the safety node on its way to the emergency stop
  function Ready(): Saf.Safety {
    Saf.Created().(stage := Saf.Inactive, publishers := Some(false))
  }

  function Working(): Saf.Safety {
    Ready().(processing := true, stage := Saf.Active, publishers := Some(true))
  }

  function Stopped(): Saf.Safety {
    Working().(eStop := true, mode := Saf.Emergency)
  }

  lemma SafetySteps()
    ensures Saf.Step(Saf.Created(), Saf.Configure(0.0, 0.0)) == (Ready(), Saf.SILENT)
    ensures Saf.Step(Ready(), Saf.Activate) == (Working(), Saf.SILENT)
    ensures Saf.Step(Working(), Saf.EStop).0 == Stopped()
    ensures Saf.Step(Working(), Saf.EStop).1.states == [SAFETY_EMERGENCY]
    ensures Saf.Step(Stopped(), Saf.Reset).1.states == [SAFETY_NORMAL]
  {
  }

  lemma PushedLife(cfgs: iset<Mux.Config>, cfg: Mux.Config)
    requires cfg in cfgs
    ensures var fed := ShortBlock(cfg, 0.0)[..3];
            Mux.LifeWith(cfgs, 0.0, fed) && NoArrivals(fed) && LastTime(0.0, fed) == 0.0
  {
  }

  /** The multiplexer follows the stick, and the safety node has announced a stop. */
  lemma StopInSystem(cfgs: iset<Mux.Config>, cfg: Mux.Config) returns (evs: Trace)
    requires cfg in cfgs && Mux.AreSensible(cfgs)
    ensures Told(cfgs, evs, [SAFETY_EMERGENCY], Stopped(), ShortBlock(cfg, 0.0)[..3]) && LastTime(0.0, evs) == 0.0
  {
    PushedLife(cfgs, cfg);
    SafetySteps();
    var fed := ShortBlock(cfg, 0.0)[..3];
    hide Told, Saf.Step, Ready, Working, Stopped, Saf.Created, ShortBlock, Mux.LifeWith, NoArrivals;
    evs := Embedded(cfgs, fed);
    evs := TellSafety(cfgs, evs, [], Saf.Created(), fed, 0.0, Saf.Configure(0.0, 0.0));
    evs := TellSafety(cfgs, evs, [], Ready(), fed, 0.0, Saf.Activate);
    evs := TellSafety(cfgs, evs, [], Working(), fed, 0.0, Saf.EStop);
  }

  /** The short block is a life of the system: an emergency stop and its reset. */
  lemma BlockInSystem(cfgs: iset<Mux.Config>, cfg: Mux.Config, length: real) returns (evs: Trace)
    requires cfg in cfgs && Mux.AreSensible(cfgs) && 0.0 <= length
    ensures SystemLife(cfgs, Empty(), 0.0, evs) && MuxTrace(Empty(), evs) == ShortBlock(cfg, length)
  {
    SafetySteps();
    var fed := ShortBlock(cfg, 0.0)[..3];
    var e3, e4 := Timed(0.0, Mux.SafetyArrives(SAFETY_EMERGENCY)), Timed(0.0, Mux.ControlTick);
    var e5, e6 := Timed(length, Mux.SafetyArrives(SAFETY_NORMAL)), Timed(length, Mux.ControlTick);
    assert fed + [e3] + [e4] + [e5] + [e6] == ShortBlock(cfg, length);
    hide Told, Saf.Step, ShortBlock, SystemLife, Stopped;
    evs := StopInSystem(cfgs, cfg);
    evs := TellArrival(cfgs, evs, [SAFETY_EMERGENCY], Stopped(), fed, 0.0);
    evs := TellMux(cfgs, evs, [], Stopped(), fed + [e3], 0.0, e4.ev);
    evs := TellSafety(cfgs, evs, [], Stopped(), fed + [e3] + [e4], length, Saf.Reset);
    var f := Saf.Step(Stopped(), Saf.Reset).0;
    evs := TellArrival(cfgs, evs, [SAFETY_NORMAL], f, fed + [e3] + [e4], length);
    evs := TellMux(cfgs, evs, [], f, fed + [e3] + [e4] + [e5], length, e6.ev);
    ToldMeans(cfgs, evs, [], f, fed + [e3] + [e4] + [e5] + [e6]);
  }

  lemma ToldMeans(cfgs: iset<Mux.Config>, evs: Trace, q: seq<uint8>, f: Saf.Safety, fed: Mux.Trace)
    requires Told(cfgs, evs, q, f, fed)
    ensures SystemLife(cfgs, Empty(), 0.0, evs) && MuxTrace(Empty(), evs) == fed
  {
  }

  // ----- the exact condition -----

  ghost predicate SystemSafe(cfgs: iset<Mux.Config>, least: Mux.Config -> real) {
    forall s, start, evs :: SystemLife(cfgs, s, start, evs) && LongSpells(least, start, MuxTrace(s, evs))
                            ==> !Run(s, evs).mux.crashed
  }

  lemma SystemCrash(cfgs: iset<Mux.Config>, least: Mux.Config -> real, evs: Trace, fed: Mux.Trace)
    requires SystemLife(cfgs, Empty(), 0.0, evs) && MuxTrace(Empty(), evs) == fed
    requires LongSpells(least, 0.0, fed) && Mux.Run(Mux.Created(0.0), fed).crashed
    ensures !SystemSafe(cfgs, least)
  {
    hide SystemLife, MuxTrace, LongSpells, Run, Mux.Run;
    MuxRun(Empty(), evs);
  }

  lemma SystemNoException(cfgs: iset<Mux.Config>, least: Mux.Config -> real, s: System, start: real, evs: Trace)
    requires Mux.AreSensible(cfgs) && Suits(cfgs, least)
    requires SystemLife(cfgs, s, start, evs) && LongSpells(least, start, MuxTrace(s, evs))
    ensures !Run(s, evs).mux.crashed
  {
    assert s.mux == Mux.Created(start);
    hide SystemLife, MuxTrace, LongSpells, Run, Mux.Run, Mux.LifeWith, Suits, Mux.AreSensible;
    TraceIsLife(cfgs, s, start, evs);
    MuxRun(s, evs);
    NoException(cfgs, least, start, MuxTrace(s, evs));
  }

  /** In the composed system too, over every interleaving and every loss, the exception is out of reach in lives
      whose blocked spells outlast `least` exactly when the timeouts are balanced and `least` is at least the
      command timeout. */
  lemma {:induction false} SystemExceptionIff(cfgs: iset<Mux.Config>, least: Mux.Config -> real)
    requires Mux.AreSensible(cfgs)
    ensures SystemSafe(cfgs, least) <==> Suits(cfgs, least)
  {
    hide SystemLife, MuxTrace, LongSpells, Run, Mux.Run, Mux.LifeWith, NeverBlocked;
    if Suits(cfgs, least) {
      forall s, start, evs | SystemLife(cfgs, s, start, evs) && LongSpells(least, start, MuxTrace(s, evs))
        ensures !Run(s, evs).mux.crashed
      {
        SystemNoException(cfgs, least, s, start, evs);
      }
    } else {
      var cfg :| cfg in cfgs && !(Balanced(cfg) && cfg.cmdTimeout <= least(cfg));
      if !Balanced(cfg) {
        UnbalancedInSystem(cfgs, least, cfg);
      } else {
        var fed := ShortBlockCrashes(cfg, least, cfg.cmdTimeout);
        var evs := BlockInSystem(cfgs, cfg, cfg.cmdTimeout);
        SystemCrash(cfgs, least, evs, fed);
      }
    }
  }

  lemma UnbalancedInSystem(cfgs: iset<Mux.Config>, least: Mux.Config -> real, cfg: Mux.Config)
    requires Mux.AreSensible(cfgs) && cfg in cfgs && !Balanced(cfg)
    ensures !SystemSafe(cfgs, least)
  {
    var fed := SomeCrash(cfg);
    Mux.LifeAmong(cfgs, cfg, 0.0, fed);
    NeverBlockedIsLong(least, 0.0, fed);
    hide SystemLife, MuxTrace, LongSpells, Run, Mux.Run, Mux.LifeWith, NeverBlocked, SystemSafe;
    var evs := Embedded(cfgs, fed);
    ToldMeans(cfgs, evs, [], Saf.Created(), fed);
    SystemCrash(cfgs, least, evs, fed);
  }

  // ----- which spells there are -----

  /** The FDIR block of the multiplexer, once up, stays up. */
  ghost predicate FdirForGood(s: System) {
    Lockout.Honest(s) && Degradation.Undegraded(s) && (s.mux.fdirBlocked ==> Lockout.MuxGrounded(s))
  }

  lemma FdirForGoodStep(s: System, now: real, ev: Event)
    requires FdirForGood(s) && Permitted(ev)
    ensures FdirForGood(Step(s, now, ev))
    ensures s.mux.fdirBlocked ==> Step(s, now, ev).mux.fdirBlocked
  {
    Lockout.StepHonest(s, now, ev);
    Degradation.UndegradedStep(s, now, ev);
    if s.mux.fdirBlocked {
      Lockout.GroundedMuxStep(s, now, ev);
    } else if ev.HealthReachesMux? && Lockout.EmergencyAtMux(s) {
      Lockout.EmergencyGroundsMux(s, now);
    } else {
      NoFdirBlock(s, now, ev);
    }
    hide Step, Lockout.Honest, Degradation.Undegraded;
  }

  lemma NoFdirBlock(s: System, now: real, ev: Event)
    requires Degradation.AllTierFree(s.healthToMux) && !s.mux.fdirBlocked && Permitted(ev)
    requires !(ev.HealthReachesMux? && Lockout.EmergencyAtMux(s))
    ensures !Step(s, now, ev).mux.fdirBlocked
  {
    MuxParts(s, now, ev);
    var fed := MuxFeed(s, ev);
    if fed.Some? { FdirFlag(s.mux, now, fed.value); }
    hide Step, Mux.Step, SentBy;
  }

  lemma FdirFlag(m: Mux.Mux, now: real, ev: Mux.Event)
    ensures Mux.Step(m, now, ev).0.fdirBlocked
            == if ev.HealthArrives? && m.configured && !m.crashed then Mux.FdirBlocks(ev.state) else m.fdirBlocked
  {
    hide Mux.TickStep;
    if ev.ControlTick? { TickKeepsFdir(m, now); }
  }

  lemma TickKeepsFdir(m: Mux.Mux, now: real)
    ensures Mux.TickStep(m, now).0.fdirBlocked == m.fdirBlocked
  {
  }

  lemma {:induction false} FdirRun(s: System, start: real, evs: Trace)
    requires Initial(s, start) && AllPermitted(evs)
    ensures FdirForGood(Run(s, evs))
  {
    if evs == [] {
      assert FdirForGood(s);
    } else {
      var before, e := evs[..|evs| - 1], evs[|evs| - 1];
      FdirRun(s, start, before);
      hide Step, Initial, FdirForGood;
      FdirForGoodStep(Run(s, before), e.at, e.ev);
    }
  }

  lemma {:induction false} FdirStays(s: System, start: real, evs: Trace, m: nat)
    requires Initial(s, start) && AllPermitted(evs) && m <= |evs| && Run(s, evs[..m]).mux.fdirBlocked
    ensures Run(s, evs).mux.fdirBlocked
  {
    if m == |evs| {
      assert evs[..m] == evs;
    } else {
      var before, e := evs[..|evs| - 1], evs[|evs| - 1];
      assert before[..m] == evs[..m];
      FdirStays(s, start, before, m);
      FdirRun(s, start, before);
      hide Step, Initial, FdirForGood;
      FdirForGoodStep(Run(s, before), e.at, e.ev);
    }
  }

  lemma ReleaseStep(s: System, now: real, ev: Event)
    requires WellSet(s) && Permitted(ev) && !s.mux.fdirBlocked
    requires s.mux.safetyBlocked && !Step(s, now, ev).mux.safetyBlocked
    ensures ev.SafetyStateReachesMux? && s.mux.estopBlocked
  {
    MuxParts(s, now, ev);
    hide Step, SentBy, Smoothing.FilterTwist;
  }

  /** In the composed system only emergency-stop spells ever end: a step that lifts the block of the multiplexer
      delivers a safety state, the emergency stop was the cause, and the FDIR block has never been up. */
  lemma {:induction false} OnlyStopsRelease(s: System, start: real, evs: Trace, e: Timed<Event>)
    requires Initial(s, start) && AllPermitted(evs) && Permitted(e.ev)
    requires Run(s, evs).mux.safetyBlocked && !Step(Run(s, evs), e.at, e.ev).mux.safetyBlocked
    ensures e.ev.SafetyStateReachesMux? && Run(s, evs).mux.estopBlocked
    ensures forall m: nat :: m <= |evs| ==> !Run(s, evs[..m]).mux.fdirBlocked
  {
    hide Run, Step, Initial;
    InitialWellSet(s, start);
    EndToEnd.RunProper(s, evs);
    FdirRun(s, start, evs);
    var u := Run(s, evs);
    FdirForGoodStep(u, e.at, e.ev);
    BlockedMeans(u, e);
    ReleaseStep(u, e.at, e.ev);
    forall m: nat | m <= |evs| ensures !Run(s, evs[..m]).mux.fdirBlocked {
      if Run(s, evs[..m]).mux.fdirBlocked { FdirStays(s, start, evs, m); }
    }
  }

  lemma InitialWellSet(s: System, start: real)
    requires Initial(s, start)
    ensures WellSet(s) && EndToEnd.AllProper(s)
  {
  }

  /** A multiplexer released by a step was not held by the FDIR manager before it. */
  lemma BlockedMeans(s: System, e: Timed<Event>)
    requires WellSet(s) && Permitted(e.ev) && !Step(s, e.at, e.ev).mux.safetyBlocked
    requires s.mux.fdirBlocked ==> Step(s, e.at, e.ev).mux.fdirBlocked
    ensures !s.mux.fdirBlocked
  {
    hide Step;
    StepWellSet(s, e.at, e.ev);
  }
}
