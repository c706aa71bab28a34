/** Exactly when the control loop can hit its "undefined state" exception. */
module MuxException {
  import opened Messages
  import opened MuxSpec
  import opened Smoothing
  import opened MuxHistory

  /** The command timeout covers the takeover time, but not the second by which activation exceeds it. */
  predicate Balanced(cfg: Config) {
    cfg.manualTimeout <= cfg.cmdTimeout < cfg.manualTimeout + 1.0
  }

  /** The safety block is never up while the node is active. */
  ghost predicate NeverBlocked(start: real, evs: Trace) {
    forall n: nat :: n <= |evs| ==>
                       var m := Run(Created(start), evs[..n]);
                       m.active ==> !m.safetyBlocked
  }

  /** The present blocked spell: when it began, and whether a control tick has fallen into it in the present
      period of activity. */
  datatype Spell = Spell(since: real, seen: bool)

  function NextSpell(m: Mux, spell: Spell, e: Timed<Event>): Spell {
    if !m.safetyBlocked && Step(m, e.at, e.ev).0.safetyBlocked then Spell(e.at, false)
    else if Activates(m, e.ev) then spell.(seen := false)
    else if e.ev.ControlTick? && m.active && m.safetyBlocked then spell.(seen := true)
    else spell
  }

  function SpellOf(start: real, evs: Trace): Spell {
    if evs == [] then Spell(start, false) else
    var before, e := evs[..|evs| - 1], evs[|evs| - 1];
    NextSpell(Run(Created(start), before), SpellOf(start, before), e)
  }

  /** In active operation, a step ends a blocked spell that a control tick has fallen into. */
  predicate Releases(was: Mux, spell: Spell, now: Mux) {
    was.active && was.safetyBlocked && spell.seen && !now.safetyBlocked
  }

  predicate ReleasedAt(start: real, evs: Trace, i: nat)
    requires i < |evs|
  {
    Releases(Run(Created(start), evs[..i]), SpellOf(start, evs[..i]), Run(Created(start), evs[..i + 1]))
  }

  /** Every blocked spell that ends so lasted longer than `least` prescribes for the configuration in force. */
  ghost predicate LongSpells(least: Config -> real, start: real, evs: Trace) {
    forall i: nat :: i < |evs| && ReleasedAt(start, evs, i) ==> LongAt(least, start, evs, i)
  }

  predicate LongAt(least: Config -> real, start: real, evs: Trace, i: nat)
    requires i < |evs|
  {
    evs[i].at - SpellOf(start, evs[..i]).since > least(Run(Created(start), evs[..i]).cfg)
  }

  // ----- no exception -----

  /** A timer that no longer counts once the present spell is over. */
  predicate Expired(t: real, cfg: Config, since: real, now: real) {
    t <= since || now - t > cfg.cmdTimeout
  }

  /** Outside the two command modes both timers have run out, or will have when the spell ends. */
  predicate Safe(m: Mux, spell: Spell, now: real) {
    && !m.crashed && Reachable(m, now)
    && (m.configured ==> Balanced(m.cfg))
    && (m.active && (m.mode == Idle || (m.mode == Blocked && !(m.safetyBlocked && spell.seen))) ==> Stale(m, now))
    && (m.active && m.safetyBlocked ==>
          Expired(m.lastTeleopTime, m.cfg, spell.since, now) && Expired(m.lastNavTime, m.cfg, spell.since, now))
  }

  /** One event of a life with balanced timeouts; a spell it ends has lasted longer than the command timeout. */
  predicate GoodStep(m: Mux, spell: Spell, was: real, e: Timed<Event>) {
    && Safe(m, spell, was) && was <= e.at
    && (e.ev.Configure? ==> Sensible(e.ev.cfg) && Balanced(e.ev.cfg))
    && (Releases(m, spell, Step(m, e.at, e.ev).0) ==> e.at - spell.since > m.cfg.cmdTimeout)
  }

  lemma SafeCommand(m: Mux, spell: Spell, was: real, e: Timed<Event>)
    requires GoodStep(m, spell, was, e) && (e.ev.Teleop? || e.ev.Nav?)
    ensures Safe(Step(m, e.at, e.ev).0, NextSpell(m, spell, e), e.at)
  {
    StepReachable(m, was, e.at, e.ev);
    hide IsZero, FilterTwist;
  }

  lemma SafeTick(m: Mux, spell: Spell, was: real, e: Timed<Event>)
    requires GoodStep(m, spell, was, e) && e.ev.ControlTick?
    ensures Safe(Step(m, e.at, e.ev).0, NextSpell(m, spell, e), e.at)
  {
    StepReachable(m, was, e.at, e.ev);
    hide IsZero, FilterTwist;
  }

  lemma SafeFlag(m: Mux, spell: Spell, was: real, e: Timed<Event>)
    requires GoodStep(m, spell, was, e) && (e.ev.HealthArrives? || e.ev.SafetyArrives?)
    ensures Safe(Step(m, e.at, e.ev).0, NextSpell(m, spell, e), e.at)
  {
    StepReachable(m, was, e.at, e.ev);
    hide IsZero, FilterTwist;
  }

  lemma SafeTransition(m: Mux, spell: Spell, was: real, e: Timed<Event>)
    requires GoodStep(m, spell, was, e)
    requires e.ev.Configure? || e.ev.Activate? || e.ev.Deactivate? || e.ev.Cleanup?
    ensures Safe(Step(m, e.at, e.ev).0, NextSpell(m, spell, e), e.at)
  {
    StepReachable(m, was, e.at, e.ev);
    hide IsZero, FilterTwist;
  }

  lemma SafeStep(m: Mux, spell: Spell, was: real, e: Timed<Event>)
    requires GoodStep(m, spell, was, e)
    ensures Safe(Step(m, e.at, e.ev).0, NextSpell(m, spell, e), e.at)
  {
    hide *;
    if e.ev.Teleop? || e.ev.Nav? {
      SafeCommand(m, spell, was, e);
    } else if e.ev.ControlTick? {
      SafeTick(m, spell, was, e);
    } else if e.ev.HealthArrives? || e.ev.SafetyArrives? {
      SafeFlag(m, spell, was, e);
    } else {
      SafeTransition(m, spell, was, e);
    }
  }

  /** Timeouts and spells with which the exception is out of reach. */
  ghost predicate Suits(cfgs: iset<Config>, least: Config -> real) {
    forall cfg :: cfg in cfgs ==> Balanced(cfg) && cfg.cmdTimeout <= least(cfg)
  }

  lemma LongSpellsPrefix(least: Config -> real, start: real, evs: Trace)
    requires LongSpells(least, start, evs) && evs != []
    ensures LongSpells(least, start, evs[..|evs| - 1])
  {
    var before := evs[..|evs| - 1];
    hide Run, SpellOf;
    forall i: nat | i < |before| && ReleasedAt(start, before, i)
      ensures LongAt(least, start, before, i)
    {
      assert before[..i] == evs[..i] && before[..i + 1] == evs[..i + 1];
      assert ReleasedAt(start, evs, i) && LongAt(least, start, evs, i);
    }
  }

  /** The last event of a life within the hypotheses is a good step. */
  lemma LastIsGood(cfgs: iset<Config>, least: Config -> real, start: real, evs: Trace)
    requires AreSensible(cfgs) && Suits(cfgs, least) && evs != []
    requires LifeWith(cfgs, start, evs) && LongSpells(least, start, evs)
    requires var before := evs[..|evs| - 1];
             Safe(Run(Created(start), before), SpellOf(start, before), LastTime(start, before))
    ensures var before := evs[..|evs| - 1];
            GoodStep(Run(Created(start), before), SpellOf(start, before), LastTime(start, before), evs[|evs| - 1])
  {
    var before, last := evs[..|evs| - 1], |evs| - 1;
    LifeWithPrefix(cfgs, start, evs);
    ConfiguredFrom(cfgs, start, before);
    assert evs[..last + 1] == evs;
    assert Run(Created(start), evs) == Step(Run(Created(start), before), evs[last].at, evs[last].ev).0;
    hide Step, Safe, Run, SpellOf, Life;
    if ReleasedAt(start, evs, last) {
      assert LongAt(least, start, evs, last);
    }
  }

  lemma {:induction false} NoExceptionInvariant(cfgs: iset<Config>, least: Config -> real, start: real, evs: Trace)
    requires AreSensible(cfgs) && Suits(cfgs, least)
    requires LifeWith(cfgs, start, evs) && LongSpells(least, start, evs)
    ensures Safe(Run(Created(start), evs), SpellOf(start, evs), LastTime(start, evs))
  {
    if evs != [] {
      var before, e := evs[..|evs| - 1], evs[|evs| - 1];
      assert Run(Created(start), evs) == Step(Run(Created(start), before), e.at, e.ev).0;
      assert SpellOf(start, evs) == NextSpell(Run(Created(start), before), SpellOf(start, before), e);
      assert LastTime(start, evs) == e.at;
      hide *;
      LifeWithPrefix(cfgs, start, evs);
      LongSpellsPrefix(least, start, evs);
      NoExceptionInvariant(cfgs, least, start, before);
      LastIsGood(cfgs, least, start, evs);
      SafeStep(Run(Created(start), before), SpellOf(start, before), LastTime(start, before), e);
    }
  }

  lemma NoException(cfgs: iset<Config>, least: Config -> real, start: real, evs: Trace)
    requires AreSensible(cfgs) && Suits(cfgs, least)
    requires LifeWith(cfgs, start, evs) && LongSpells(least, start, evs)
    ensures !Run(Created(start), evs).crashed
  {
    hide Run, LifeWith, LongSpells, Suits, AreSensible;
    NoExceptionInvariant(cfgs, least, start, evs);
  }

  /** Without a block in active operation there is no spell to end. */
  lemma NeverBlockedIsLong(least: Config -> real, start: real, evs: Trace)
    requires NeverBlocked(start, evs)
    ensures LongSpells(least, start, evs)
  {
  }

  // ----- lives that crash -----

  /** No message of the other nodes arrives. */
  predicate NoArrivals(evs: Trace) {
    forall i :: 0 <= i < |evs| ==> !evs[i].ev.HealthArrives? && !evs[i].ev.SafetyArrives?
  }

  ghost predicate CrashesUnblocked(cfg: Config, start: real, evs: Trace) {
    && LifeWith(iset{cfg}, start, evs) && NeverBlocked(start, evs) && NoArrivals(evs)
    && Run(Created(start), evs).crashed
  }

  lemma UnblockedPrefix(start: real, evs: Trace, e: Timed<Event>)
    requires NeverBlocked(start, evs)
    requires var m := Run(Created(start), evs + [e]); m.active ==> !m.safetyBlocked
    ensures NeverBlocked(start, evs + [e])
  {
    forall n: nat | n <= |evs| + 1
      ensures var m := Run(Created(start), (evs + [e])[..n]); m.active ==> !m.safetyBlocked
    {
      if n <= |evs| {
        assert (evs + [e])[..n] == evs[..n];
      } else {
        assert (evs + [e])[..n] == evs + [e];
      }
    }
  }

  /** A freshly activated node, at time zero. */
  lemma Boot(cfg: Config) returns (evs: Trace)
    requires Sensible(cfg)
    ensures LifeWith(iset{cfg}, 0.0, evs) && NeverBlocked(0.0, evs) && LastTime(0.0, evs) == 0.0
    ensures evs == [Timed(0.0, Configure(cfg)), Timed(0.0, Activate)]
    ensures Run(Created(0.0), evs) == ActivateStep(Created(0.0).(configured := true, cfg := cfg), 0.0)
  {
    var e0, e1 := Timed(0.0, Configure(cfg)), Timed(0.0, Activate);
    var none: Trace := [];
    assert none[..0] == none;
    assert NeverBlocked(0.0, none);
    RunExtend(Created(0.0), none, e0);
    UnblockedPrefix(0.0, none, e0);
    var one := none + [e0];
    RunExtend(Created(0.0), one, e1);
    UnblockedPrefix(0.0, one, e1);
    evs := one + [e1];
  }

  /** One more event of a life, and the state it leads to. */
  lemma ExtendLife(cfg: Config, evs: Trace, m: Mux, e: Timed<Event>) returns (evs': Trace)
    requires LifeWith(iset{cfg}, 0.0, evs) && Run(Created(0.0), evs) == m
    requires LastTime(0.0, evs) <= e.at && 0.0 <= e.at && !e.ev.Configure?
    ensures evs' == evs + [e] && LifeWith(iset{cfg}, 0.0, evs') && LastTime(0.0, evs') == e.at
    ensures Run(Created(0.0), evs') == Step(m, e.at, e.ev).0
  {
    evs' := evs + [e];
    RunExtend(Created(0.0), evs, e);
    hide Run, Step;
    if evs != [] {
      assert forall i :: 0 <= i < |evs| ==> evs[i].at <= evs[|evs| - 1].at;
    }
  }

  /** The same for a life that has not been blocked. */
  lemma Continue(cfg: Config, evs: Trace, m: Mux, e: Timed<Event>) returns (evs': Trace)
    requires LifeWith(iset{cfg}, 0.0, evs) && NeverBlocked(0.0, evs) && Run(Created(0.0), evs) == m
    requires LastTime(0.0, evs) <= e.at && 0.0 <= e.at && !e.ev.Configure?
    requires !Step(m, e.at, e.ev).0.safetyBlocked
    ensures evs' == evs + [e]
    ensures LifeWith(iset{cfg}, 0.0, evs') && NeverBlocked(0.0, evs') && LastTime(0.0, evs') == e.at
    ensures Run(Created(0.0), evs') == Step(m, e.at, e.ev).0
  {
    hide LifeWith;
    evs' := ExtendLife(cfg, evs, m, e);
    UnblockedPrefix(0.0, evs, e);
  }

  /** Command timeout too long: the first tick after activation throws. */
  lemma CrashAtActivation(cfg: Config) returns (evs: Trace)
    requires Sensible(cfg) && cfg.manualTimeout + 1.0 <= cfg.cmdTimeout
    ensures CrashesUnblocked(cfg, 0.0, evs)
  {
    evs := Boot(cfg);
    evs := Continue(cfg, evs, Run(Created(0.0), evs), Timed(0.0, ControlTick));
  }

  /** Command timeout too short, as with the defaults: the stick goes quiet, the node idles, and a
      navigation message inside the takeover window revives the watchdog without setting a mode. */
  lemma CrashAfterTeleop(cfg: Config) returns (evs: Trace)
    requires Sensible(cfg) && cfg.cmdTimeout < cfg.manualTimeout
    ensures CrashesUnblocked(cfg, 0.0, evs)
  {
    PushIsCommand();
    var t := (cfg.cmdTimeout + cfg.manualTimeout) / 2.0;
    evs := Boot(cfg);
    hide Run, LifeWith, NeverBlocked, FilterTwist, IsZero;
    var m0 := Run(Created(0.0), evs);
    evs := Continue(cfg, evs, m0, Timed(0.0, Teleop(PUSH, true)));
    var m1 := Run(Created(0.0), evs);
    assert m1.lastTeleopTime == 0.0 && m1.active && m1.mode == Manual;
    assert Stale(m1, t);
    evs := Continue(cfg, evs, m1, Timed(t, ControlTick));
    var m2 := Run(Created(0.0), evs);
    assert m2.mode == Idle && m2.lastTeleopTime == 0.0 && !m2.crashed;
    evs := Continue(cfg, evs, m2, Timed(t, Nav(ZERO_TWIST)));
    var m3 := Run(Created(0.0), evs);
    assert m3.mode == Idle && m3.lastNavTime == t && !Stale(m3, t);
    evs := Continue(cfg, evs, m3, Timed(t, ControlTick));
  }

  lemma SomeCrash(cfg: Config) returns (evs: Trace)
    requires Sensible(cfg) && !Balanced(cfg)
    ensures CrashesUnblocked(cfg, 0.0, evs)
  {
    if cfg.cmdTimeout < cfg.manualTimeout {
      evs := CrashAfterTeleop(cfg);
    } else {
      evs := CrashAtActivation(cfg);
    }
  }

  /** A life told so far: its state, its present spell, and that its spells were long. */
  ghost predicate Told(cfg: Config, least: Config -> real, evs: Trace, m: Mux, spell: Spell) {
    && LifeWith(iset{cfg}, 0.0, evs) && LongSpells(least, 0.0, evs)
    && Run(Created(0.0), evs) == m && SpellOf(0.0, evs) == spell
  }

  lemma Tell(cfg: Config, least: Config -> real, evs: Trace, m: Mux, spell: Spell, e: Timed<Event>)
    returns (evs': Trace)
    requires Told(cfg, least, evs, m, spell)
    requires LastTime(0.0, evs) <= e.at && 0.0 <= e.at && !e.ev.Configure?
    requires Releases(m, spell, Step(m, e.at, e.ev).0) ==> e.at - spell.since > least(m.cfg)
    ensures evs' == evs + [e] && LastTime(0.0, evs') == e.at
    ensures Told(cfg, least, evs', Step(m, e.at, e.ev).0, NextSpell(m, spell, e))
  {
    evs' := ExtendLife(cfg, evs, m, e);
    assert evs'[..|evs|] == evs && evs'[..|evs| + 1] == evs';
    hide Step, Run, LifeWith, NextSpell;
    forall i: nat | i < |evs'| && ReleasedAt(0.0, evs', i) ensures LongAt(least, 0.0, evs', i) {
      if i < |evs| {
        hide SpellOf;
        assert evs'[..i] == evs[..i] && evs'[..i + 1] == evs[..i + 1];
        assert ReleasedAt(0.0, evs, i) && LongAt(least, 0.0, evs, i);
      }
    }
  }

  /** A stick command, an emergency stop seen by a control tick, its release after `length`, and a control tick. */
  function ShortBlock(cfg: Config, length: real): Trace {
    [Timed(0.0, Configure(cfg)), Timed(0.0, Activate), Timed(0.0, Teleop(PUSH, true)),
     Timed(0.0, SafetyArrives(SAFETY_EMERGENCY)), Timed(0.0, ControlTick),
     Timed(length, SafetyArrives(SAFETY_NORMAL)), Timed(length, ControlTick)]
  }

  /** Blocked spells have to be longer: with any parameters, and for any length up to the command timeout, there is
      a life in which an emergency stop raised right after a stick command, seen by a control tick and released
      after that length makes the next control tick throw. */
  lemma {:induction false} ShortBlockCrashes(cfg: Config, least: Config -> real, length: real) returns (evs: Trace)
    requires Sensible(cfg) && 0.0 <= length <= cfg.cmdTimeout && least(cfg) < length
    ensures LifeWith(iset{cfg}, 0.0, evs) && LongSpells(least, 0.0, evs)
    ensures evs == ShortBlock(cfg, length)
    ensures ReleasedAt(0.0, evs, 5) && evs[5].at - SpellOf(0.0, evs[..5]).since == length
    ensures Run(Created(0.0), evs).crashed
  {
    PushIsCommand();
    var boot := Boot(cfg);
    var m := ActivateStep(Created(0.0).(configured := true, cfg := cfg), 0.0);
    var spell := SpellOf(0.0, boot);
    NeverBlockedIsLong(least, 0.0, boot);
    assert Told(cfg, least, boot, m, spell);
    hide Told, Run, LifeWith, NeverBlocked, LongSpells, FilterTwist, IsZero, SpellOf;
    var pushed := Tell(cfg, least, boot, m, spell, Timed(0.0, Teleop(PUSH, true)));
    m := m.(lastTeleopTime := 0.0, mode := Manual, lastTeleop := PUSH);
    var stopped := Tell(cfg, least, pushed, m, spell, Timed(0.0, SafetyArrives(SAFETY_EMERGENCY)));
    m := m.(estopBlocked := true, safetyBlocked := true);
    var seen := Tell(cfg, least, stopped, m, Spell(0.0, false), Timed(0.0, ControlTick));
    m := m.(mode := Blocked, target := ZERO_TWIST, current := TickStep(m, 0.0).0.current);
    var released := Tell(cfg, least, seen, m, Spell(0.0, true), Timed(length, SafetyArrives(SAFETY_NORMAL)));
    m := m.(estopBlocked := false, safetyBlocked := false);
    evs := Tell(cfg, least, released, m, Spell(0.0, true), Timed(length, ControlTick));
    assert evs[..5] == seen && evs[..6] == released;
    Recall(cfg, least, seen, m.(estopBlocked := true, safetyBlocked := true), Spell(0.0, true));
    Recall(cfg, least, released, m, Spell(0.0, true));
    Recall(cfg, least, evs, m.(crashed := true), Spell(0.0, true));
  }

  lemma Recall(cfg: Config, least: Config -> real, evs: Trace, m: Mux, spell: Spell)
    requires Told(cfg, least, evs, m, spell)
    ensures LifeWith(iset{cfg}, 0.0, evs) && LongSpells(least, 0.0, evs)
    ensures Run(Created(0.0), evs) == m && SpellOf(0.0, evs) == spell
  {
  }

  // ----- the exact condition -----

  ghost predicate SafeUnblocked(cfgs: iset<Config>) {
    forall start, evs :: LifeWith(cfgs, start, evs) && NeverBlocked(start, evs) ==> !Run(Created(start), evs).crashed
  }

  ghost predicate SafeWithSpells(cfgs: iset<Config>, least: Config -> real) {
    forall start, evs :: LifeWith(cfgs, start, evs) && LongSpells(least, start, evs)
                         ==> !Run(Created(start), evs).crashed
  }

  /** Over all event timings and all reconfigurations among `cfgs`: the control loop never throws in lives
      without a block in active operation exactly when all timeouts are balanced; and it never throws in lives
      whose blocked spells outlast `least` exactly when moreover `least` is at least the command timeout. */
  lemma {:induction false} ExceptionFreeIff(cfgs: iset<Config>, least: Config -> real)
    requires AreSensible(cfgs)
    ensures SafeUnblocked(cfgs) <==> forall cfg :: cfg in cfgs ==> Balanced(cfg)
    ensures SafeWithSpells(cfgs, least) <==> Suits(cfgs, least)
  {
    hide LifeWith, NeverBlocked, LongSpells, Run;
    if forall cfg :: cfg in cfgs ==> Balanced(cfg) {
      UnblockedIsSafe(cfgs);
    }
    if Suits(cfgs, least) {
      forall start, evs | LifeWith(cfgs, start, evs) && LongSpells(least, start, evs)
        ensures !Run(Created(start), evs).crashed
      {
        NoException(cfgs, least, start, evs);
      }
    }
    forall cfg | cfg in cfgs
      ensures SafeUnblocked(cfgs) || SafeWithSpells(cfgs, least) ==> Balanced(cfg)
      ensures SafeWithSpells(cfgs, least) ==> cfg.cmdTimeout <= least(cfg)
    {
      if !Balanced(cfg) {
        UnbalancedCrashes(cfgs, least, cfg);
      }
      if least(cfg) < cfg.cmdTimeout {
        var evs := ShortBlockCrashes(cfg, least, cfg.cmdTimeout);
        LifeAmong(cfgs, cfg, 0.0, evs);
      }
    }
  }

  lemma UnblockedIsSafe(cfgs: iset<Config>)
    requires AreSensible(cfgs) && forall cfg :: cfg in cfgs ==> Balanced(cfg)
    ensures SafeUnblocked(cfgs)
  {
    hide LifeWith, NeverBlocked, LongSpells, Run;
    var least := (cfg: Config) => cfg.cmdTimeout;
    forall start, evs | LifeWith(cfgs, start, evs) && NeverBlocked(start, evs)
      ensures !Run(Created(start), evs).crashed
    {
      NeverBlockedIsLong(least, start, evs);
      NoException(cfgs, least, start, evs);
    }
  }

  lemma UnbalancedCrashes(cfgs: iset<Config>, least: Config -> real, cfg: Config)
    requires cfg in cfgs && Sensible(cfg) && !Balanced(cfg)
    ensures !SafeUnblocked(cfgs) && !SafeWithSpells(cfgs, least)
  {
    var evs := SomeCrash(cfg);
    LifeAmong(cfgs, cfg, 0.0, evs);
    NeverBlockedIsLong(least, 0.0, evs);
    hide LifeWith, NeverBlocked, LongSpells, Run;
  }

  /** For one balanced configuration and one bound on spells: spells longer than the bound are harmless exactly
      when the bound is at least the command timeout. */
  lemma SpellThreshold(cfg: Config, bound: real)
    requires Sensible(cfg) && Balanced(cfg)
    ensures SafeWithSpells(iset{cfg}, _ => bound) <==> cfg.cmdTimeout <= bound
  {
    ExceptionFreeIff(iset{cfg}, _ => bound);
  }
}
