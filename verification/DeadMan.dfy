/** The watchdog of the multiplexer: without commands the robot comes to rest. */
module DeadMan {
  import opened Messages
  import opened MuxSpec
  import opened MuxHistory
  import opened Smoothing

  /** Neither a non-zero stick command nor a navigation message of this activation is younger than the command
      timeout. */
  predicate Silent(start: real, evs: Trace, now: real) {
    var m := Created(start);
    OlderThan(evs, LastStick(m, evs), Run(m, evs).cfg.cmdTimeout, now)
    && OlderThan(evs, LastNavMessage(m, evs), Run(m, evs).cfg.cmdTimeout, now)
  }

  predicate OlderThan(evs: Trace, i: Option<nat>, age: real, now: real) {
    i.Some? && i.value < |evs| ==> now - evs[i.value].at > age
  }

  /** A timer that nothing has set since the activation has run for the takeover time and a second, and is no
      younger than any command of the other kind. */
  predicate Ordered(m: Mux, evs: Trace, stick: Option<nat>, nav: Option<nat>, now: real) {
    m.active ==>
      && (stick == None ==> m.lastTeleopTime + m.cfg.manualTimeout + 1.0 <= now)
      && (nav == None ==> m.lastNavTime + m.cfg.manualTimeout + 1.0 <= now)
      && (stick == None && nav.Some? && nav.value < |evs| ==> m.lastTeleopTime <= evs[nav.value].at)
      && (nav == None && stick.Some? && stick.value < |evs| ==> m.lastNavTime <= evs[stick.value].at)
  }

  lemma OrderedStep(m: Mux, evs: Trace, stick: Option<nat>, nav: Option<nat>, was: real, e: Timed<Event>)
    requires Reachable(m, was) && was <= e.at && Ordered(m, evs, stick, nav, was)
    requires (stick.Some? ==> stick.value < |evs|) && (nav.Some? ==> nav.value < |evs|)
    ensures Ordered(Step(m, e.at, e.ev).0, evs + [e],
                    if e.ev.Teleop? && Accepted(m) && !IsZero(e.ev.msg) then Some(|evs|)
                    else if Activates(m, e.ev) then None else stick,
                    if e.ev.Nav? && Accepted(m) then Some(|evs|)
                    else if Activates(m, e.ev) then None else nav,
                    e.at)
  {
    hide IsZero, FilterTwist;
  }

  lemma {:induction false} OrderedRun(start: real, evs: Trace)
    requires Life(start, evs) && AllSensible(evs)
    ensures var m := Created(start);
            Ordered(Run(m, evs), evs, LastStick(m, evs), LastNavMessage(m, evs), LastTime(start, evs))
  {
    if evs != [] {
      var before, e, m := evs[..|evs| - 1], evs[|evs| - 1], Created(start);
      LifePrefix(start, evs);
      OrderedRun(start, before);
      History(start, before);
      RunReachable(start, before);
      hide Ordered, IsZero, Step, Reachable, Life;
      OrderedStep(Run(m, before), before, LastStick(m, before), LastNavMessage(m, before),
                  LastTime(start, before), e);
      assert before + [e] == evs;
    }
  }

  /** The dead-man rule: a tick more than the command timeout after the last command of either kind aims at zero,
      or throws; and it does not throw if there was any command since the activation, or the command timeout is
      less than a second more than the takeover time. */
  lemma {:induction false} SilenceAimsAtZero(start: real, evs: Trace, now: real)
    requires Life(start, evs) && AllSensible(evs) && LastTime(start, evs) <= now && Silent(start, evs, now)
    requires var m := Run(Created(start), evs); m.active && !m.crashed
    ensures var route := Route(Run(Created(start), evs), now);
            && (route.Some? ==> route.value.1 == ZERO_TWIST)
            && (LastStick(Created(start), evs).Some? || LastNavMessage(Created(start), evs).Some? ==> route.Some?)
            && (var cfg := Run(Created(start), evs).cfg; cfg.cmdTimeout < cfg.manualTimeout + 1.0 ==> route.Some?)
  {
    History(start, evs);
    OrderedRun(start, evs);
    RunReachable(start, evs);
    hide Run, LastStick, LastNavMessage, LastTeleopMessage, Life;
  }

  function TicksFrom(evs: Trace, n: nat): nat {
    if |evs| <= n then 0 else
    TicksFrom(evs[..|evs| - 1], n) + if evs[|evs| - 1].ev.ControlTick? then 1 else 0
  }

  /** Event `k` is a control tick of the running node, does not throw, and comes in silence. */
  predicate SilentTick(start: real, evs: Trace, k: nat, alpha: real)
    requires k < |evs|
  {
    var m := Run(Created(start), evs[..k]);
    && m.active && !m.crashed && m.cfg.alpha == alpha
    && Silent(start, evs[..k], evs[k].at) && Route(m, evs[k].at).Some?
  }

  ghost predicate SilentFrom(start: real, evs: Trace, n: nat, alpha: real) {
    forall k: nat :: n <= k < |evs| && evs[k].ev.ControlTick? ==> SilentTick(start, evs, k, alpha)
  }

  lemma ZeroTick(m: Mux, now: real)
    requires Sensible(m.cfg) && m.active && m.configured && !m.crashed
    requires Route(m, now).Some? && Route(m, now).value.1 == ZERO_TWIST
    ensures NoLarger(Step(m, now, ControlTick).0.current, 1.0 - m.cfg.alpha, m.current)
  {
    ZeroGoalShrinks(m.cfg.alpha, SpeedLimit(m), m.current);
    hide FilterTwist, NoLarger;
  }

  lemma OnlyTicksMove(m: Mux, now: real, ev: Event)
    requires !ev.ControlTick?
    ensures Step(m, now, ev).0.current == m.current
  {
  }

  lemma SilentBefore(start: real, evs: Trace, n: nat, alpha: real)
    requires SilentFrom(start, evs, n, alpha) && n < |evs|
    ensures SilentFrom(start, evs[..|evs| - 1], n, alpha)
  {
    hide Silent, Run;
    var before := evs[..|evs| - 1];
    forall k: nat | n <= k < |before| && before[k].ev.ControlTick? ensures SilentTick(start, before, k, alpha) {
      assert before[..k] == evs[..k];
      assert SilentTick(start, evs, k, alpha);
    }
  }

  lemma LastTickShrinks(start: real, evs: Trace, now: real)
    requires Life(start, evs) && AllSensible(evs) && LastTime(start, evs) <= now && Silent(start, evs, now)
    requires var m := Run(Created(start), evs); m.active && !m.crashed && Route(m, now).Some?
    ensures var m := Run(Created(start), evs);
            NoLarger(Step(m, now, ControlTick).0.current, 1.0 - m.cfg.alpha, m.current)
  {
    hide Run, Step, Route, Silent, Life, AllSensible, LastStick, LastNavMessage, NoLarger;
    SilenceAimsAtZero(start, evs, now);
    RunReachable(start, evs);
    ZeroTick(Run(Created(start), evs), now);
  }

  /** The last event of a silent stretch. */
  lemma LastEventShrinks(start: real, evs: Trace, alpha: real)
    requires Life(start, evs) && AllSensible(evs) && evs != []
    requires evs[|evs| - 1].ev.ControlTick? ==> SilentTick(start, evs, |evs| - 1, alpha)
    ensures var was, now := Run(Created(start), evs[..|evs| - 1]).current, Run(Created(start), evs).current;
            if evs[|evs| - 1].ev.ControlTick? then NoLarger(now, 1.0 - alpha, was) else now == was
  {
    hide Step, Life, NoLarger, Route, Silent, Sensible;
    var before, e := evs[..|evs| - 1], evs[|evs| - 1];
    var u := Run(Created(start), before);
    assert Run(Created(start), evs) == Step(u, e.at, e.ev).0;
    hide Run;
    LifePrefix(start, evs);
    if e.ev.ControlTick? {
      assert u.active && !u.crashed && u.cfg.alpha == alpha && Silent(start, before, e.at) && Route(u, e.at).Some?;
      hide SilentTick, AllSensible;
      LastTickShrinks(start, before, e.at);
    } else {
      OnlyTicksMove(u, e.at, e.ev);
    }
  }

  lemma ShrinkMore(a: Twist, b: Twist, c: Twist, keep: real, k: nat)
    requires 0.0 <= keep && NoLarger(a, keep, b) && NoLarger(b, Pow(keep, k), c)
    ensures NoLarger(a, Pow(keep, k + 1), c)
  {
    hide NoLarger;
    NoLargerCompounds(a, keep, b, Pow(keep, k), c, Pow(keep, k + 1));
  }

  /** In silence the robot comes to rest: whatever else happens between them, n control ticks leave at most
      (1 - alpha)^n of the velocity on each axis. */
  lemma {:induction false} SilenceStops(start: real, evs: Trace, n: nat, alpha: real)
    requires Life(start, evs) && AllSensible(evs) && n <= |evs| && 0.0 <= alpha <= 1.0
    requires SilentFrom(start, evs, n, alpha)
    ensures NoLarger(Run(Created(start), evs).current, Pow(1.0 - alpha, TicksFrom(evs, n)),
                     Run(Created(start), evs[..n]).current)
  {
    hide Run, Life, NoLarger, SilentTick;
    var m := Created(start);
    if n == |evs| {
      assert evs[..n] == evs;
      OnceItself(Run(m, evs).current);
    } else {
      var before := evs[..|evs| - 1];
      assert before[..n] == evs[..n];
      LifePrefix(start, evs);
      SilentBefore(start, evs, n, alpha);
      LastEventShrinks(start, evs, alpha);
      SilenceStops(start, before, n, alpha);
      hide Pow;
      if evs[|evs| - 1].ev.ControlTick? {
        ShrinkMore(Run(m, evs).current, Run(m, before).current, Run(m, evs[..n]).current, 1.0 - alpha,
                   TicksFrom(before, n));
      }
    }
  }
}
