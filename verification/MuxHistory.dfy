/** Which message a control tick forwards, and how old it can be. */
module MuxHistory {
  import opened Messages
  import opened MuxSpec
  import opened Smoothing

  /** In this state a command reaches its callback and is not dropped by the safety block. */
  predicate Accepted(m: Mux) {
    m.configured && !m.crashed && !m.safetyBlocked
  }

  /** Index of the last non-zero stick message accepted since the last activation. */
  function LastStick(m: Mux, evs: Trace): Option<nat> {
    if evs == [] then None else
    var last := |evs| - 1;
    var was, ev := Run(m, evs[..last]), evs[last].ev;
    if ev.Teleop? && Accepted(was) && !IsZero(ev.msg) then Some(last)
    else if Activates(was, ev) then None
    else LastStick(m, evs[..last])
  }

  predicate Activates(m: Mux, ev: Event) {
    ev.Activate? && m.configured && !m.crashed && !m.active
  }

  /** Index of the last stick message of any kind accepted. */
  function LastTeleopMessage(m: Mux, evs: Trace): Option<nat> {
    if evs == [] then None else
    var last := |evs| - 1;
    if evs[last].ev.Teleop? && Accepted(Run(m, evs[..last])) then Some(last)
    else LastTeleopMessage(m, evs[..last])
  }

  /** Index of the last navigation message since the last activation to reach the arbiter, taken or locked out. */
  function LastNavMessage(m: Mux, evs: Trace): Option<nat> {
    if evs == [] then None else
    var last := |evs| - 1;
    if evs[last].ev.Nav? && Accepted(Run(m, evs[..last])) then Some(last)
    else if Activates(Run(m, evs[..last]), evs[last].ev) then None
    else LastNavMessage(m, evs[..last])
  }

  /** A stick message with this command. */
  predicate Commands(ev: Event, msg: Twist) {
    ev.Teleop? && ev.msg == msg
  }

  /** The stored messages and times are those of the messages the history names. */
  predicate Remembers(m: Mux, evs: Trace, stick: Option<nat>, teleop: Option<nat>, nav: Option<nat>) {
    && (stick.Some? ==> stick.value < |evs| && evs[stick.value].ev.Teleop? && !IsZero(evs[stick.value].ev.msg))
    && (teleop.Some? ==> teleop.value < |evs| && Commands(evs[teleop.value].ev, m.lastTeleop))
    && (nav.Some? ==> nav.value < |evs| && evs[nav.value].ev.Nav?)
    && (stick.Some? && teleop.Some? ==> stick.value <= teleop.value)
    && (stick.Some? ==> teleop.Some?)
    && (m.active && stick.Some? ==> evs[stick.value].at == m.lastTeleopTime)
    && (m.active && nav.Some? ==> evs[nav.value].at == m.lastNavTime)
    && (m.active && m.mode == Manual ==> stick.Some?)
    && (m.active && m.mode == Autonomous ==> nav.Some? && evs[nav.value].ev == Nav(m.lastNav))
  }

  /** The history after one more event. */
  predicate RemembersNext(m: Mux, evs: Trace, stick: Option<nat>, teleop: Option<nat>, nav: Option<nat>,
                          e: Timed<Event>) {
    var i := |evs|;
    Remembers(Step(m, e.at, e.ev).0, evs + [e],
              if e.ev.Teleop? && Accepted(m) && !IsZero(e.ev.msg) then Some(i)
              else if Activates(m, e.ev) then None else stick,
              if e.ev.Teleop? && Accepted(m) then Some(i) else teleop,
              if e.ev.Nav? && Accepted(m) then Some(i)
              else if Activates(m, e.ev) then None else nav)
  }

  lemma RemembersCommand(m: Mux, evs: Trace, stick: Option<nat>, teleop: Option<nat>, nav: Option<nat>,
                      was: real, e: Timed<Event>)
    requires Reachable(m, was) && was <= e.at && Remembers(m, evs, stick, teleop, nav)
    requires e.ev.Teleop? || e.ev.Nav?
    ensures RemembersNext(m, evs, stick, teleop, nav, e)
  {
    hide IsZero, FilterTwist;
  }

  lemma RemembersTick(m: Mux, evs: Trace, stick: Option<nat>, teleop: Option<nat>, nav: Option<nat>,
                      was: real, e: Timed<Event>)
    requires Reachable(m, was) && was <= e.at && Remembers(m, evs, stick, teleop, nav)
    requires e.ev.ControlTick? || e.ev.HealthArrives? || e.ev.SafetyArrives?
    ensures RemembersNext(m, evs, stick, teleop, nav, e)
  {
    hide IsZero, FilterTwist;
  }

  lemma RemembersTransition(m: Mux, evs: Trace, stick: Option<nat>, teleop: Option<nat>, nav: Option<nat>,
                      was: real, e: Timed<Event>)
    requires Reachable(m, was) && was <= e.at && Remembers(m, evs, stick, teleop, nav)
    requires e.ev.Configure? || e.ev.Activate? || e.ev.Deactivate? || e.ev.Cleanup?
    ensures RemembersNext(m, evs, stick, teleop, nav, e)
  {
    hide IsZero, FilterTwist;
  }

  lemma RemembersStep(m: Mux, evs: Trace, stick: Option<nat>, teleop: Option<nat>, nav: Option<nat>,
                      was: real, e: Timed<Event>)
    requires Reachable(m, was) && was <= e.at && Remembers(m, evs, stick, teleop, nav)
    ensures RemembersNext(m, evs, stick, teleop, nav, e)
  {
    hide *;
    if e.ev.Teleop? || e.ev.Nav? {
      RemembersCommand(m, evs, stick, teleop, nav, was, e);
    } else if e.ev.ControlTick? || e.ev.HealthArrives? || e.ev.SafetyArrives? {
      RemembersTick(m, evs, stick, teleop, nav, was, e);
    } else {
      RemembersTransition(m, evs, stick, teleop, nav, was, e);
    }
  }

  lemma {:induction false} History(start: real, evs: Trace)
    requires Life(start, evs) && AllSensible(evs)
    ensures var m := Created(start);
            Remembers(Run(m, evs), evs, LastStick(m, evs), LastTeleopMessage(m, evs), LastNavMessage(m, evs))
  {
    if evs != [] {
      var before, e, m := evs[..|evs| - 1], evs[|evs| - 1], Created(start);
      LifePrefix(start, evs);
      History(start, before);
      RunReachable(start, before);
      hide Remembers, IsZero;
      RemembersStep(Run(m, before), before, LastStick(m, before), LastTeleopMessage(m, before),
                    LastNavMessage(m, before), LastTime(start, before), e);
      assert before + [e] == evs;
    }
  }

  /** The ages at which a stick command may still be forwarded. */
  predicate YoungEnough(cfg: Config, age: real) {
    0.0 <= age && (age <= cfg.cmdTimeout || age < cfg.cmdTimeout + cfg.manualTimeout)
  }

  /** A forwarded stick command is the newest stick message, and the last non-zero one is at most the command
      timeout old, or younger than that plus the takeover time: locked-out navigation keeps the watchdog alive. */
  lemma {:induction false} TeleopStaleness(start: real, evs: Trace, now: real)
    requires Life(start, evs) && AllSensible(evs) && LastTime(start, evs) <= now
    requires RoutesTeleop(Run(Created(start), evs), now)
    ensures var m := Run(Created(start), evs);
            var stick, teleop := LastStick(Created(start), evs), LastTeleopMessage(Created(start), evs);
            && stick.Some? && teleop.Some? && stick.value <= teleop.value < |evs|
            && Commands(evs[teleop.value].ev, Step(m, now, ControlTick).0.target)
            && Step(m, now, ControlTick).0.mode == Manual
            && YoungEnough(m.cfg, now - evs[stick.value].at)
  {
    History(start, evs);
    RunReachable(start, evs);
    hide FilterTwist;
  }

  const PUSH := Twist(1.0, 0.0, 0.0)

  lemma FourEvents(m: Mux, e0: Timed<Event>, e1: Timed<Event>, e2: Timed<Event>, e3: Timed<Event>)
    returns (three: Trace)
    ensures three == [e0, e1, e2] && [e0, e1, e2, e3][..3] == three
    ensures var m1 := Step(m, e0.at, e0.ev).0; var m2 := Step(m1, e1.at, e1.ev).0;
            var m3 := Step(m2, e2.at, e2.ev).0;
            && Run(m, [e0]) == m1 && Run(m, [e0, e1]) == m2 && Run(m, three) == m3
            && Run(m, [e0, e1, e2, e3]) == Step(m3, e3.at, e3.ev).0
  {
    hide Step;
    var none: Trace := [];
    three := [e0, e1, e2];
    RunExtend(m, none, e0);
    RunExtend(m, [e0], e1);
    RunExtend(m, [e0, e1], e2);
    RunExtend(m, three, e3);
    assert none + [e0] == [e0] && [e0] + [e1] == [e0, e1] && [e0, e1] + [e2] == three;
    assert three + [e3] == [e0, e1, e2, e3];
  }

  lemma PushIsCommand()
    ensures !IsZero(PUSH)
  {
  }

  /** Every such age is reached, by a navigation message that comes as late as the watchdog requires. */
  lemma StalenessIsReached(cfg: Config, age: real) returns (evs: Trace)
    requires Sensible(cfg) && YoungEnough(cfg, age)
    ensures ForwardsStick(cfg, 0.0, evs, age, age)
  {
    PushIsCommand();
    var m := Created(0.0);
    var e0, e1, e2 := Timed(0.0, Configure(cfg)), Timed(0.0, Activate), Timed(0.0, Teleop(PUSH, true));
    var e3 := if age <= cfg.cmdTimeout then Timed(0.0, HealthArrives(STATE_SOFTWARE_OK))
              else Timed(age - cfg.cmdTimeout, Nav(ZERO_TWIST));
    evs := [e0, e1, e2, e3];
    hide FilterTwist, IsZero;
    var three := FourEvents(m, e0, e1, e2, e3);
    assert three[..2] == [e0, e1];
    assert LastStick(m, three) == Some(2);
  }

  /** In some life under this configuration a tick at `now` forwards a stick command of this age. */
  ghost predicate ForwardsStick(cfg: Config, start: real, evs: Trace, now: real, age: real) {
    && LifeWith(iset{cfg}, start, evs) && LastTime(start, evs) <= now
    && RoutesTeleop(Run(Created(start), evs), now)
    && var stick := LastStick(Created(start), evs);
       stick.Some? && stick.value < |evs| && now - evs[stick.value].at == age
  }

  lemma ForwardedIsYoung(cfg: Config, start: real, evs: Trace, now: real, age: real)
    requires Sensible(cfg) && ForwardsStick(cfg, start, evs, now, age)
    ensures YoungEnough(cfg, age)
  {
    hide Run, Step, LastStick, LastTeleopMessage, YoungEnough;
    ConfiguredFrom(iset{cfg}, start, evs);
    TeleopStaleness(start, evs, now);
  }

  /** These are exactly the ages that occur. */
  lemma {:induction false} StickAgesIff(cfg: Config, age: real)
    requires Sensible(cfg)
    ensures (exists start, evs, now :: ForwardsStick(cfg, start, evs, now, age)) <==> YoungEnough(cfg, age)
  {
    hide ForwardsStick, YoungEnough;
    forall start, evs, now | ForwardsStick(cfg, start, evs, now, age) ensures YoungEnough(cfg, age) {
      ForwardedIsYoung(cfg, start, evs, now, age);
    }
    if YoungEnough(cfg, age) {
      var evs := StalenessIsReached(cfg, age);
    }
  }
}
