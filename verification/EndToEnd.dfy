/** What reaches the motors, in every interleaving of the three nodes. */
module EndToEnd {
  import opened Messages
  import opened SystemSpec
  import Mux = MuxSpec
  import Saf = SafetySpec
  import Smoothing

  predicate SentWithin(x: Sent) {
    0.0 <= x.limit && Within(x.velocity, x.limit) && 0.0 <= x.alpha <= 1.0
  }

  /** A motor command obeys the sender's limit, is zero when the sender is halted, never exceeds the velocity
      it answers, and equals it when that was already clamped at least as tightly. */
  predicate Proper(c: MotorCommand, sent: seq<Sent>) {
    && Within(c.command, Saf.SpeedLimit(c.sender))
    && (c.origin == None || Saf.Halted(c.sender) ==> c.command == ZERO_TWIST)
    && (c.origin.Some? ==>
          && c.origin.value < |sent|
          && NoLarger(c.command, 1.0, sent[c.origin.value].velocity)
          && (sent[c.origin.value].limit <= Saf.SpeedLimit(c.sender) ==> c.command == sent[c.origin.value].velocity))
  }

  /** A queued message is the published velocity it is marked as. */
  predicate Genuine(m: Message, sent: seq<Sent>) {
    m.index < |sent| && sent[m.index].velocity == m.velocity
  }

  predicate AllProper(s: System) {
    && (forall i :: 0 <= i < |s.sent| ==> SentWithin(s.sent[i]))
    && (forall i :: 0 <= i < |s.velocityToSafety| ==> Genuine(s.velocityToSafety[i], s.sent))
    && (forall i :: 0 <= i < |s.motor| ==> Proper(s.motor[i], s.sent))
  }

  lemma FilterWithin(alpha: real, goal: Twist, limit: real, v: Twist)
    requires 0.0 <= limit
    ensures Within(Smoothing.FilterTwist(alpha, goal, limit, v), limit)
  {
    AxisWithin(alpha, goal.x, limit, v.x);
    AxisWithin(alpha, goal.y, limit, v.y);
    AxisWithin(alpha, goal.yaw, limit, v.yaw);
    hide Smoothing.Filter;
  }

  lemma AxisWithin(alpha: real, goal: real, limit: real, v: real)
    requires 0.0 <= limit
    ensures Abs(Smoothing.Filter(alpha, goal, limit, v)) <= limit
  {
  }

  lemma SentByWithin(m: Mux.Mux, now: real, ev: Mux.Event)
    requires Mux.Sensible(m.cfg)
    ensures forall i :: 0 <= i < |SentBy(m, now, ev)| ==> SentWithin(SentBy(m, now, ev)[i])
  {
    hide Smoothing.FilterTwist, Within;
    var route := Mux.Route(m, now);
    if route.Some? {
      FilterWithin(m.cfg.alpha, route.value.1, Mux.SpeedLimit(m), m.current);
    }
  }

  lemma CommandsByProper(s: Saf.Safety, ev: Saf.Event, origin: Option<nat>, sent: seq<Sent>)
    requires 0.0 <= s.maxNormal && 0.0 <= s.maxDegraded
    requires ev.Smoothed? <==> origin.Some?
    requires ev.Smoothed? ==> Genuine(Message(ev.msg, origin.value), sent) && SentWithin(sent[origin.value])
    ensures forall i :: 0 <= i < |CommandsBy(s, ev, origin)| ==> Proper(CommandsBy(s, ev, origin)[i], sent)
  {
    if ev.Smoothed? {
      ClampTwistMeaning(ev.msg, Saf.SpeedLimit(s));
    } else {
      OnlyStops(s, ev);
    }
    hide Saf.Step, ClampTwist;
  }

  lemma OnlyStops(s: Saf.Safety, ev: Saf.Event)
    requires !ev.Smoothed?
    ensures Saf.Step(s, ev).1.motor == [] || Saf.Step(s, ev).1.motor == [ZERO_TWIST]
  {
  }

  /** A step adds at most the velocity it publishes to the queue. */
  lemma StepQueue(s: System, now: real, ev: Event, i: nat)
    requires i < |Step(s, now, ev).velocityToSafety|
    ensures var t := Step(s, now, ev);
            var m := t.velocityToSafety[i];
            m in s.velocityToSafety
            || (|t.sent| == |s.sent| + 1 && m == Message(t.sent[|s.sent|].velocity, |s.sent|))
  {
    hide Mux.Step, Saf.Step, Without;
    match ev
    case LoseVelocity(j) => WithoutIsFrom(s.velocityToSafety, j);
    case _ =>
  }

  lemma WithoutIsFrom<T>(q: seq<T>, i: nat)
    ensures forall m :: m in Without(q, i) ==> m in q
  {
  }

  /** A step only appends to what has been published. */
  lemma SentGrows(s: System, now: real, ev: Event)
    ensures var t := Step(s, now, ev);
            |s.sent| <= |t.sent| <= |s.sent| + 1 && t.sent[..|s.sent|] == s.sent
  {
    StepParts(s, now, ev);
    hide Step, Mux.Step;
  }

  lemma StepGenuine(s: System, now: real, ev: Event)
    requires AllProper(s)
    ensures var t := Step(s, now, ev);
            forall i :: 0 <= i < |t.velocityToSafety| ==> Genuine(t.velocityToSafety[i], t.sent)
  {
    var t := Step(s, now, ev);
    SentGrows(s, now, ev);
    assert forall k :: 0 <= k < |s.sent| ==> t.sent[k] == s.sent[k];
    hide Step, Proper, SentWithin;
    forall i | 0 <= i < |t.velocityToSafety| ensures Genuine(t.velocityToSafety[i], t.sent) {
      StepQueue(s, now, ev, i);
    }
  }

  lemma StepSent(s: System, now: real, ev: Event)
    requires WellSet(s) && AllProper(s)
    ensures var t := Step(s, now, ev); forall i :: 0 <= i < |t.sent| ==> SentWithin(t.sent[i])
  {
    StepParts(s, now, ev);
    var fed := MuxFeed(s, ev);
    if fed.Some? { SentByWithin(s.mux, now, fed.value); }
    hide Step, SentBy, SentWithin, Proper, Genuine, CommandsBy;
  }

  lemma StepMotor(s: System, now: real, ev: Event)
    requires WellSet(s) && Permitted(ev) && AllProper(s)
    ensures var t := Step(s, now, ev); forall i :: 0 <= i < |t.motor| ==> Proper(t.motor[i], t.sent)
  {
    StepParts(s, now, ev);
    SentGrows(s, now, ev);
    var t, given := Step(s, now, ev), SafetyFeed(s, ev);
    if given.Some? {
      assert given.value.Smoothed? ==> Genuine(s.velocityToSafety[0], s.sent);
      CommandsByProper(s.safety, given.value, Origin(s, ev), s.sent);
    }
    hide Step, SentBy, CommandsBy, SentWithin, Proper, Genuine;
    forall i | 0 <= i < |t.motor| ensures Proper(t.motor[i], t.sent) {
      ProperGrows(t.motor[i], s.sent, t.sent);
    }
  }

  lemma StepProper(s: System, now: real, ev: Event)
    requires WellSet(s) && Permitted(ev) && AllProper(s)
    ensures AllProper(Step(s, now, ev))
    ensures |s.sent| <= |Step(s, now, ev).sent| && Step(s, now, ev).sent[..|s.sent|] == s.sent
  {
    SentGrows(s, now, ev);
    StepSent(s, now, ev);
    StepGenuine(s, now, ev);
    StepMotor(s, now, ev);
    hide Step, SentWithin, Proper, Genuine;
  }

  lemma ProperGrows(c: MotorCommand, sent: seq<Sent>, more: seq<Sent>)
    requires Proper(c, sent) && |sent| <= |more| && more[..|sent|] == sent
    ensures Proper(c, more)
  {
    assert c.origin.Some? ==> more[c.origin.value] == sent[c.origin.value];
  }

  lemma {:induction false} RunProper(s: System, evs: Trace)
    requires WellSet(s) && AllProper(s) && AllPermitted(evs)
    ensures WellSet(Run(s, evs)) && AllProper(Run(s, evs))
    ensures |s.sent| <= |Run(s, evs).sent|
  {
    if evs != [] {
      var e := evs[|evs| - 1];
      RunProper(s, evs[..|evs| - 1]);
      hide Step, WellSet, AllProper;
      StepWellSet(Run(s, evs[..|evs| - 1]), e.at, e.ev);
      StepProper(Run(s, evs[..|evs| - 1]), e.at, e.ev);
    }
  }

  /** End-to-end velocity bound: every motor command ever sent is proper. */
  lemma {:induction false} EndToEndBound(s: System, start: real, evs: Trace)
    requires Initial(s, start) && AllPermitted(evs)
    ensures AllProper(Run(s, evs))
  {
    RunProper(s, evs);
  }
}
