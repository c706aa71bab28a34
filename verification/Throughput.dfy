/** That the robot obeys: commands get through the composed system when nothing forbids it. */
module Throughput {
  import opened Messages
  import opened SystemSpec
  import opened EndToEnd
  import Mux = MuxSpec
  import Saf = SafetySpec
  import MuxForwarding
  import SafetyAnswers
  import Degradation
  import Smoothing

  /** In every reachable state an operating safety node that reads a velocity sends exactly one motor command: zero
      if it is latched or in a stop mode; otherwise the velocity read, clipped to its limit; so the velocity itself
      if the multiplexer clamped it at least as tightly. A node that does not operate sends none. */
  lemma {:induction false} VelocityAnswered(s0: System, start: real, evs: Trace, now: real)
    requires Initial(s0, start) && AllPermitted(evs) && Run(s0, evs).velocityToSafety != []
    ensures var s := Run(s0, evs);
            var t, m := Step(s, now, VelocityReachesSafety), s.velocityToSafety[0];
            && t.safety == s.safety && t.mux == s.mux && t.velocityToSafety == s.velocityToSafety[1..]
            && (!SafetyAnswers.Operating(s.safety) ==> t.motor == s.motor)
            && (SafetyAnswers.Operating(s.safety) ==>
                  && |t.motor| == |s.motor| + 1 && t.motor[..|s.motor|] == s.motor
                  && Answers(t.motor[|s.motor|].command, m, s.safety, s.sent))
  {
    hide Run, Initial;
    InitialSound(s0, start);
    RunProper(s0, evs);
    AnsweredIn(Run(s0, evs), now);
  }

  lemma InitialSound(s: System, start: real)
    requires Initial(s, start)
    ensures WellSet(s) && AllProper(s)
  {
  }

  /** The answer to a queued velocity. */
  predicate Answers(command: Twist, m: Message, s: Saf.Safety, sent: seq<Sent>) {
    && m.index < |sent|
    && if s.eStop || s.mode == Saf.ProtectiveStop || s.mode == Saf.Emergency then command == ZERO_TWIST
       else
         var limit := if s.mode == Saf.Degraded then s.maxDegraded else s.maxNormal;
         && SafetyAnswers.ClippedTwist(command, m.velocity, limit)
         && (sent[m.index].limit <= limit ==> command == sent[m.index].velocity)
  }

  lemma AnsweredIn(s: System, now: real)
    requires WellSet(s) && AllProper(s) && s.velocityToSafety != []
    ensures var t, m := Step(s, now, VelocityReachesSafety), s.velocityToSafety[0];
            && t.safety == s.safety && t.mux == s.mux && t.velocityToSafety == s.velocityToSafety[1..]
            && (!SafetyAnswers.Operating(s.safety) ==> t.motor == s.motor)
            && (SafetyAnswers.Operating(s.safety) ==>
                  && |t.motor| == |s.motor| + 1 && t.motor[..|s.motor|] == s.motor
                  && Answers(t.motor[|s.motor|].command, m, s.safety, s.sent))
  {
    var m := s.velocityToSafety[0];
    assert Genuine(m, s.sent) && SentWithin(s.sent[m.index]);
    if SafetyAnswers.Operating(s.safety) {
      SafetyAnswers.VelocityAnswer(s.safety, m.velocity);
    } else {
      SafetyAnswers.NothingWhenIdle(s.safety, m.velocity);
    }
    hide Saf.Step, Proper;
  }

  /** Both nodes in operation, nothing halted or under way, and the safety limit no tighter. */
  predicate ReadyToDrive(s: System) {
    && s.mux.configured && s.mux.active && !s.mux.crashed && !s.mux.safetyBlocked && s.velocityToSafety == []
    && SafetyAnswers.Operating(s.safety) && !s.safety.eStop
    && s.safety.mode != Saf.ProtectiveStop && s.safety.mode != Saf.Emergency
    && s.mux.cfg.maxNormal <= s.safety.maxNormal
  }

  /** The stick reaches the wheels: in every reachable state that is ready to drive, a stick message that commands
      motion, the control tick after it and the delivery of what that publishes end in exactly one more motor
      command, and it is the multiplexer's velocity moved towards the stick. */
  lemma {:induction false} StickReachesWheels(s0: System, start: real, evs: Trace, at: real, msg: Twist, ready: bool)
    requires Initial(s0, start) && AllPermitted(evs) && ReadyToDrive(Run(s0, evs)) && MuxForwarding.Moves(msg)
    ensures var s := Run(s0, evs);
            var a := Step(s, at, MuxInput(Mux.Teleop(msg, ready)));
            var b := Step(a, at, MuxInput(Mux.ControlTick));
            var c := Step(b, at, VelocityReachesSafety);
            && |c.motor| == |s.motor| + 1 && c.motor[..|s.motor|] == s.motor
            && MuxForwarding.ApproachesTwist(c.motor[|s.motor|].command, s.mux.current, msg,
                                             s.mux.cfg.alpha, s.mux.cfg.maxNormal)
  {
    hide Run, Initial, Step;
    InitialSound(s0, start);
    RunProper(s0, evs);
    Degradation.NeverDegraded(s0, start, evs);
    var s := Run(s0, evs);
    StickThenTick(s, at, msg, ready);
    var a := Step(s, at, MuxInput(Mux.Teleop(msg, ready)));
    StepWellSet(s, at, MuxInput(Mux.Teleop(msg, ready)));
    StepProper(s, at, MuxInput(Mux.Teleop(msg, ready)));
    var b := Step(a, at, MuxInput(Mux.ControlTick));
    StepWellSet(a, at, MuxInput(Mux.ControlTick));
    StepProper(a, at, MuxInput(Mux.ControlTick));
    AnsweredIn(b, at);
    hide WellSet, AllProper, MuxForwarding.ApproachesTwist, SafetyAnswers.ClippedTwist;
  }

  /** The stick message and the tick leave one velocity under way, moved towards the stick. */
  lemma StickThenTick(s: System, at: real, msg: Twist, ready: bool)
    requires WellSet(s) && ReadyToDrive(s) && !s.mux.degraded && s.safety.mode != Saf.Degraded
    requires MuxForwarding.Moves(msg)
    ensures var a := Step(s, at, MuxInput(Mux.Teleop(msg, ready)));
            var b := Step(a, at, MuxInput(Mux.ControlTick));
            && b.safety == s.safety && b.motor == s.motor
            && |b.sent| == |s.sent| + 1 && b.sent[|s.sent|].limit == s.mux.cfg.maxNormal
            && b.velocityToSafety == [Message(b.sent[|s.sent|].velocity, |s.sent|)]
            && MuxForwarding.ApproachesTwist(b.sent[|s.sent|].velocity, s.mux.current, msg,
                                             s.mux.cfg.alpha, s.mux.cfg.maxNormal)
  {
    var m := s.mux;
    MuxForwarding.StickTakesOver(m, at, msg, ready);
    MuxForwarding.OnlyTicksPublish(m, at, Mux.Teleop(msg, ready));
    var a := Step(s, at, MuxInput(Mux.Teleop(msg, ready)));
    var n := m.(lastTeleop := msg, mode := Mux.Manual, lastTeleopTime := at);
    assert a.mux == n && a.sent == s.sent && a.velocityToSafety == [] && a.safety == s.safety && a.motor == s.motor;
    TickAims(n, at);
    MuxForwarding.TickVelocity(n, at);
    MuxForwarding.TickPublishes(n, at);
    hide Mux.Step, MuxForwarding.ApproachesTwist;
  }

  lemma TickAims(n: Mux.Mux, at: real)
    requires n.configured && n.active && !n.crashed && !n.safetyBlocked && n.mode == Mux.Manual
    requires n.lastTeleopTime == at && Mux.Sensible(n.cfg)
    ensures var t := Mux.Step(n, at, Mux.ControlTick).0; !t.crashed && t.target == n.lastTeleop && t.mode == Mux.Manual
  {
    hide Smoothing.FilterTwist;
  }

  /** The multiplexer hears the safety state once per tick: a tick that does not throw puts one message with the code
      of the new mode under way, and when an operating safety node reads it, it is recorded and answered with exactly
      one announcement of the safety state, which joins the queue to the multiplexer. */
  lemma TickIsAnswered(s: System, at: real)
    requires s.mux.configured && s.mux.active && !s.mux.crashed && s.mux.mode != Mux.Unconfigured
    requires SafetyAnswers.Operating(s.safety) && s.muxStateToSafety == []
    ensures var b := Step(s, at, MuxInput(Mux.ControlTick));
            var c := Step(b, at, MuxStateReachesSafety);
            !b.mux.crashed ==>
              && |b.muxStateToSafety| == 1 && MuxForwarding.CodeOf(b.mux.mode, b.muxStateToSafety[0])
              && c.muxStateToSafety == [] && c.safety == s.safety.(lastMux := b.muxStateToSafety[0])
              && |c.safetyStateToMux| == |s.safetyStateToMux| + 1
              && c.safetyStateToMux[..|s.safetyStateToMux|] == s.safetyStateToMux
              && SafetyAnswers.Announces(c.safety, c.safetyStateToMux[|s.safetyStateToMux|])
  {
    var b := Step(s, at, MuxInput(Mux.ControlTick));
    MuxForwarding.TickPublishes(s.mux, at);
    if !b.mux.crashed {
      SafetyAnswers.StateAnswers(s.safety, Saf.MuxState(b.muxStateToSafety[0]));
    }
    hide Mux.Step, SafetyAnswers.Announces;
  }
}
