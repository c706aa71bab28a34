/** What a blocked multiplexer still sends: ever smaller velocities. */
module Decline {
  import opened Messages
  import opened SystemSpec
  import opened EndToEnd
  import opened Smoothing
  import Mux = MuxSpec

  /** A blocked multiplexer only ever slows down, and sends what it does. */
  lemma BlockedMux(m: Mux.Mux, now: real, ev: Mux.Event)
    requires Mux.Sensible(m.cfg) && m.safetyBlocked
    ensures var n := Mux.Step(m, now, ev).0;
            if SentBy(m, now, ev) == [] then n.current == m.current
            else && SentBy(m, now, ev) == [Sent(n.current, Mux.SpeedLimit(m), m.cfg.alpha)]
                 && NoLarger(n.current, 1.0 - m.cfg.alpha, m.current)
  {
    ZeroGoalShrinks(m.cfg.alpha, Mux.SpeedLimit(m), m.current);
    hide FilterTwist, NoLarger;
  }

  /** One step publishes nothing, or a velocity shrunk by the filter weight used. */
  predicate Slows(s: System, t: System) {
    if t.sent == s.sent then t.mux.current == s.mux.current
    else && |t.sent| == |s.sent| + 1 && t.sent[..|s.sent|] == s.sent
         && t.sent[|s.sent|].velocity == t.mux.current && t.sent[|s.sent|].alpha <= 1.0
         && NoLarger(t.mux.current, 1.0 - t.sent[|s.sent|].alpha, s.mux.current)
  }

  lemma BlockedStep(s: System, now: real, ev: Event)
    requires WellSet(s) && s.mux.safetyBlocked
    ensures Slows(s, Step(s, now, ev))
  {
    StepParts(s, now, ev);
    var fed := MuxFeed(s, ev);
    if fed.Some? { BlockedMux(s.mux, now, fed.value); }
    hide Step, Mux.Step, SentBy, CommandsBy, NoLarger;
  }

  /** How far the outputs from index `from` up to `upto` shrink a velocity: each by one minus the filter
      weight it was computed with. */
  function Shrink(sent: seq<Sent>, from: nat, upto: nat): real
    requires from <= upto <= |sent|
  {
    if upto == from then 1.0 else (1.0 - sent[upto - 1].alpha) * Shrink(sent, from, upto - 1)
  }

  lemma {:induction false} ShrinkExtends(sent: seq<Sent>, more: seq<Sent>, from: nat, upto: nat)
    requires from <= upto <= |sent| <= |more| && more[..|sent|] == sent
    ensures Shrink(more, from, upto) == Shrink(sent, from, upto)
  {
    if from < upto {
      ShrinkExtends(sent, more, from, upto - 1);
      assert more[..|sent|][upto - 1] == more[upto - 1];
    }
  }

  /** The velocity sent at index `k`, if after `from`, has shrunk from `v` output by output, on each axis. */
  predicate Decayed(sent: seq<Sent>, from: nat, k: int, v: Twist) {
    from <= k < |sent| ==> NoLarger(sent[k].velocity, Shrink(sent, from, k + 1), v)
  }

  /** Since `from` outputs had been sent, at velocity `v`, all have decayed. */
  ghost predicate Descent(t: System, from: nat, v: Twist) {
    && from <= |t.sent|
    && NoLarger(t.mux.current, Shrink(t.sent, from, |t.sent|), v)
    && forall k :: Decayed(t.sent, from, k, v)
  }

  /** One more output of a decaying sequence. */
  lemma DecayStep(u: System, t: System, from: nat, v: Twist)
    requires Slows(u, t) && t.sent != u.sent && from <= |u.sent|
    requires NoLarger(u.mux.current, Shrink(u.sent, from, |u.sent|), v)
    requires forall k :: Decayed(u.sent, from, k, v)
    ensures NoLarger(t.mux.current, Shrink(t.sent, from, |t.sent|), v)
    ensures forall k :: Decayed(t.sent, from, k, v)
  {
    hide NoLarger;
    var n := |u.sent|;
    var so := Shrink(u.sent, from, n);
    ShrinkExtends(u.sent, t.sent, from, n);
    NoLargerCompounds(t.mux.current, 1.0 - t.sent[n].alpha, u.mux.current, so, v, Shrink(t.sent, from, n + 1));
    hide Shrink;
    forall k ensures Decayed(t.sent, from, k, v) {
      assert Decayed(u.sent, from, k, v);
      if from <= k < n {
        ShrinkExtends(u.sent, t.sent, from, k + 1);
        assert t.sent[..n][k] == t.sent[k];
      }
    }
  }

  lemma DescentStep(u: System, from: nat, v: Twist, now: real, ev: Event)
    requires WellSet(u) && u.mux.safetyBlocked && Descent(u, from, v)
    ensures Descent(Step(u, now, ev), from, v)
  {
    hide NoLarger, Decayed, Step, WellSet, Shrink;
    BlockedStep(u, now, ev);
    SentGrows(u, now, ev);
    var t := Step(u, now, ev);
    if t.sent == u.sent {
      assert t.mux.current == u.mux.current;
      assert forall k :: Decayed(t.sent, from, k, v) <==> Decayed(u.sent, from, k, v);
    } else {
      DecayStep(u, t, from, v);
    }
  }

  /** The multiplexer is blocked throughout the run. */
  ghost predicate StaysBlocked(s: System, evs: Trace) {
    forall n: nat :: n <= |evs| ==> Run(s, evs[..n]).mux.safetyBlocked
  }

  lemma BlockedBefore(s: System, evs: Trace)
    requires StaysBlocked(s, evs) && evs != []
    ensures StaysBlocked(s, evs[..|evs| - 1]) && Run(s, evs[..|evs| - 1]).mux.safetyBlocked
  {
    hide Run;
    var before := evs[..|evs| - 1];
    forall n: nat | n <= |before| ensures Run(s, before[..n]).mux.safetyBlocked {
      assert before[..n] == evs[..n];
    }
    assert before[..|before|] == before;
  }

  lemma {:induction false} BlockedRun(s: System, evs: Trace)
    requires WellSet(s) && AllProper(s) && AllPermitted(evs) && StaysBlocked(s, evs)
    ensures Descent(Run(s, evs), |s.sent|, s.mux.current)
  {
    if evs == [] {
      OnceItself(s.mux.current);
    } else {
      var before, e := evs[..|evs| - 1], evs[|evs| - 1];
      assert Run(s, evs) == Step(Run(s, before), e.at, e.ev);
      assert AllPermitted(before);
      hide *;
      BlockedBefore(s, evs);
      BlockedRun(s, before);
      RunProper(s, before);
      DescentStep(Run(s, before), |s.sent|, s.mux.current, e.at, e.ev);
    }
  }

  /** Every velocity sent after the first `from`, and every command that answers one, has decayed from `v`. */
  ghost predicate Stopping(t: System, from: nat, v: Twist) {
    && (forall k :: Decayed(t.sent, from, k, v))
    && (forall i :: 0 <= i < |t.motor| ==> AnswerDecayed(t.motor[i], t.sent, from, v))
  }

  predicate AnswerDecayed(c: MotorCommand, sent: seq<Sent>, from: nat, v: Twist) {
    c.origin.Some? && from <= c.origin.value ==>
      c.origin.value < |sent| && NoLarger(c.command, Shrink(sent, from, c.origin.value + 1), v)
  }

  lemma AnswersDecay(t: System, from: nat, v: Twist)
    requires AllProper(t) && forall k :: Decayed(t.sent, from, k, v)
    ensures Stopping(t, from, v)
  {
    forall i | 0 <= i < |t.motor| ensures AnswerDecayed(t.motor[i], t.sent, from, v) {
      var c := t.motor[i];
      assert Proper(c, t.sent);
      if c.origin.Some? && from <= c.origin.value {
        var k := c.origin.value;
        assert Decayed(t.sent, from, k, v);
        hide NoLarger, Shrink, Within;
        var p := Shrink(t.sent, from, k + 1);
        NoLargerCompounds(c.command, 1.0, t.sent[k].velocity, p, v, p);
      }
    }
  }

  /** The shrinking factors form a falling sequence of non-negative numbers, and with one filter weight `alpha`
      throughout they are the powers of 1 - alpha. */
  ghost predicate Falling(sent: seq<Sent>, from: nat) {
    forall k :: FallsAt(sent, from, k)
  }

  predicate FallsAt(sent: seq<Sent>, from: nat, k: int) {
    from <= k < |sent| ==> 0.0 <= Shrink(sent, from, k + 1) <= Shrink(sent, from, k)
  }

  predicate Geometric(sent: seq<Sent>, from: nat, keep: real) {
    forall k :: from <= k <= |sent| ==> Shrink(sent, from, k) == Pow(keep, k - from)
  }

  lemma {:induction false} ShrinkNonNegative(sent: seq<Sent>, from: nat, upto: nat)
    requires from <= upto <= |sent| && forall i :: 0 <= i < |sent| ==> sent[i].alpha <= 1.0
    ensures 0.0 <= Shrink(sent, from, upto)
  {
    if from < upto {
      ShrinkNonNegative(sent, from, upto - 1);
      ScaleLe(1.0 - sent[upto - 1].alpha, 0.0, Shrink(sent, from, upto - 1));
    }
  }

  lemma ShrinkFalls(sent: seq<Sent>, from: nat)
    requires forall i :: 0 <= i < |sent| ==> 0.0 <= sent[i].alpha <= 1.0
    ensures Falling(sent, from)
  {
    forall k ensures FallsAt(sent, from, k) {
      if from <= k < |sent| {
        ShrinkNonNegative(sent, from, k);
        ShrinkNonNegative(sent, from, k + 1);
        ScaleLe(Shrink(sent, from, k), 1.0 - sent[k].alpha, 1.0);
      }
    }
  }

  lemma {:induction false} ShrinkIsPower(sent: seq<Sent>, from: nat, upto: nat, alpha: real)
    requires from <= upto <= |sent| && forall i :: from <= i < |sent| ==> sent[i].alpha == alpha
    ensures Shrink(sent, from, upto) == Pow(1.0 - alpha, upto - from)
  {
    if from < upto { ShrinkIsPower(sent, from, upto - 1, alpha); }
  }

  /** No reconfiguration changes the filter weight. */
  predicate KeepsAlpha(alpha: real, ev: Event) {
    ev.MuxInput? && ev.mux.Configure? ==> ev.mux.cfg.alpha == alpha
  }

  predicate AllKeepAlpha(alpha: real, evs: Trace) {
    forall i :: 0 <= i < |evs| ==> KeepsAlpha(alpha, evs[i].ev)
  }

  lemma AlphaStep(s: System, now: real, ev: Event)
    requires KeepsAlpha(s.mux.cfg.alpha, ev)
    ensures var t := Step(s, now, ev);
            && t.mux.cfg.alpha == s.mux.cfg.alpha
            && forall i :: |s.sent| <= i < |t.sent| ==> t.sent[i].alpha == s.mux.cfg.alpha
  {
    StepParts(s, now, ev);
    var fed := MuxFeed(s, ev);
    if fed.Some? { MuxKeepsAlpha(s.mux, now, fed.value); }
    hide Step, SentBy, CommandsBy, Mux.Step;
  }

  lemma MuxKeepsAlpha(m: Mux.Mux, now: real, ev: Mux.Event)
    ensures var n := Mux.Step(m, now, ev).0; n.cfg == m.cfg || (ev.Configure? && n.cfg == ev.cfg)
    ensures forall i :: 0 <= i < |SentBy(m, now, ev)| ==> SentBy(m, now, ev)[i].alpha == m.cfg.alpha
  {
    hide FilterTwist, Mux.Route;
  }

  lemma {:induction false} AlphaRun(s: System, evs: Trace)
    requires AllKeepAlpha(s.mux.cfg.alpha, evs)
    ensures var t := Run(s, evs);
            && t.mux.cfg.alpha == s.mux.cfg.alpha && |s.sent| <= |t.sent|
            && forall i :: |s.sent| <= i < |t.sent| ==> t.sent[i].alpha == s.mux.cfg.alpha
  {
    if evs != [] {
      var before, e := evs[..|evs| - 1], evs[|evs| - 1];
      AlphaRun(s, before);
      var u := Run(s, before);
      AlphaStep(u, e.at, e.ev);
      SentGrows(u, e.at, e.ev);
      assert forall i :: 0 <= i < |u.sent| ==> Step(u, e.at, e.ev).sent[i] == u.sent[i];
      hide Step;
    }
  }

  lemma GeometricFrom(g: System, future: Trace)
    requires AllKeepAlpha(g.mux.cfg.alpha, future)
    ensures Geometric(Run(g, future).sent, |g.sent|, 1.0 - g.mux.cfg.alpha)
  {
    hide Run, Shrink, Pow, AllKeepAlpha;
    AlphaRun(g, future);
    var sent := Run(g, future).sent;
    forall k | |g.sent| <= k <= |sent| ensures Shrink(sent, |g.sent|, k) == Pow(1.0 - g.mux.cfg.alpha, k - |g.sent|) {
      ShrinkIsPower(sent, |g.sent|, k, g.mux.cfg.alpha);
    }
  }

  /** What a blocked multiplexer has done since state `g`, up to state `t`. */
  ghost predicate Declined(g: System, t: System) {
    Stopping(t, |g.sent|, g.mux.current) && Falling(t.sent, |g.sent|)
  }

  /** Blocked throughout, with outputs and motor commands that decay: by the product of 1 - alpha over the outputs,
      which unless a reconfiguration changes the filter weight is (1 - alpha)^n for the n-th. */
  ghost predicate DeclinesFrom(g: System, future: Trace) {
    && StaysBlocked(g, future) && Declined(g, Run(g, future))
    && (AllKeepAlpha(g.mux.cfg.alpha, future) ==>
          Geometric(Run(g, future).sent, |g.sent|, 1.0 - g.mux.cfg.alpha))
  }

  /** In every run during which the multiplexer is blocked, for whatever reason, each output is at most the
      velocity at its beginning times the product of 1 - alpha over the outputs since, and so is every motor
      command that answers it. */
  lemma {:induction false} BlockedStops(g: System, future: Trace)
    requires WellSet(g) && AllProper(g) && AllPermitted(future) && StaysBlocked(g, future)
    ensures DeclinesFrom(g, future)
  {
    hide Run, WellSet, AllPermitted, StaysBlocked, Stopping, Decayed, Proper, Genuine, Within, AllKeepAlpha, Geometric;
    BlockedRun(g, future);
    RunProper(g, future);
    AnswersDecay(Run(g, future), |g.sent|, g.mux.current);
    ShrinkFalls(Run(g, future).sent, |g.sent|);
    if AllKeepAlpha(g.mux.cfg.alpha, future) { GeometricFrom(g, future); }
  }

  lemma InitialSound(s: System, start: real)
    requires Initial(s, start)
    ensures WellSet(s) && AllProper(s)
  {
  }
}
