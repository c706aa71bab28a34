/** The contactors after the safety node has been shut down. */
module SafetyShutdown {
  import opened Messages
  import opened SafetySpec
  import opened SafetyLatch

  /** A node that has been shut down processes nothing. */
  predicate AtEase(s: Safety) {
    s.stage == Finalized ==> !s.processing
  }

  lemma AtEaseStep(s: Safety, ev: Event)
    requires AtEase(s)
    ensures AtEase(Step(s, ev).0)
  {
    if ev.Health? {
      AtEaseHealth(s, ev.state);
      hide HealthStep;
    }
  }

  lemma AtEaseHealth(s: Safety, state: uint8)
    ensures var t := HealthStep(s, state).0; t.stage == s.stage && t.processing == s.processing
  {
  }

  lemma {:induction false} AtEaseRun(evs: Trace)
    ensures AtEase(Run(Created(), evs))
  {
    if evs != [] {
      AtEaseRun(evs[..|evs| - 1]);
      hide Step;
      AtEaseStep(Run(Created(), evs[..|evs| - 1]), evs[|evs| - 1]);
    }
  }

  /** After a shutdown only the reset service still does anything, and it never opens the contactors. */
  lemma FinalStep(s: Safety, ev: Event)
    requires s.stage == Finalized && !s.processing
    ensures var (t, out) := Step(s, ev);
            && t.stage == Finalized && !t.processing && false !in out.contactor
            && (ev != Reset ==> t == s && out.contactor == [] && out.motor == [])
            && (!s.eStop && s.mode != Emergency ==> t == s && out == SILENT)
  {
  }

  lemma {:induction false} FinalRun(s: Safety, more: Trace)
    requires s.stage == Finalized && !s.processing
    ensures false !in ContactorLog(s, more)
    ensures Run(s, more).stage == Finalized && !Run(s, more).processing
  {
    if more != [] {
      FinalRun(s, more[..|more| - 1]);
      hide Step;
      FinalStep(Run(s, more[..|more| - 1]), more[|more| - 1]);
    }
  }

  /** Brings a node that is not finalized back into operation, powers it and stops it. */
  const REVIVAL: Trace :=
    [Deactivate, Configure(0.0, 0.0), Activate, Reset, Health(STATE_SOFTWARE_OK), EStop]

  lemma OneMore(s: Safety, n: nat)
    requires n < |REVIVAL|
    ensures Run(s, REVIVAL[..n + 1]) == Step(Run(s, REVIVAL[..n]), REVIVAL[n]).0
    ensures ContactorLog(s, REVIVAL[..n + 1])
            == ContactorLog(s, REVIVAL[..n]) + Step(Run(s, REVIVAL[..n]), REVIVAL[n]).1.contactor
  {
    assert REVIVAL[..n + 1] == REVIVAL[..n] + [REVIVAL[n]];
    RunExtend(s, REVIVAL[..n], REVIVAL[n]);
  }

  /** In operation and open. */
  lemma Revived(s: Safety)
    requires s.stage != Finalized
    ensures var t := Run(s, REVIVAL[..3]); t.stage == Active && t.processing && t.publishers == Some(true) && !t.closed
  {
    OneMore(s, 0);
    OneMore(s, 1);
    OneMore(s, 2);
    assert Run(s, REVIVAL[..0]) == s;
    hide Run, ContactorLog;
  }

  lemma RevivalOpens(s: Safety)
    requires s.stage != Finalized
    ensures false in ContactorLog(s, REVIVAL)
  {
    hide Run, ContactorLog;
    Revived(s);
    var t := Run(s, REVIVAL[..3]);
    OneMore(s, 3);
    OneMore(s, 4);
    OneMore(s, 5);
    assert REVIVAL[..6] == REVIVAL;
    StopOpens(t);
    var last := Step(Run(s, REVIVAL[..5]), EStop).1.contactor;
    assert last == [false];
    assert (ContactorLog(s, REVIVAL[..5]) + last)[|ContactorLog(s, REVIVAL[..5])|] == false;
  }

  lemma StopOpens(t: Safety)
    requires t.processing && t.publishers == Some(true) && !t.closed
    ensures var u := Step(Step(t, Reset).0, Health(STATE_SOFTWARE_OK)).0;
            Step(u, EStop).1.contactor == [false]
  {
  }

  /** From a reachable state, no continuation whatever makes the node open the contactors if and only if it has been
      shut down. */
  lemma {:induction false} NothingOpensIff(past: Trace)
    ensures (forall more: Trace :: false !in ContactorLog(Run(Created(), past), more))
            <==> Run(Created(), past).stage == Finalized
  {
    AtEaseRun(past);
    hide Run, ContactorLog;
    var s := Run(Created(), past);
    if s.stage == Finalized {
      forall more: Trace ensures false !in ContactorLog(s, more) {
        FinalRun(s, more);
      }
    } else {
      RevivalOpens(s);
    }
  }

  /** While the chain holds and the hardware is told to close, the same is true of single events. */
  lemma NoEventOpensIff(s: Safety, last: bool)
    requires Chain(s, last) && last && AtEase(s)
    ensures (forall ev: Event :: !Opens(s, ev)) <==> s.stage == Finalized
  {
    if s.stage == Finalized {
      forall ev: Event ensures !Opens(s, ev) {
        FinalStep(s, ev);
      }
    } else {
      assert Opens(s, Shutdown);
    }
  }

  predicate Opens(s: Safety, ev: Event) {
    false in Step(s, ev).1.contactor
  }

  // ----- powered for good -----

  /** The hardware has been told to close by a node that is shut down. */
  predicate PoweredForGood(evs: Trace) {
    Run(Created(), evs).stage == Finalized && LastTold(ContactorLog(Created(), evs))
  }

  /** A reset after the shutdown lifts the latch and closes the contactors. */
  predicate Repowers(s: Safety, ev: Event) {
    ev == Reset && s.stage == Finalized && (s.eStop || s.mode == Emergency) && Publishing(s) && !s.closed
  }

  /** A shutdown of a node that no longer knows, or can no longer say, that the hardware is closed. */
  predicate Abandons(s: Safety, last: bool, ev: Event) {
    ev == Shutdown && s.stage != Finalized && last && !(s.closed && Publishing(s))
  }

  lemma PowerStep(s: Safety, last: bool, ev: Event)
    requires AtEase(s)
    ensures var (t, out) := Step(s, ev);
            (t.stage == Finalized && if out.contactor == [] then last else LastTold(out.contactor))
            <==> (s.stage == Finalized && last) || Repowers(s, ev) || Abandons(s, last, ev)
  {
    if ev.Health? {
      HealthWhenFinal(s, ev.state);
      hide HealthStep;
    }
  }

  lemma HealthWhenFinal(s: Safety, state: uint8)
    ensures HealthStep(s, state).0.stage == s.stage
    ensures !s.processing ==> HealthStep(s, state) == (s, SILENT)
  {
  }

  predicate RepowersAt(evs: Trace, i: nat)
    requires i < |evs|
  {
    Repowers(Run(Created(), evs[..i]), evs[i])
  }

  predicate AbandonsAt(evs: Trace, i: nat)
    requires i < |evs|
  {
    Abandons(Run(Created(), evs[..i]), LastTold(ContactorLog(Created(), evs[..i])), evs[i])
  }

  predicate DoomedAt(evs: Trace, i: nat)
    requires i < |evs|
  {
    RepowersAt(evs, i) || AbandonsAt(evs, i)
  }

  ghost predicate Doomed(evs: Trace) {
    exists i: nat :: i < |evs| && DoomedAt(evs, i)
  }

  lemma SameDoom(evs: Trace, n: nat, i: nat)
    requires i < n <= |evs|
    ensures DoomedAt(evs[..n], i) <==> DoomedAt(evs, i)
  {
    hide Repowers, Abandons;
    assert evs[..n][..i] == evs[..i];
  }

  lemma DoomedExtends(evs: Trace)
    requires evs != []
    ensures Doomed(evs) <==> Doomed(evs[..|evs| - 1]) || DoomedAt(evs, |evs| - 1)
  {
    hide DoomedAt;
    var n := |evs| - 1;
    if i: nat :| i < n && DoomedAt(evs[..n], i) { SameDoom(evs, n, i); }
    if i: nat :| i < |evs| && DoomedAt(evs, i) {
      if i < n { SameDoom(evs, n, i); }
    }
  }

  /** Contactors stay closed for good exactly when the latch is reset after a shutdown, with the publishers still
      activated, or a node is shut down that has lost track of closed contactors; and the second needs a lifecycle
      error. */
  lemma {:induction false} PoweredForGoodIff(evs: Trace)
    ensures PoweredForGood(evs) <==> Doomed(evs)
    ensures Error !in evs ==> (PoweredForGood(evs) <==> exists i: nat :: i < |evs| && RepowersAt(evs, i))
  {
    PoweredRun(evs);
    hide PoweredForGood, RepowersAt;
    if Error !in evs {
      forall i: nat | i < |evs| ensures !AbandonsAt(evs, i) {
        ChainWithoutErrors(evs[..i]);
      }
      if i: nat :| i < |evs| && DoomedAt(evs, i) { assert RepowersAt(evs, i); }
      if i: nat :| i < |evs| && RepowersAt(evs, i) { assert DoomedAt(evs, i); }
    }
  }

  lemma {:induction false} PoweredRun(evs: Trace)
    ensures PoweredForGood(evs) <==> Doomed(evs)
  {
    if evs != [] {
      var before, ev := evs[..|evs| - 1], evs[|evs| - 1];
      PoweredRun(before);
      AtEaseRun(before);
      DoomedExtends(evs);
      hide Doomed, AtEase, Repowers, Abandons, Step;
      var s, log := Run(Created(), before), ContactorLog(Created(), before);
      PowerStep(s, LastTold(log), ev);
      LastToldAppend(log, Step(s, ev).1.contactor);
    }
  }

  /** An ordinary life does it: stop, shut down, reset. Every further event, the emergency stop included, then
      does nothing, although the chain holds. */
  lemma {:induction false} ResetAfterShutdown(normal: real, degraded: real) returns (evs: Trace)
    ensures evs == [Configure(normal, degraded), Activate, EStop, Shutdown, Reset]
    ensures PoweredForGood(evs) && Chain(Run(Created(), evs), LastTold(ContactorLog(Created(), evs)))
    ensures forall ev: Event :: Step(Run(Created(), evs), ev) == (Run(Created(), evs), SILENT)
  {
    NothingYet();
    hide Run, ContactorLog;
    evs := After([], Created(), [], Configure(normal, degraded));
    var s := Created().(maxNormal := normal, maxDegraded := degraded, stage := Inactive, publishers := Some(false));
    evs := After(evs, s, [], Activate);
    s := s.(processing := true, stage := Active, publishers := Some(true));
    evs := After(evs, s, [], EStop);
    s := s.(eStop := true, mode := Emergency);
    evs := After(evs, s, [], Shutdown);
    s := s.(processing := false, stage := Finalized);
    evs := After(evs, s, [], Reset);
    s := s.(eStop := false, mode := Normal, closed := true);
    assert Run(Created(), evs) == s;
    forall ev: Event ensures Step(s, ev) == (s, SILENT) {
      FinalStep(s, ev);
    }
  }
}
