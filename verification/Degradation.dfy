/** The degraded and reconfigured modes in the composed system: nothing ever asks for them. */
module Degradation {
  import opened Messages
  import opened SystemSpec
  import Mon = MonitorSpec
  import Mux = MuxSpec
  import Saf = SafetySpec
  import Smoothing

  predicate AllTierFree(q: seq<uint8>) {
    forall i :: 0 <= i < |q| ==> Mon.TierFree(q[i])
  }

  /** No health message asks for a degraded, reconfigured or protective state, and no node is in one for it. */
  predicate Undegraded(s: System) {
    && Mon.AllDisciplined(s.nodes)
    && AllTierFree(s.healthToMux) && AllTierFree(s.healthToSafety)
    && !s.mux.degraded && s.safety.mode != Saf.Degraded
    && forall i :: 0 <= i < |s.motor| ==> s.motor[i].sender.mode != Saf.Degraded
  }

  lemma WithoutTierFree(q: seq<uint8>, i: nat)
    requires AllTierFree(q)
    ensures AllTierFree(Without(q, i))
  {
    var r := Without(q, i);
    assert forall k :: 0 <= k < |r| ==> r[k] == q[if i < |q| && i <= k then k + 1 else k];
  }

  lemma QueuesTierFree(s: System, now: real, ev: Event)
    requires Mon.AllDisciplined(s.nodes) && AllTierFree(s.healthToMux) && AllTierFree(s.healthToSafety)
    ensures var t := Step(s, now, ev);
            Mon.AllDisciplined(t.nodes) && AllTierFree(t.healthToMux) && AllTierFree(t.healthToSafety)
  {
    hide Mon.TickNodes, Mon.Published, Mon.AllDisciplined, Mux.Step, Saf.Step, Without;
    if ev.FdirTick? {
      Mon.TickDisciplined(s.nodes, ev.tick);
      Mon.PublishedMeaning(s.nodes, ev.tick);
    }
    if ev.LoseHealthToMux? { WithoutTierFree(s.healthToMux, ev.i); }
    if ev.LoseHealthToSafety? { WithoutTierFree(s.healthToSafety, ev.i); }
  }

  lemma MuxUndegraded(m: Mux.Mux, now: real, ev: Mux.Event)
    requires !m.degraded && (ev.HealthArrives? ==> Mon.TierFree(ev.state))
    ensures !Mux.Step(m, now, ev).0.degraded
  {
    hide Smoothing.FilterTwist;
  }

  lemma SafetyUndegraded(s: Saf.Safety, ev: Saf.Event)
    requires s.mode != Saf.Degraded && (ev.Health? ==> Mon.TierFree(ev.state))
    ensures Saf.Step(s, ev).0.mode != Saf.Degraded
  {
  }

  lemma UndegradedStep(s: System, now: real, ev: Event)
    requires Undegraded(s) && Permitted(ev)
    ensures Undegraded(Step(s, now, ev))
  {
    QueuesTierFree(s, now, ev);
    StepParts(s, now, ev);
    var fed, given := MuxFeed(s, ev), SafetyFeed(s, ev);
    if fed.Some? { MuxUndegraded(s.mux, now, fed.value); }
    if given.Some? { SafetyUndegraded(s.safety, given.value); }
    hide Step, Mux.Step, Saf.Step, SentBy, Mon.AllDisciplined, Mon.TickNodes;
  }

  /** In every reachable state of the composed system the degraded limits are out of force: every health message
      under way is a plain one, neither node is degraded, and no motor command was sent by a degraded node. */
  lemma {:induction false} NeverDegraded(s: System, start: real, evs: Trace)
    requires Initial(s, start) && AllPermitted(evs)
    ensures Undegraded(Run(s, evs))
    ensures Mux.SpeedLimit(Run(s, evs).mux) == Run(s, evs).mux.cfg.maxNormal
    ensures Saf.SpeedLimit(Run(s, evs).safety) == Run(s, evs).safety.maxNormal
  {
    if evs != [] {
      var before, e := evs[..|evs| - 1], evs[|evs| - 1];
      NeverDegraded(s, start, before);
      hide Step, Initial;
      UndegradedStep(Run(s, before), e.at, e.ev);
    }
  }
}
