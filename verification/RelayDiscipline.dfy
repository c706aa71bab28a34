/** The messages on a hardware relay over a whole run. */
module RelayDiscipline {
  import opened Recovery

  /** Every close directly follows an open, at least `hold` later. */
  predicate Held(log: seq<RelayCommand>, hold: real) {
    forall i :: 0 <= i < |log| && log[i].closed ==>
                  0 < i && !log[i - 1].closed && log[i].at - log[i - 1].at >= hold
  }

  predicate AllOpen(log: seq<RelayCommand>) {
    forall i :: 0 <= i < |log| ==> !log[i].closed
  }

  /** The grammar (open+ close)* open*. */
  ghost predicate PowerCycles(log: seq<RelayCommand>)
    decreases |log|
  {
    AllOpen(log) || exists k: nat :: CycleAt(log, k) && PowerCycles(log[k + 1..])
  }

  predicate CycleAt(log: seq<RelayCommand>, k: nat) {
    1 <= k < |log| && AllOpen(log[..k]) && log[k].closed
  }

  /** What the log's last entry must be while the relay is known to be open. */
  predicate RelayPhase(c: Component, log: seq<RelayCommand>, now: real) {
    match c.phase
    case WaitDischarge => log != [] && !log[|log| - 1].closed && log[|log| - 1].at == c.lastPhaseChange
    case PowerOn => log != [] && !log[|log| - 1].closed && now - log[|log| - 1].at >= c.powerOffTime
    case _ => true
  }

  lemma HeldAppend(log: seq<RelayCommand>, m: RelayCommand, hold: real)
    requires Held(log, hold)
    requires m.closed ==> log != [] && !log[|log| - 1].closed && m.at - log[|log| - 1].at >= hold
    ensures Held(log + [m], hold)
  {
  }

  lemma RelayStep(c: Component, log: seq<RelayCommand>, now: real, r: Reading)
    requires Disciplined(c) && c.mechanism == HardwareRelay && now <= r.now
    requires Held(log, c.powerOffTime) && RelayPhase(c, log, now)
    ensures var o := Observe(c, r);
            Held(log + o.relay, c.powerOffTime) && RelayPhase(o.node, log + o.relay, r.now)
  {
    var relay := Observe(c, r).relay;
    assert relay == [] ==> log + relay == log;
    if relay != [] {
      assert relay == [relay[0]];
      HeldAppend(log, relay[0], c.powerOffTime);
    }
    hide Held;
  }

  lemma {:induction false} RelayInvariant(c: Component, rs: seq<Reading>)
    requires Fresh(c) && c.mechanism == HardwareRelay && Monotone(rs)
    ensures Held(RelayLog(c, rs), c.powerOffTime)
    ensures rs != [] ==> RelayPhase(Run(c, rs), RelayLog(c, rs), rs[|rs| - 1].now)
  {
    if rs != [] {
      var before, r := rs[..|rs| - 1], rs[|rs| - 1];
      RelayInvariant(c, before);
      RunDisciplined(c, before);
      var now := if before == [] then r.now else before[|before| - 1].now;
      assert RelayPhase(Run(c, before), RelayLog(c, before), now);
      hide Observe, RelayPhase, Disciplined, Held;
      RelayStep(Run(c, before), RelayLog(c, before), now, r);
    }
  }

  lemma {:induction false} HeldIsPowerCycles(log: seq<RelayCommand>, hold: real)
    requires Held(log, hold)
    ensures PowerCycles(log)
    decreases |log|
  {
    if !AllOpen(log) {
      var k := FirstClose(log);
      var rest := log[k + 1..];
      forall i | 0 <= i < |rest| && rest[i].closed
        ensures 0 < i && !rest[i - 1].closed && rest[i].at - rest[i - 1].at >= hold
      {
        assert log[k + 1 + i].closed;
      }
      HeldIsPowerCycles(rest, hold);
      assert CycleAt(log, k);
    }
  }

  lemma {:induction false} FirstClose(log: seq<RelayCommand>) returns (k: nat)
    requires !AllOpen(log)
    ensures k < |log| && log[k].closed && AllOpen(log[..k])
  {
    if AllOpen(log[..|log| - 1]) {
      k := |log| - 1;
    } else {
      k := FirstClose(log[..|log| - 1]);
      assert log[..|log| - 1][..k] == log[..k];
    }
  }

  /** Over any run, whatever reports interrupt the cycles, a relay is opened before it is closed,
      is never closed twice in a row, and stays open for the full power-off time before each close.
      A component without a relay never sends on one. */
  lemma {:induction false} RelayTheorem(c: Component, rs: seq<Reading>)
    requires Fresh(c) && Monotone(rs)
    ensures PowerCycles(RelayLog(c, rs))
    ensures Held(RelayLog(c, rs), c.powerOffTime)
    ensures c.mechanism == LifecycleService ==> RelayLog(c, rs) == []
  {
    if c.mechanism == HardwareRelay {
      RelayInvariant(c, rs);
    } else {
      NoRelay(c, rs);
    }
    HeldIsPowerCycles(RelayLog(c, rs), c.powerOffTime);
  }

  lemma {:induction false} NoRelay(c: Component, rs: seq<Reading>)
    requires Disciplined(c) && c.mechanism == LifecycleService
    ensures RelayLog(c, rs) == []
  {
    if rs != [] {
      NoRelay(c, rs[..|rs| - 1]);
      RunDisciplined(c, rs[..|rs| - 1]);
    }
  }
}
