/** How soon, and how late, a component that stays silent is locked out. */
module LockoutTiming {
  import opened Messages
  import opened Recovery
  import opened Strikes
  import Mon = MonitorSpec

  // ----- never too early -----

  function Repeat(n: int, period: real): real
    decreases n
  {
    if n <= 0 then 0.0 else Repeat(n - 1, period) + period
  }

  /** How long ago the current streak must have begun, given where the recovery stands. */
  predicate Elapsed(c: Component, first: real, now: real) {
    var cycle := c.powerOffTime + c.startupTime;
    match c.phase
    case Nominal => now - first >= Repeat(c.retryCount, cycle)
    case PowerOff => now - first >= Repeat(c.retryCount - 1, cycle)
    case WaitDischarge => c.lastPhaseChange - first >= Repeat(c.retryCount - 1, cycle)
    case PowerOn => now - first >= Repeat(c.retryCount - 1, cycle) + c.powerOffTime
    case WaitBoot => c.lastPhaseChange - first >= Repeat(c.retryCount - 1, cycle) + c.powerOffTime
    case Defective => true
  }

  lemma ElapsedStep(c: Component, first: real, now: real, r: Reading)
    requires Disciplined(c) && 1 <= c.retryCount && now <= r.now && r.state != PRIMARY_STATE_ACTIVE
    requires Elapsed(c, first, now)
    ensures Elapsed(Observe(c, r).node, first, r.now)
  {
    if !c.isDefective && IsFailure(r.state) {
      RecoverElapsed(c.(currentState := r.state), first, now, r.now);
      hide Recover;
    }
  }

  lemma RecoverElapsed(c: Component, first: real, was: real, now: real)
    requires Disciplined(c) && 1 <= c.retryCount && was <= now && !c.isDefective && Elapsed(c, first, was)
    ensures Elapsed(Recover(c, now).node, first, now)
  {
    if c.phase == WaitBoot {
      assert Repeat(c.retryCount, c.powerOffTime + c.startupTime)
          == Repeat(c.retryCount - 1, c.powerOffTime + c.startupTime) + (c.powerOffTime + c.startupTime);
    }
    hide Repeat;
  }

  lemma {:induction false} ElapsedInvariant(c: Component, rs: seq<Reading>)
    requires Fresh(c) && Monotone(rs)
    ensures StartsIn(Streak(c, rs), |rs|)
    ensures Streak(c, rs) != [] ==> Elapsed(Run(c, rs), rs[Streak(c, rs)[0]].now, rs[|rs| - 1].now)
  {
    StreakStarts(c, rs);
    if rs != [] && Streak(c, rs) != [] {
      var before, r := rs[..|rs| - 1], rs[|rs| - 1];
      var was := Run(c, before);
      ElapsedInvariant(c, before);
      RunDisciplined(c, before);
      CountStreak(c, before);
      if Streak(c, before) == [] {
        assert Elapsed(Run(c, rs), r.now, r.now);
      } else {
        assert before[|before| - 1].now <= r.now;
        var first := before[Streak(c, before)[0]].now;
        if was.isDefective {
        } else {
          ElapsedStep(was, first, before[|before| - 1].now, r);
        }
      }
    }
  }

  predicate StartsIn(streak: seq<nat>, n: nat) {
    streak != [] ==> streak[0] < n
  }

  lemma StreakStarts(c: Component, rs: seq<Reading>)
    ensures StartsIn(Streak(c, rs), |rs|)
  {
    StreakMeaning(c, rs);
    var streak := Streak(c, rs);
    assert streak != [] ==> streak[0] in streak;
  }

  /** The evaluation that locks a component out comes at least three full power cycles after the
      first strike of its streak. */
  lemma {:induction false} NoEarlyLockout(c: Component, rs: seq<Reading>, i: nat)
    requires Fresh(c) && Monotone(rs)
    requires i < |rs| && !Run(c, rs[..i]).isDefective && Run(c, rs[..i + 1]).isDefective
    ensures |Streak(c, rs[..i + 1])| == 4
    ensures var first := Streak(c, rs[..i + 1])[0];
            first < i && rs[i].now - rs[first].now >= 3.0 * (c.powerOffTime + c.startupTime)
  {
    var before, streak := rs[..i], Streak(c, rs[..i]);
    assert rs[..i + 1][..i] == before;
    var was := Run(c, before);
    RunDisciplined(c, before);
    LockingStep(was, rs[i]);
    CountStreak(c, before);
    assert Streak(c, rs[..i + 1]) == streak + [i];
    ElapsedInvariant(c, before);
    assert Elapsed(was, rs[streak[0]].now, rs[i - 1].now);
    var cycle := c.powerOffTime + c.startupTime;
    assert rs[i - 1].now - rs[streak[0]].now >= Repeat(3, cycle);
    assert rs[i - 1].now <= rs[i].now;
    hide *;
    ThreeCycles(cycle);
  }

  lemma LockingStep(c: Component, r: Reading)
    requires Disciplined(c) && !c.isDefective && Observe(c, r).node.isDefective
    ensures c.phase == Nominal && c.retryCount == 3 && IsFailure(r.state)
  {
  }

  lemma ThreeCycles(period: real)
    ensures Repeat(3, period) == 3.0 * period
  {
    assert Repeat(3, period) == Repeat(1, period) + period + period;
  }

  // ----- never too late -----

  predicate Spaced(rs: seq<Reading>, d: real) {
    forall i :: 0 < i < |rs| ==> rs[i].now - rs[i - 1].now >= d
  }

  /** Whole ticks of length `d` needed to wait out `time`; at least one. */
  function Ticks(time: real, d: real): (k: nat)
    requires 0.0 < d
    ensures 1 <= k && k as real * d >= time
    ensures k == 1 || k as real * d < time + d
  {
    var q := -((-(time / d)).Floor);
    assert time / d * d == time;
    CeilingWaits(time, d, time / d, q as real);
    if q <= 1 then 1 else q
  }

  lemma CeilingWaits(time: real, d: real, t: real, n: real)
    requires 0.0 < d && t * d == time && t <= n < t + 1.0
    ensures time <= n * d < time + d
  {
    ProductOrder(t, n, d, time, n * d);
    OneMore(t, d);
    ProductOrder(n, t + 1.0, d, n * d, time + d);
  }

  lemma OneMore(t: real, d: real)
    ensures (t + 1.0) * d == t * d + d
  {
  }

  lemma ProductOrder(a: real, b: real, d: real, p: real, q: real)
    requires 0.0 < d && p == a * d && q == b * d
    ensures a <= b ==> p <= q
    ensures a < b ==> p < q
  {
    var gap := (b - a) * d;
    assert gap == q - p;
    if a < b { assert gap > 0.0; }
  }

  function Failures(rs: seq<Reading>): nat {
    if rs == [] then 0 else
    Failures(rs[..|rs| - 1]) + if IsFailure(rs[|rs| - 1].state) then 1 else 0
  }

  /** Failure reports per power cycle: one each to strike, open and close the relay, and the waits. */
  function CycleReports(off: nat, boot: nat): nat {
    3 + off + boot
  }

  /** One strike to lock out, after a cycle for every retry still open. */
  function Later(retries: int, cycle: nat): nat
    decreases 3 - retries
  {
    if retries >= MAX_RECOVERY_RETRIES then 1 else Later(retries + 1, cycle) + cycle
  }

  /** Failure reports left before lockout, when `waited` of the current wait's ticks have passed. */
  function Remaining(c: Component, off: nat, boot: nat, waited: nat): int {
    var later := Later(c.retryCount, CycleReports(off, boot));
    match c.phase
    case Nominal => later
    case PowerOff => later + 2 + off + boot
    case WaitDischarge => later + 1 + boot + off - waited
    case PowerOn => later + 1 + boot
    case WaitBoot => later + boot - waited
    case Defective => 0
  }

  predicate Waiting(p: Phase) {
    p == WaitDischarge || p == WaitBoot
  }

  predicate WaitedFor(c: Component, now: real, d: real, off: nat, boot: nat, waited: nat) {
    Waiting(c.phase) ==>
      && waited < (if c.phase == WaitBoot then boot else off)
      && now - c.lastPhaseChange >= waited as real * d
  }

  lemma Multiples(m: nat, n: nat, d: real)
    requires 0.0 < d
    ensures (m + 1) as real * d == m as real * d + d
    ensures m <= n ==> m as real * d <= n as real * d
    ensures n <= m ==> n as real * d <= m as real * d
  {
    if m <= n {
      assert (n - m) as real * d >= 0.0;
      assert n as real * d == m as real * d + (n - m) as real * d;
    } else {
      assert (m - n) as real * d >= 0.0;
      assert m as real * d == n as real * d + (m - n) as real * d;
    }
  }

  lemma BudgetStep(c: Component, now: real, r: Reading, d: real, off: nat, boot: nat, waited: nat)
    returns (waited': nat)
    requires Disciplined(c) && !c.isDefective && 0.0 < d
    requires Waiting(c.phase) ==> now + d <= r.now
    requires 1 <= off && off as real * d >= c.powerOffTime
    requires 1 <= boot && boot as real * d >= c.startupTime
    requires r.state != PRIMARY_STATE_ACTIVE && WaitedFor(c, now, d, off, boot, waited)
    ensures Spends(c, Observe(c, r).node, r, d, off, boot, waited, waited')
  {
    if Waiting(c.phase) {
      waited' := WaitingStep(c, now, r, d, off, boot, waited);
    } else {
      waited' := 0;
      ZeroMultiple(d);
    }
  }

  /** One report has been charged to the budget if it was a failure. */
  predicate Spends(c: Component, c': Component, r: Reading, d: real, off: nat, boot: nat, waited: nat, waited': nat) {
    if c'.isDefective then 1 <= Remaining(c, off, boot, waited) else
    && WaitedFor(c', r.now, d, off, boot, waited')
    && Remaining(c', off, boot, waited')
       <= Remaining(c, off, boot, waited) - (if IsFailure(r.state) then 1 else 0)
  }

  lemma WaitingStep(c: Component, now: real, r: Reading, d: real, off: nat, boot: nat, waited: nat)
    returns (waited': nat)
    requires Disciplined(c) && !c.isDefective && 0.0 < d && Waiting(c.phase) && now + d <= r.now
    requires off as real * d >= c.powerOffTime && boot as real * d >= c.startupTime
    requires r.state != PRIMARY_STATE_ACTIVE && WaitedFor(c, now, d, off, boot, waited)
    ensures Spends(c, Observe(c, r).node, r, d, off, boot, waited, waited')
  {
    var c' := Observe(c, r).node;
    if c'.phase == c.phase {
      waited' := if IsFailure(r.state) then waited + 1 else waited;
    } else {
      waited' := 0;
    }
    var elapsed := (waited + 1) as real * d;
    Multiples(waited, off, d);
    assert r.now - c.lastPhaseChange >= elapsed;
    Multiples(waited + 1, if c.phase == WaitBoot then boot else off, d);
    ZeroMultiple(d);
  }

  lemma ZeroMultiple(d: real)
    ensures 0 as real * d == 0.0
  {
  }

  lemma RemainingPositive(c: Component, off: nat, boot: nat, waited: nat)
    requires c.phase != Defective
    requires Waiting(c.phase) ==> waited < (if c.phase == WaitBoot then boot else off)
    ensures 1 <= Remaining(c, off, boot, waited)
  {
  }

  lemma LaterAtStart(cycle: nat)
    ensures Later(0, cycle) == 3 * cycle + 1
  {
    assert Later(0, cycle) == Later(1, cycle) + cycle == Later(2, cycle) + 2 * cycle;
  }

  /** A component that has not locked out yet has spent its budget of failure reports one by one. */
  lemma {:induction false} Budget(c: Component, rs: seq<Reading>, d: real, off: nat, boot: nat)
    returns (waited: nat)
    requires Fresh(c) && 0.0 < d && Spaced(rs, d)
    requires 1 <= off && off as real * d >= c.powerOffTime
    requires 1 <= boot && boot as real * d >= c.startupTime
    requires forall i :: 0 <= i < |rs| ==> rs[i].state != PRIMARY_STATE_ACTIVE
    ensures !Run(c, rs).isDefective ==>
              && Remaining(Run(c, rs), off, boot, waited) + Failures(rs) <= Later(0, CycleReports(off, boot))
              && (if rs == [] then Run(c, rs).phase == Nominal
                  else WaitedFor(Run(c, rs), rs[|rs| - 1].now, d, off, boot, waited))
  {
    waited := 0;
    if rs != [] {
      var before, r := rs[..|rs| - 1], rs[|rs| - 1];
      waited := Budget(c, before, d, off, boot);
      RunDisciplined(c, before);
      var now := if before == [] then r.now else before[|before| - 1].now;
      assert !Run(c, before).isDefective ==> WaitedFor(Run(c, before), now, d, off, boot, waited);
      hide Observe, Remaining, WaitedFor;
      if !Run(c, before).isDefective {
        waited := BudgetStep(Run(c, before), now, r, d, off, boot, waited);
      } else {
        ObserveDisciplined(Run(c, before), r);
      }
    }
  }

  /** With evaluations at least `d` apart, a component that never reports ACTIVE is locked out after at
      most this many failure reports, however many UNCONFIGURED or INACTIVE ones come in between. */
  lemma {:induction false} LockoutDeadline(c: Component, rs: seq<Reading>, d: real)
    requires Fresh(c) && 0.0 < d && Spaced(rs, d)
    requires forall i :: 0 <= i < |rs| ==> rs[i].state != PRIMARY_STATE_ACTIVE
    requires Failures(rs) >= 3 * (3 + Ticks(c.powerOffTime, d) + Ticks(c.startupTime, d)) + 1
    ensures Run(c, rs).isDefective
  {
    hide Ticks, Run, Failures, Spaced;
    LockoutWithin(c, rs, d, Ticks(c.powerOffTime, d), Ticks(c.startupTime, d));
  }

  lemma LockoutWithin(c: Component, rs: seq<Reading>, d: real, off: nat, boot: nat)
    requires Fresh(c) && 0.0 < d && Spaced(rs, d)
    requires 1 <= off && off as real * d >= c.powerOffTime
    requires 1 <= boot && boot as real * d >= c.startupTime
    requires forall i :: 0 <= i < |rs| ==> rs[i].state != PRIMARY_STATE_ACTIVE
    requires Failures(rs) >= 3 * CycleReports(off, boot) + 1
    ensures Run(c, rs).isDefective
  {
    var waited := Budget(c, rs, d, off, boot);
    RunDisciplined(c, rs);
    LaterAtStart(CycleReports(off, boot));
    hide Later, Remaining, Run, Failures;
    if !Run(c, rs).isDefective {
      RemainingPositive(Run(c, rs), off, boot, waited);
    }
  }

  predicate Metronomic(rs: seq<Reading>, d: real) {
    forall i :: 0 < i < |rs| ==> rs[i].now - rs[i - 1].now == d
  }

  predicate WaitedExactly(c: Component, now: real, d: real, off: nat, boot: nat, waited: nat) {
    Waiting(c.phase) ==>
      && waited < (if c.phase == WaitBoot then boot else off)
      && now - c.lastPhaseChange == waited as real * d
  }

  /** One failure report has been charged to the budget, exactly. */
  predicate SpendsOne(c: Component, c': Component, now: real, d: real, off: nat, boot: nat, waited: nat, waited': nat) {
    if c'.isDefective then Remaining(c, off, boot, waited) == 1 else
    && WaitedExactly(c', now, d, off, boot, waited')
    && Remaining(c', off, boot, waited') == Remaining(c, off, boot, waited) - 1
  }

  lemma ExactStep(c: Component, now: real, r: Reading, d: real, off: nat, boot: nat, waited: nat)
    returns (waited': nat)
    requires Disciplined(c) && !c.isDefective && 0.0 < d
    requires Waiting(c.phase) ==> now + d == r.now
    requires off == Ticks(c.powerOffTime, d) && boot == Ticks(c.startupTime, d)
    requires IsFailure(r.state) && WaitedExactly(c, now, d, off, boot, waited)
    ensures SpendsOne(c, Observe(c, r).node, r.now, d, off, boot, waited, waited')
  {
    hide Ticks;
    if Waiting(c.phase) {
      waited' := ExactWait(c, now, r, d, off, boot, waited);
    } else {
      waited' := 0;
      ZeroMultiple(d);
    }
  }

  lemma ExactWait(c: Component, now: real, r: Reading, d: real, off: nat, boot: nat, waited: nat)
    returns (waited': nat)
    requires Disciplined(c) && !c.isDefective && 0.0 < d && Waiting(c.phase) && now + d == r.now
    requires off == Ticks(c.powerOffTime, d) && boot == Ticks(c.startupTime, d)
    requires IsFailure(r.state) && WaitedExactly(c, now, d, off, boot, waited)
    ensures SpendsOne(c, Observe(c, r).node, r.now, d, off, boot, waited, waited')
  {
    hide Ticks;
    var c' := Observe(c, r).node;
    waited' := if c'.phase == c.phase then waited + 1 else 0;
    Multiples(waited, off, d);
    var elapsed := (waited + 1) as real * d;
    assert elapsed == waited as real * d + d;
    WaitEndsOn(if c.phase == WaitBoot then c.startupTime else c.powerOffTime, d, waited + 1, elapsed);
    assert c'.phase == c.phase <==> waited + 1 < (if c.phase == WaitBoot then boot else off);
    ZeroMultiple(d);
    hide Later;
  }

  /** With evaluations exactly `d` apart the budget is spent exactly. */
  lemma {:induction false} ExactBudget(c: Component, rs: seq<Reading>, d: real) returns (waited: nat)
    requires Fresh(c) && 0.0 < d && Metronomic(rs, d)
    requires forall i :: 0 <= i < |rs| ==> IsFailure(rs[i].state)
    ensures var off := Ticks(c.powerOffTime, d); var boot := Ticks(c.startupTime, d);
            if Run(c, rs).isDefective then |rs| >= Later(0, CycleReports(off, boot)) else
            && Remaining(Run(c, rs), off, boot, waited) + |rs| == Later(0, CycleReports(off, boot))
            && (if rs == [] then Run(c, rs).phase == Nominal
                else WaitedExactly(Run(c, rs), rs[|rs| - 1].now, d, off, boot, waited))
  {
    waited := 0;
    if rs != [] {
      var before, r := rs[..|rs| - 1], rs[|rs| - 1];
      var off, boot := Ticks(c.powerOffTime, d), Ticks(c.startupTime, d);
      waited := ExactBudget(c, before, d);
      RunDisciplined(c, before);
      var now := if before == [] then r.now else before[|before| - 1].now;
      assert !Run(c, before).isDefective ==> WaitedExactly(Run(c, before), now, d, off, boot, waited);
      hide Observe, Remaining, WaitedExactly, Ticks;
      if !Run(c, before).isDefective {
        waited := ExactStep(Run(c, before), now, r, d, off, boot, waited);
      } else {
        ObserveDisciplined(Run(c, before), r);
      }
    }
  }

  lemma WaitEndsOn(time: real, d: real, n: nat, elapsed: real)
    requires 0.0 < d && 1 <= n && elapsed == n as real * d
    ensures elapsed >= time <==> n >= Ticks(time, d)
  {
    var k := Ticks(time, d);
    if n >= k {
      assert (n - k) as real * d >= 0.0;
    } else {
      assert (k - 1 - n) as real * d >= 0.0;
    }
  }

  /** The deadline is tight: under a steady clock a dead component locks out at exactly that report. */
  lemma {:induction false} DeadlineIsTight(c: Component, rs: seq<Reading>, d: real)
    requires Fresh(c) && 0.0 < d && Metronomic(rs, d)
    requires forall i :: 0 <= i < |rs| ==> IsFailure(rs[i].state)
    ensures Run(c, rs).isDefective
            <==> |rs| >= 3 * (3 + Ticks(c.powerOffTime, d) + Ticks(c.startupTime, d)) + 1
  {
    var waited := ExactBudget(c, rs, d);
    RunDisciplined(c, rs);
    LaterAtStart(CycleReports(Ticks(c.powerOffTime, d), Ticks(c.startupTime, d)));
  }

  // ----- in the manager -----

  /** No pass gets an answer from this component, and passes publish `d` apart. */
  predicate NeverAnswers(ticks: seq<Mon.Tick>, name: string, d: real) {
    && (forall i :: 0 <= i < |ticks| ==> name !in ticks[i].readings)
    && (forall i :: 0 < i < |ticks| ==> ticks[i].at - ticks[i - 1].at == d)
  }

  /** Silence is failure: a managed component that never answers is locked out at exactly the deadline. */
  lemma {:induction false} SilenceIsFailure(nodes: Mon.Nodes, ticks: seq<Mon.Tick>, name: string, d: real)
    requires name in nodes && Fresh(nodes[name]) && 0.0 < d && NeverAnswers(ticks, name, d)
    ensures name in Mon.RunNodes(nodes, ticks)
    ensures Mon.RunNodes(nodes, ticks)[name].isDefective
            <==> |ticks| >= 3 * (3 + Ticks(nodes[name].powerOffTime, d) + Ticks(nodes[name].startupTime, d)) + 1
  {
    hide Mon.RunNodes, Run, Ticks, Fresh;
    Mon.RunIsPointwise(nodes, ticks, name);
    DeadlineIsTight(nodes[name], Mon.ReadingsOf(ticks, name), d);
  }

  /** A component that never reports ACTIVE, evaluated at least `d` apart, has used up its failure reports. */
  ghost predicate Overdue(c: Component, rs: seq<Reading>, d: real)
    requires 0.0 < d
  {
    && Spaced(rs, d)
    && (forall i :: 0 <= i < |rs| ==> rs[i].state != PRIMARY_STATE_ACTIVE)
    && Failures(rs) >= 3 * (3 + Ticks(c.powerOffTime, d) + Ticks(c.startupTime, d)) + 1
  }

  /** The deadline in the manager: the pass in which one of its components becomes overdue publishes EMERGENCY, and
      so does every later pass, whatever the other components report. */
  lemma {:induction false} ManagedDeadline(nodes: Mon.Nodes, ticks: seq<Mon.Tick>, name: string, d: real,
                                           i: nat, k: nat)
    requires Mon.AllDisciplined(nodes) && name in nodes && Fresh(nodes[name]) && 0.0 < d
    requires i <= k + 1 <= |ticks| && Overdue(nodes[name], Mon.ReadingsOf(ticks[..i], name), d)
    ensures |Mon.HealthLog(nodes, ticks)| == |ticks| && Mon.HealthLog(nodes, ticks)[k] == STATE_EMERGENCY
  {
    hide Spaced, Failures, Run, Mon.RunNodes, Mon.HealthLog, Mon.AllDisciplined, Fresh;
    LockoutDeadline(nodes[name], Mon.ReadingsOf(ticks[..i], name), d);
    Mon.RunIsPointwise(nodes, ticks[..i], name);
    assert Mon.AnyDefective(Mon.RunNodes(nodes, ticks[..i]));
    Mon.LockoutIsAnnounced(nodes, ticks, i, k);
  }
}
