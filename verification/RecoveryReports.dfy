/** What the manager does for a component, read off its reports: its relay, its lifecycle requests. */
module RecoveryReports {
  import opened Messages
  import opened Recovery
  import opened RelayDiscipline

  /** Report `i` is a failure, taken while the component is in this phase. */
  predicate FailsIn(c: Component, rs: seq<Reading>, i: nat, phase: Phase)
    requires i < |rs|
  {
    var was := Run(c, rs[..i]);
    !was.isDefective && was.phase == phase
    && rs[i].state != PRIMARY_STATE_ACTIVE && rs[i].state != PRIMARY_STATE_UNCONFIGURED
    && rs[i].state != PRIMARY_STATE_INACTIVE
  }

  // ----- the relay -----

  /** Report `i` makes the manager open the relay, or close it. */
  predicate OpensAt(c: Component, rs: seq<Reading>, i: nat)
    requires i < |rs|
  {
    c.mechanism == HardwareRelay && FailsIn(c, rs, i, PowerOff)
  }

  predicate ClosesAt(c: Component, rs: seq<Reading>, i: nat)
    requires i < |rs|
  {
    c.mechanism == HardwareRelay && FailsIn(c, rs, i, PowerOn)
  }

  lemma RelayAt(c: Component, rs: seq<Reading>, i: nat)
    requires Disciplined(c) && i < |rs|
    ensures Observe(Run(c, rs[..i]), rs[i]).relay
            == if OpensAt(c, rs, i) then [RelayCommand(false, rs[i].now)]
               else if ClosesAt(c, rs, i) then [RelayCommand(true, rs[i].now)] else []
  {
    RunDisciplined(c, rs[..i]);
    hide Run;
  }

  function Opens(c: Component, rs: seq<Reading>): nat {
    if rs == [] then 0 else Opens(c, rs[..|rs| - 1]) + if OpensAt(c, rs, |rs| - 1) then 1 else 0
  }

  function Closes(c: Component, rs: seq<Reading>): nat {
    if rs == [] then 0 else Closes(c, rs[..|rs| - 1]) + if ClosesAt(c, rs, |rs| - 1) then 1 else 0
  }

  function Count(log: seq<RelayCommand>, closed: bool): nat {
    if log == [] then 0 else Count(log[..|log| - 1], closed) + if log[|log| - 1].closed == closed then 1 else 0
  }

  lemma CountMore(log: seq<RelayCommand>, more: seq<RelayCommand>, closed: bool)
    requires |more| <= 1
    ensures Count(log + more, closed) == Count(log, closed) + if more != [] && more[0].closed == closed then 1 else 0
  {
    if more == [] {
      assert log + more == log;
    } else {
      assert (log + more)[..|log|] == log && log + more == log + [more[0]];
    }
  }

  /** The relay is opened once for every failure found in POWER_OFF, closed once for every one found in POWER_ON,
      and nothing else is sent. */
  lemma {:induction false} RelayCounts(c: Component, rs: seq<Reading>)
    requires Disciplined(c)
    ensures Count(RelayLog(c, rs), false) == Opens(c, rs)
    ensures Count(RelayLog(c, rs), true) == Closes(c, rs)
  {
    if rs != [] {
      hide Count, OpensAt, ClosesAt, Observe, Run;
      var last := |rs| - 1;
      RelayCounts(c, rs[..last]);
      RelayAt(c, rs, last);
      NotBoth(c, rs, last);
      var more := Observe(Run(c, rs[..last]), rs[last]).relay;
      assert RelayLog(c, rs) == RelayLog(c, rs[..last]) + more;
      CountMore(RelayLog(c, rs[..last]), more, false);
      CountMore(RelayLog(c, rs[..last]), more, true);
      hide RelayLog;
    }
  }

  lemma NotBoth(c: Component, rs: seq<Reading>, i: nat)
    requires i < |rs|
    ensures !(OpensAt(c, rs, i) && ClosesAt(c, rs, i))
  {
  }

  /** What the last relay message must be, given where the recovery stands. */
  predicate RelayStands(c: Component, log: seq<RelayCommand>) {
    match c.phase
    case WaitDischarge => log != [] && log[|log| - 1] == RelayCommand(false, c.lastPhaseChange)
    case PowerOn => log != [] && !log[|log| - 1].closed
    case WaitBoot => log != [] && log[|log| - 1] == RelayCommand(true, c.lastPhaseChange)
    case PowerOff => c.retryCount >= 2 ==> log != [] && log[|log| - 1].closed
    case Nominal => c.retryCount >= 1 ==> log != [] && log[|log| - 1].closed
    case Defective => log != [] && log[|log| - 1].closed
  }

  lemma RelayStandsStep(c: Component, log: seq<RelayCommand>, r: Reading)
    requires Disciplined(c) && c.mechanism == HardwareRelay && RelayStands(c, log)
    ensures RelayStands(Observe(c, r).node, log + Observe(c, r).relay)
  {
    assert log + [] == log;
  }

  /** Where the recovery of a relay component stands says what its relay was last told: to open, on entering the
      discharge, until the power-on, and to close, on entering the boot, from then on. While no ACTIVE report has
      come since a strike a finished cycle has left it closed, so a component locked out keeps its power. */
  lemma {:induction false} RelayFollows(c: Component, rs: seq<Reading>)
    requires Fresh(c) && c.mechanism == HardwareRelay
    ensures RelayStands(Run(c, rs), RelayLog(c, rs))
  {
    if rs != [] {
      var before := rs[..|rs| - 1];
      RelayFollows(c, before);
      RunDisciplined(c, before);
      hide Observe, RelayStands, Disciplined;
      RelayStandsStep(Run(c, before), RelayLog(c, before), rs[|rs| - 1]);
    }
  }

  predicate LeftOpen(log: seq<RelayCommand>) {
    log != [] && !log[|log| - 1].closed
  }

  /** Report `i` opened the relay and no later report closed it. */
  ghost predicate Unclosed(c: Component, rs: seq<Reading>, i: nat)
    requires i < |rs|
  {
    OpensAt(c, rs, i) && forall j: nat :: i < j < |rs| ==> !ClosesAt(c, rs, j)
  }

  lemma SameReports(c: Component, rs: seq<Reading>, n: nat, i: nat)
    requires i < n <= |rs|
    ensures OpensAt(c, rs[..n], i) <==> OpensAt(c, rs, i)
    ensures ClosesAt(c, rs[..n], i) <==> ClosesAt(c, rs, i)
  {
    PrefixOfPrefix(rs, i, n);
  }

  lemma UnclosedExtends(c: Component, rs: seq<Reading>, i: nat)
    requires i < |rs| - 1
    ensures Unclosed(c, rs, i) <==> Unclosed(c, rs[..|rs| - 1], i) && !ClosesAt(c, rs, |rs| - 1)
  {
    hide OpensAt, ClosesAt;
    var n := |rs| - 1;
    forall j: nat | j < n
      ensures OpensAt(c, rs[..n], j) <==> OpensAt(c, rs, j)
      ensures ClosesAt(c, rs[..n], j) <==> ClosesAt(c, rs, j)
    {
      SameReports(c, rs, n, j);
    }
  }

  lemma LeftOpenAfter(log: seq<RelayCommand>, more: seq<RelayCommand>)
    requires |more| <= 1
    ensures LeftOpen(log + more) == if more == [] then LeftOpen(log) else !more[0].closed
  {
    if more == [] { assert log + more == log; }
  }

  lemma LastReport(c: Component, rs: seq<Reading>)
    requires Disciplined(c) && rs != []
    ensures var n := |rs| - 1;
            LeftOpen(RelayLog(c, rs)) <==> OpensAt(c, rs, n) || (LeftOpen(RelayLog(c, rs[..n])) && !ClosesAt(c, rs, n))
    ensures !(OpensAt(c, rs, |rs| - 1) && ClosesAt(c, rs, |rs| - 1))
  {
    hide Observe, Run, OpensAt, ClosesAt, LeftOpen;
    var n := |rs| - 1;
    RelayAt(c, rs, n);
    NotBoth(c, rs, n);
    var more := Observe(Run(c, rs[..n]), rs[n]).relay;
    assert RelayLog(c, rs) == RelayLog(c, rs[..n]) + more;
    LeftOpenAfter(RelayLog(c, rs[..n]), more);
    hide RelayLog;
  }

  /** A relay is left open exactly when a failure found in POWER_OFF was not followed by one found in POWER_ON. */
  lemma {:induction false} LeftOpenIff(c: Component, rs: seq<Reading>)
    requires Disciplined(c)
    ensures LeftOpen(RelayLog(c, rs)) <==> exists i: nat :: i < |rs| && Unclosed(c, rs, i)
  {
    if rs != [] {
      var n := |rs| - 1;
      LeftOpenIff(c, rs[..n]);
      LastReport(c, rs);
      assert OpensAt(c, rs, n) <==> Unclosed(c, rs, n);
      hide OpensAt, ClosesAt, LeftOpen, RelayLog, Unclosed;
      if i: nat :| i < n && Unclosed(c, rs[..n], i) { UnclosedExtends(c, rs, i); }
      if i: nat :| i < |rs| && Unclosed(c, rs, i) {
        if i < n { UnclosedExtends(c, rs, i); }
      }
    }
  }

  /** An ACTIVE report in the middle of a cycle leaves the relay open for as long as no further cycle closes it. */
  lemma ActiveLeavesOpen(c: Component, r: Reading, log: seq<RelayCommand>)
    requires Disciplined(c) && (c.phase == WaitDischarge || c.phase == PowerOn) && LeftOpen(log)
    requires r.state == PRIMARY_STATE_ACTIVE
    ensures Observe(c, r).node.phase == Nominal && LeftOpen(log + Observe(c, r).relay)
  {
    assert log + [] == log;
  }

  // ----- the clock -----

  /** The clock of the recovery restarts exactly when a failure report cuts the power, restores it, or finds the
      component booted for long enough; so each wait is measured from the message that began it. */
  lemma ClockRestarts(c: Component, r: Reading)
    requires Disciplined(c)
    ensures var n := Observe(c, r).node;
            && (n.phase == WaitDischarge && c.phase != WaitDischarge ==> n.lastPhaseChange == r.now)
            && (n.phase == WaitBoot && c.phase != WaitBoot ==> n.lastPhaseChange == r.now)
            && (c.phase == WaitBoot && n.phase == Nominal && r.state != PRIMARY_STATE_ACTIVE
                ==> n.lastPhaseChange == r.now)
            && (n.phase == c.phase || c.phase == Nominal || c.phase == WaitDischarge || r.state == PRIMARY_STATE_ACTIVE
                ==> n.lastPhaseChange == c.lastPhaseChange)
  {
  }

  // ----- the requests -----

  /** What the manager requests on report `i`. */
  function RequestAt(c: Component, rs: seq<Reading>, i: nat): seq<uint8>
    requires i < |rs|
  {
    if Run(c, rs[..i]).isDefective then []
    else if rs[i].state == PRIMARY_STATE_UNCONFIGURED then [TRANSITION_CONFIGURE]
    else if rs[i].state == PRIMARY_STATE_INACTIVE then [TRANSITION_ACTIVATE]
    else if FailsIn(c, rs, i, PowerOff) && c.mechanism == LifecycleService then [TRANSITION_CLEANUP]
    else []
  }

  function Requests(c: Component, rs: seq<Reading>): seq<uint8> {
    if rs == [] then [] else Requests(c, rs[..|rs| - 1]) + RequestAt(c, rs, |rs| - 1)
  }

  /** The requests of a run, read off its reports: CONFIGURE for every UNCONFIGURED one, ACTIVATE for every INACTIVE
      one, CLEANUP for every failure in which a component without a relay is to be powered off, nothing else, and
      nothing after lockout. The state last reported is on record. */
  lemma {:induction false} RequestsFollow(c: Component, rs: seq<Reading>)
    requires Disciplined(c)
    ensures TransitionLog(c, rs) == Requests(c, rs)
    ensures rs != [] && !Run(c, rs[..|rs| - 1]).isDefective ==> Run(c, rs).currentState == rs[|rs| - 1].state
  {
    if rs != [] {
      RequestsFollow(c, rs[..|rs| - 1]);
      RunDisciplined(c, rs[..|rs| - 1]);
    }
  }
}
