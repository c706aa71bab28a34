/** What the queues between the nodes deliver: what was published, in order, each message at most once. */
module Queues {
  import opened Messages
  import opened SystemSpec
  import Mon = MonitorSpec
  import Mux = MuxSpec
  import Saf = SafetySpec

  /** `a` is `b` with some elements left out. */
  predicate Within<T(==)>(a: seq<T>, b: seq<T>)
    decreases |b|
  {
    if a == [] then true
    else if b == [] then false
    else (a[|a| - 1] == b[|b| - 1] && Within(a[..|a| - 1], b[..|b| - 1])) || Within(a, b[..|b| - 1])
  }

  lemma {:induction false} WithinItself<T>(a: seq<T>)
    ensures Within(a, a)
  {
    if a != [] { WithinItself(a[..|a| - 1]); }
  }

  lemma WithinGrows<T>(a: seq<T>, b: seq<T>, x: T)
    requires Within(a, b)
    ensures Within(a + [x], b + [x]) && Within(a, b + [x])
  {
    assert (a + [x])[..|a|] == a && (b + [x])[..|b|] == b;
  }

  lemma {:induction false} WithinLoses<T>(a: seq<T>, b: seq<T>, i: nat)
    requires Within(a, b) && i < |a|
    ensures Within(a[..i] + a[i + 1..], b)
    decreases |b|
  {
    var n := |a| - 1;
    if Within(a, b[..|b| - 1]) {
      WithinLoses(a, b[..|b| - 1], i);
      WithinWider(a[..i] + a[i + 1..], b);
    } else if i == n {
      assert a[..i] + a[i + 1..] == a[..n];
      WithinWider(a[..n], b);
    } else {
      WithinLoses(a[..n], b[..|b| - 1], i);
      var c := a[..i] + a[i + 1..];
      assert c[..|c| - 1] == a[..n][..i] + a[..n][i + 1..] && c[|c| - 1] == a[n];
    }
  }

  lemma WithinWider<T>(a: seq<T>, b: seq<T>)
    requires b != [] && Within(a, b[..|b| - 1])
    ensures Within(a, b)
  {
  }

  /** One step of a lossy queue: publications join at the end, reading takes the head, any message may be lost. */
  predicate QueueStep<T(==)>(read: seq<T>, q: seq<T>, log: seq<T>, read': seq<T>, q': seq<T>, log': seq<T>) {
    || (read' == read && q' == q && log' == log)
    || (read' == read && |log'| == |log| + 1 && log'[..|log|] == log && q' == q + [log'[|log|]])
    || (q != [] && read' == read + [q[0]] && q' == q[1..] && log' == log)
    || (exists i: nat :: i < |q| && Lost(q, q', i) && read' == read && log' == log)
  }

  predicate Lost<T(==)>(q: seq<T>, q': seq<T>, i: nat)
    requires i < |q|
  {
    q' == q[..i] + q[i + 1..]
  }

  lemma QueueKeepsOrder<T>(read: seq<T>, q: seq<T>, log: seq<T>, read': seq<T>, q': seq<T>, log': seq<T>)
    requires Within(read + q, log) && QueueStep(read, q, log, read', q', log')
    ensures Within(read' + q', log')
  {
    hide Within;
    if i: nat :| i < |q| && Lost(q, q', i) && read' == read && log' == log {
      WithinLoses(read + q, log, |read| + i);
      assert read' + q' == (read + q)[..|read| + i] + (read + q)[|read| + i + 1..];
    } else {
      KeepsOrderUnlost(read, q, log, read', q', log');
    }
  }

  lemma KeepsOrderUnlost<T>(read: seq<T>, q: seq<T>, log: seq<T>, read': seq<T>, q': seq<T>, log': seq<T>)
    requires Within(read + q, log) && QueueStep(read, q, log, read', q', log')
    requires forall i: nat :: i < |q| && Lost(q, q', i) ==> !(read' == read && log' == log)
    ensures Within(read' + q', log')
  {
    hide Within, Lost;
    if read' == read && |log'| == |log| + 1 && log'[..|log|] == log && q' == q + [log'[|log|]] {
      var x := log'[|log|];
      WithinGrows(read + q, log, x);
      assert read' + q' == read + q + [x] && log' == log + [x];
    } else if read' != read {
      assert read' + q' == read + q;
    }
  }

  // ----- the three queues -----

  /** The health messages the multiplexer, or the safety node, has read; and the velocities the latter has read. */
  ghost function HealthReadByMux(s: System, evs: Trace): seq<uint8> {
    if evs == [] then [] else
    var before, ev := evs[..|evs| - 1], evs[|evs| - 1].ev;
    var q := Run(s, before).healthToMux;
    HealthReadByMux(s, before) + if ev.HealthReachesMux? && q != [] then [q[0]] else []
  }

  ghost function HealthReadBySafety(s: System, evs: Trace): seq<uint8> {
    if evs == [] then [] else
    var before, ev := evs[..|evs| - 1], evs[|evs| - 1].ev;
    var q := Run(s, before).healthToSafety;
    HealthReadBySafety(s, before) + if ev.HealthReachesSafety? && q != [] then [q[0]] else []
  }

  ghost function VelocitiesRead(s: System, evs: Trace): seq<Message> {
    if evs == [] then [] else
    var before, ev := evs[..|evs| - 1], evs[|evs| - 1].ev;
    var q := Run(s, before).velocityToSafety;
    VelocitiesRead(s, before) + if ev.VelocityReachesSafety? && q != [] then [q[0]] else []
  }

  /** The velocities published, as messages. */
  function Published(sent: seq<Sent>): (ms: seq<Message>)
    ensures |ms| == |sent|
    ensures forall i :: 0 <= i < |sent| ==> ms[i] == Message(sent[i].velocity, i)
  {
    seq(|sent|, i requires 0 <= i < |sent| => Message(sent[i].velocity, i))
  }

  lemma HealthMuxStep(s: System, now: real, ev: Event)
    ensures var t := Step(s, now, ev);
            && (ev.FdirTick? ==> t.healthToMux == s.healthToMux + [Mon.Published(s.nodes, ev.tick)])
            && (ev.HealthReachesMux? ==> t.healthToMux == if s.healthToMux == [] then [] else s.healthToMux[1..])
            && (ev.LoseHealthToMux? ==> t.healthToMux == Without(s.healthToMux, ev.i))
            && (!ev.FdirTick? && !ev.HealthReachesMux? && !ev.LoseHealthToMux? ==> t.healthToMux == s.healthToMux)
  {
    hide Mux.Step, Saf.Step, Mon.TickNodes, Mon.Published, Without;
  }

  lemma HealthSafetyStep(s: System, now: real, ev: Event)
    ensures var t := Step(s, now, ev);
            && (ev.FdirTick? ==> t.healthToSafety == s.healthToSafety + [Mon.Published(s.nodes, ev.tick)])
            && (ev.HealthReachesSafety? ==>
                  t.healthToSafety == if s.healthToSafety == [] then [] else s.healthToSafety[1..])
            && (ev.LoseHealthToSafety? ==> t.healthToSafety == Without(s.healthToSafety, ev.i))
            && (!ev.FdirTick? && !ev.HealthReachesSafety? && !ev.LoseHealthToSafety? ==>
                  t.healthToSafety == s.healthToSafety)
  {
    hide Mux.Step, Saf.Step, Mon.TickNodes, Mon.Published, Without;
  }

  /** Velocities join the queue as they are published. */
  lemma VelocityStep(s: System, now: real, ev: Event)
    ensures var t := Step(s, now, ev);
            && (ev.VelocityReachesSafety? ==>
                  && t.sent == s.sent
                  && t.velocityToSafety == if s.velocityToSafety == [] then [] else s.velocityToSafety[1..])
            && (ev.LoseVelocity? ==> t.sent == s.sent && t.velocityToSafety == Without(s.velocityToSafety, ev.i))
            && (!ev.VelocityReachesSafety? && !ev.LoseVelocity? ==>
                  if t.sent == s.sent then t.velocityToSafety == s.velocityToSafety
                  else && |t.sent| == |s.sent| + 1 && t.sent[..|s.sent|] == s.sent
                       && t.velocityToSafety
                          == s.velocityToSafety + [Message(t.sent[|s.sent|].velocity, |s.sent|)])
  {
    hide Mux.Step, Saf.Step, Mon.TickNodes, Mon.Published, Without;
  }

  lemma LosesOne<T>(q: seq<T>, i: nat)
    ensures Without(q, i) == q || (i < |q| && Lost(q, Without(q, i), i))
  {
  }

  /** The queues keep order and invent nothing: what the nodes have read, followed by what is still under way, is
      what was published with some messages left out, for the health states and for the velocities. */
  lemma {:induction false} QueuesDeliver(s: System, start: real, evs: Trace)
    requires Initial(s, start)
    ensures var t := Run(s, evs);
            && Within(HealthReadByMux(s, evs) + t.healthToMux, t.healthLog)
            && Within(HealthReadBySafety(s, evs) + t.healthToSafety, t.healthLog)
            && Within(VelocitiesRead(s, evs) + t.velocityToSafety, Published(t.sent))
  {
    if evs != [] {
      var before, e := evs[..|evs| - 1], evs[|evs| - 1];
      QueuesDeliver(s, start, before);
      var u, t := Run(s, before), Run(s, evs);
      assert t == Step(u, e.at, e.ev);
      hide Step, Run, Initial, Within, QueueStep;
      HealthToMuxQueue(u, HealthReadByMux(s, before), e);
      HealthToSafetyQueue(u, HealthReadBySafety(s, before), e);
      VelocityQueue(u, VelocitiesRead(s, before), e);
    } else {
      assert Published(s.sent) == [];
    }
  }

  lemma HealthToMuxQueue(u: System, read: seq<uint8>, e: Timed<Event>)
    requires Within(read + u.healthToMux, u.healthLog)
    ensures var t := Step(u, e.at, e.ev);
            Within((read + if e.ev.HealthReachesMux? && u.healthToMux != [] then [u.healthToMux[0]] else [])
                   + t.healthToMux, t.healthLog)
  {
    var t := Step(u, e.at, e.ev);
    var more := if e.ev.HealthReachesMux? && u.healthToMux != [] then [u.healthToMux[0]] else [];
    HealthMuxStep(u, e.at, e.ev);
    ManagerStep(u, e.at, e.ev);
    hide Step, Mon.Published, Mon.TickNodes, Within;
    if e.ev.LoseHealthToMux? { LosesOne(u.healthToMux, e.ev.i); }
    assert read + [] == read;
    hide Without;
    QueueKeepsOrder(read, u.healthToMux, u.healthLog, read + more, t.healthToMux, t.healthLog);
  }

  lemma HealthToSafetyQueue(u: System, read: seq<uint8>, e: Timed<Event>)
    requires Within(read + u.healthToSafety, u.healthLog)
    ensures var t := Step(u, e.at, e.ev);
            Within((read + if e.ev.HealthReachesSafety? && u.healthToSafety != [] then [u.healthToSafety[0]] else [])
                   + t.healthToSafety, t.healthLog)
  {
    var t := Step(u, e.at, e.ev);
    var more := if e.ev.HealthReachesSafety? && u.healthToSafety != [] then [u.healthToSafety[0]] else [];
    HealthSafetyStep(u, e.at, e.ev);
    ManagerStep(u, e.at, e.ev);
    hide Step, Mon.Published, Mon.TickNodes, Within;
    if e.ev.LoseHealthToSafety? { LosesOne(u.healthToSafety, e.ev.i); }
    assert read + [] == read;
    hide Without;
    QueueKeepsOrder(read, u.healthToSafety, u.healthLog, read + more, t.healthToSafety, t.healthLog);
  }

  lemma VelocityQueue(u: System, read: seq<Message>, e: Timed<Event>)
    requires Within(read + u.velocityToSafety, Published(u.sent))
    ensures var t := Step(u, e.at, e.ev);
            Within((read + if e.ev.VelocityReachesSafety? && u.velocityToSafety != [] then [u.velocityToSafety[0]]
                           else []) + t.velocityToSafety, Published(t.sent))
  {
    var t := Step(u, e.at, e.ev);
    var more := if e.ev.VelocityReachesSafety? && u.velocityToSafety != [] then [u.velocityToSafety[0]] else [];
    VelocityStep(u, e.at, e.ev);
    hide Step, Within;
    if e.ev.LoseVelocity? { LosesOne(u.velocityToSafety, e.ev.i); }
    if t.sent != u.sent { PublishedGrows(u.sent, t.sent); }
    assert read + [] == read;
    hide Without;
    QueueKeepsOrder(read, u.velocityToSafety, Published(u.sent), read + more, t.velocityToSafety, Published(t.sent));
  }

  lemma PublishedGrows(sent: seq<Sent>, more: seq<Sent>)
    requires |more| == |sent| + 1 && more[..|sent|] == sent
    ensures Published(more) == Published(sent) + [Message(more[|sent|].velocity, |sent|)]
  {
    assert forall i :: 0 <= i < |sent| ==> more[i] == sent[i];
  }
}
