/** The velocity filter of the multiplexer: an exponential moving average followed by a clamp. */
module Smoothing {
  import opened Messages

  function Pow(b: real, n: nat): real {
    if n == 0 then 1.0 else b * Pow(b, n - 1)
  }

  /** One control tick on one axis. */
  function Filter(alpha: real, goal: real, limit: real, v: real): real {
    Clamp(alpha * goal + (1.0 - alpha) * v, limit)
  }

  function FilterTwist(alpha: real, goal: Twist, limit: real, v: Twist): Twist {
    Twist(Filter(alpha, goal.x, limit, v.x), Filter(alpha, goal.y, limit, v.y),
          Filter(alpha, goal.yaw, limit, v.yaw))
  }

  /** `n` ticks towards a constant goal under a constant limit. */
  function Settle(alpha: real, goal: real, limit: real, v: real, n: nat): real {
    if n == 0 then v else Filter(alpha, goal, limit, Settle(alpha, goal, limit, v, n - 1))
  }

  lemma ScaleLe(k: real, a: real, b: real)
    requires 0.0 <= k && a <= b
    ensures k * a <= k * b
  {
  }

  lemma ScaleAbs(k: real, a: real, product: real)
    requires 0.0 <= k && product == k * a
    ensures Abs(product) == k * Abs(a)
  {
    ScaleLe(k, 0.0, Abs(a));
  }

  lemma ScaleSign(k: real, a: real)
    requires 0.0 <= k
    ensures a <= 0.0 ==> k * a <= 0.0
    ensures 0.0 <= a ==> 0.0 <= k * a
    ensures a == 0.0 ==> k * a == 0.0
  {
  }

  lemma FilterSplit(alpha: real, goal: real, limit: real, v: real, c: real, pull: real, rest: real)
    requires pull == alpha * (goal - c) && rest == (1.0 - alpha) * (v - c)
    ensures Filter(alpha, goal, limit, v) == Clamp(c + pull + rest, limit)
  {
    hide Clamp;
    assert alpha * goal + (1.0 - alpha) * v == c + pull + rest;
  }

  /** The linear core of a tick: `pull` is the goal's contribution, `rest` what remains of the error. */
  lemma ClampTowards(goal: real, limit: real, pull: real, rest: real)
    requires 0.0 <= limit
    requires Clamp(goal, limit) < goal ==> 0.0 <= pull
    requires goal < Clamp(goal, limit) ==> pull <= 0.0
    requires Clamp(goal, limit) == goal ==> pull == 0.0
    ensures var c := Clamp(goal, limit); var v' := Clamp(c + pull + rest, limit);
            && Abs(v' - c) <= Abs(rest)
            && (rest <= 0.0 ==> v' <= c)
            && (0.0 <= rest ==> c <= v')
  {
  }

  /** Each tick shrinks the distance to the reachable goal by the factor 1 - alpha, without
      overshooting, from any starting velocity. */
  lemma TickContracts(alpha: real, goal: real, limit: real, v: real)
    requires 0.0 <= alpha <= 1.0 && 0.0 <= limit
    ensures var c := Clamp(goal, limit); var v' := Filter(alpha, goal, limit, v);
            && Abs(v' - c) <= (1.0 - alpha) * Abs(v - c)
            && (v <= c ==> v' <= c)
            && (c <= v ==> c <= v')
  {
    var c := Clamp(goal, limit);
    hide Filter, Abs, Clamp;
    ScaleSign(alpha, goal - c);
    ScaleSign(1.0 - alpha, v - c);
    var pull, rest := alpha * (goal - c), (1.0 - alpha) * (v - c);
    ScaleAbs(1.0 - alpha, v - c, rest);
    FilterSplit(alpha, goal, limit, v, c, pull, rest);
    ClampTowards(goal, limit, pull, rest);
  }

  lemma PowNonNegative(b: real, n: nat)
    requires 0.0 <= b
    ensures 0.0 <= Pow(b, n)
  {
    if n > 0 { PowNonNegative(b, n - 1); ScaleLe(b, 0.0, Pow(b, n - 1)); }
  }

  /** A geometric decay is no slower than a harmonic one. */
  lemma {:induction false} PowBelowHarmonic(alpha: real, n: nat)
    requires 0.0 <= alpha <= 1.0
    ensures Pow(1.0 - alpha, n) * (1.0 + n as real * alpha) <= 1.0
  {
    if n > 0 {
      var m := n - 1;
      var p := Pow(1.0 - alpha, m);
      PowBelowHarmonic(alpha, m);
      PowNonNegative(1.0 - alpha, m);
      var h := 1.0 + m as real * alpha;
      var sq := n as real * (alpha * alpha);
      assert 1.0 + n as real * alpha == h + alpha;
      assert (1.0 - alpha) * (h + alpha) == h - sq by {
        assert (1.0 - alpha) * (h + alpha) == h + alpha - alpha * h - alpha * alpha;
        assert alpha * h == alpha + m as real * (alpha * alpha);
      }
      assert 0.0 <= alpha * alpha;
      ScaleLe(n as real, 0.0, alpha * alpha);
      ScaleLe(p, h - sq, h);
      assert Pow(1.0 - alpha, n) * (h + alpha) == p * ((1.0 - alpha) * (h + alpha));
    }
  }

  /** After n ticks the distance to the reachable goal has decayed geometrically, hence harmonically. */
  lemma {:induction false} SettleBound(alpha: real, goal: real, limit: real, v: real, n: nat)
    requires 0.0 <= alpha <= 1.0 && 0.0 <= limit
    ensures var c := Clamp(goal, limit); var vn := Settle(alpha, goal, limit, v, n);
            && Abs(vn - c) <= Pow(1.0 - alpha, n) * Abs(v - c)
            && Abs(vn - c) <= Abs(v - c) / (1.0 + n as real * alpha)
            && (v <= c ==> vn <= c)
            && (c <= v ==> c <= vn)
  {
    hide Filter, Clamp;
    SettleGeometric(alpha, goal, limit, v, n);
    ScaleLe(n as real, 0.0, alpha);
    PowBelowHarmonic(alpha, n);
    HarmonicFrom(Pow(1.0 - alpha, n), 1.0 + n as real * alpha, Abs(v - Clamp(goal, limit)));
  }

  lemma HarmonicFrom(p: real, h: real, e: real)
    requires 0.0 <= e && 1.0 <= h && p * h <= 1.0
    ensures p * e <= e / h
  {
    ScaleLe(e, p * h, 1.0);
    assert e * (p * h) == (p * e) * h;
    var a := p * e;
    var q := e / h;
    assert q * h == e;
    if q < a { assert (a - q) * h > 0.0; }
  }

  lemma Compound(k: real, n: nat, a: real, e: real)
    requires 0.0 <= k && a <= Pow(k, n) * e
    ensures k * a <= Pow(k, n + 1) * e
  {
    var p := Pow(k, n);
    ScaleLe(k, a, p * e);
    assert k * (p * e) == (k * p) * e;
  }

  lemma {:induction false} SettleGeometric(alpha: real, goal: real, limit: real, v: real, n: nat)
    requires 0.0 <= alpha <= 1.0 && 0.0 <= limit
    ensures var c := Clamp(goal, limit); var vn := Settle(alpha, goal, limit, v, n);
            && Abs(vn - c) <= Pow(1.0 - alpha, n) * Abs(v - c)
            && (v <= c ==> vn <= c)
            && (c <= v ==> c <= vn)
  {
    hide Filter, Clamp, Abs;
    if n > 0 {
      SettleGeometric(alpha, goal, limit, v, n - 1);
      var c := Clamp(goal, limit);
      var u := Settle(alpha, goal, limit, v, n - 1);
      TickContracts(alpha, goal, limit, u);
      Compound(1.0 - alpha, n - 1, Abs(u - c), Abs(v - c));
    }
  }

  /** Inside the limits the clamp never acts and the closed form is exact. */
  lemma {:induction false} SettleExact(alpha: real, goal: real, limit: real, v: real, n: nat)
    requires 0.0 <= alpha <= 1.0
    requires Abs(goal) <= limit && Abs(v) <= limit
    ensures Settle(alpha, goal, limit, v, n) == goal + Pow(1.0 - alpha, n) * (v - goal)
  {
    hide Filter, Abs;
    if n > 0 {
      var u := Settle(alpha, goal, limit, v, n - 1);
      SettleExact(alpha, goal, limit, v, n - 1);
      SettleStaysWithin(alpha, goal, limit, v, n - 1);
      FilterInside(alpha, goal, limit, u);
      GeometricStep(alpha, goal, Pow(1.0 - alpha, n - 1), v - goal);
    }
  }

  lemma GeometricStep(alpha: real, goal: real, p: real, e: real)
    ensures alpha * goal + (1.0 - alpha) * (goal + p * e) == goal + ((1.0 - alpha) * p) * e
  {
  }

  lemma {:induction false} SettleStaysWithin(alpha: real, goal: real, limit: real, v: real, n: nat)
    requires Abs(v) <= limit
    ensures Abs(Settle(alpha, goal, limit, v, n)) <= limit
  {
    if n > 0 { SettleStaysWithin(alpha, goal, limit, v, n - 1); }
  }

  lemma FilterInside(alpha: real, goal: real, limit: real, v: real)
    requires 0.0 <= alpha <= 1.0 && Abs(goal) <= limit && Abs(v) <= limit
    ensures Filter(alpha, goal, limit, v) == alpha * goal + (1.0 - alpha) * v
  {
    Average(alpha, goal, v, limit);
  }

  lemma Average(alpha: real, a: real, b: real, limit: real)
    requires 0.0 <= alpha <= 1.0 && Abs(a) <= limit && Abs(b) <= limit
    ensures Abs(alpha * a + (1.0 - alpha) * b) <= limit
  {
    var k, p, q := 1.0 - alpha, alpha * a, (1.0 - alpha) * b;
    ScaleAbs(alpha, a, p);
    ScaleAbs(k, b, q);
    hide Abs;
    ScaleLe(alpha, Abs(a), limit);
    ScaleLe(k, Abs(b), limit);
    Unblend(alpha, limit);
    TriangleLe(p, q, alpha * limit, k * limit);
  }

  lemma Unblend(alpha: real, limit: real)
    ensures alpha * limit + (1.0 - alpha) * limit == limit
  {
  }

  lemma TriangleLe(a: real, b: real, p: real, q: real)
    requires Abs(a) <= p && Abs(b) <= q
    ensures Abs(a + b) <= p + q
  {
  }

  lemma AxisShrinks(alpha: real, limit: real, v: real)
    requires 0.0 <= alpha <= 1.0 && 0.0 <= limit
    ensures AxisNoLarger(Filter(alpha, 0.0, limit, v), 1.0 - alpha, v)
  {
    TickContracts(alpha, 0.0, limit, v);
  }

  /** With a zero goal a tick shrinks every axis, whatever the limit in force. */
  lemma ZeroGoalShrinks(alpha: real, limit: real, v: Twist)
    requires 0.0 <= alpha <= 1.0 && 0.0 <= limit
    ensures NoLarger(FilterTwist(alpha, ZERO_TWIST, limit, v), 1.0 - alpha, v)
  {
    hide Filter, AxisNoLarger;
    AxisShrinks(alpha, limit, v.x);
    AxisShrinks(alpha, limit, v.y);
    AxisShrinks(alpha, limit, v.yaw);
  }

  lemma NoLargerCompounds(a: Twist, k: real, b: Twist, p: real, c: Twist, q: real)
    requires 0.0 <= k && NoLarger(a, k, b) && NoLarger(b, p, c) && q == k * p
    ensures NoLarger(a, q, c)
  {
    hide AxisNoLarger;
    AxisCompounds(a.x, k, b.x, p, c.x, q);
    AxisCompounds(a.y, k, b.y, p, c.y, q);
    AxisCompounds(a.yaw, k, b.yaw, p, c.yaw, q);
  }

  lemma AxisCompounds(a: real, k: real, b: real, p: real, c: real, q: real)
    requires 0.0 <= k && AxisNoLarger(a, k, b) && AxisNoLarger(b, p, c) && q == k * p
    ensures AxisNoLarger(a, q, c)
  {
    MagnitudeCompounds(Abs(a), k, Abs(b), p, Abs(c));
  }

  lemma MagnitudeCompounds(a: real, k: real, b: real, p: real, c: real)
    requires 0.0 <= k && a <= k * b && b <= p * c
    ensures a <= (k * p) * c
  {
    ScaleLe(k, b, p * c);
    assert k * (p * c) == (k * p) * c;
  }

  lemma OnceItself(v: Twist)
    ensures NoLarger(v, 1.0, v)
  {
  }
}
