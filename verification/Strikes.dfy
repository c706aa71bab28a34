/** The strike counter against the component's history. */
module Strikes {
  import opened Messages
  import opened Recovery

  /** Report `i` was read, and it was ACTIVE. */
  predicate ActiveAt(c: Component, rs: seq<Reading>, i: nat)
    requires i < |rs|
  {
    !Run(c, rs[..i]).isDefective && rs[i].state == PRIMARY_STATE_ACTIVE
  }

  /** Report `i` is a strike: a failure found while no recovery cycle is under way. */
  predicate StrikeAt(c: Component, rs: seq<Reading>, i: nat)
    requires i < |rs|
  {
    !Run(c, rs[..i]).isDefective && Run(c, rs[..i]).phase == Nominal && IsFailure(rs[i].state)
  }

  predicate NoActiveBetween(c: Component, rs: seq<Reading>, i: int, j: nat)
    requires -1 <= i && j <= |rs|
  {
    forall k :: i < k < j ==> !ActiveAt(c, rs, k)
  }

  /** The strikes since the last ACTIVE report, oldest first. */
  ghost predicate IsStreak(c: Component, rs: seq<Reading>, streak: seq<nat>) {
    && (forall a, b :: 0 <= a < b < |streak| ==> streak[a] < streak[b])
    && (forall a :: 0 <= a < |streak| ==> streak[a] < |rs|)
    && (forall i: nat :: i in streak <==> i < |rs| && StrikeAt(c, rs, i) && NoActiveBetween(c, rs, i, |rs|))
  }

  function Streak(c: Component, rs: seq<Reading>): (streak: seq<nat>)
  {
    if rs == [] then [] else
    var last := |rs| - 1;
    if ActiveAt(c, rs, last) then []
    else if StrikeAt(c, rs, last) then Streak(c, rs[..last]) + [last]
    else Streak(c, rs[..last])
  }

  lemma SamePast(c: Component, rs: seq<Reading>, n: nat, i: nat)
    requires i < n <= |rs|
    ensures ActiveAt(c, rs[..n], i) <==> ActiveAt(c, rs, i)
    ensures StrikeAt(c, rs[..n], i) <==> StrikeAt(c, rs, i)
  {
    PrefixOfPrefix(rs, i, n);
  }

  lemma NoActiveExtends(c: Component, rs: seq<Reading>, i: nat)
    requires i < |rs| - 1
    ensures NoActiveBetween(c, rs, i, |rs|)
            <==> NoActiveBetween(c, rs[..|rs| - 1], i, |rs| - 1) && !ActiveAt(c, rs, |rs| - 1)
  {
    var last := |rs| - 1;
    forall k: nat | k < last ensures ActiveAt(c, rs[..last], k) <==> ActiveAt(c, rs, k) {
      SamePast(c, rs, last, k);
    }
    hide ActiveAt;
  }

  lemma {:induction false} InStreak(c: Component, rs: seq<Reading>, i: nat)
    ensures i in Streak(c, rs) <==> i < |rs| && StrikeAt(c, rs, i) && NoActiveBetween(c, rs, i, |rs|)
  {
    if rs != [] {
      var last := |rs| - 1;
      InStreak(c, rs[..last], i);
      if i < last {
        SamePast(c, rs, last, i);
        NoActiveExtends(c, rs, i);
        assert !(ActiveAt(c, rs, last) && StrikeAt(c, rs, last));
        hide ActiveAt, StrikeAt, NoActiveBetween;
      }
    }
  }

  lemma {:induction false} StreakAscends(c: Component, rs: seq<Reading>)
    ensures forall a, b :: 0 <= a < b < |Streak(c, rs)| ==> Streak(c, rs)[a] < Streak(c, rs)[b]
    ensures forall a :: 0 <= a < |Streak(c, rs)| ==> Streak(c, rs)[a] < |rs|
  {
    if rs != [] {
      StreakAscends(c, rs[..|rs| - 1]);
      hide ActiveAt, StrikeAt;
    }
  }

  lemma StreakMeaning(c: Component, rs: seq<Reading>)
    ensures IsStreak(c, rs, Streak(c, rs))
  {
    StreakAscends(c, rs);
    forall i: nat
      ensures i in Streak(c, rs) <==> i < |rs| && StrikeAt(c, rs, i) && NoActiveBetween(c, rs, i, |rs|)
    {
      InStreak(c, rs, i);
    }
    hide ActiveAt, StrikeAt, NoActiveBetween, Streak;
  }

  /** The retry counter is exactly the number of strikes since the last ACTIVE report. */
  lemma {:induction false} RetriesCountStrikes(c: Component, rs: seq<Reading>)
    requires Fresh(c)
    ensures Run(c, rs).retryCount == |Streak(c, rs)| && IsStreak(c, rs, Streak(c, rs))
    ensures Disciplined(Run(c, rs))
  {
    StreakMeaning(c, rs);
    CountStreak(c, rs);
    RunDisciplined(c, rs);
  }

  lemma {:induction false} CountStreak(c: Component, rs: seq<Reading>)
    requires Fresh(c)
    ensures Run(c, rs).retryCount == |Streak(c, rs)|
  {
    if rs != [] {
      CountStreak(c, rs[..|rs| - 1]);
      RunDisciplined(c, rs[..|rs| - 1]);
    }
  }

  /** Four strikes with no ACTIVE report between them. */
  ghost predicate FourStrikes(c: Component, rs: seq<Reading>, p: nat, q: nat, r: nat, s: nat) {
    && p < q < r < s < |rs|
    && StrikeAt(c, rs, p) && StrikeAt(c, rs, q) && StrikeAt(c, rs, r) && StrikeAt(c, rs, s)
    && NoActiveBetween(c, rs, p, s)
  }

  /** A component is locked out exactly when its history holds four strikes with no ACTIVE between. */
  lemma DefectiveIffFourStrikes(c: Component, rs: seq<Reading>)
    requires Fresh(c)
    ensures Run(c, rs).isDefective
            <==> exists p: nat, q: nat, r: nat, s: nat :: FourStrikes(c, rs, p, q, r, s)
  {
    hide Run, NoActiveBetween;
    if Run(c, rs).isDefective {
      var p, q, r, s := LockoutHasFourStrikes(c, rs);
    }
    forall p: nat, q: nat, r: nat, s: nat | FourStrikes(c, rs, p, q, r, s)
      ensures Run(c, rs).isDefective
    {
      FourStrikesLockOut(c, rs, p, q, r, s);
    }
  }

  lemma LockoutHasFourStrikes(c: Component, rs: seq<Reading>) returns (p: nat, q: nat, r: nat, s: nat)
    requires Fresh(c) && Run(c, rs).isDefective
    ensures FourStrikes(c, rs, p, q, r, s)
  {
    var streak := Streak(c, rs);
    CountStreak(c, rs);
    RunDisciplined(c, rs);
    StreakMeaning(c, rs);
    assert forall a :: 0 <= a < 4 ==> streak[a] in streak;
    p, q, r, s := streak[0], streak[1], streak[2], streak[3];
  }

  lemma FourStrikesLockOut(c: Component, rs: seq<Reading>, p: nat, q: nat, r: nat, s: nat)
    requires Fresh(c) && FourStrikes(c, rs, p, q, r, s)
    ensures Run(c, rs).isDefective
  {
    hide Run, StrikeAt, ActiveAt;
    StrikeCounts(c, rs, p);
    NextStrike(c, rs, p, q);
    NextStrike(c, rs, q, r);
    NextStrike(c, rs, r, s);
    RunDisciplined(c, rs[..p]);
    RunDisciplined(c, rs[..s + 1]);
    LockoutIsPermanent(c, rs, s + 1);
  }

  lemma NextStrike(c: Component, rs: seq<Reading>, i: nat, j: nat)
    requires i < j < |rs| && StrikeAt(c, rs, j) && NoActiveBetween(c, rs, i, j)
    ensures Run(c, rs[..i + 1]).retryCount < Run(c, rs[..j + 1]).retryCount
  {
    RetriesKept(c, rs, i, j);
    StrikeCounts(c, rs, j);
  }

  lemma StrikeCounts(c: Component, rs: seq<Reading>, i: nat)
    requires i < |rs| && StrikeAt(c, rs, i)
    ensures Run(c, rs[..i + 1]).retryCount == Run(c, rs[..i]).retryCount + 1
  {
    assert rs[..i + 1][..i] == rs[..i];
  }

  /** Without an ACTIVE report the counter never falls. */
  lemma {:induction false} RetriesKept(c: Component, rs: seq<Reading>, i: nat, j: nat)
    requires i < j <= |rs| && NoActiveBetween(c, rs, i, j)
    ensures Run(c, rs[..i + 1]).retryCount <= Run(c, rs[..j]).retryCount
    decreases j
  {
    if i + 1 < j {
      RetriesKept(c, rs, i, j - 1);
      assert rs[..j][..j - 1] == rs[..j - 1];
      assert !ActiveAt(c, rs, j - 1);
    }
  }
}
