/** The two flag callbacks of the multiplexer, which take no lock, as interleaved atomic accesses. */
module BlockFlags {

  datatype Kind = FdirCallback | SafetyCallback

  datatype Action = StoreFdir(b: bool) | StoreEstop(b: bool) | LoadFdir | LoadEstop | StoreBlocked(b: bool)

  datatype Entry = Entry(id: nat, action: Action)

  /** How far a callback has come: which accesses it has made. */
  datatype Progress = Begun | Flagged | FdirRead | Decided | Finished

  /** A callback in flight, what it loaded, and where in the log its accesses stand. */
  datatype Call = Call(kind: Kind, value: bool, progress: Progress, flagAt: nat, fdirAt: nat, estopAt: nat,
                       fdirSeen: bool, result: bool, doneAt: nat)

  datatype State = State(fdir: bool, estop: bool, blocked: bool, calls: map<nat, Call>, log: seq<Entry>)

  datatype Move = Begin(id: nat, kind: Kind, value: bool) | Advance(id: nat)

  const INITIAL := State(false, false, false, map[], [])

  /** One atomic access of callback `id`. The second load happens only when the first returned false. */
  function Access(s: State, id: nat): State
    requires id in s.calls
  {
    var c, n := s.calls[id], |s.log|;
    match c.progress
    case Begun =>
      var t := s.(calls := s.calls[id := c.(progress := Flagged, flagAt := n)]);
      if c.kind == FdirCallback then t.(fdir := c.value, log := s.log + [Entry(id, StoreFdir(c.value))])
      else t.(estop := c.value, log := s.log + [Entry(id, StoreEstop(c.value))])
    case Flagged =>
      var read := c.(progress := if s.fdir then Decided else FdirRead, fdirAt := n, fdirSeen := s.fdir, result := true);
      s.(calls := s.calls[id := read], log := s.log + [Entry(id, LoadFdir)])
    case FdirRead =>
      s.(calls := s.calls[id := c.(progress := Decided, estopAt := n, result := s.estop)],
         log := s.log + [Entry(id, LoadEstop)])
    case Decided =>
      s.(blocked := c.result, calls := s.calls[id := c.(progress := Finished, doneAt := n)],
         log := s.log + [Entry(id, StoreBlocked(c.result))])
    case Finished => s
  }

  /** Any callback may begin at any time, and any one in flight may make the next access. */
  function Step(s: State, m: Move): State {
    match m
    case Begin(id, kind, value) =>
      if id in s.calls then s
      else s.(calls := s.calls[id := Call(kind, value, Begun, 0, 0, 0, false, false, 0)])
    case Advance(id) => if id in s.calls then Access(s, id) else s
  }

  function Run(moves: seq<Move>): State {
    if moves == [] then INITIAL else Step(Run(moves[..|moves| - 1]), moves[|moves| - 1])
  }

  predicate AtRest(s: State) {
    forall id :: id in s.calls ==> s.calls[id].progress == Finished
  }

  predicate Consistent(s: State) {
    s.blocked == (s.fdir || s.estop)
  }

  /** Access `j` stores the first, or the second, flag. */
  predicate StoresFdir(log: seq<Entry>, j: nat) {
    j < |log| && log[j].action.StoreFdir?
  }

  predicate StoresEstop(log: seq<Entry>, j: nat) {
    j < |log| && log[j].action.StoreEstop?
  }

  predicate StoresBlocked(log: seq<Entry>, j: nat) {
    j < |log| && log[j].action.StoreBlocked?
  }

  // ----- invariant -----

  /** What the callback loaded is still so, unless the flag has been stored since. */
  ghost predicate LoadsHold(s: State, c: Call) {
    && (c.progress in {FdirRead, Decided, Finished} ==>
          c.fdirAt < |s.log| && c.flagAt < c.fdirAt
          && (s.fdir == c.fdirSeen || exists j: nat :: c.fdirAt < j && StoresFdir(s.log, j)))
    && (c.progress == FdirRead ==> !c.fdirSeen)
    && (c.progress in {Decided, Finished} && c.fdirSeen ==> c.result)
    && (c.progress in {Decided, Finished} && !c.fdirSeen ==>
          c.estopAt < |s.log| && c.flagAt < c.estopAt
          && (s.estop == c.result || exists j: nat :: c.estopAt < j && StoresEstop(s.log, j)))
  }

  /** The callback's own stores are where its record says. */
  predicate StoresLogged(s: State, id: nat, c: Call) {
    && (c.progress != Begun ==>
          c.flagAt < |s.log| && s.log[c.flagAt].id == id
          && s.log[c.flagAt].action == if c.kind == FdirCallback then StoreFdir(c.value) else StoreEstop(c.value))
    && (c.progress == Finished ==>
          c.doneAt < |s.log| && s.log[c.doneAt] == Entry(id, StoreBlocked(c.result)) && c.flagAt < c.doneAt)
  }

  /** Every store in the log belongs to the one callback whose record names it. */
  ghost predicate LogOwned(s: State) {
    && (forall j: nat :: StoresFdir(s.log, j) || StoresEstop(s.log, j) ==> FlagOwned(s, j))
    && (forall j: nat :: StoresBlocked(s.log, j) ==> DoneOwned(s, j))
  }

  predicate FlagOwned(s: State, j: nat) {
    j < |s.log| && s.log[j].id in s.calls
    && s.calls[s.log[j].id].progress != Begun && s.calls[s.log[j].id].flagAt == j
  }

  predicate DoneOwned(s: State, j: nat) {
    j < |s.log| && s.log[j].id in s.calls
    && s.calls[s.log[j].id].progress == Finished && s.calls[s.log[j].id].doneAt == j
  }

  /** `j` is the last store of the combined flag, and its value is in force. */
  ghost predicate LastDecision(s: State, j: nat) {
    && StoresBlocked(s.log, j) && s.log[j].action.b == s.blocked
    && forall k: nat :: j < k ==> !StoresBlocked(s.log, k)
  }

  ghost predicate Invariant(s: State) {
    && (forall id :: id in s.calls ==> LoadsHold(s, s.calls[id]) && StoresLogged(s, id, s.calls[id]))
    && LogOwned(s)
    && Decisions(s)
    && FdirLogged(s)
    && EstopLogged(s)
  }

  /** `t` is `s` after one more access: only a store of a flag changes it, to the value stored. */
  predicate Appends(s: State, t: State) {
    && |t.log| == |s.log| + 1 && s.log == t.log[..|s.log|]
    && t.fdir == (if t.log[|s.log|].action.StoreFdir? then t.log[|s.log|].action.b else s.fdir)
    && t.estop == (if t.log[|s.log|].action.StoreEstop? then t.log[|s.log|].action.b else s.estop)
    && t.blocked == (if t.log[|s.log|].action.StoreBlocked? then t.log[|s.log|].action.b else s.blocked)
  }

  lemma AccessAppends(s: State, id: nat)
    requires id in s.calls && s.calls[id].progress != Finished
    ensures Appends(s, Access(s, id))
    ensures Access(s, id).log[|s.log|].id == id
    ensures Access(s, id).calls == s.calls[id := Access(s, id).calls[id]]
  {
  }

  lemma StoresAppend(s: State, t: State)
    requires Appends(s, t)
    ensures forall j: nat :: StoresFdir(s.log, j) ==> StoresFdir(t.log, j)
    ensures forall j: nat :: StoresEstop(s.log, j) ==> StoresEstop(t.log, j)
    ensures forall j: nat :: StoresFdir(t.log, j) && j < |s.log| ==> StoresFdir(s.log, j)
    ensures forall j: nat :: StoresEstop(t.log, j) && j < |s.log| ==> StoresEstop(s.log, j)
    ensures forall j: nat :: StoresBlocked(t.log, j) && j < |s.log| ==> StoresBlocked(s.log, j)
    ensures forall j: nat :: j < |s.log| ==> t.log[j] == s.log[j]
  {
    assert forall j: nat :: j < |s.log| ==> t.log[j] == s.log[j];
  }

  /** Another callback's access leaves this one's record true. */
  lemma OthersKeep(s: State, t: State, id: nat, c: Call)
    requires Appends(s, t) && LoadsHold(s, c) && StoresLogged(s, id, c)
    ensures LoadsHold(t, c) && StoresLogged(t, id, c)
  {
    StoresAppend(s, t);
    var n := |s.log|;
    assert t.fdir != s.fdir ==> StoresFdir(t.log, n);
    assert t.estop != s.estop ==> StoresEstop(t.log, n);
  }

  /** The access itself keeps its own record true. */
  lemma OwnKeep(s: State, id: nat)
    requires id in s.calls && s.calls[id].progress != Finished
    requires LoadsHold(s, s.calls[id]) && StoresLogged(s, id, s.calls[id])
    ensures var t := Access(s, id); LoadsHold(t, t.calls[id]) && StoresLogged(t, id, t.calls[id])
  {
    OwnLoads(s, id);
    OwnStores(s, id);
    hide *;
  }

  lemma OwnLoads(s: State, id: nat)
    requires id in s.calls && s.calls[id].progress != Finished
    requires LoadsHold(s, s.calls[id]) && StoresLogged(s, id, s.calls[id])
    ensures var t := Access(s, id); LoadsHold(t, t.calls[id])
  {
    var t := Access(s, id);
    AccessAppends(s, id);
    StoresAppend(s, t);
  }

  lemma OwnStores(s: State, id: nat)
    requires id in s.calls && s.calls[id].progress != Finished && StoresLogged(s, id, s.calls[id])
    ensures var t := Access(s, id); StoresLogged(t, id, t.calls[id])
  {
    AccessAppends(s, id);
    StoresAppend(s, Access(s, id));
  }

  lemma FlagsOwnedKeep(s: State, id: nat, j: nat)
    requires id in s.calls && s.calls[id].progress != Finished && LogOwned(s)
    requires StoresFdir(Access(s, id).log, j) || StoresEstop(Access(s, id).log, j)
    ensures FlagOwned(Access(s, id), j)
  {
    var t := Access(s, id);
    AccessAppends(s, id);
    StoresAppend(s, t);
    if j < |s.log| { assert FlagOwned(s, j); }
  }

  lemma DoneOwnedKeep(s: State, id: nat, j: nat)
    requires id in s.calls && s.calls[id].progress != Finished && LogOwned(s)
    requires StoresBlocked(Access(s, id).log, j)
    ensures DoneOwned(Access(s, id), j)
  {
    AccessAppends(s, id);
    StoresAppend(s, Access(s, id));
    if j < |s.log| { assert DoneOwned(s, j); }
  }

  lemma LogOwnedKeep(s: State, id: nat)
    requires id in s.calls && s.calls[id].progress != Finished && LogOwned(s)
    ensures LogOwned(Access(s, id))
  {
    var t := Access(s, id);
    forall j: nat | StoresFdir(t.log, j) || StoresEstop(t.log, j) ensures FlagOwned(t, j) {
      FlagsOwnedKeep(s, id, j);
    }
    forall j: nat | StoresBlocked(t.log, j) ensures DoneOwned(t, j) {
      DoneOwnedKeep(s, id, j);
    }
    hide Access, FlagOwned, DoneOwned, StoresFdir, StoresEstop, StoresBlocked;
  }

  /** The last decision is known, or none has been made. */
  ghost predicate Decisions(s: State) {
    (exists j: nat :: LastDecision(s, j)) || (!s.blocked && forall j: nat :: !StoresBlocked(s.log, j))
  }

  lemma DecisionsKeep(s: State, t: State)
    requires Appends(s, t) && Decisions(s)
    ensures Decisions(t)
  {
    StoresAppend(s, t);
    if StoresBlocked(t.log, |s.log|) {
      assert LastDecision(t, |s.log|);
    } else if j: nat :| LastDecision(s, j) {
      assert LastDecision(t, j);
    }
  }

  lemma StepInvariant(s: State, m: Move)
    requires Invariant(s)
    ensures Invariant(Step(s, m))
  {
    if m.Begin? {
      BeginInvariant(s, m);
    } else if m.id in s.calls && s.calls[m.id].progress != Finished {
      AccessInvariant(s, m.id);
    }
  }

  lemma BeginInvariant(s: State, m: Move)
    requires Invariant(s) && m.Begin?
    ensures Invariant(Step(s, m))
  {
    var t := Step(s, m);
    if m.id !in s.calls {
      forall id | id in t.calls ensures LoadsHold(t, t.calls[id]) && StoresLogged(t, id, t.calls[id]) {
        if id != m.id { SameLog(s, t, id, s.calls[id]); }
      }
      BeginOwned(s, m);
      if j: nat :| LastDecision(s, j) { assert LastDecision(t, j); }
      hide LoadsHold, StoresLogged, LogOwned, LastDecision, LastFdir, LastEstop;
    }
  }

  lemma SameLog(s: State, t: State, id: nat, c: Call)
    requires t.fdir == s.fdir && t.estop == s.estop && t.log == s.log
    requires LoadsHold(s, c) && StoresLogged(s, id, c)
    ensures LoadsHold(t, c) && StoresLogged(t, id, c)
  {
  }

  lemma BeginOwned(s: State, m: Move)
    requires LogOwned(s) && m.Begin? && m.id !in s.calls
    ensures LogOwned(Step(s, m))
  {
    var t := Step(s, m);
    forall j: nat | StoresFdir(t.log, j) || StoresEstop(t.log, j) ensures FlagOwned(t, j) {
      assert FlagOwned(s, j);
    }
    forall j: nat | StoresBlocked(t.log, j) ensures DoneOwned(t, j) {
      assert DoneOwned(s, j);
    }
  }

  lemma AccessInvariant(s: State, id: nat)
    requires Invariant(s) && id in s.calls && s.calls[id].progress != Finished
    ensures Invariant(Access(s, id))
  {
    var t := Access(s, id);
    AccessAppends(s, id);
    OwnKeep(s, id);
    LogOwnedKeep(s, id);
    DecisionsKeep(s, t);
    FdirLoggedKeep(s, t);
    EstopLoggedKeep(s, t);
    forall k | k in t.calls ensures LoadsHold(t, t.calls[k]) && StoresLogged(t, k, t.calls[k]) {
      if k != id { OthersKeep(s, t, k, s.calls[k]); }
    }
    hide Access, LoadsHold, StoresLogged, LogOwned, Decisions, Appends, FdirLogged, EstopLogged;
  }

  /** Access `j` is the last store of the first, or the second, flag. */
  ghost predicate LastFdir(log: seq<Entry>, j: nat) {
    StoresFdir(log, j) && forall k: nat :: j < k ==> !StoresFdir(log, k)
  }

  ghost predicate LastEstop(log: seq<Entry>, j: nat) {
    StoresEstop(log, j) && forall k: nat :: j < k ==> !StoresEstop(log, k)
  }

  /** Each flag has the value last stored, or is down if none was. */
  ghost predicate FdirLogged(s: State) {
    (exists j: nat :: LastFdir(s.log, j) && s.log[j].action.b == s.fdir)
    || (!s.fdir && forall j: nat :: !StoresFdir(s.log, j))
  }

  ghost predicate EstopLogged(s: State) {
    (exists j: nat :: LastEstop(s.log, j) && s.log[j].action.b == s.estop)
    || (!s.estop && forall j: nat :: !StoresEstop(s.log, j))
  }

  lemma FdirLoggedKeep(s: State, t: State)
    requires Appends(s, t) && FdirLogged(s)
    ensures FdirLogged(t)
  {
    StoresAppend(s, t);
    var n := |s.log|;
    if StoresFdir(t.log, n) {
      assert LastFdir(t.log, n);
    } else if j: nat :| LastFdir(s.log, j) && s.log[j].action.b == s.fdir {
      assert LastFdir(t.log, j);
    }
  }

  lemma EstopLoggedKeep(s: State, t: State)
    requires Appends(s, t) && EstopLogged(s)
    ensures EstopLogged(t)
  {
    StoresAppend(s, t);
    var n := |s.log|;
    if StoresEstop(t.log, n) {
      assert LastEstop(t.log, n);
    } else if j: nat :| LastEstop(s.log, j) && s.log[j].action.b == s.estop {
      assert LastEstop(t.log, j);
    }
  }

  lemma {:induction false} RunInvariant(moves: seq<Move>)
    ensures Invariant(Run(moves))
  {
    if moves != [] {
      RunInvariant(moves[..|moves| - 1]);
      StepInvariant(Run(moves[..|moves| - 1]), moves[|moves| - 1]);
    }
  }

  // ----- results -----

  /** While callback `id` was between its load of a flag and its decision, another callback stored that flag. */
  ghost predicate Overtaken(s: State, id: nat, j: nat)
    requires id in s.calls
  {
    var c := s.calls[id];
    && j < |s.log| && s.log[j].id != id && j < c.doneAt
    && ((c.fdirAt < j && StoresFdir(s.log, j)) || (!c.fdirSeen && c.estopAt < j && StoresEstop(s.log, j)))
  }

  /** The store `j` overtook the callback that decided, it is the last one of its flag, and it contradicts the
      decision; and if the decision was to block, no other flag supports it. */
  ghost predicate Contradicts(s: State, id: nat, j: nat)
    requires id in s.calls
  {
    && Overtaken(s, id, j)
    && (LastFdir(s.log, j) || LastEstop(s.log, j))
    && s.log[j].action.b != s.calls[id].result
    && (s.calls[id].result ==>
          && (forall k: nat :: LastFdir(s.log, k) ==> !s.log[k].action.b)
          && (forall k: nat :: LastEstop(s.log, k) ==> !s.log[k].action.b))
  }

  ghost predicate LastDecisionContradicted(s: State) {
    exists last: nat, j: nat ::
      LastDecision(s, last) && s.log[last].id in s.calls && Contradicts(s, s.log[last].id, j)
  }

  /** In every reachable state at rest the combined flag is wrong if and only if the callback that stored it last
      was overtaken by a flag store that is the last of its flag and contradicts its decision. */
  lemma {:induction false} WrongIffContradicted(moves: seq<Move>)
    requires AtRest(Run(moves))
    ensures !Consistent(Run(moves)) <==> LastDecisionContradicted(Run(moves))
  {
    RunInvariant(moves);
    hide Run, Invariant, Overtaken;
    var s := Run(moves);
    if !Consistent(s) {
      var last := SomebodyDecided(s);
      var j := ContradictedBy(s, last);
    }
    if last: nat, j: nat :| LastDecision(s, last) && s.log[last].id in s.calls && Contradicts(s, s.log[last].id, j) {
      ContradictedIsWrong(s, last, j);
    }
  }

  /** At rest with a raised flag, or with the combined flag up, a decision has been made. */
  lemma SomebodyDecided(s: State) returns (last: nat)
    requires Invariant(s) && AtRest(s) && !Consistent(s)
    ensures LastDecision(s, last)
  {
    if j: nat :| StoresFdir(s.log, j) || StoresEstop(s.log, j) {
      OwnerDecided(s, j);
    }
    hide LoadsHold, StoresLogged, LogOwned;
    last :| LastDecision(s, last);
  }

  lemma OwnerDecided(s: State, j: nat)
    requires Invariant(s) && AtRest(s) && (StoresFdir(s.log, j) || StoresEstop(s.log, j))
    ensures exists k: nat :: StoresBlocked(s.log, k)
  {
    assert FlagOwned(s, j);
    var c := s.calls[s.log[j].id];
    assert StoresLogged(s, s.log[j].id, c) && StoresBlocked(s.log, c.doneAt);
  }

  lemma ContradictedBy(s: State, last: nat) returns (j: nat)
    requires Invariant(s) && AtRest(s) && !Consistent(s) && LastDecision(s, last)
    ensures s.log[last].id in s.calls && Contradicts(s, s.log[last].id, j)
  {
    var id := s.log[last].id;
    assert DoneOwned(s, last);
    var c := s.calls[id];
    assert c.result == s.blocked && LoadsHold(s, c);
    LastStoresSay(s);
    if s.fdir != c.fdirSeen && s.fdir != c.result {
      var k: nat :| c.fdirAt < k && StoresFdir(s.log, k);
      j :| LastFdir(s.log, j) && s.log[j].action.b == s.fdir;
    } else {
      var k: nat :| c.estopAt < k && StoresEstop(s.log, k);
      j :| LastEstop(s.log, j) && s.log[j].action.b == s.estop;
    }
    StoredBefore(s, id, last, j);
  }

  lemma LastStoresSay(s: State)
    requires FdirLogged(s) && EstopLogged(s)
    ensures forall k: nat :: LastFdir(s.log, k) ==> s.log[k].action.b == s.fdir
    ensures forall k: nat :: LastEstop(s.log, k) ==> s.log[k].action.b == s.estop
  {
    forall k: nat | LastFdir(s.log, k) ensures s.log[k].action.b == s.fdir {
      var j: nat :| LastFdir(s.log, j) && s.log[j].action.b == s.fdir;
      assert j == k;
    }
    forall k: nat | LastEstop(s.log, k) ensures s.log[k].action.b == s.estop {
      var j: nat :| LastEstop(s.log, j) && s.log[j].action.b == s.estop;
      assert j == k;
    }
  }

  lemma ContradictedIsWrong(s: State, last: nat, j: nat)
    requires Invariant(s) && AtRest(s) && LastDecision(s, last) && s.log[last].id in s.calls
    requires Contradicts(s, s.log[last].id, j)
    ensures !Consistent(s)
  {
    assert DoneOwned(s, last);
    assert StoresLogged(s, s.log[last].id, s.calls[s.log[last].id]);
    LastStoresSay(s);
    FlagsDown(s);
    hide Invariant, Overtaken, LastFdir, LastEstop, DoneOwned;
  }

  /** A flag of which every last store is a clear is down. */
  lemma FlagsDown(s: State)
    requires FdirLogged(s) && EstopLogged(s)
    ensures (forall k: nat :: LastFdir(s.log, k) ==> !s.log[k].action.b) ==> !s.fdir
    ensures (forall k: nat :: LastEstop(s.log, k) ==> !s.log[k].action.b) ==> !s.estop
  {
  }

  /** So the callback that stored it last was overtaken: another callback stored a flag after it was loaded. */
  lemma {:induction false} WrongMeansOvertaken(moves: seq<Move>)
    requires AtRest(Run(moves)) && !Consistent(Run(moves))
    ensures var s := Run(moves);
            exists last: nat, j: nat ::
              && LastDecision(s, last) && s.log[last].id in s.calls
              && Overtaken(s, s.log[last].id, j)
  {
    WrongIffContradicted(moves);
  }

  /** At rest, whoever stored a flag has since decided, so not after the last decision. */
  lemma StoredBefore(s: State, id: nat, last: nat, j: nat)
    requires Invariant(s) && AtRest(s) && LastDecision(s, last) && id in s.calls && s.calls[id].doneAt == last
    requires (StoresFdir(s.log, j) || StoresEstop(s.log, j)) && s.calls[id].flagAt < j
    ensures s.log[j].id != id && j < last
  {
    assert FlagOwned(s, j);
    var other := s.calls[s.log[j].id];
    assert StoresLogged(s, s.log[j].id, other);
    assert StoresBlocked(s.log, other.doneAt);
  }

  /** Nobody else stored a flag since this callback loaded it. */
  ghost predicate Undisturbed(s: State, c: Call) {
    && (forall j: nat :: c.fdirAt < j ==> !StoresFdir(s.log, j))
    && (!c.fdirSeen ==> forall j: nat :: c.estopAt < j ==> !StoresEstop(s.log, j))
  }

  /** A callback that decides undisturbed leaves the combined flag right, whatever else is in flight. */
  lemma UndisturbedRestores(moves: seq<Move>, id: nat)
    requires var s := Run(moves);
             id in s.calls && s.calls[id].progress == Decided && Undisturbed(s, s.calls[id])
    ensures Consistent(Run(moves + [Advance(id)]))
  {
    RunInvariant(moves);
    assert (moves + [Advance(id)])[..|moves|] == moves;
    var s := Run(moves);
    assert LoadsHold(s, s.calls[id]);
  }

  /** The hypothesis is needed: two overlapping callbacks can leave the block down with the flag up. */
  lemma BlockCanBeLost() returns (moves: seq<Move>)
    ensures var s := Run(moves); AtRest(s) && s.fdir && !s.blocked
  {
    var slow, fast := 0, 1;
    var s0 := INITIAL;
    moves := [];
    moves := Then(moves, s0, Begin(slow, SafetyCallback, false));
    moves := Then(moves, Run(moves), Advance(slow));
    moves := Then(moves, Run(moves), Advance(slow));
    moves := Then(moves, Run(moves), Advance(slow));
    assert Run(moves).calls[slow].progress == Decided && !Run(moves).calls[slow].result;
    moves := Then(moves, Run(moves), Begin(fast, FdirCallback, true));
    moves := Then(moves, Run(moves), Advance(fast));
    moves := Then(moves, Run(moves), Advance(fast));
    moves := Then(moves, Run(moves), Advance(fast));
    assert Run(moves).blocked && Run(moves).fdir && Run(moves).calls[fast].progress == Finished;
    moves := Then(moves, Run(moves), Advance(slow));
  }

  lemma Then(moves: seq<Move>, s: State, m: Move) returns (moves': seq<Move>)
    requires Run(moves) == s
    ensures Run(moves') == Step(s, m)
  {
    moves' := moves + [m];
    assert moves'[..|moves|] == moves;
  }
}
