/** Every interleaving of records and decisions on a path manager, decisions giving up the lock while peers are picked. */
module PathRuns {
  import opened Bytes
  import opened Collections
  import opened PathManager

  /** The shared state and the decisions whose peers are being picked. */
  datatype World = World(s: State, open: seq<Pending>)

  datatype Op =
    | RecordOp(key: string, ok: bool, relay: byte, ttl: byte, now: int)
    | BeginOp(key: string, ask: Ask, stamp: int)
    | FinishOp(i: nat, picked: Option<Routes>, stamp: int)

  ghost predicate Recording(w: World, op: Op, w': World)
    requires op.RecordOp?
  {
    w'.open == w.open && exists t :: Swept(w.s, t, op.now) && w'.s == Recorded(t, op.key, op.ok, op.relay, op.ttl, op.now)
  }

  /** A decision that looks for peers stays open; any other is complete at once. */
  function Opened(c: Config, t: State, open: seq<Pending>, key: string, a: Ask, stamp: int): World {
    var (s, p, tries) := Begun(c, t, key, a);
    if tries then World(s, open + [p]) else World(Finished(c, s, p, None, stamp).0, open)
  }

  ghost predicate Beginning(c: Config, w: World, op: Op, w': World)
    requires op.BeginOp?
  {
    exists t :: Swept(w.s, t, op.ask.now) && w' == Opened(c, t, w.open, op.key, op.ask, op.stamp)
  }

  function Closed(c: Config, w: World, i: nat, picked: Option<Routes>, stamp: int): World
    requires i < |w.open|
  {
    World(Finished(c, w.s, w.open[i], picked, stamp).0, w.open[..i] + w.open[i + 1..])
  }

  ghost predicate Step(c: Config, w: World, op: Op, w': World) {
    match op
    case RecordOp(_, _, _, _, _) => Recording(w, op, w')
    case BeginOp(_, _, _) => Beginning(c, w, op, w')
    case FinishOp(i, picked, stamp) => i < |w.open| && w' == Closed(c, w, i, picked, stamp)
  }

  ghost predicate IsRun(c: Config, ops: seq<Op>, worlds: seq<World>) {
    && |worlds| == |ops| + 1 && worlds[0] == World(State(map[], map[]), [])
    && forall i :: 0 <= i < |ops| ==> Step(c, worlds[i], ops[i], worlds[i + 1])
  }

  // ---- What every interleaving keeps ----------------------------------------------------------

  ghost predicate Rated(paths: Paths) { forall k :: k in paths ==> 0.0 <= paths[k].ewmaOK <= 1.0 }

  ghost predicate Inv(s: State) { |s.paths| <= MAX_ENTRIES + 1 && Rated(s.paths) }

  lemma SweepKeepsInv(s: State, t: State, now: int)
    requires Inv(s) && Swept(s, t, now)
    ensures Inv(t) && |t.paths| <= MAX_ENTRIES
  {}

  lemma OneMore(paths: Paths, key: string, st: PathStat)
    ensures |paths[key := st]| <= |paths| + 1 && paths[key := st].Keys == paths.Keys + {key}
  {
    assert paths[key := st].Keys == paths.Keys + {key};
  }

  lemma StoreKeepsInv(s: State, s': State, key: string, st: PathStat)
    requires Inv(s) && |s.paths| <= MAX_ENTRIES && 0.0 <= st.ewmaOK <= 1.0
    requires s'.paths == s.paths[key := st]
    ensures Inv(s')
  {
    OneMore(s.paths, key, st);
    assert Rated(s'.paths);
  }

  lemma StatIsRated(s: State, key: string, now: int)
    requires Inv(s)
    ensures 0.0 <= StatOf(s.paths, key, now).ewmaOK <= 1.0
  {}

  /** Finishing a decision changes at most the TCP memory of its own key. */
  lemma FinishedShape(c: Config, s: State, p: Pending, picked: Option<Routes>, stamp: int)
    ensures Finished(c, s, p, picked, stamp).0.paths == s.paths
    ensures s.stick.Keys <= Finished(c, s, p, picked, stamp).0.stick.Keys <= s.stick.Keys + {p.key}
  {}

  lemma OpenedShape(c: Config, t: State, open: seq<Pending>, key: string, a: Ask, stamp: int)
    ensures var w' := Opened(c, t, open, key, a, stamp);
      w'.s.paths == Touched(t, key, a.now).paths && t.stick.Keys <= w'.s.stick.Keys <= t.stick.Keys + {key}
  {}

  lemma StepKeepsInv(c: Config, w: World, op: Op, w': World)
    requires Inv(w.s) && Step(c, w, op, w')
    ensures Inv(w'.s)
  {
    match op
    case RecordOp(key, ok, relay, ttl, now) =>
      var t :| Swept(w.s, t, now) && w'.s == Recorded(t, key, ok, relay, ttl, now);
      SweepKeepsInv(w.s, t, now);
      StatIsRated(t, key, now);
      StoreKeepsInv(t, w'.s, key, RecordedStat(StatOf(t.paths, key, now), ok, relay, ttl, now));
    case BeginOp(key, a, stamp) =>
      var t :| Swept(w.s, t, a.now) && w' == Opened(c, t, w.open, key, a, stamp);
      SweepKeepsInv(w.s, t, a.now);
      StatIsRated(t, key, a.now);
      OpenedShape(c, t, w.open, key, a, stamp);
      StoreKeepsInv(t, w'.s, key, StatOf(t.paths, key, a.now).(lastAttempt := a.now, lastTouch := a.now));
    case FinishOp(i, picked, stamp) =>
      FinishedShape(c, w.s, w.open[i], picked, stamp);
  }

  /** In every state of every interleaving: at most 4097 paths, rates between 0 and 1. */
  lemma {:induction false} RunKeepsInv(c: Config, ops: seq<Op>, worlds: seq<World>, n: nat)
    requires IsRun(c, ops, worlds) && n <= |ops|
    ensures Inv(worlds[n].s)
  {
    if n > 0 {
      RunKeepsInv(c, ops, worlds, n - 1);
      StepAtKeepsInv(c, ops, worlds, n - 1);
    }
  }

  lemma StepAtKeepsInv(c: Config, ops: seq<Op>, worlds: seq<World>, n: nat)
    requires IsRun(c, ops, worlds) && n < |ops| && Inv(worlds[n].s)
    ensures Inv(worlds[n + 1].s)
  {
    StepKeepsInv(c, worlds[n], ops[n], worlds[n + 1]);
  }

  // ---- Which paths a sweep drops in a reachable state -------------------------------------------

  /** Clocks never read the zero time. */
  ghost predicate Clocked(op: Op) {
    match op
    case RecordOp(_, _, _, _, now) => now != 0
    case BeginOp(_, a, _) => a.now != 0
    case FinishOp(_, _, _) => true
  }

  ghost predicate AllTouched(paths: Paths) { forall k :: k in paths ==> Touch(paths[k]) != 0 }

  lemma SweepKeepsTouched(s: State, t: State, now: int)
    requires AllTouched(s.paths) && Swept(s, t, now)
    ensures AllTouched(t.paths)
  {
    forall k | k in t.paths ensures Touch(t.paths[k]) != 0 { assert t.paths[k] == s.paths[k]; }
  }

  lemma StoreKeepsTouched(paths: Paths, key: string, st: PathStat)
    requires AllTouched(paths) && st.lastTouch != 0
    ensures AllTouched(paths[key := st])
  {}

  lemma StepKeepsTouched(c: Config, w: World, op: Op, w': World)
    requires AllTouched(w.s.paths) && Step(c, w, op, w') && Clocked(op)
    ensures AllTouched(w'.s.paths)
  {
    match op
    case RecordOp(key, ok, relay, ttl, now) =>
      var t :| Swept(w.s, t, now) && w'.s == Recorded(t, key, ok, relay, ttl, now);
      SweepKeepsTouched(w.s, t, now);
      StoreKeepsTouched(t.paths, key, RecordedStat(StatOf(t.paths, key, now), ok, relay, ttl, now));
    case BeginOp(key, a, stamp) =>
      var t :| Swept(w.s, t, a.now) && w' == Opened(c, t, w.open, key, a, stamp);
      SweepKeepsTouched(w.s, t, a.now);
      OpenedShape(c, t, w.open, key, a, stamp);
      StoreKeepsTouched(t.paths, key, StatOf(t.paths, key, a.now).(lastAttempt := a.now, lastTouch := a.now));
    case FinishOp(i, picked, stamp) =>
      FinishedShape(c, w.s, w.open[i], picked, stamp);
  }

  lemma {:induction false} RunTouches(c: Config, ops: seq<Op>, worlds: seq<World>, n: nat)
    requires IsRun(c, ops, worlds) && n <= |ops| && forall i :: 0 <= i < |ops| ==> Clocked(ops[i])
    ensures AllTouched(worlds[n].s.paths)
  {
    if n > 0 {
      RunTouches(c, ops, worlds, n - 1);
      StepKeepsTouched(c, worlds[n - 1], ops[n - 1], worlds[n]);
    }
  }

  /** In any reachable state, a sweep at any time drops no path touched more recently than one it keeps. */
  lemma ReachedSweepDropsOldest(c: Config, ops: seq<Op>, worlds: seq<World>, n: nat, t: State, now: int, dropped: string, kept: string)
    requires IsRun(c, ops, worlds) && n <= |ops| && forall i :: 0 <= i < |ops| ==> Clocked(ops[i])
    requires Swept(worlds[n].s, t, now) && dropped in worlds[n].s.paths && dropped !in t.paths && kept in t.paths
    ensures Touch(worlds[n].s.paths[dropped]) <= Touch(worlds[n].s.paths[kept])
  {
    RunTouches(c, ops, worlds, n);
    SweepDropsOldest(worlds[n].s, t, now, dropped, kept);
  }

  // ---- TCP memory --------------------------------------------------------------------------------

  /** TCP memory is held for known paths only. */
  ghost predicate Tied(s: State) { s.stick.Keys <= s.paths.Keys }

  /** A failing decision found no peer, and its path was swept away while it looked. */
  ghost predicate Orphans(c: Config, w: World, op: Op) {
    && op.FinishOp? && op.i < |w.open| && op.picked.None? && c.Remembers()
    && w.open[op.i].mode == FailingPath && w.open[op.i].key !in w.s.paths
  }

  lemma StepTiedIff(c: Config, w: World, op: Op, w': World)
    requires Tied(w.s) && Step(c, w, op, w')
    ensures Tied(w'.s) <==> !Orphans(c, w, op)
  {
    match op
    case RecordOp(key, ok, relay, ttl, now) =>
      var t :| Swept(w.s, t, now) && w'.s == Recorded(t, key, ok, relay, ttl, now);
    case BeginOp(key, a, stamp) =>
      var t :| Swept(w.s, t, a.now) && w' == Opened(c, t, w.open, key, a, stamp);
      OpenedShape(c, t, w.open, key, a, stamp);
    case FinishOp(i, picked, stamp) =>
      FinishedShape(c, w.s, w.open[i], picked, stamp);
  }

  ghost predicate TiedUpTo(worlds: seq<World>, n: nat)
    requires n < |worlds|
  {
    forall i: nat :: i <= n ==> Tied(worlds[i].s)
  }

  ghost predicate NoOrphanBefore(c: Config, ops: seq<Op>, worlds: seq<World>, n: nat)
    requires n <= |ops| < |worlds|
  {
    forall i: nat :: i < n ==> !Orphans(c, worlds[i], ops[i])
  }

  /** Over any interleaving, TCP memory belongs to known paths throughout exactly when no failing path is swept away while its decision looks for peers in vain. */
  lemma {:induction false} TiedThroughoutIff(c: Config, ops: seq<Op>, worlds: seq<World>, n: nat)
    requires IsRun(c, ops, worlds) && n <= |ops|
    ensures TiedUpTo(worlds, n) <==> NoOrphanBefore(c, ops, worlds, n)
  {
    if n > 0 {
      TiedThroughoutIff(c, ops, worlds, n - 1);
      assert TiedUpTo(worlds, n) <==> TiedUpTo(worlds, n - 1) && Tied(worlds[n].s);
      assert NoOrphanBefore(c, ops, worlds, n) <==> NoOrphanBefore(c, ops, worlds, n - 1) && !Orphans(c, worlds[n - 1], ops[n - 1]);
      if TiedUpTo(worlds, n - 1) { StepTiedIff(c, worlds[n - 1], ops[n - 1], worlds[n]); }
    }
  }

  /** Every decision is finished right after it began. */
  ghost predicate Sequential(ops: seq<Op>, worlds: seq<World>)
    requires |worlds| == |ops| + 1
  {
    forall i: nat :: i < |ops| && ops[i].FinishOp? ==>
      i > 0 && ops[i - 1].BeginOp? && |worlds[i].open| == |worlds[i - 1].open| + 1 && ops[i].i == |worlds[i - 1].open|
  }

  lemma JustBegun(c: Config, w: World, op: Op, w': World)
    requires op.BeginOp? && Step(c, w, op, w') && |w'.open| == |w.open| + 1
    ensures w'.open[|w.open|].key in w'.s.paths
  {}

  /** Calls that do not overlap always keep TCP memory to known paths. */
  lemma SequentialRunsStayTied(c: Config, ops: seq<Op>, worlds: seq<World>, n: nat)
    requires IsRun(c, ops, worlds) && Sequential(ops, worlds) && n <= |ops|
    ensures Tied(worlds[n].s)
  {
    forall i: nat | i < |ops| ensures !Orphans(c, worlds[i], ops[i]) {
      if ops[i].FinishOp? { JustBegun(c, worlds[i - 1], ops[i - 1], worlds[i]); }
    }
    assert NoOrphanBefore(c, ops, worlds, n);
    TiedThroughoutIff(c, ops, worlds, n);
    assert TiedUpTo(worlds, n);
  }

  // ---- An interleaving that leaves TCP memory behind ----------------------------------------------

  lemma SweepOfFew(s: State, t: State, now: int)
    requires |s.paths| <= MAX_ENTRIES && t.paths == Fresh(s.paths, now) && t.stick == Without(s.stick, s.paths.Keys - t.paths.Keys)
    ensures Swept(s, t, now)
  {
    assert |t.paths.Keys| == |t.paths| && |s.paths.Keys| == |s.paths|;
    SubsetSize(t.paths.Keys, s.paths.Keys);
    assert t.paths.Keys - t.paths.Keys == {};
  }

  const SLOW := Config(true, 1, true, true, false, 0)
  const LOOK := Ask(true, true, false, Relayed, 1.0, 1, 1)
  const LATER := TTL + 2

  function Failed(rate: real, streak: nat): PathStat { PathStat(rate, streak, 0, 0, 0, 1) }

  const TWICE := Failed(0.64, 2).(lastAttempt := 1)
  const OTHER := PathStat(1.0, 0, 0, 0, 0, LATER)

  /** Two failures on one path, a decision on it that looks for peers, a record on another path half an hour later, then no peer. */
  const ORPHAN_OPS: seq<Op> := [
    RecordOp("a", false, 0, 0, 1), RecordOp("a", false, 0, 0, 1), BeginOp("a", LOOK, 1),
    RecordOp("b", true, 0, 0, LATER), FinishOp(0, None, LATER)]

  const ORPHAN_WORLDS: seq<World> := [
    World(State(map[], map[]), []),
    World(State(map["a" := Failed(0.8, 1)], map[]), []),
    World(State(map["a" := Failed(0.64, 2)], map[]), []),
    World(State(map["a" := TWICE], map[]), [Pending("a", FailingPath)]),
    World(State(map["b" := OTHER], map[]), [Pending("a", FailingPath)]),
    World(State(map["b" := OTHER], map["a" := LATER + 1]), [])]

  lemma FirstFailure()
    ensures Step(SLOW, ORPHAN_WORLDS[0], ORPHAN_OPS[0], ORPHAN_WORLDS[1])
  {
    SweepOfFew(State(map[], map[]), State(map[], map[]), 1);
    assert Recorded(State(map[], map[]), "a", false, 0, 0, 1) == ORPHAN_WORLDS[1].s;
  }

  lemma SecondFailure()
    ensures Step(SLOW, ORPHAN_WORLDS[1], ORPHAN_OPS[1], ORPHAN_WORLDS[2])
  {
    var s := ORPHAN_WORLDS[1].s;
    SweepOfFew(s, s, 1);
    assert Recorded(s, "a", false, 0, 0, 1) == ORPHAN_WORLDS[2].s;
  }

  lemma DecisionLooks()
    ensures Step(SLOW, ORPHAN_WORLDS[2], ORPHAN_OPS[2], ORPHAN_WORLDS[3])
  {
    var s := ORPHAN_WORLDS[2].s;
    SweepOfFew(s, s, 1);
    assert Touched(s, "a", 1) == ORPHAN_WORLDS[3].s;
    assert Begun(SLOW, s, "a", LOOK) == (ORPHAN_WORLDS[3].s, Pending("a", FailingPath), true);
  }

  lemma PathIsSwept()
    ensures Step(SLOW, ORPHAN_WORLDS[3], ORPHAN_OPS[3], ORPHAN_WORLDS[4])
  {
    var s, t := ORPHAN_WORLDS[3].s, State(map[], map[]);
    assert Stale(TWICE, LATER);
    assert Fresh(s.paths, LATER) == map[];
    SweepOfFew(s, t, LATER);
    assert Recorded(t, "b", true, 0, 0, LATER) == ORPHAN_WORLDS[4].s;
  }

  lemma LookIsInVain()
    ensures Step(SLOW, ORPHAN_WORLDS[4], ORPHAN_OPS[4], ORPHAN_WORLDS[5])
    ensures Orphans(SLOW, ORPHAN_WORLDS[4], ORPHAN_OPS[4]) && !Tied(ORPHAN_WORLDS[5].s)
  {
    assert "a" in ORPHAN_WORLDS[5].s.stick && "a" !in ORPHAN_WORLDS[5].s.paths;
  }

  lemma FiveSteps(c: Config, ops: seq<Op>, worlds: seq<World>)
    requires |ops| == 5 && |worlds| == 6 && worlds[0] == World(State(map[], map[]), [])
    requires Step(c, worlds[0], ops[0], worlds[1]) && Step(c, worlds[1], ops[1], worlds[2]) && Step(c, worlds[2], ops[2], worlds[3])
    requires Step(c, worlds[3], ops[3], worlds[4]) && Step(c, worlds[4], ops[4], worlds[5])
    ensures IsRun(c, ops, worlds)
  {}

  /** The condition can fail: this interleaving ends with TCP memory for a path that is no longer known. */
  lemma MemoryCanBeOrphaned()
    ensures IsRun(SLOW, ORPHAN_OPS, ORPHAN_WORLDS) && (forall i :: 0 <= i < |ORPHAN_OPS| ==> Clocked(ORPHAN_OPS[i]))
    ensures Orphans(SLOW, ORPHAN_WORLDS[4], ORPHAN_OPS[4]) && !Tied(ORPHAN_WORLDS[5].s)
  {
    FirstFailure();
    SecondFailure();
    DecisionLooks();
    PathIsSwept();
    LookIsInVain();
    FiveSteps(SLOW, ORPHAN_OPS, ORPHAN_WORLDS);
  }
}
