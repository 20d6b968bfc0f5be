/** Per-destination path statistics, swept by age and by number; times are nanoseconds, 0 being the zero time. */
module PathManager {
  import opened Bytes
  import opened Collections

  const TTL := 1_800_000_000_000
  const MAX_ENTRIES := 4096

  datatype PathStat = PathStat(ewmaOK: real, failStreak: nat, lastRelay: byte, lastTTL: byte, lastAttempt: int, lastTouch: int)

  type Paths = map<string, PathStat>

  datatype State = State(paths: Paths, stick: map<string, int>)

  function Touch(st: PathStat): int { if st.lastTouch == 0 then st.lastAttempt else st.lastTouch }

  predicate Stale(st: PathStat, now: int) { Touch(st) != 0 && Touch(st) < now - TTL }

  /** The paths that are not too old. */
  function Fresh(paths: Paths, now: int): Paths { map k | k in paths && !Stale(paths[k], now) :: paths[k] }

  function Without(stick: map<string, int>, dropped: set<string>): map<string, int> { stick - dropped }

  lemma WithoutMore(stick: map<string, int>, gone: set<string>, k: string)
    ensures Without(Without(stick, gone), {k}) == Without(stick, gone + {k})
  {}

  ghost predicate NoOlderThan(paths: Paths, kept: Paths, dropped: set<string>)
    requires dropped <= paths.Keys && kept.Keys <= paths.Keys
  {
    forall d, k :: d in dropped && k in kept ==> Touch(paths[d]) <= Touch(paths[k])
  }

  /** What a sweep does: every stale path goes, then just as many of the oldest as there are too many. */
  ghost predicate Swept(s: State, s': State, now: int) {
    var young := Fresh(s.paths, now);
    && s'.paths.Keys <= young.Keys
    && (forall k :: k in s'.paths ==> s'.paths[k] == s.paths[k])
    && |s'.paths| == Min(|young|, MAX_ENTRIES)
    && NoOlderThan(young, s'.paths, young.Keys - s'.paths.Keys)
    && s'.stick == Without(s.stick, s.paths.Keys - s'.paths.Keys)
  }

  // ---- The eviction list --------------------------------------------------------------------

  datatype Item = Item(key: string, at: int)

  function Keys(items: seq<Item>): seq<string> { seq(|items|, i requires 0 <= i < |items| => items[i].key) }

  function SwapRemoved<T>(s: seq<T>, i: nat): seq<T>
    requires i < |s|
  {
    s[i := s[|s| - 1]][..|s| - 1]
  }

  /** Moving the last element into the gap removes exactly the one that was there. */
  lemma SwapRemoveBag<T>(s: seq<T>, i: nat)
    requires i < |s|
    ensures multiset(SwapRemoved(s, i)) == multiset(s) - multiset{s[i]}
  {
    var last := s[|s| - 1];
    var u := s[i := last];
    assert u == SwapRemoved(s, i) + [last];
    assert multiset(u) == multiset(SwapRemoved(s, i)) + multiset{last};
    Cancel(multiset(SwapRemoved(s, i)), multiset(s) - multiset{s[i]}, multiset{last});
  }

  lemma Cancel<T>(a: multiset<T>, b: multiset<T>, c: multiset<T>)
    requires a + c == b + c
    ensures a == b
  {
    forall e ensures a[e] == b[e] { assert (a + c)[e] == (b + c)[e]; }
  }

  ghost predicate Timed(items: seq<Item>, paths: Paths) {
    forall i :: 0 <= i < |items| ==> items[i].key in paths && items[i].at == Touch(paths[items[i].key])
  }

  /** The list holds every path once, with the time of its last touch. */
  ghost predicate Lists(items: seq<Item>, paths: Paths) {
    multiset(Keys(items)) == multiset(paths.Keys) && Timed(items, paths)
  }

  lemma RemovalKeepsList(items: seq<Item>, paths: Paths, i: nat)
    requires Lists(items, paths) && i < |items|
    ensures items[i].key in paths && Lists(SwapRemoved(items, i), paths - {items[i].key})
  {
    var key, left := items[i].key, SwapRemoved(items, i);
    SwapRemoveBag(Keys(items), i);
    assert Keys(left) == SwapRemoved(Keys(items), i);
    assert Keys(items)[i] in multiset(Keys(items));
    assert multiset((paths - {key}).Keys) == multiset(paths.Keys) - multiset{key};
    forall j | 0 <= j < |left| ensures left[j].key in paths - {key} && left[j].at == Touch(paths[left[j].key]) {
      assert Keys(left)[j] in multiset(Keys(left));
    }
  }

  /** Some of the oldest paths are gone already, and their TCP memory with them. */
  ghost predicate Thinned(all: State, paths: Paths, stick: map<string, int>) {
    && paths.Keys <= all.paths.Keys && (forall k :: k in paths ==> paths[k] == all.paths[k])
    && NoOlderThan(all.paths, paths, all.paths.Keys - paths.Keys)
    && stick == Without(all.stick, all.paths.Keys - paths.Keys)
  }

  lemma RemovalKeepsThinned(all: State, paths: Paths, stick: map<string, int>, key: string)
    requires Thinned(all, paths, stick)
    requires key in paths && forall k :: k in paths ==> Touch(paths[key]) <= Touch(paths[k])
    ensures Thinned(all, paths - {key}, stick - {key}) && |paths - {key}| == |paths| - 1
  {
    var left := paths - {key};
    assert left.Keys == paths.Keys - {key};
    WithoutMore(all.stick, all.paths.Keys - paths.Keys, key);
    assert all.paths.Keys - left.Keys == (all.paths.Keys - paths.Keys) + {key};
  }

  lemma NothingThinned(all: State)
    ensures Thinned(all, all.paths, all.stick)
  {
    assert all.paths.Keys - all.paths.Keys == {};
  }

  lemma ListsAll(items: seq<Item>, paths: Paths)
    requires Lists(items, paths)
    ensures |items| == |paths|
  {
    assert |multiset(Keys(items))| == |items| && |multiset(paths.Keys)| == |paths.Keys|;
  }

  // ---- Records and decisions ----------------------------------------------------------------

  function NewStat(now: int): PathStat { PathStat(1.0, 0, 0, 0, 0, now) }

  function StatOf(paths: Paths, key: string, now: int): PathStat { if key in paths then paths[key] else NewStat(now) }

  function Clamped(x: real): real { if x > 1.0 then 1.0 else if x < 0.0 then 0.0 else x }

  function RecordedStat(st: PathStat, ok: bool, relay: byte, ttl: byte, now: int): PathStat {
    st.(lastTouch := now, failStreak := if ok then 0 else st.failStreak + 1,
        ewmaOK := Clamped(if ok then 0.85 * st.ewmaOK + 0.15 else st.ewmaOK * 0.8), lastRelay := relay, lastTTL := ttl)
  }

  function Recorded(s: State, key: string, ok: bool, relay: byte, ttl: byte, now: int): State {
    State(s.paths[key := RecordedStat(StatOf(s.paths, key, now), ok, relay, ttl, now)],
          if ok then Without(s.stick, {key}) else s.stick)
  }

  datatype Candidate = Unknown | Host | Srflx | Relayed {
    function PathWeight(): real {
      match this
      case Unknown => 1.0
      case Host => 1.0
      case Srflx => 0.92
      case Relayed => 0.72
    }
  }

  /** How a manager is set up; `sticky` tells that the TCP memory exists. */
  datatype Config = Config(aggressive: bool, cooldown: int, sticky: bool, peerDial: bool, useQuic: bool, maxPeerHops: int) {
    predicate Remembers() { cooldown > 0 && sticky }
  }

  /** What a decision depends on besides the stored state, up to the point where peers are picked. */
  datatype Ask = Ask(bothTransports: bool, allowPeer: bool, forcePeer: bool, cand: Candidate, latency: real, now: int, check: int)

  /** The success rate, marked down for the kind of candidate and for latency. */
  function Effective(rate: real, weight: real, latency: real): real { Clamped(rate * weight * latency) }

  function Failing(c: Config, st: PathStat, a: Ask): bool {
    var eff := Effective(st.ewmaOK, a.cand.PathWeight(), a.latency);
    st.failStreak >= (if c.aggressive then 2 else 3) || eff < (if c.aggressive then 0.38 else 0.35)
  }

  predicate Stuck(c: Config, s: State, key: string, check: int) {
    c.Remembers() && key in s.stick && check < s.stick[key]
  }

  /** Peers are only looked for when allowed, for a peer-worthy candidate, and on a path that has failed or is doing badly. */
  function TriesPeers(c: Config, st: PathStat, a: Ask): bool {
    a.allowPeer && c.peerDial && (a.forcePeer || (a.cand in {Srflx, Relayed} && (st.failStreak >= 1 || st.ewmaOK < 0.42)))
  }

  function PeerLimit(c: Config, streak: nat): int {
    var limit := if streak >= 3 then 3 else if streak >= 1 then 2 else 1;
    if c.maxPeerHops > 0 && limit > c.maxPeerHops then c.maxPeerHops else limit
  }

  function Touched(s: State, key: string, now: int): State {
    s.(paths := s.paths[key := StatOf(s.paths, key, now).(lastAttempt := now, lastTouch := now)])
  }

  /** Why a decision was heading where it was when peers were looked for. */
  datatype Mode = OneTransport | StuckToTcp | FailingPath | HealthyPath

  /** A decision on `key` whose peers are being picked, with the lock given up. */
  datatype Pending = Pending(key: string, mode: Mode)

  datatype Choice = Peer(limit: int, preferTcp: bool) | Tcp | Free

  function ModeOf(c: Config, t: State, key: string, a: Ask): Mode
    requires key in t.paths
  {
    if !a.bothTransports then OneTransport
    else if Stuck(c, t, key, a.check) then StuckToTcp
    else if Failing(c, t.paths[key], a) then FailingPath
    else HealthyPath
  }

  /** The first half of a decision, once the old paths are swept: the path is touched, and whether peers are to be picked. */
  function Begun(c: Config, s: State, key: string, a: Ask): (State, Pending, bool) {
    var t := Touched(s, key, a.now);
    var st := t.paths[key];
    (t, Pending(key, ModeOf(c, t, key, a)), TriesPeers(c, st, a))
  }

  /** What picking peers found, and the failure streak it read off the path while the lock was given up. */
  datatype Routes = Routes(streak: nat, quic: bool)

  /** The second half: a peer if one was picked, else TCP, remembered for a failing path, or no preference. */
  function Finished(c: Config, s: State, p: Pending, picked: Option<Routes>, stamp: int): (State, Choice) {
    match picked
    case Some(r) => (s, Peer(PeerLimit(c, r.streak), !(c.useQuic && r.quic)))
    case None =>
      (if p.mode == FailingPath && c.Remembers() then s.(stick := s.stick[p.key := stamp + c.cooldown]) else s,
       if p.mode == HealthyPath then Free else Tcp)
  }

  /** A decision that nothing interrupts: the streak read is the path's own; `quic` tells what the peers offer, if any were found. */
  function Decided(c: Config, s: State, key: string, a: Ask, quic: Option<bool>, stamp: int): (State, Choice) {
    var (t, p, tries) := Begun(c, s, key, a);
    Finished(c, t, p, if tries && quic.Some? then Some(Routes(t.paths[key].failStreak, quic.value)) else None, stamp)
  }

  class Manager {
    const c: Config
    var paths: Paths
    var stick: map<string, int>

    ghost function Now(): State
      reads this
    {
      State(paths, stick)
    }

    constructor (c: Config)
      ensures this.c == c && Now() == State(map[], map[])
    {
      this.c, paths, stick := c, map[], map[];
    }

    method DropStale(now: int)
      modifies this
      ensures paths == Fresh(old(paths), now) && stick == Without(old(stick), old(paths).Keys - paths.Keys)
    {
      ghost var paths0, stick0 := paths, stick;
      var todo := paths.Keys;
      while todo != {}
        invariant todo <= paths.Keys <= paths0.Keys
        invariant forall k :: k in paths ==> paths[k] == paths0[k]
        invariant forall k :: k in paths0 && k !in todo ==> (k in paths <==> !Stale(paths0[k], now))
        invariant stick == Without(stick0, paths0.Keys - paths.Keys)
        decreases |todo|
      {
        var k :| k in todo;
        todo := todo - {k};
        var st := paths[k];
        var touch := st.lastTouch;
        if touch == 0 {
          touch := st.lastAttempt;
        }
        if touch != 0 && touch < now - TTL {
          ghost var gone := paths0.Keys - paths.Keys;
          WithoutMore(stick0, gone, k);
          paths, stick := paths - {k}, stick - {k};
          assert paths0.Keys - paths.Keys == gone + {k};
        }
      }
      assert paths == Fresh(paths0, now);
    }

    method Items() returns (items: seq<Item>)
      ensures Lists(items, paths)
    {
      items := [];
      var todo := paths.Keys;
      while todo != {}
        invariant todo <= paths.Keys
        invariant multiset(Keys(items)) == multiset(paths.Keys - todo) && Timed(items, paths)
        decreases |todo|
      {
        var k :| k in todo;
        var st := paths[k];
        assert Keys(items + [Item(k, Touch(st))]) == Keys(items) + [k];
        assert paths.Keys - (todo - {k}) == (paths.Keys - todo) + {k};
        items := items + [Item(k, if st.lastTouch == 0 then st.lastAttempt else st.lastTouch)];
        todo := todo - {k};
      }
      assert paths.Keys - {} == paths.Keys;
    }

    method OldestIndex(items: seq<Item>) returns (oldest: nat)
      requires items != []
      ensures oldest < |items| && forall i :: 0 <= i < |items| ==> items[oldest].at <= items[i].at
    {
      oldest := 0;
      for i := 1 to |items|
        invariant oldest < i && forall j :: 0 <= j < i ==> items[oldest].at <= items[j].at
      {
        if items[i].at < items[oldest].at {
          oldest := i;
        }
      }
    }

    method EvictOne(items: seq<Item>, ghost all: State) returns (rest: seq<Item>)
      requires items != [] && Lists(items, paths) && Thinned(all, paths, stick)
      modifies this
      ensures Lists(rest, paths) && Thinned(all, paths, stick)
      ensures |rest| == |items| - 1 && |paths| == |old(paths)| - 1
    {
      var oldest := OldestIndex(items);
      var key := items[oldest].key;
      OldestOfAll(items, paths, oldest);
      RemovalKeepsList(items, paths, oldest);
      RemovalKeepsThinned(all, paths, stick, key);
      paths, stick := paths - {key}, stick - {key};
      rest := SwapRemoved(items, oldest);
    }

    method DropOldest()
      modifies this
      ensures Thinned(old(Now()), paths, stick) && |paths| == Min(|old(paths)|, MAX_ENTRIES)
    {
      ghost var all := Now();
      NothingThinned(all);
      if |paths| <= MAX_ENTRIES {
        return;
      }
      var items := Items();
      while |paths| > MAX_ENTRIES && |items| > 0
        invariant Thinned(all, paths, stick) && Lists(items, paths) && |paths| >= MAX_ENTRIES
        decreases |items|
      {
        items := EvictOne(items, all);
      }
      ListsAll(items, paths);
    }

    method Sweep(now: int)
      modifies this
      ensures Swept(old(Now()), Now(), now)
    {
      if |paths| == 0 {
        assert Fresh(paths, now).Keys == {};
        return;
      }
      ghost var s := Now();
      DropStale(now);
      DropOldest();
      SweptInTwo(s, Now(), now);
    }

    method Record(key: string, ok: bool, relay: byte, ttl: byte, now: int)
      modifies this
      ensures exists s :: Swept(old(Now()), s, now) && Now() == Recorded(s, key, ok, relay, ttl, now)
    {
      Sweep(now);
      ghost var s := Now();
      var st := if key in paths then paths[key] else PathStat(1.0, 0, 0, 0, 0, now);
      st := st.(lastTouch := now);
      if ok {
        st := st.(failStreak := 0, ewmaOK := 0.85 * st.ewmaOK + 0.15);
        stick := stick - {key};
      } else {
        st := st.(failStreak := st.failStreak + 1, ewmaOK := st.ewmaOK * 0.8);
      }
      if st.ewmaOK > 1.0 {
        st := st.(ewmaOK := 1.0);
      }
      if st.ewmaOK < 0.0 {
        st := st.(ewmaOK := 0.0);
      }
      paths := paths[key := st.(lastRelay := relay, lastTTL := ttl)];
      assert Swept(old(Now()), s, now) && Now() == Recorded(s, key, ok, relay, ttl, now);
    }

    method BeginDecide(key: string, a: Ask) returns (p: Pending, tries: bool)
      modifies this
      ensures exists s :: Swept(old(Now()), s, a.now) && (Now(), p, tries) == Begun(c, s, key, a)
    {
      Sweep(a.now);
      ghost var s := Now();
      var st := if key in paths then paths[key] else PathStat(1.0, 0, 0, 0, 0, a.now);
      st := st.(lastAttempt := a.now, lastTouch := a.now);
      paths := paths[key := st];
      assert Now() == Touched(s, key, a.now);
      tries := a.allowPeer && c.peerDial;
      if tries && !a.forcePeer {
        tries := (a.cand == Srflx || a.cand == Relayed) && !(st.failStreak < 1 && st.ewmaOK >= 0.42);
      }
      var mode := HealthyPath;
      if !a.bothTransports {
        mode := OneTransport;
      } else if c.cooldown > 0 && c.sticky && key in stick && a.check < stick[key] {
        mode := StuckToTcp;
      } else if Failing(c, st, a) {
        mode := FailingPath;
      }
      p := Pending(key, mode);
      assert Swept(old(Now()), s, a.now) && (Now(), p, tries) == Begun(c, s, key, a);
    }

    method FinishDecide(p: Pending, picked: Option<Routes>, stamp: int) returns (choice: Choice)
      modifies this
      ensures (Now(), choice) == Finished(c, old(Now()), p, picked, stamp)
    {
      if picked.Some? {
        return Peer(PeerLimit(c, picked.value.streak), !(c.useQuic && picked.value.quic));
      }
      if p.mode == HealthyPath {
        return Free;
      }
      if p.mode == FailingPath && c.cooldown > 0 && c.sticky {
        stick := stick[p.key := stamp + c.cooldown];
      }
      return Tcp;
    }

    method Decide(key: string, a: Ask, quic: Option<bool>, stamp: int) returns (choice: Choice)
      modifies this
      ensures exists s :: Swept(old(Now()), s, a.now) && (Now(), choice) == Decided(c, s, key, a, quic, stamp)
    {
      var p, tries := BeginDecide(key, a);
      ghost var s :| Swept(old(Now()), s, a.now) && (Now(), p, tries) == Begun(c, s, key, a);
      var picked: Option<Routes> := None;
      if tries && quic.Some? {
        picked := Some(Routes(paths[key].failStreak, quic.value));
      }
      choice := FinishDecide(p, picked, stamp);
      assert Swept(old(Now()), s, a.now) && (Now(), choice) == Decided(c, s, key, a, quic, stamp);
    }
  }

  lemma SweptInTwo(s: State, t: State, now: int)
    requires var young := Fresh(s.paths, now);
      && Thinned(State(young, Without(s.stick, s.paths.Keys - young.Keys)), t.paths, t.stick)
      && |t.paths| == Min(|young|, MAX_ENTRIES)
    ensures Swept(s, t, now)
  {
    var young := Fresh(s.paths, now);
    TwoRemovals(s.stick, s.paths.Keys, young.Keys, t.paths.Keys);
    forall k | k in t.paths ensures t.paths[k] == s.paths[k] { assert young[k] == s.paths[k]; }
  }

  lemma TwoRemovals(stick: map<string, int>, all: set<string>, young: set<string>, kept: set<string>)
    requires kept <= young <= all
    ensures Without(Without(stick, all - young), young - kept) == Without(stick, all - kept)
  {
    assert all - kept == (all - young) + (young - kept);
  }

  lemma OldestOfAll(items: seq<Item>, paths: Paths, oldest: nat)
    requires Lists(items, paths) && oldest < |items| && forall i :: 0 <= i < |items| ==> items[oldest].at <= items[i].at
    ensures items[oldest].key in paths && forall k :: k in paths ==> Touch(paths[items[oldest].key]) <= Touch(paths[k])
  {
    forall k | k in paths ensures Touch(paths[items[oldest].key]) <= Touch(paths[k]) {
      assert k in multiset(paths.Keys);
      var i :| 0 <= i < |Keys(items)| && Keys(items)[i] == k;
    }
  }

  // ---- Which paths survive --------------------------------------------------------------------

  /** A sweep never drops a path touched more recently than one it keeps. */
  lemma SweepDropsOldest(s: State, t: State, now: int, dropped: string, kept: string)
    requires Swept(s, t, now) && dropped in s.paths && dropped !in t.paths && kept in t.paths && Touch(s.paths[kept]) != 0
    ensures Touch(s.paths[dropped]) <= Touch(s.paths[kept])
  {
    var young := Fresh(s.paths, now);
    assert kept in young && young[kept] == s.paths[kept];
    if dropped in young { assert young[dropped] == s.paths[dropped]; }
  }

  function Newer(paths: Paths, key: string): set<string> {
    set k | k in paths && key in paths && Touch(paths[k]) > Touch(paths[key])
  }

  ghost predicate DistinctTouches(paths: Paths) {
    forall k, k' :: k in paths && k' in paths && k != k' ==> Touch(paths[k]) != Touch(paths[k'])
  }

  /** With distinct touches, a path survives a sweep exactly when it is not stale and fewer than 4096 others that are not stale are newer. */
  lemma SurvivesIff(s: State, t: State, now: int, key: string)
    requires Swept(s, t, now) && DistinctTouches(Fresh(s.paths, now)) && key in s.paths
    ensures var young, st := Fresh(s.paths, now), s.paths[key];
      var at := if st.lastTouch == 0 then st.lastAttempt else st.lastTouch;
      key in t.paths <==> (at == 0 || now - at <= 1_800_000_000_000) && |Newer(young, key)| < 4096
  {
    var young := Fresh(s.paths, now);
    if key in young {
      var newer := Newer(young, key);
      if key in t.paths {
        assert newer + {key} <= t.paths.Keys;
        SubsetSize(newer + {key}, t.paths.Keys);
      } else {
        assert t.paths.Keys <= newer;
        SubsetSize(t.paths.Keys, newer);
        SubsetSize(t.paths.Keys + {key}, young.Keys);
      }
    }
  }
}
