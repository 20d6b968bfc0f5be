/** What a path's recorded outcomes make of its rate and streak, and what these make of the decisions on it. */
module PathChoices {
  import opened Bytes
  import opened Collections
  import opened PathManager

  /** The rate and the streak of a path; one not known counts as new. */
  ghost function Rate(s: State, key: string): real { if key in s.paths then s.paths[key].ewmaOK else 1.0 }

  ghost function Streak(s: State, key: string): nat { if key in s.paths then s.paths[key].failStreak else 0 }

  ghost predicate SameRecord(s: State, t: State, key: string) { Rate(s, key) == Rate(t, key) && Streak(s, key) == Streak(t, key) }

  /** Sweeps that a path survives, decisions and outcomes of other paths leave its rate and streak alone. */
  lemma OthersKeepRecord(s: State, t: State, key: string, other: string, ok: bool, relay: byte, ttl: byte, now: int)
    ensures SameRecord(s, Touched(s, other, now), key)
    ensures other != key ==> SameRecord(s, Recorded(s, other, ok, relay, ttl, now), key)
    ensures Swept(s, t, now) && (key in s.paths ==> key in t.paths) ==> SameRecord(s, t, key)
  {}

  /** An outcome as it is recorded, in the state that the sweep before it left. */
  datatype Outcome = Outcome(at: State, ok: bool, relay: byte, ttl: byte, now: int)

  ghost function Latest(os: seq<Outcome>, key: string): State {
    if os == [] then State(map[], map[]) else var o := os[|os| - 1]; Recorded(o.at, key, o.ok, o.relay, o.ttl, o.now)
  }

  /** All outcomes of a path that was new at first, whatever happened between them that leaves rate and streak alone. */
  ghost predicate Recording(os: seq<Outcome>, key: string) {
    os == [] || (var n := |os| - 1; Recording(os[..n], key) && SameRecord(Latest(os[..n], key), os[n].at, key))
  }

  ghost function History(os: seq<Outcome>): seq<bool> { seq(|os|, i requires 0 <= i < |os| => os[i].ok) }

  /** A success closes 15 percent of the gap to 1, a failure costs 20 percent. */
  ghost function RateOf(h: seq<bool>): (r: real)
    ensures 0.0 <= r <= 1.0
  {
    if h == [] then 1.0
    else
      var r := RateOf(h[..|h| - 1]);
      if h[|h| - 1] then r + 0.15 * (1.0 - r) else r - 0.2 * r
  }

  ghost predicate EndsInFailures(h: seq<bool>, n: nat) {
    n <= |h| && (forall i :: |h| - n <= i < |h| ==> !h[i]) && (n < |h| ==> h[|h| - n - 1])
  }

  lemma LongerRun(h: seq<bool>, n: nat, ok: bool)
    requires EndsInFailures(h, n)
    ensures EndsInFailures(h + [ok], if ok then 0 else n + 1)
  {}

  /** The streak counts the failures since the last success, and the rate follows the whole history. */
  lemma {:induction false} RecordFollowsHistory(os: seq<Outcome>, key: string)
    requires Recording(os, key)
    ensures Rate(Latest(os, key), key) == RateOf(History(os)) && EndsInFailures(History(os), Streak(Latest(os, key), key))
  {
    if os != [] {
      var n := |os| - 1;
      var h, o := History(os[..n]), os[n];
      RecordFollowsHistory(os[..n], key);
      assert History(os) == h + [o.ok];
      assert History(os)[..n] == h;
      RecordStep(o, key, RateOf(h));
      LongerRun(h, Streak(o.at, key), o.ok);
    }
  }

  lemma RecordStep(o: Outcome, key: string, r: real)
    requires 0.0 <= r <= 1.0 && Rate(o.at, key) == r
    ensures var t := Recorded(o.at, key, o.ok, o.relay, o.ttl, o.now);
      && Rate(t, key) == (if o.ok then r + 0.15 * (1.0 - r) else r - 0.2 * r)
      && Streak(t, key) == if o.ok then 0 else Streak(o.at, key) + 1
  {
    RateStep(r);
  }

  lemma RateStep(r: real)
    requires 0.0 <= r <= 1.0
    ensures Clamped(0.85 * r + 0.15) == r + 0.15 * (1.0 - r) && Clamped(r * 0.8) == r - 0.2 * r
  {}

  ghost function Power(x: real, n: nat): real { if n == 0 then 1.0 else x * Power(x, n - 1) }

  ghost function Repeated(ok: bool, n: nat): seq<bool> { seq(n, _ => ok) }

  /** In closed form: n failures leave 0.8^n, and m successes after them shrink what is missing by 0.85^m. */
  lemma {:induction false} RateInClosedForm(n: nat, m: nat)
    ensures RateOf(Repeated(false, n) + Repeated(true, m)) == 1.0 - (1.0 - Power(0.8, n)) * Power(0.85, m)
    decreases n + m
  {
    var h := Repeated(false, n) + Repeated(true, m);
    if m > 0 {
      assert h[..|h| - 1] == Repeated(false, n) + Repeated(true, m - 1);
      RateInClosedForm(n, m - 1);
    } else if n > 0 {
      assert h[..|h| - 1] == Repeated(false, n - 1) + Repeated(true, 0);
      RateInClosedForm(n - 1, 0);
    }
  }

  /** The TCP memory of a path holds at this moment. */
  ghost predicate Remembered(c: Config, s: State, key: string, at: int) {
    c.cooldown > 0 && c.sticky && key in s.stick && at < s.stick[key]
  }

  /** A path too weak for a free choice of transport. */
  ghost predicate Weak(c: Config, r: real, n: nat, a: Ask) {
    var score := Score(r, a.cand.PathWeight(), a.latency);
    if c.aggressive then n >= 2 || score < 0.38 else n >= 3 || score < 0.35
  }

  ghost function Score(r: real, w: real, f: real): real { r * w * f }

  ghost predicate LooksForPeers(c: Config, r: real, n: nat, a: Ask) {
    a.allowPeer && c.peerDial && (a.forcePeer || ((a.cand == Srflx || a.cand == Relayed) && (n >= 1 || r < 0.42)))
  }

  ghost function Within(c: Config, limit: nat): nat { if c.maxPeerHops > 0 then Min(limit, c.maxPeerHops) else limit }

  /** What a decision comes to, in terms of rate, streak and memory alone. */
  lemma ChoiceIs(c: Config, s: State, key: string, a: Ask, quic: Option<bool>, stamp: int)
    requires 0.0 <= Rate(s, key) <= 1.0 && 0.0 <= a.latency <= 1.0
    ensures var r, n, choice := Rate(s, key), Streak(s, key), Decided(c, s, key, a, quic, stamp).1;
      if LooksForPeers(c, r, n, a) && quic.Some? then
        choice == Peer(Within(c, if n == 0 then 1 else if n < 3 then 2 else 3), !c.useQuic || !quic.value)
      else
        && !choice.Peer?
        && (choice == Free <==> a.bothTransports && !Remembered(c, s, key, a.check) && !Weak(c, r, n, a))
  {
    var st := Touched(s, key, a.now).paths[key];
    assert st.ewmaOK == Rate(s, key) && st.failStreak == Streak(s, key);
    FailingIsWeak(c, st, a);
  }

  lemma FailingIsWeak(c: Config, st: PathStat, a: Ask)
    requires 0.0 <= st.ewmaOK <= 1.0 && 0.0 <= a.latency <= 1.0
    ensures Failing(c, st, a) == Weak(c, st.ewmaOK, st.failStreak, a)
  {
    EffectiveIsScore(st.ewmaOK, a.cand.PathWeight(), a.latency);
  }

  lemma EffectiveIsScore(r: real, w: real, f: real)
    requires 0.0 <= r <= 1.0 && 0.0 <= w <= 1.0 && 0.0 <= f <= 1.0
    ensures Effective(r, w, f) == Score(r, w, f)
  {
    Product(r, w);
    Product(r * w, f);
  }

  lemma Product(x: real, y: real)
    requires 0.0 <= x <= 1.0 && 0.0 <= y <= 1.0
    ensures 0.0 <= x * y <= y
  {}

  /**
   * A new path that has failed n times in a row, whatever happened to others meanwhile: with the usual latency it goes
   * to TCP from the third failure on, from the second if aggressive; peers are tried from the first, two hops deep and
   * from the third three.
   */
  lemma FailuresSteer(os: seq<Outcome>, n: nat, c: Config, s: State, key: string, a: Ask, quic: Option<bool>, stamp: int)
    requires Recording(os, key) && History(os) == Repeated(false, n) && SameRecord(Latest(os, key), s, key) && a.latency == 1.0
    ensures var choice := Decided(c, s, key, a, quic, stamp).1;
      if a.allowPeer && c.peerDial && quic.Some? && (a.forcePeer || (n >= 1 && (a.cand == Srflx || a.cand == Relayed))) then
        choice == Peer(Within(c, if n == 0 then 1 else if n < 3 then 2 else 3), !c.useQuic || !quic.value)
      else if a.bothTransports && !Remembered(c, s, key, a.check) && n < (if c.aggressive then 2 else 3) then choice == Free
      else choice == Tcp
  {
    RecordFollowsHistory(os, key);
    assert EndsInFailures(History(os), Streak(s, key)) && Streak(s, key) == n;
    RateInClosedForm(n, 0);
    assert Repeated(false, n) + Repeated(true, 0) == Repeated(false, n);
    ChoiceIs(c, s, key, a, quic, stamp);
    FewFailures(n, a.cand);
  }

  lemma FewFailures(n: nat, cand: Candidate)
    ensures n < 3 ==> Power(0.8, n) * cand.PathWeight() >= 0.38
    ensures n == 0 ==> Power(0.8, n) == 1.0
  {
    assert Power(0.8, 0) == 1.0 && Power(0.8, 1) == 0.8 * Power(0.8, 0) && Power(0.8, 2) == 0.8 * Power(0.8, 1);
  }

  /** A success ends the streak and the memory, and a path with all else equal never looks worse for it. */
  lemma SuccessHelps(s: State, key: string, relay: byte, ttl: byte, now: int)
    requires 0.0 <= Rate(s, key) <= 1.0
    ensures var t := Recorded(s, key, true, relay, ttl, now);
      Streak(t, key) == 0 && key !in t.stick && Rate(s, key) <= Rate(t, key) <= 1.0 && Rate(t, key) >= 0.15
  {
    RateStep(Rate(s, key));
  }

  /** A decision without a peer remembers TCP for the cooldown exactly when it is the path's weakness that sends it there. */
  lemma WeakIsRemembered(c: Config, s: State, key: string, a: Ask, stamp: int)
    requires 0.0 <= Rate(s, key) <= 1.0 && 0.0 <= a.latency <= 1.0
    ensures var weak := a.bothTransports && !Remembered(c, s, key, a.check) && Weak(c, Rate(s, key), Streak(s, key), a);
      Decided(c, s, key, a, None, stamp).0.stick ==
        if weak && c.cooldown > 0 && c.sticky then s.stick[key := stamp + c.cooldown] else s.stick
  {
    var st := Touched(s, key, a.now).paths[key];
    assert st.ewmaOK == Rate(s, key) && st.failStreak == Streak(s, key);
    FailingIsWeak(c, st, a);
  }

  /** Until its time has come a memory makes every decision without a peer TCP; from then on it makes no difference. */
  lemma MemoryDecides(c: Config, s: State, key: string, a: Ask, quic: Option<bool>, stamp: int)
    requires 0.0 <= Rate(s, key) <= 1.0 && 0.0 <= a.latency <= 1.0
    ensures var choice := Decided(c, s, key, a, quic, stamp).1;
      if Remembered(c, s, key, a.check) then choice == Tcp || choice.Peer?
      else choice == Decided(c, s.(stick := s.stick - {key}), key, a, quic, stamp).1
  {
    var t := s.(stick := s.stick - {key});
    ChoiceIs(c, s, key, a, quic, stamp);
    ChoiceIs(c, t, key, a, quic, stamp);
    assert !Remembered(c, t, key, a.check) && SameRecord(s, t, key);
  }
}
