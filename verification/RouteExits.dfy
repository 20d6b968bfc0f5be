/** Which planned routes reach their last peer: kinds, limits and the characters of addresses. */
module RouteExits {
  import opened Bytes
  import opened Collections
  import opened Text
  import opened RouteHops
  import opened OptionScan
  import opened RouteRelays
  import opened RouteChains

  /** Relays that have room, see the nonce for the first time, receive the options and know the client. */
  ghost predicate Welcoming(env: Env, t: Terms) {
    && (forall k {:trigger env.isFresh(k)} {:trigger env.admits(k)} :: env.isFresh(k) && env.admits(k))
    && (forall k: nat {:trigger Counted(t.first, k)} :: env.Fits(Counted(t.first, k)))
    && (forall n: nat {:trigger t.knows(n)} :: n < JAVA_HOP_LIMIT ==> t.knows(n))
  }

  ghost predicate TcpAfter(hops: seq<Hop>, u: nat) { forall i :: u < i < |hops| ==> IsTcp(hops[i]) }

  /** What kinds and limits ask of a path. */
  ghost predicate WithinLimits(max: int, hops: seq<Hop>, u: nat) {
    u <= GoCap(max) && TcpAfter(hops, u) && (u < |hops| ==> |hops| <= JavaCap(max))
  }

  lemma WelcomeIs(env: Env, t: Terms, p: Path, i: nat)
    requires Welcoming(env, t)
    ensures Accepts(env, t, p)(i) == if i < p.udp then i + 1 <= GoCap(t.first.relayMaxHop) else i + 1 <= JavaCap(t.first.relayMaxHop)
  {
    assert env.isFresh(i + 1) && env.admits(i + 1) && env.Fits(Counted(t.first, i + 1));
    if i >= p.udp && i + 1 <= JavaCap(t.first.relayMaxHop) { assert t.knows(i - p.udp); }
  }

  /**
   * In terms of kinds and limits: a path passes exactly when at most two leading UDP hops are followed by one hop of any
   * kind and then TCP hops only, at most four hops in all, both limits lowered by the one asked for.
   */
  lemma PassableIff(env: Env, t: Terms, p: Path)
    requires Welcoming(env, t) && p.udp <= |p.hops|
    ensures Passable(Accepts(env, t, p), p) <==> WithinLimits(t.first.relayMaxHop, p.hops, p.udp)
  {
    var ok, max := Accepts(env, t, p), t.first.relayMaxHop;
    if Passable(ok, p) {
      if p.udp > 0 {
        WelcomeIs(env, t, p, p.udp - 1);
        assert HopOk(ok, p, p.udp - 1);
      }
      if p.udp < |p.hops| {
        WelcomeIs(env, t, p, |p.hops| - 1);
        assert HopOk(ok, p, |p.hops| - 1);
      }
      forall i | p.udp < i < |p.hops| ensures IsTcp(p.hops[i]) { assert HopOk(ok, p, i); }
    } else {
      var i :| 0 <= i < |p.hops| && !HopOk(ok, p, i);
      WelcomeIs(env, t, p, i);
    }
  }

  // ---- Which entries get through ----------------------------------------------------------------

  ghost predicate VerbatimAddrs(hops: seq<Hop>) { forall i :: 0 <= i < |hops| ==> Verbatim(GoJson, hops[i].addr) }

  /** How many hops of a plan the relays get to see: all of them while Go relays serve, else up to the first entry with a closing bracket. */
  function Reach(hops: seq<Hop>): nat {
    var u, b := LeadingUdp(hops), FirstBracket(EncodedHops(hops));
    if u == |hops| then |hops| else if b <= u then u + 1 else b
  }

  lemma KindIsVerbatim(h: Hop)
    requires PeerHop(h)
    ensures Verbatim(GoJson, h.kind) && h.kind != "" && h.kind[0] > ' '
  {
    forall i | 0 <= i < |h.kind| ensures !Special(GoJson, h.kind[i]) {}
  }

  lemma VerbatimJoin(w: Writer, a: string, b: string)
    requires Verbatim(w, a) && Verbatim(w, b)
    ensures Verbatim(w, a + ":" + b)
  {}

  lemma EntryIsVerbatim(h: Hop)
    requires PeerHop(h) && Verbatim(GoJson, h.addr)
    ensures var e := EncodedHop(h); e != "" && e[0] > ' ' && e[|e| - 1] > ' ' && Verbatim(GoJson, e)
  {
    KindIsVerbatim(h);
    VerbatimJoin(GoJson, h.kind, h.addr);
    assert Trimmed(h.kind) && EncodedHop(h) == h.kind + ":" + h.addr;
    assert !Special(GoJson, h.addr[|h.addr| - 1]) && !IsSpace(h.addr[|h.addr| - 1]);
  }

  lemma {:induction false} EncodedAt(hops: seq<Hop>, i: nat)
    requires AllPeers(hops) && i < |hops|
    ensures |EncodedHops(hops)| == |hops| && EncodedHops(hops)[i] == EncodedHop(hops[i])
  {
    assert PeerHop(hops[0]);
    PeerHopRoundTrip(hops[0]);
    EncodesFirst(hops);
    PeersRoundTrip(hops);
    if i > 0 {
      assert AllPeers(hops[1..]) by { forall k | 0 <= k < |hops| - 1 ensures PeerHop(hops[1..][k]) { assert PeerHop(hops[k + 1]); } }
      EncodedAt(hops[1..], i - 1);
    }
  }

  lemma {:induction false} AgainIsSame(x: string, n: nat)
    requires Verbatim(JavaJson, x)
    ensures Again(x, n) == x
  {
    if n > 0 {
      AgainIsSame(x, n - 1);
      VerbatimIff(JavaJson, x);
    }
  }

  lemma JavaReadsPeer(h: Hop, n: nat)
    requires PeerHop(h) && Verbatim(GoJson, h.addr)
    ensures JavaParseHop(Again(EncodedHop(h), n)) == Some(h)
  {
    EntryIsVerbatim(h);
    assert Verbatim(JavaJson, EncodedHop(h));
    AgainIsSame(EncodedHop(h), n);
    PeerHopRoundTrip(h);
    ParsesAlike(EncodedHop(h));
  }

  lemma ParsesAlike(raw: string)
    requires Trimmed(raw)
    ensures JavaParseHop(raw) == ParseRouteHop(raw)
  {}

  /** Entries that read as the hops of the plan give the plan back. */
  lemma {:induction false} TailIsPlan(read: (nat, nat) -> Option<Hop>, plan: seq<Hop>, len: nat, n: nat, i: nat)
    requires i <= len <= |plan| && forall k: nat, d: nat {:trigger read(k, d)} :: k < len ==> read(k, d) == Some(plan[k])
    ensures Tail(read, len, n, i) == Reading(plan[i..len], false)
    decreases len - i
  {
    if i < len {
      TailIsPlan(read, plan, len, n + 1, i + 1);
      assert read(i, n) == Some(plan[i]);
      assert plan[i..len] == [plan[i]] + plan[i + 1..len];
    }
  }

  lemma ListSeenIs(hops: seq<Hop>)
    requires AllPeers(hops) && VerbatimAddrs(hops)
    ensures |EncodedHops(hops)| == |hops| && ListSeen(hops) == EncodedHops(hops)[..FirstBracket(EncodedHops(hops))]
  {
    PeersRoundTrip(hops);
    var es := EncodedHops(hops);
    forall i | 0 <= i < |es| ensures es[i] != "" && es[i][0] > ' ' && es[i][|es[i]| - 1] > ' ' && Verbatim(GoJson, es[i]) {
      EncodedAt(hops, i);
      assert PeerHop(hops[i]);
      EntryIsVerbatim(hops[i]);
    }
    VerbatimFrontArrives(GoJson, es);
  }

  lemma ReadsPlan(hops: seq<Hop>, b: nat, k: nat, d: nat)
    requires AllPeers(hops) && VerbatimAddrs(hops) && k < b <= |hops| == |EncodedHops(hops)|
    ensures ReadOf(EncodedHops(hops)[..b])(k, d) == Some(hops[k])
  {
    EncodedAt(hops, k);
    assert PeerHop(hops[k]);
    JavaReadsPeer(hops[k], d);
  }

  /** The entries from i on of a list that breaks off at b. */
  function RestOf(plan: seq<Hop>, i: nat, b: nat): seq<Hop> { if i <= b <= |plan| then plan[i..b] else [] }

  lemma ReadingIs(read: (nat, nat) -> Option<Hop>, plan: seq<Hop>, b: nat, i: nat)
    requires b <= |plan| && forall k: nat, d: nat {:trigger read(k, d)} :: k < b ==> read(k, d) == Some(plan[k])
    ensures Tail(read, b, 0, i) == Reading(RestOf(plan, i, b), false)
  {
    if i <= b { TailIsPlan(read, plan, b, 0, i); }
  }

  lemma PlanContinues(hops: seq<Hop>, u: nat, b: nat)
    requires u < |hops| && b <= |hops|
    ensures Continued(hops, u, Reading(RestOf(hops, u + 1, b), false)) == Path(hops[..if b <= u then u + 1 else b], u, false)
  {
    assert hops[..u + 1] + RestOf(hops, u + 1, b) == hops[..if b <= u then u + 1 else b];
  }

  /** With addresses that need no escaping, the relays follow the plan as far as it reaches. */
  lemma RouteReaches(hops: seq<Hop>)
    requires AllPeers(hops) && VerbatimAddrs(hops)
    ensures Reach(hops) <= |hops| && Route(hops) == Path(hops[..Reach(hops)], LeadingUdp(hops), false)
  {
    ListSeenIs(hops);
    PathReaches(hops, EncodedHops(hops), FirstBracket(EncodedHops(hops)));
  }

  lemma PathReaches(hops: seq<Hop>, es: seq<string>, b: nat)
    requires AllPeers(hops) && VerbatimAddrs(hops) && es == EncodedHops(hops) && |es| == |hops| && b == FirstBracket(es)
    ensures Reach(hops) <= |hops| && PathOf(hops, es[..b]) == Path(hops[..Reach(hops)], LeadingUdp(hops), false)
  {
    if LeadingUdp(hops) < |hops| {
      var more := ListReadsPlan(hops, es[..b], b, LeadingUdp(hops) + 1);
      PlanContinues(hops, LeadingUdp(hops), b);
      ReachIs(hops, LeadingUdp(hops), b);
      PathIs(hops, es[..b], LeadingUdp(hops), more);
    } else {
      assert hops[..|hops|] == hops;
    }
  }

  lemma PathIs(hops: seq<Hop>, xs: seq<string>, u: nat, more: Reading)
    requires u == LeadingUdp(hops) < |hops| && more == Tail(ReadOf(xs), |xs|, 0, u + 1)
    ensures PathOf(hops, xs) == Path(hops[..u + 1] + more.hops, u, more.torn)
  {}

  lemma ReachIs(hops: seq<Hop>, u: nat, b: nat)
    requires u == LeadingUdp(hops) < |hops| && b == FirstBracket(EncodedHops(hops))
    ensures Reach(hops) == if b <= u then u + 1 else b
  {}

  lemma ListReadsPlan(hops: seq<Hop>, xs: seq<string>, b: nat, i: nat) returns (more: Reading)
    requires AllPeers(hops) && VerbatimAddrs(hops) && b <= |hops| == |EncodedHops(hops)| && xs == EncodedHops(hops)[..b]
    ensures more == Tail(ReadOf(xs), |xs|, 0, i) && more == Reading(RestOf(hops, i, |xs|), false)
  {
    var read := ReadOf(xs);
    forall k: nat, d: nat {:trigger read(k, d)} | k < |xs| ensures read(k, d) == Some(hops[k]) { ReadsPlan(hops, b, k, d); }
    ReadingIs(read, hops, |xs|, i);
    more := Tail(read, |xs|, 0, i);
  }

  lemma FrontIsAll(xs: seq<string>)
    ensures FirstBracket(xs) == |xs| <==> NoneHolds(xs, ']')
  {
    NoBracketInFront(xs);
    if FirstBracket(xs) == |xs| { assert xs[..|xs|] == xs; }
  }

  lemma FullReachIff(hops: seq<Hop>)
    requires |EncodedHops(hops)| == |hops|
    ensures Reach(hops) == |hops| <==> |hops| <= LeadingUdp(hops) + 1 || NoneHolds(EncodedHops(hops), ']')
  {
    FrontIsAll(EncodedHops(hops));
  }

  /**
   * The plan is followed to its last peer, which reaches the target, exactly when kinds and limits allow it and, unless
   * Go relays serve all hops but the last, no entry of the route holds a closing bracket, as IPv6 addresses do.
   */
  lemma LastPeerDeliversIff(s: Signer, env: Env, base: Opts, hops: seq<Hop>, relayPeerId: string, draw: string)
    requires Sound(s) && Unstarted(base) && draw != "" && hops != [] && AllPeers(hops) && VerbatimAddrs(hops)
    requires Welcoming(env, TermsOf(s, base, hops, relayPeerId, env.token, draw))
    ensures Advancing(StepOf(s, env))
    ensures var run := Chain(StepOf(s, env), ClientMsg(s, base, hops, relayPeerId, env.token, draw), hops[0]);
      var max := if base.relayMaxHop <= 0 then |hops| else base.relayMaxHop;
      run == Trace(hops, Exited) <==>
        WithinLimits(max, hops, LeadingUdp(hops)) && (|hops| <= LeadingUdp(hops) + 1 || NoneHolds(EncodedHops(hops), ']'))
  {
    var t := TermsOf(s, base, hops, relayPeerId, env.token, draw);
    PeerRouteRuns(s, env, base, hops, relayPeerId, draw);
    LimitIs(s, env, base, hops, relayPeerId, draw);
    RouteFacts(hops);
    DeliversAll(env, t, Route(hops), hops, Reach(hops), if base.relayMaxHop <= 0 then |hops| else base.relayMaxHop,
      Chain(StepOf(s, env), ClientMsg(s, base, hops, relayPeerId, env.token, draw), hops[0]));
  }

  lemma LimitIs(s: Signer, env: Env, base: Opts, hops: seq<Hop>, relayPeerId: string, draw: string)
    requires Sound(s) && Unstarted(base) && draw != "" && hops != [] && AllPeers(hops)
    ensures TermsOf(s, base, hops, relayPeerId, env.token, draw).first.relayMaxHop ==
      if base.relayMaxHop <= 0 then |hops| else base.relayMaxHop
  {
    ClientLaunches(s, env, base, hops, relayPeerId, draw);
  }

  lemma RouteFacts(hops: seq<Hop>)
    requires AllPeers(hops) && VerbatimAddrs(hops)
    ensures LeadingUdp(hops) <= Reach(hops) <= |hops| && Route(hops) == Path(hops[..Reach(hops)], LeadingUdp(hops), false)
    ensures Reach(hops) == |hops| <==> |hops| <= LeadingUdp(hops) + 1 || NoneHolds(EncodedHops(hops), ']')
  {
    RouteReaches(hops);
    PeersRoundTrip(hops);
    FullReachIff(hops);
  }

  lemma DeliversAll(env: Env, t: Terms, p: Path, hops: seq<Hop>, r: nat, max: int, run: Trace)
    requires Welcoming(env, t) && r <= |hops| && p.udp <= r && p == Path(hops[..r], p.udp, false) && t.first.relayMaxHop == max
    requires run == StoppedAt(p, 0, FirstBad(Accepts(env, t, p), p, 0))
    ensures run == Trace(hops, Exited) <==> WithinLimits(max, hops, p.udp) && r == |hops|
  {
    StopsWhereBad(Accepts(env, t, p), p);
    assert p.hops[0..] == p.hops;
    PassableIff(env, t, p);
    if r == |hops| { assert hops[..r] == hops; }
  }

  // ---- Instances --------------------------------------------------------------------------------

  /** An address as given to a planner: not blank, trimmed, nothing to escape. */
  ghost predicate PlainAddr(a: string) { a != "" && Trimmed(a) && Verbatim(GoJson, a) }

  lemma TcpPair(a: string, b: string)
    requires PlainAddr(a) && PlainAddr(b)
    ensures var hops := [Hop("peer_tcp", a), Hop("peer_tcp", b)];
      AllPeers(hops) && VerbatimAddrs(hops) && LeadingUdp(hops) == 0
      && EncodedHops(hops) == ["peer_tcp" + ":" + a, "peer_tcp" + ":" + b]
  {
    var hops := [Hop("peer_tcp", a), Hop("peer_tcp", b)];
    assert AllPeers(hops);
    EncodedAt(hops, 0);
    EncodedAt(hops, 1);
  }

  /** Two TCP hops, one of them with a bracketed address: the first relay reaches the target by itself. */
  lemma BracketsCutTheRoute(a: string, b: string)
    requires PlainAddr(a) && PlainAddr(b) && (!Lacks(a, ']') || !Lacks(b, ']'))
    ensures Route([Hop("peer_tcp", a), Hop("peer_tcp", b)]) == Path([Hop("peer_tcp", a)], 0, false)
  {
    var hops := [Hop("peer_tcp", a), Hop("peer_tcp", b)];
    TcpPair(a, b);
    RouteReaches(hops);
    BracketStays("peer_tcp", a);
    BracketStays("peer_tcp", b);
    OneHolds(EncodedHops(hops));
    assert hops[..1] == [hops[0]];
  }

  lemma OneHolds(es: seq<string>)
    requires |es| == 2 && (!Lacks(es[0], ']') || !Lacks(es[1], ']'))
    ensures FirstBracket(es) <= 1
  {}

  lemma BracketStays(k: string, a: string)
    ensures Lacks(k + ":" + a, ']') ==> Lacks(a, ']')
  {
    LacksBoth(k + ":", a, ']');
  }

  /** Three TCP hops are within the limits, three UDP hops are not, and a QUIC hop cannot be followed by a UDP hop. */
  lemma KindsMatter(a: string, b: string, c: string)
    ensures WithinLimits(3, [Hop("peer_tcp", a), Hop("peer_tcp", b), Hop("peer_tcp", c)], 0)
    ensures !WithinLimits(3, [Hop("peer_udp", a), Hop("peer_udp", b), Hop("peer_udp", c)], 3)
    ensures !WithinLimits(3, [Hop("peer_quic", a), Hop("peer_udp", b)], 0)
  {
    EqualFolds("peer_tcp");
    ThreeTcp(Hop("peer_tcp", a), Hop("peer_tcp", b), Hop("peer_tcp", c));
    UdpIsNotTcp();
    SecondNotTcp(Hop("peer_quic", a), Hop("peer_udp", b));
  }

  lemma ThreeTcp(x: Hop, y: Hop, z: Hop)
    requires IsTcp(y) && IsTcp(z)
    ensures WithinLimits(3, [x, y, z], 0)
  {}

  lemma SecondNotTcp(x: Hop, y: Hop)
    requires !IsTcp(y)
    ensures !WithinLimits(3, [x, y], 0)
  {
    assert [x, y][1] == y;
  }

  lemma UdpIsNotTcp()
    ensures !EqualFold("peer_udp", "peer_tcp")
  {
    FoldedAlike("peer_udp", "peer_tcp", 5);
  }

  lemma {:induction false} FoldedAlike(a: string, b: string, i: nat)
    requires i < |a| && i < |b|
    ensures EqualFold(a, b) ==> LowerChar(a[i]) == LowerChar(b[i])
  {
    if i > 0 { FoldedAlike(a[1..], b[1..], i - 1); }
  }

  // ---- Whom Java relays know --------------------------------------------------------------------

  /** Text that every relay reads as it was written. */
  ghost predicate PlainText(x: string) { Verbatim(GoJson, x) && JavaTrim(x) == x }

  lemma PlainTextSeen(x: string, n: nat)
    requires PlainText(x)
    ensures Again(FieldSeen(GoJson, x), n) == x
  {
    VerbatimIff(GoJson, x);
    FindInFront(x, "\"", '"');
    FindsFirst("\"", '"', 0);
    assert (x + "\"")[..|x|] == x;
    AgainIsSame(x, n);
  }

  ghost predicate AgedTexts(a: Opts, o: Opts, n: nat) {
    a.peerId == Again(o.peerId, n) && a.nonce == Again(o.nonce, n) && a.sig == Again(o.sig, n)
  }

  lemma {:induction false} SeenTexts(o: Opts, n: nat)
    ensures AgedTexts(After(SeenNext, o, n), o, n)
  {
    if n > 0 {
      SeenTexts(o, n - 1);
      NextTexts(After(SeenNext, o, n - 1), o, n - 1);
    }
  }

  lemma NextTexts(a: Opts, o: Opts, n: nat)
    requires AgedTexts(a, o, n)
    ensures AgedTexts(SeenNext(a), o, n + 1)
  {
    AgainOnce(o.peerId, n);
    AgainOnce(o.nonce, n);
    AgainOnce(o.sig, n);
  }

  /** With a plain identity every Java relay of a route judges as the guard does on the identity that was sent. */
  lemma PlainIdentityIsKnown(s: Signer, token: string, first: Opts, u: nat, n: nat)
    requires PlainText(first.peerId) && PlainText(first.nonce) && PlainText(first.sig)
    ensures Knows(s, token, After(SeenNext, FirstSeen(first, u), n)) == GuardAllows(s, token, first.peerId, first.nonce, first.sig)
  {
    SeenTexts(FirstSeen(first, u), n);
    PlainTextSeen(first.peerId, n);
    PlainTextSeen(first.nonce, n);
    PlainTextSeen(first.sig, n);
  }
}
