/** Multi-hop routes: planning, encoding in the options, and their advance from relay to relay. */
module RouteHops {
  import opened Bytes
  import opened Collections
  import opened Text

  datatype Hop = Hop(kind: string, addr: string)

  // ---- Planning -----------------------------------------------------------------------------

  datatype Decision = Decision(exitIsRelay: bool, peerTCP: string, peerQUIC: string, peerUDP: string,
                               tcpCandidates: seq<string>, quicCandidates: seq<string>, udpCandidates: seq<string>, maxPeerHops: int)

  function HopLimit(d: Decision): (n: nat)
    ensures n >= 1
  {
    if d.maxPeerHops <= 0 then 1 else d.maxPeerHops
  }

  /** A hop, unless its address is blank. */
  function Usable(kind: string, addr: string): seq<Hop> {
    if TrimSpace(addr) == "" then [] else [Hop(kind, TrimSpace(addr))]
  }

  /** The hop offered by the i-th candidates: TCP before QUIC before UDP. */
  function Candidate(d: Decision, i: nat): seq<Hop>
    requires i < |d.tcpCandidates|
  {
    if d.tcpCandidates[i] != "" then Usable("peer_tcp", d.tcpCandidates[i])
    else if i < |d.quicCandidates| && d.quicCandidates[i] != "" then Usable("peer_quic", d.quicCandidates[i])
    else if i < |d.udpCandidates| && d.udpCandidates[i] != "" then Usable("peer_udp", d.udpCandidates[i])
    else []
  }

  function Candidates(d: Decision, i: nat): seq<Hop>
    requires i <= |d.tcpCandidates|
    decreases |d.tcpCandidates| - i
  {
    if i == |d.tcpCandidates| then [] else Candidate(d, i) + Candidates(d, i + 1)
  }

  function Preferred(d: Decision): seq<Hop> {
    Usable("peer_quic", d.peerQUIC) + Usable("peer_udp", d.peerUDP) + Usable("peer_tcp", d.peerTCP)
  }

  function Exit(d: Decision, serverAddr: string): seq<Hop> {
    Usable(if d.exitIsRelay then "server_relay" else "direct_server", serverAddr)
  }

  function FirstOf(hops: seq<Hop>, n: nat): seq<Hop> { if |hops| <= n then hops else hops[..n] }

  /** The plan: candidates, else the preferred peers, within the hop limit; else one server hop. */
  function Plan(d: Decision, serverAddr: string): seq<Hop> {
    if Candidates(d, 0) != [] then FirstOf(Candidates(d, 0), HopLimit(d))
    else if Preferred(d) != [] then FirstOf(Preferred(d), HopLimit(d))
    else Exit(d, serverAddr)
  }

  method BuildRoutePlan(d: Decision, server: string) returns (hops: seq<Hop>)
    ensures hops == Plan(d, server) && Planned(d, server, hops)
  {
    var serverAddr := TrimSpace(server);
    var maxHops := d.maxPeerHops;
    if maxHops <= 0 {
      maxHops := 1;
    }
    hops := AddCandidates(d, maxHops);
    if |hops| == 0 {
      hops := AddPreferred(d, maxHops);
    }
    if |hops| == 0 && serverAddr != "" {
      hops := Add(hops, if d.exitIsRelay then "server_relay" else "direct_server", serverAddr);
    }
    // The final cut to maxHops never has anything left to cut.
    assert |hops| <= maxHops;
    assert hops == Plan(d, server);
    PlanIsPlanned(d, server);
  }

  method AddCandidates(d: Decision, maxHops: nat) returns (hops: seq<Hop>)
    ensures hops == FirstOf(Candidates(d, 0), maxHops)
  {
    hops := [];
    var i := 0;
    ghost var all, left := Candidates(d, 0), Candidates(d, 0);
    while i < |d.tcpCandidates|
      invariant i <= |d.tcpCandidates| && |hops| <= maxHops
      invariant left == Candidates(d, i) && all == hops + left
    {
      if |hops| >= maxHops {
        break;
      }
      Assoc(hops, Candidate(d, i), Candidates(d, i + 1));
      hops := AddCandidate(d, i, hops);
      i := i + 1;
      left := Candidates(d, i);
    }
  }

  method AddCandidate(d: Decision, i: nat, hops: seq<Hop>) returns (more: seq<Hop>)
    requires i < |d.tcpCandidates|
    ensures more == hops + Candidate(d, i) && |more| <= |hops| + 1
  {
    more := hops;
    if d.tcpCandidates[i] != "" {
      more := Add(hops, "peer_tcp", d.tcpCandidates[i]);
    } else if i < |d.quicCandidates| && d.quicCandidates[i] != "" {
      more := Add(hops, "peer_quic", d.quicCandidates[i]);
    } else if i < |d.udpCandidates| && d.udpCandidates[i] != "" {
      more := Add(hops, "peer_udp", d.udpCandidates[i]);
    }
  }

  method Add(hops: seq<Hop>, kind: string, addr: string) returns (more: seq<Hop>)
    ensures more == hops + Usable(kind, addr) && |more| <= |hops| + 1
  {
    var trimmed := TrimSpace(addr);
    if trimmed == "" {
      return hops;
    }
    more := hops + [Hop(kind, trimmed)];
  }

  method AddPreferred(d: Decision, maxHops: nat) returns (hops: seq<Hop>)
    requires maxHops >= 1
    ensures hops == FirstOf(Preferred(d), maxHops)
  {
    var quic, udp, tcp := Usable("peer_quic", d.peerQUIC), Usable("peer_udp", d.peerUDP), Usable("peer_tcp", d.peerTCP);
    hops := AddIfRoom([], maxHops, "peer_quic", d.peerQUIC);
    hops := AddIfRoom(hops, maxHops, "peer_udp", d.peerUDP);
    FirstOfJoin([] + quic, udp, maxHops);
    hops := AddIfRoom(hops, maxHops, "peer_tcp", d.peerTCP);
    FirstOfJoin([] + quic + udp, tcp, maxHops);
    assert [] + quic == quic;
  }

  method AddIfRoom(hops: seq<Hop>, maxHops: nat, kind: string, addr: string) returns (more: seq<Hop>)
    requires |hops| <= maxHops
    ensures more == FirstOf(hops + Usable(kind, addr), maxHops) && |more| <= maxHops
  {
    more := hops;
    if |hops| < maxHops && TrimSpace(addr) != "" {
      more := Add(hops, kind, addr);
    }
  }

  lemma FirstOfJoin(a: seq<Hop>, b: seq<Hop>, n: nat)
    ensures FirstOf(FirstOf(a, n) + b, n) == FirstOf(a + b, n)
  {}

  predicate IsPeerKind(kind: string) { kind == "peer_tcp" || kind == "peer_quic" || kind == "peer_udp" }

  predicate IsServerKind(kind: string) { kind == "direct_server" || kind == "server_relay" }

  ghost predicate PeerHop(h: Hop) { IsPeerKind(h.kind) && h.addr != "" && Trimmed(h.addr) }

  ghost predicate AllPeers(hops: seq<Hop>) { forall i :: 0 <= i < |hops| ==> PeerHop(hops[i]) }

  lemma PeersJoin(a: seq<Hop>, b: seq<Hop>)
    requires AllPeers(a) && AllPeers(b)
    ensures AllPeers(a + b)
  {}

  lemma UsableIsPeer(kind: string, addr: string)
    requires IsPeerKind(kind)
    ensures AllPeers(Usable(kind, addr))
  {}

  lemma {:induction false} CandidatesArePeers(d: Decision, i: nat)
    requires i <= |d.tcpCandidates|
    ensures AllPeers(Candidates(d, i))
    decreases |d.tcpCandidates| - i
  {
    if i < |d.tcpCandidates| {
      CandidatesArePeers(d, i + 1);
      PeersJoin(Candidate(d, i), Candidates(d, i + 1));
    }
  }

  lemma PreferredArePeers(d: Decision)
    ensures AllPeers(Preferred(d))
  {
    UsableIsPeer("peer_quic", d.peerQUIC);
    UsableIsPeer("peer_udp", d.peerUDP);
    UsableIsPeer("peer_tcp", d.peerTCP);
    PeersJoin(Usable("peer_quic", d.peerQUIC), Usable("peer_udp", d.peerUDP));
    PeersJoin(Usable("peer_quic", d.peerQUIC) + Usable("peer_udp", d.peerUDP), Usable("peer_tcp", d.peerTCP));
  }

  ghost predicate OneServer(hops: seq<Hop>, serverAddr: string) {
    |hops| == 1 && IsServerKind(hops[0].kind) && hops[0].addr == TrimSpace(serverAddr) != ""
  }

  lemma FirstOfPeers(hops: seq<Hop>, n: nat)
    requires AllPeers(hops)
    ensures AllPeers(FirstOf(hops, n)) && |FirstOf(hops, n)| <= n
  {}

  lemma ExitShape(d: Decision, serverAddr: string)
    ensures Exit(d, serverAddr) == [] || OneServer(Exit(d, serverAddr), serverAddr)
  {}

  /** A plan is a chain of at most the allowed number of peers with usable addresses, or a single server hop. */
  lemma PlanShape(d: Decision, serverAddr: string)
    ensures |Plan(d, serverAddr)| <= HopLimit(d)
    ensures AllPeers(Plan(d, serverAddr)) || OneServer(Plan(d, serverAddr), serverAddr)
  {
    CandidatesArePeers(d, 0);
    PreferredArePeers(d);
    FirstOfPeers(Candidates(d, 0), HopLimit(d));
    FirstOfPeers(Preferred(d), HopLimit(d));
    ExitShape(d, serverAddr);
  }

  // ---- What is planned, read off the decision ------------------------------------------------

  predicate Filled(list: seq<string>, i: nat) { i < |list| && list[i] != "" }

  /** Position i of the candidates offers the hop: in the field of its kind, none that goes before being filled. */
  ghost predicate Offers(d: Decision, i: nat, h: Hop) {
    && h.addr != "" && i < |d.tcpCandidates|
    && if d.tcpCandidates[i] != "" then h.kind == "peer_tcp" && h.addr == TrimSpace(d.tcpCandidates[i])
       else if Filled(d.quicCandidates, i) then h.kind == "peer_quic" && h.addr == TrimSpace(d.quicCandidates[i])
       else Filled(d.udpCandidates, i) && h.kind == "peer_udp" && h.addr == TrimSpace(d.udpCandidates[i])
  }

  /** The preferred peers by rank: QUIC, UDP, TCP. */
  ghost predicate Prefers(d: Decision, rank: nat, h: Hop) {
    && h.addr != ""
    && (|| (rank == 0 && h == Hop("peer_quic", TrimSpace(d.peerQUIC)))
        || (rank == 1 && h == Hop("peer_udp", TrimSpace(d.peerUDP)))
        || (rank == 2 && h == Hop("peer_tcp", TrimSpace(d.peerTCP))))
  }

  ghost predicate Rising(at: seq<nat>) { forall k, k' :: 0 <= k < k' < |at| ==> at[k] < at[k'] }

  /** The hops stand at rising positions below n, and no position that offers one is passed over before the limit is reached. */
  ghost predicate TakenAt(offers: (nat, Hop) -> bool, n: nat, limit: nat, hops: seq<Hop>, at: seq<nat>) {
    && |at| == |hops| <= limit && Rising(at)
    && (forall k :: 0 <= k < |at| ==> at[k] < n && offers(at[k], hops[k]))
    && (forall i: nat, h {:trigger offers(i, h)} :: i < n && offers(i, h) && i !in at ==>
          |hops| == limit && forall k :: 0 <= k < |at| ==> at[k] < i)
  }

  ghost predicate FirstTaken(offers: (nat, Hop) -> bool, n: nat, limit: nat, hops: seq<Hop>) {
    exists at :: TakenAt(offers, n, limit, hops, at)
  }

  ghost predicate NoneOffered(d: Decision) { forall i: nat, h :: !Offers(d, i, h) }

  ghost predicate NonePreferred(d: Decision) { forall rank: nat, h :: !Prefers(d, rank, h) }

  /** What a plan is for a decision: candidates, else preferred peers, else the server. */
  ghost predicate Planned(d: Decision, server: string, hops: seq<Hop>) {
    var limit := if d.maxPeerHops <= 0 then 1 else d.maxPeerHops;
    if !NoneOffered(d) then FirstTaken((i: nat, h: Hop) => Offers(d, i, h), |d.tcpCandidates|, limit, hops)
    else if !NonePreferred(d) then FirstTaken((rank: nat, h: Hop) => Prefers(d, rank, h), 3, limit, hops)
    else if TrimSpace(server) == "" then hops == []
    else hops == [Hop(if d.exitIsRelay then "server_relay" else "direct_server", TrimSpace(server))]
  }

  /** The hops of the first n positions, each of which has at most one. */
  ghost predicate TakenUpTo(offers: (nat, Hop) -> bool, n: nat, hops: seq<Hop>, at: seq<nat>) {
    && |at| == |hops| && Rising(at)
    && (forall k :: 0 <= k < |at| ==> at[k] < n && offers(at[k], hops[k]))
    && (forall i: nat, h {:trigger offers(i, h)} :: i < n && offers(i, h) ==> i in at)
  }

  ghost predicate Only(offers: (nat, Hop) -> bool, i: nat, item: seq<Hop>) {
    |item| <= 1 && forall h :: offers(i, h) <==> item == [h]
  }

  lemma TakeNext(offers: (nat, Hop) -> bool, n: nat, hops: seq<Hop>, at: seq<nat>, item: seq<Hop>) returns (more: seq<nat>)
    requires TakenUpTo(offers, n, hops, at) && Only(offers, n, item)
    ensures TakenUpTo(offers, n + 1, hops + item, more)
  {
    if item == [] {
      assert hops + item == hops;
      more := at;
    } else {
      assert item == [item[0]];
      more := at + [n];
      assert n in more && forall i :: i in at ==> i in more;
    }
  }

  lemma CutIsTaken(offers: (nat, Hop) -> bool, n: nat, limit: nat, hops: seq<Hop>, at: seq<nat>)
    requires TakenUpTo(offers, n, hops, at)
    ensures FirstTaken(offers, n, limit, FirstOf(hops, limit))
  {
    if |hops| <= limit {
      assert TakenAt(offers, n, limit, hops, at);
    } else {
      forall i: nat, h | i < n && offers(i, h) && i !in at[..limit] ensures forall k :: 0 <= k < limit ==> at[k] < i {
        assert forall k :: 0 <= k < limit ==> at[..limit][k] == at[k];
        var j :| 0 <= j < |at| && at[j] == i;
        assert j >= limit;
      }
      assert TakenAt(offers, n, limit, hops[..limit], at[..limit]);
    }
  }

  lemma NoneTaken(offers: (nat, Hop) -> bool, n: nat, hops: seq<Hop>, at: seq<nat>)
    requires TakenUpTo(offers, n, hops, at)
    ensures hops == [] <==> forall i: nat, h {:trigger offers(i, h)} :: i < n ==> !offers(i, h)
  {
    if hops != [] { assert offers(at[0], hops[0]); }
  }

  lemma CandidateIsOffered(d: Decision, offers: (nat, Hop) -> bool, i: nat)
    requires i < |d.tcpCandidates| && offers == ((i: nat, h: Hop) => Offers(d, i, h))
    ensures Only(offers, i, Candidate(d, i))
  {
    forall h ensures offers(i, h) <==> Candidate(d, i) == [h] {}
  }

  lemma {:induction false} CandidatesUpTo(d: Decision, offers: (nat, Hop) -> bool, n: nat) returns (hops: seq<Hop>, at: seq<nat>)
    requires n <= |d.tcpCandidates| && offers == ((i: nat, h: Hop) => Offers(d, i, h))
    ensures Candidates(d, 0) == hops + Candidates(d, n) && TakenUpTo(offers, n, hops, at)
  {
    if n == 0 {
      return [], [];
    }
    hops, at := CandidatesUpTo(d, offers, n - 1);
    CandidateIsOffered(d, offers, n - 1);
    at := TakeNext(offers, n - 1, hops, at, Candidate(d, n - 1));
    Assoc(hops, Candidate(d, n - 1), Candidates(d, n));
    hops := hops + Candidate(d, n - 1);
  }

  lemma CandidatesTaken(d: Decision)
    ensures Candidates(d, 0) == [] <==> NoneOffered(d)
    ensures FirstTaken((i: nat, h: Hop) => Offers(d, i, h), |d.tcpCandidates|, HopLimit(d), FirstOf(Candidates(d, 0), HopLimit(d)))
  {
    var n, offers := |d.tcpCandidates|, (i: nat, h: Hop) => Offers(d, i, h);
    var hops, at := CandidatesUpTo(d, offers, n);
    assert hops + [] == hops == Candidates(d, 0);
    CutIsTaken(offers, n, HopLimit(d), hops, at);
    NoneTaken(offers, n, hops, at);
    if hops == [] {
      forall i: nat, h ensures !Offers(d, i, h) { assert i < n ==> !offers(i, h); }
    }
    if NoneOffered(d) {
      forall i: nat, h | i < n ensures !offers(i, h) { assert !Offers(d, i, h); }
    }
  }

  lemma PreferredUpTo3(d: Decision, offers: (nat, Hop) -> bool) returns (at: seq<nat>)
    requires offers == ((rank: nat, h: Hop) => Prefers(d, rank, h))
    ensures TakenUpTo(offers, 3, Preferred(d), at)
  {
    var quic, udp, tcp := Usable("peer_quic", d.peerQUIC), Usable("peer_udp", d.peerUDP), Usable("peer_tcp", d.peerTCP);
    forall h ensures (offers(0, h) <==> quic == [h]) && (offers(1, h) <==> udp == [h]) && (offers(2, h) <==> tcp == [h]) {}
    at := TakeNext(offers, 0, [], [], quic);
    at := TakeNext(offers, 1, [] + quic, at, udp);
    at := TakeNext(offers, 2, [] + quic + udp, at, tcp);
    assert [] + quic == quic;
  }

  lemma PreferredTaken(d: Decision)
    ensures Preferred(d) == [] <==> NonePreferred(d)
    ensures FirstTaken((rank: nat, h: Hop) => Prefers(d, rank, h), 3, HopLimit(d), FirstOf(Preferred(d), HopLimit(d)))
  {
    var offers := (rank: nat, h: Hop) => Prefers(d, rank, h);
    var at := PreferredUpTo3(d, offers);
    CutIsTaken(offers, 3, HopLimit(d), Preferred(d), at);
    NoneTaken(offers, 3, Preferred(d), at);
    if Preferred(d) == [] {
      forall rank: nat, h ensures !Prefers(d, rank, h) { assert rank < 3 ==> !offers(rank, h); }
    }
    if NonePreferred(d) {
      forall rank: nat, h | rank < 3 ensures !offers(rank, h) { assert !Prefers(d, rank, h); }
    }
  }

  /** Every plan is what the decision's own fields call for. */
  lemma PlanIsPlanned(d: Decision, server: string)
    ensures Planned(d, server, Plan(d, server))
  {
    CandidatesTaken(d);
    PreferredTaken(d);
  }

  // ---- Encoding -----------------------------------------------------------------------------

  function EncodedHop(h: Hop): string { TrimSpace(h.kind) + ":" + TrimSpace(h.addr) }

  /** Hops with a blank part are skipped. */
  function EncodedHops(hops: seq<Hop>): seq<string> {
    if hops == [] then []
    else
      var h, more := hops[0], EncodedHops(hops[1..]);
      if TrimSpace(h.kind) == "" || TrimSpace(h.addr) == "" then more else [EncodedHop(h)] + more
  }

  method EncodeRouteHops(hops: seq<Hop>) returns (out: seq<string>)
    ensures out == EncodedHops(hops)
  {
    out := [];
    for i := 0 to |hops|
      invariant EncodedHops(hops) == out + EncodedHops(hops[i..])
    {
      var kind, addr := TrimSpace(hops[i].kind), TrimSpace(hops[i].addr);
      assert hops[i..][0] == hops[i] && hops[i..][1..] == hops[i + 1..];
      if kind == "" || addr == "" {
        continue;
      }
      Assoc(out, [EncodedHop(hops[i])], EncodedHops(hops[i + 1..]));
      out := out + [kind + ":" + addr];
    }
  }

  /** The index of the first colon, or the length when there is none. */
  function FirstColon(s: string): (i: nat)
    ensures i <= |s| && ':' !in s[..i] && (i < |s| ==> s[i] == ':')
  {
    if s == "" || s[0] == ':' then 0
    else
      var i := FirstColon(s[1..]);
      assert s[..i + 1] == [s[0]] + s[1..][..i];
      i + 1
  }

  lemma {:induction false} ColonStops(s: string, n: nat)
    requires n < |s| && s[n] == ':'
    ensures FirstColon(s) <= n
  {
    if s[0] != ':' { ColonStops(s[1..], n - 1); }
  }

  function ParseRouteHop(raw: string): Option<Hop> {
    var s := TrimSpace(raw);
    var i := FirstColon(s);
    if s == "" || i == |s| || i == 0 || i >= |s| - 1 then None
    else Some(Hop(s[..i], s[i + 1..]))
  }

  lemma JoinedIsTrimmed(k: string, a: string)
    requires k != "" && a != "" && Trimmed(k) && Trimmed(a)
    ensures TrimSpace(k + ":" + a) == k + ":" + a
  {
    var s := k + ":" + a;
    assert s[0] == k[0] && s[|s| - 1] == a[|a| - 1];
  }

  /** A hop with neither part blank comes back as it was exactly when both parts are trimmed and the kind has no colon. */
  lemma HopRoundTripIff(h: Hop)
    requires TrimSpace(h.kind) != "" && TrimSpace(h.addr) != ""
    ensures ParseRouteHop(EncodedHop(h)) == Some(h) <==> Trimmed(h.kind) && Trimmed(h.addr) && ':' !in h.kind
  {
    var k, a := TrimSpace(h.kind), TrimSpace(h.addr);
    var s := k + ":" + a;
    JoinedIsTrimmed(k, a);
    var i := FirstColon(s);
    assert s[|k|] == ':';
    ColonStops(s, |k|);
    if i == |k| {
      assert s[..i] == k && s[i + 1..] == a;
    } else {
      assert k[i] == s[i] == ':';
      assert |s[..i]| < |k|;
      if Trimmed(h.kind) { assert k == h.kind; }
    }
  }

  /** An entry is read as a hop exactly when, trimmed, it is a kind without a colon, a colon and an address, neither empty. */
  lemma ParsesIffJoined(raw: string, h: Hop)
    ensures ParseRouteHop(raw) == Some(h) <==> TrimSpace(raw) == h.kind + ":" + h.addr && h.kind != "" && h.addr != "" && ':' !in h.kind
  {
    var s := TrimSpace(raw);
    var i := FirstColon(s);
    if s == h.kind + ":" + h.addr && h.kind != "" && h.addr != "" && ':' !in h.kind {
      var n := |h.kind|;
      assert s[n] == ':';
      ColonStops(s, n);
      assert forall k :: 0 <= k < n ==> s[k] == h.kind[k];
      assert i == n;
      assert s[..i] == h.kind && s[i + 1..] == h.addr;
    }
    if ParseRouteHop(raw) == Some(h) { assert s == s[..i] + ":" + s[i + 1..]; }
  }

  lemma PeerHopRoundTrip(h: Hop)
    requires PeerHop(h)
    ensures TrimSpace(h.kind) != "" && TrimSpace(h.addr) != ""
    ensures Trimmed(EncodedHop(h)) && ParseRouteHop(EncodedHop(h)) == Some(h)
  {
    JoinedIsTrimmed(TrimSpace(h.kind), TrimSpace(h.addr));
    assert Trimmed(h.kind) && ':' !in h.kind;
    HopRoundTripIff(h);
  }

  ghost predicate ParsesTo(es: seq<string>, hops: seq<Hop>) {
    |es| == |hops| && (es != [] ==> Trimmed(es[0]) && ParseRouteHop(es[0]) == Some(hops[0]) && ParsesTo(es[1..], hops[1..]))
  }

  lemma {:induction false} ParsesAt(es: seq<string>, hops: seq<Hop>, i: nat)
    requires ParsesTo(es, hops) && i < |hops|
    ensures Trimmed(es[i]) && ParseRouteHop(es[i]) == Some(hops[i])
  {
    if i > 0 { ParsesAt(es[1..], hops[1..], i - 1); }
  }

  lemma EncodesFirst(hops: seq<Hop>)
    requires hops != [] && TrimSpace(hops[0].kind) != "" && TrimSpace(hops[0].addr) != ""
    ensures EncodedHops(hops) == [EncodedHop(hops[0])] + EncodedHops(hops[1..])
  {}

  /** A chain of peers survives encoding and parsing, hop for hop. */
  lemma {:induction false} PeersRoundTrip(hops: seq<Hop>)
    requires AllPeers(hops)
    ensures ParsesTo(EncodedHops(hops), hops)
  {
    if hops != [] {
      var rest := hops[1..];
      assert AllPeers(rest) by { forall i | 0 <= i < |rest| ensures PeerHop(rest[i]) { assert PeerHop(hops[i + 1]); } }
      PeersRoundTrip(rest);
      assert PeerHop(hops[0]);
      PeerHopRoundTrip(hops[0]);
      EncodesFirst(hops);
      assert EncodedHops(hops)[1..] == EncodedHops(rest);
    }
  }

  function NextRelayHop(hops: seq<string>, hopIndex: int): Option<Hop> {
    if hopIndex < 1 || hopIndex >= |hops| then None else ParseRouteHop(hops[hopIndex])
  }

  /** The entry a relay at position k reads is the k-th planned hop, and the last relay reads none. */
  lemma NextOnRoute(hops: seq<Hop>, k: nat)
    requires AllPeers(hops) && 1 <= k <= |hops|
    ensures NextRelayHop(EncodedHops(hops), k) == if k < |hops| then Some(hops[k]) else None
    ensures |EncodedHops(hops)| == |hops| && (k < |hops| ==> Trimmed(EncodedHops(hops)[k]))
  {
    PeersRoundTrip(hops);
    if k < |hops| { ParsesAt(EncodedHops(hops), hops, k); }
  }
}
