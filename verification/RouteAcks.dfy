/** Acknowledgements along a route: who sends one, who reads one, and what of them reaches the client as data. */
module RouteAcks {
  import opened Bytes
  import opened Collections
  import opened Text
  import opened RouteHops
  import opened RouteRelays
  import opened RouteChains
  import opened RouteExits
  import opened HopAcks

  /** Whether the options ask for acknowledgements; dialling Go programs read one, and Go relays send one, exactly then. */
  predicate Asked(o: Opts) { o.plannerV2 || !IsBlank(o.routeId) }

  /** Java relays always acknowledge. */
  predicate Acknowledges(p: Program, asked: bool) { p == JavaRelay || asked }

  /** Java relays never read the acknowledgement of the next hop. */
  predicate Reads(p: Program, asked: bool) { p == GoRelay && asked }

  /** What is left of a stream once the dialling side is done with it; nothing when the acknowledgement cannot be read or refuses. */
  function Opened(awaits: bool, stream: seq<byte>): Option<seq<byte>> {
    if !awaits then Some(stream)
    else
      match Parse(stream)
      case Err(_) => None
      case Ok((ack, rest)) => if ack.status == 0 then None else Some(rest)
  }

  ghost predicate Granting(a: HopAck) { Encodable(a) && IsI64(a.tsMs) && a.status == 1 }

  ghost predicate AllGranting(acks: seq<HopAck>) { forall i :: 0 <= i < |acks| ==> Granting(acks[i]) }

  function OwnAck(p: Program, asked: bool, a: HopAck): seq<byte>
    requires IsI64(a.tsMs)
  {
    if Acknowledges(p, asked) then Encoded(a) else []
  }

  /** What the first of the relays sends back, the last of them reaching the target. */
  function SentBack(asked: bool, ps: seq<Program>, acks: seq<HopAck>, target: seq<byte>): Option<seq<byte>>
    requires |ps| == |acks| && forall i :: 0 <= i < |acks| ==> IsI64(acks[i].tsMs)
    decreases |ps|
  {
    if ps == [] then Some(target)
    else
      var inner :- SentBack(asked, ps[1..], acks[1..], target);
      var rest :- Opened(Reads(ps[0], asked) && |ps| > 1, inner);
      Some(OwnAck(ps[0], asked, acks[0]) + rest)
  }

  /** What the client reads as the target's octets. */
  function ClientReads(asked: bool, ps: seq<Program>, acks: seq<HopAck>, target: seq<byte>): Option<seq<byte>>
    requires |ps| == |acks| && forall i :: 0 <= i < |acks| ==> IsI64(acks[i].tsMs)
  {
    var stream :- SentBack(asked, ps, acks, target);
    Opened(asked, stream)
  }

  ghost predicate GoFirst(ps: seq<Program>, u: nat) {
    u <= |ps| && forall i :: 0 <= i < |ps| ==> (ps[i] == GoRelay <==> i < u)
  }

  /** The acknowledgements of all relays in a row. */
  function Row(acks: seq<HopAck>): seq<byte>
    requires forall i :: 0 <= i < |acks| ==> IsI64(acks[i].tsMs)
  {
    if acks == [] then [] else Encoded(acks[0]) + Row(acks[1..])
  }

  lemma OpenedAck(a: HopAck, rest: seq<byte>)
    requires Granting(a)
    ensures Opened(true, Encoded(a) + rest) == Some(rest) && Encoded(a) != []
  {
    HopAckRoundTrip(a, rest);
  }

  /** Java relays pass all their acknowledgements back. */
  lemma {:induction false} JavaRowSends(asked: bool, ps: seq<Program>, acks: seq<HopAck>, target: seq<byte>)
    requires |ps| == |acks| && AllGranting(acks) && GoFirst(ps, 0)
    ensures SentBack(asked, ps, acks, target) == Some(Row(acks) + target)
    decreases |ps|
  {
    if ps != [] {
      assert GoFirst(ps[1..], 0) && AllGranting(acks[1..]);
      JavaRowSends(asked, ps[1..], acks[1..], target);
      Assoc(Encoded(acks[0]), Row(acks[1..]), target);
    } else {
      assert [] + target == target;
    }
  }

  /** What the client is left with: the acknowledgements of Java relays, except the first one when it was asked for. */
  function Unread(asked: bool, acks: seq<HopAck>, u: nat): seq<byte>
    requires u <= |acks| && forall i :: 0 <= i < |acks| ==> IsI64(acks[i].tsMs)
  {
    if u == |acks| then [] else if asked then Row(acks[u + 1..]) else Row(acks[u..])
  }

  lemma UnreadShifts(asked: bool, acks: seq<HopAck>, u: nat)
    requires 0 < u <= |acks| && AllGranting(acks)
    ensures AllGranting(acks[1..]) && Unread(asked, acks, u) == Unread(asked, acks[1..], u - 1)
  {
    if u < |acks| { assert acks[u + 1..] == acks[1..][u..] && acks[u..] == acks[1..][u - 1..]; }
  }

  /** One relay more in front of a row. */
  lemma SentStep(asked: bool, ps: seq<Program>, acks: seq<HopAck>, target: seq<byte>, inner: seq<byte>, rest: seq<byte>)
    requires |ps| == |acks| > 0 && AllGranting(acks) && AllGranting(acks[1..])
    requires SentBack(asked, ps[1..], acks[1..], target) == Some(inner)
    requires Opened(Reads(ps[0], asked) && |ps| > 1, inner) == Some(rest)
    ensures SentBack(asked, ps, acks, target) == Some(OwnAck(ps[0], asked, acks[0]) + rest)
  {}

  /** When acknowledgements are asked for, the first relay's comes first, and what it read of the others is gone. */
  lemma {:induction false} AskedSends(ps: seq<Program>, acks: seq<HopAck>, u: nat, target: seq<byte>)
    requires |ps| == |acks| > 0 && AllGranting(acks) && GoFirst(ps, u)
    ensures SentBack(true, ps, acks, target) == Some(Encoded(acks[0]) + (Unread(true, acks, u) + target))
    decreases |ps|
  {
    if u == 0 {
      JavaRowSends(true, ps, acks, target);
      assert acks[1..] == acks[0 + 1..];
      Assoc(Encoded(acks[0]), Row(acks[1..]), target);
    } else {
      UnreadShifts(true, acks, u);
      var rest := Unread(true, acks, u) + target;
      if |ps| == 1 {
        assert SentBack(true, ps[1..], acks[1..], target) == Some(target);
        assert rest == target;
        SentStep(true, ps, acks, target, target, rest);
      } else {
        assert GoFirst(ps[1..], u - 1);
        AskedSends(ps[1..], acks[1..], u - 1, target);
        OpenedAck(acks[1..][0], rest);
        SentStep(true, ps, acks, target, Encoded(acks[1..][0]) + rest, rest);
      }
    }
  }

  lemma {:induction false} UnaskedSends(ps: seq<Program>, acks: seq<HopAck>, u: nat, target: seq<byte>)
    requires |ps| == |acks| && AllGranting(acks) && GoFirst(ps, u)
    ensures SentBack(false, ps, acks, target) == Some(Unread(false, acks, u) + target)
    decreases |ps|
  {
    if u == 0 {
      JavaRowSends(false, ps, acks, target);
      assert acks[0..] == acks;
      if acks == [] { assert Row(acks) == []; }
    } else {
      UnreadShifts(false, acks, u);
      assert GoFirst(ps[1..], u - 1);
      UnaskedSends(ps[1..], acks[1..], u - 1, target);
      assert [] + (Unread(false, acks, u) + target) == Unread(false, acks, u) + target;
    }
  }

  /** The client reads the unread acknowledgements, then what the target sends. */
  lemma ClientReadsUnread(asked: bool, ps: seq<Program>, acks: seq<HopAck>, u: nat, target: seq<byte>)
    requires |ps| == |acks| > 0 && AllGranting(acks) && GoFirst(ps, u)
    ensures ClientReads(asked, ps, acks, target) == Some(Unread(asked, acks, u) + target)
  {
    if asked {
      AskedSends(ps, acks, u, target);
      OpenedAck(acks[0], Unread(true, acks, u) + target);
    } else {
      UnaskedSends(ps, acks, u, target);
    }
  }

  lemma NothingUnreadIff(asked: bool, acks: seq<HopAck>, u: nat)
    requires u <= |acks| && AllGranting(acks)
    ensures Unread(asked, acks, u) == [] <==> |acks| <= u + 1 && (|acks| == u + 1 ==> asked)
  {
    if u < |acks| {
      var row := if asked then acks[u + 1..] else acks[u..];
      if row != [] {
        assert row[0] == if asked then acks[u + 1] else acks[u];
        OpenedAck(row[0], []);
      }
    }
  }

  function ProgramsOf(hops: seq<Hop>): seq<Program> { seq(|hops|, i requires 0 <= i < |hops| => ProgramOf(hops[i])) }

  lemma PassedHopsGoFirst(ok: nat -> bool, c: Course)
    requires StartsAs(c.plan, c.path) && Passable(ok, c.path)
    ensures GoFirst(ProgramsOf(c.path.hops), c.path.udp)
  {
    var p := c.path;
    forall i | 0 <= i < |p.hops| ensures ProgramOf(p.hops[i]) == GoRelay <==> i < p.udp {
      assert HopOk(ok, p, i);
      UdpIsNotTcp();
    }
  }

  /**
   * Over a route that reaches the target, the client reads exactly what the target sends if and only if at most one of
   * the relays visited is a Java relay and, if there is one, acknowledgements were asked for.
   */
  lemma CleanStreamIff(s: Signer, env: Env, base: Opts, hops: seq<Hop>, relayPeerId: string, draw: string, acks: seq<HopAck>, target: seq<byte>)
    requires Sound(s) && Unstarted(base) && draw != "" && hops != [] && AllPeers(hops) && AllGranting(acks)
    ensures Advancing(StepOf(s, env))
    ensures var run := Chain(StepOf(s, env), ClientMsg(s, base, hops, relayPeerId, env.token, draw), hops[0]);
      var asked := Asked(ClientOpts(s, base, hops, relayPeerId, env.token, draw));
      run.ending == Exited && |acks| == |run.visited| ==>
        var u := LeadingUdp(hops);
        ClientReads(asked, ProgramsOf(run.visited), acks, target) == Some(target) <==>
          |run.visited| <= u + 1 && (|run.visited| == u + 1 ==> asked)
  {
    PeerRouteRuns(s, env, base, hops, relayPeerId, draw);
    PathIsCharted(hops, ListSeen(hops));
    var t, c := TermsOf(s, base, hops, relayPeerId, env.token, draw), CourseOf(hops);
    var run := Chain(StepOf(s, env), ClientMsg(s, base, hops, relayPeerId, env.token, draw), hops[0]);
    if run.ending == Exited && |acks| == |run.visited| {
      ExitVisitsAll(Accepts(env, t, c.path), c.path, run);
      PassedHopsGoFirst(Accepts(env, t, c.path), c);
      PathStarts(c);
      StreamIs(Asked(t.first), ProgramsOf(run.visited), acks, c.path.udp, target);
    }
  }

  lemma ExitVisitsAll(ok: nat -> bool, p: Path, run: Trace)
    requires run == StoppedAt(p, 0, FirstBad(ok, p, 0)) && run.ending == Exited
    ensures run.visited == p.hops && Passable(ok, p)
  {
    StopsWhereBad(ok, p);
    assert p.hops[0..] == p.hops;
  }

  lemma StreamIs(asked: bool, ps: seq<Program>, acks: seq<HopAck>, u: nat, target: seq<byte>)
    requires |ps| == |acks| > 0 && AllGranting(acks) && GoFirst(ps, u)
    ensures ClientReads(asked, ps, acks, target) == Some(target) <==> |ps| <= u + 1 && (|ps| == u + 1 ==> asked)
  {
    ClientReadsUnread(asked, ps, acks, u, target);
    NothingUnreadIff(asked, acks, u);
    var un := Unread(asked, acks, u);
    if un == [] { assert un + target == target; } else { assert |un + target| > |target|; }
  }

  /** A client asks for acknowledgements when it is told to, has a route name, or plans more than one hop. */
  lemma AskedIff(s: Signer, base: Opts, hops: seq<Hop>, relayPeerId: string, token: string, draw: string)
    requires AllPeers(hops)
    ensures Asked(ClientOpts(s, base, hops, relayPeerId, token, draw)) <==> base.plannerV2 || !IsBlank(base.routeId) || |hops| > 1
  {
    PeersRoundTrip(hops);
  }
}
