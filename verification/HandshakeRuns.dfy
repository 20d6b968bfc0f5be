/** Runs of handshakes on one server: which hellos are let in when the cache is kept from one to the next. */
module HandshakeRuns {
  import opened Bytes
  import opened Collections
  import opened Handshake
  import opened HelloCodec
  import opened ReplayCache

  /** A server: its primitives and its key pair. */
  datatype Server = Server(cr: Crypto, scalar: seq<byte>, pub: seq<byte>)

  /** One handshake: the slots tried, the capabilities offered, the draws and clock readings made, and what arrives. */
  datatype Call = Call(slots: seq<int>, caps: seq<byte>, draws: ServerDraws, input: seq<byte>)

  ghost predicate Offers(sv: Server, c: Call) {
    forall s :: s in c.slots ==> IsI64(s) && |MaskStream(sv.cr, sv.pub, s)| == KEY_LEN
  }

  type Calls = seq<Call>

  ghost predicate AllOffer(sv: Server, cs: Calls) { forall c :: c in cs ==> Offers(sv, c) }

  /** The hello a call carries, if it can be opened. */
  ghost function Carried(sv: Server, c: Call): Option<ClientHello>
    requires Offers(sv, c)
  {
    var o := OpenHello(sv.cr, sv.scalar, sv.pub, c.slots, c.input);
    if o.Ok? then Some(o.value.0.hello) else None
  }

  ghost function Response(sv: Server, seen: Option<Seen>, c: Call): Outcome<Answer>
    requires Offers(sv, c)
  {
    ServerRespond(sv.cr, sv.scalar, sv.pub, c.slots, c.caps, seen, c.draws, c.input)
  }

  /** What is in the cache after a run; a server without one keeps nothing. */
  ghost function SeenAfter(sv: Server, start: Option<Seen>, cs: Calls): Option<Seen>
    requires AllOffer(sv, cs)
  {
    if cs == [] then start
    else
      var n, c := |cs| - 1, cs[|cs| - 1];
      assert c in cs;
      ServerSeen(sv.cr, sv.scalar, sv.pub, c.slots, SeenAfter(sv, start, cs[..n]), c.draws, c.input)
  }

  /** The response to the i-th call of a run that starts with the given cache. */
  ghost function ResponseAt(sv: Server, start: Option<Seen>, cs: Calls, i: nat): Outcome<Answer>
    requires AllOffer(sv, cs) && i < |cs|
  {
    Response(sv, SeenAfter(sv, start, cs[..i]), cs[i])
  }

  /** The i-th call carries a hello, and the server does not refuse it as a replay. */
  ghost predicate LetIn(sv: Server, start: Option<Seen>, cs: Calls, i: nat)
    requires AllOffer(sv, cs) && i < |cs|
  {
    Carried(sv, cs[i]).Some? && ResponseAt(sv, start, cs, i) != Err(Replayed)
  }

  predicate InWindow(h: ClientHello, d: ServerDraws) { -90 <= h.ts - d.check <= 90 }

  /** An earlier call was let in with the same nonce, at most 180 seconds before. */
  ghost predicate LetInBefore(sv: Server, start: Option<Seen>, cs: Calls, j: nat, nonce: seq<byte>)
    requires AllOffer(sv, cs) && j < |cs|
  {
    exists i: nat :: i < j && LetIn(sv, start, cs, i) && Carried(sv, cs[i]).value.nonce == nonce &&
      cs[j].draws.add - cs[i].draws.add <= 180
  }

  ghost predicate ClocksInOrder(cs: Calls) {
    forall i, j :: 0 <= i <= j < |cs| ==> cs[i].draws.add <= cs[j].draws.add
  }

  /** The call as the cache sees it; one without a hello is like a stale one. */
  ghost function Judgeable(h: Option<ClientHello>, d: ServerDraws): Hello {
    if h.Some? then Hello(h.value.nonce, h.value.ts, d.check, d.add) else Hello([], d.check + REPLAY_WINDOW + 1, d.check, d.add)
  }

  ghost function Hellos(sv: Server, cs: Calls): (hs: seq<Hello>)
    requires AllOffer(sv, cs)
    ensures |hs| == |cs| && forall i :: 0 <= i < |cs| ==> hs[i] == Judgeable(Carried(sv, cs[i]), cs[i].draws)
  {
    if cs == [] then []
    else
      var n := |cs| - 1;
      Hellos(sv, cs[..n]) + [Judgeable(Carried(sv, cs[n]), cs[n].draws)]
  }

  lemma SeenStep(sv: Server, c: Call, seen: Seen)
    requires Offers(sv, c)
    ensures ServerSeen(sv.cr, sv.scalar, sv.pub, c.slots, Some(seen), c.draws, c.input) ==
      Some(Judged(seen, Judgeable(Carried(sv, c), c.draws)).0)
  {}

  lemma RefusedIff(sv: Server, c: Call, seen: Option<Seen>)
    requires Offers(sv, c)
    ensures Carried(sv, c).Some? && Response(sv, seen, c) != Err(Replayed) <==> Admits(seen, Judgeable(Carried(sv, c), c.draws))
  {}

  lemma {:induction false} SeenIsCache(sv: Server, cs: Calls)
    requires AllOffer(sv, cs)
    ensures SeenAfter(sv, Some(map[]), cs) == Some(CacheAfter(Hellos(sv, cs)))
    decreases |cs|
  {
    if cs != [] {
      var n := |cs| - 1;
      SeenIsCache(sv, cs[..n]);
      var hs := Hellos(sv, cs);
      assert hs[..n] == Hellos(sv, cs[..n]);
      SeenStep(sv, cs[n], CacheAfter(hs[..n]));
    }
  }

  lemma {:induction false} HellosFront(sv: Server, cs: Calls, i: nat)
    requires AllOffer(sv, cs) && i <= |cs|
    ensures Hellos(sv, cs)[..i] == Hellos(sv, cs[..i])
  {
    assert forall k :: 0 <= k < i ==> Hellos(sv, cs)[..i][k] == Hellos(sv, cs[..i])[k];
  }

  /** A call is let in exactly when the cache accepts it. */
  lemma LetInIsAccepted(sv: Server, cs: Calls, i: nat)
    requires AllOffer(sv, cs) && i < |cs|
    ensures LetIn(sv, Some(map[]), cs, i) <==> Accepted(Hellos(sv, cs), i)
  {
    SeenIsCache(sv, cs[..i]);
    HellosFront(sv, cs, i);
    RefusedIff(sv, cs[i], SeenAfter(sv, Some(map[]), cs[..i]));
  }

  /**
   * Over any run of handshakes that keeps its cache, whatever arrives in between: a hello is let in if and only if its
   * timestamp is within 90 seconds of the server's clock and its nonce was not let in within the last 180 seconds.
   */
  lemma LetInIff(sv: Server, cs: Calls, j: nat)
    requires AllOffer(sv, cs) && j < |cs| && ClocksInOrder(cs) && Carried(sv, cs[j]).Some?
    ensures var h := Carried(sv, cs[j]).value;
      LetIn(sv, Some(map[]), cs, j) <==> InWindow(h, cs[j].draws) && !LetInBefore(sv, Some(map[]), cs, j, h.nonce)
  {
    var hs, h := Hellos(sv, cs), Carried(sv, cs[j]).value;
    LetInIsAccepted(sv, cs, j);
    AcceptedIff(hs, j);
    SinceIsBefore(sv, cs, j, h.nonce);
  }

  lemma AcceptedAt(sv: Server, cs: Calls, j: nat, i: nat)
    requires AllOffer(sv, cs) && i < j <= |cs|
    ensures var h := Hellos(sv, cs)[..j][i];
      && (Accepted(Hellos(sv, cs)[..j], i) <==> LetIn(sv, Some(map[]), cs, i)) && h.add == cs[i].draws.add
      && (LetIn(sv, Some(map[]), cs, i) ==> h.nonce == Carried(sv, cs[i]).value.nonce)
  {
    AcceptedPrefix(Hellos(sv, cs), j, i);
    LetInIsAccepted(sv, cs, i);
  }

  lemma SinceIsBefore(sv: Server, cs: Calls, j: nat, nonce: seq<byte>)
    requires AllOffer(sv, cs) && j < |cs|
    ensures AcceptedSince(Hellos(sv, cs)[..j], nonce, cs[j].draws.add - RETENTION) <==> LetInBefore(sv, Some(map[]), cs, j, nonce)
  {
    var hs := Hellos(sv, cs)[..j];
    if AcceptedSince(hs, nonce, cs[j].draws.add - RETENTION) {
      var i: nat :| i < j && Accepted(hs, i) && hs[i].nonce == nonce && hs[i].add >= cs[j].draws.add - RETENTION;
      AcceptedAt(sv, cs, j, i);
    }
    if LetInBefore(sv, Some(map[]), cs, j, nonce) {
      var i: nat :| i < j && LetIn(sv, Some(map[]), cs, i) && Carried(sv, cs[i]).value.nonce == nonce &&
        cs[i].draws.add >= cs[j].draws.add - RETENTION;
      AcceptedAt(sv, cs, j, i);
    }
  }

  /** Without a cache the window alone decides, so within it every replay is let in. */
  lemma WithoutCache(sv: Server, cs: Calls, j: nat)
    requires AllOffer(sv, cs) && j < |cs| && Carried(sv, cs[j]).Some?
    ensures LetIn(sv, None, cs, j) <==> InWindow(Carried(sv, cs[j]).value, cs[j].draws)
  {
    NothingKept(sv, cs[..j]);
    RefusedIff(sv, cs[j], None);
  }

  lemma {:induction false} NothingKept(sv: Server, cs: Calls)
    requires AllOffer(sv, cs)
    ensures SeenAfter(sv, None, cs) == None
    decreases |cs|
  {
    if cs != [] { NothingKept(sv, cs[..|cs| - 1]); }
  }

  /** A hello made by a client of this server for a slot that the call offers, its points not being refused. */
  ghost predicate Genuine(sv: Server, c: Call, slot: int, p: Payload, d: ClientDraws, rest: seq<byte>) {
    && Sound(sv.cr) && sv.cr.pub(sv.scalar) == Some(sv.pub) && IsI64(slot) && IsI64(d.now) && |d.nonce| == NONCE_LEN
    && slot in c.slots && Offers(sv, c)
    && var start := ClientStart(sv.cr, sv.pub, slot, p, d);
    && start.Ok? && c.input == start.value.0 + rest
    && MacTellsSlotsApart(sv.cr, sv.pub, c.slots, Mask(sv.cr, sv.cr.pub(d.scalar).value, sv.pub, slot), slot)
    && sv.cr.pub(c.draws.scalar).Some? && sv.cr.dh(c.draws.scalar, sv.cr.pub(d.scalar).value).Some?
  }

  ghost predicate AnsweredOrRefused(r: Outcome<Answer>, p: Payload, rest: seq<byte>) {
    if r.Ok? then r.value.payload == p && r.value.rest == rest else r == Err(Replayed)
  }

  lemma GenuineIsAnswered(sv: Server, c: Call, seen: Option<Seen>, slot: int, p: Payload, d: ClientDraws, rest: seq<byte>)
    requires Genuine(sv, c, slot, p, d, rest)
    ensures Carried(sv, c) == Some(ClientHello(p, d.nonce, d.now))
    ensures AnsweredOrRefused(Response(sv, seen, c), p, rest)
  {
    ServerAccepts(sv.cr, sv.scalar, sv.pub, c.slots, slot, p, d, c.caps, seen, c.draws, rest);
    GenuineOpens(sv.cr, sv.scalar, sv.pub, c.slots, slot, p, d, rest);
  }

  /**
   * A genuine hello is answered, with the client's role, token and options in the server's hands, if and only if its
   * timestamp is within 90 seconds and its nonce was not let in within the last 180.
   */
  lemma GenuineAnsweredIff(sv: Server, cs: Calls, j: nat, slot: int, p: Payload, d: ClientDraws, rest: seq<byte>)
    requires AllOffer(sv, cs) && j < |cs| && ClocksInOrder(cs) && Genuine(sv, cs[j], slot, p, d, rest)
    ensures var r := ResponseAt(sv, Some(map[]), cs, j);
      && (r.Ok? <==> InWindow(ClientHello(p, d.nonce, d.now), cs[j].draws) && !LetInBefore(sv, Some(map[]), cs, j, d.nonce))
      && AnsweredOrRefused(r, p, rest)
  {
    var seen := SeenAfter(sv, Some(map[]), cs[..j]);
    GenuineIsAnswered(sv, cs[j], seen, slot, p, d, rest);
    AnsweredWhenLetIn(sv, cs, j, ClientHello(p, d.nonce, d.now), rest, Response(sv, seen, cs[j]));
  }

  lemma AnsweredWhenLetIn(sv: Server, cs: Calls, j: nat, h: ClientHello, rest: seq<byte>, r: Outcome<Answer>)
    requires AllOffer(sv, cs) && j < |cs| && ClocksInOrder(cs) && Carried(sv, cs[j]) == Some(h)
    requires r == ResponseAt(sv, Some(map[]), cs, j) && AnsweredOrRefused(r, h.payload, rest)
    ensures r.Ok? <==> InWindow(h, cs[j].draws) && !LetInBefore(sv, Some(map[]), cs, j, h.nonce)
  {
    LetInIff(sv, cs, j);
  }

  /** No nonce with its timestamp is let in twice, if the second handshake reads the same second for both checks. */
  lemma NeverTwice(sv: Server, cs: Calls, i: nat, j: nat)
    requires AllOffer(sv, cs) && i < j < |cs| && ClocksInOrder(cs) && Carried(sv, cs[i]).Some? && Carried(sv, cs[j]).Some?
    requires cs[i].draws.check <= cs[i].draws.add && cs[j].draws.check == cs[j].draws.add
    requires var a, b := Carried(sv, cs[i]).value, Carried(sv, cs[j]).value; a.nonce == b.nonce && a.ts == b.ts
    ensures LetIn(sv, Some(map[]), cs, i) ==> ResponseAt(sv, Some(map[]), cs, j) == Err(Replayed)
  {
    var hs := Hellos(sv, cs);
    LetInIsAccepted(sv, cs, i);
    LetInIsAccepted(sv, cs, j);
    if LetIn(sv, Some(map[]), cs, i) { NoReplay(hs, i, j); }
  }
}
