/** The two programs that serve the hops of a route, and the options they hand on. */
module RouteRelays {
  import opened Bytes
  import opened Collections
  import opened Text
  import opened RouteHops
  import opened OptionScan

  const DEFAULT_MAX_HOPS := 2
  const GO_HOP_LIMIT := 2
  const JAVA_HOP_LIMIT := 4

  datatype Opts = Opts(relayHop: int, hopIndex: int, relayMaxHop: int, hops: seq<string>,
                       peerId: string, nonce: string, sig: string, cluster: string, plannerV2: bool, routeId: string)

  /**
   * HMAC over peer id and nonce under the token, as written by `sign`, and the peer id derived from a token. The Go
   * relay decodes signatures in four alphabets, the Java relay in one, hence two checks.
   */
  datatype Signer = Signer(
    sign: (string, string, string) -> string,
    check: (string, string, string, string) -> bool,
    checkUrl: (string, string, string, string) -> bool,
    derive: string -> string)

  ghost predicate Sound(s: Signer) {
    && (forall t, p, n {:trigger s.sign(t, p, n)} :: s.sign(t, p, n) != "" && s.check(t, p, n, s.sign(t, p, n)))
    && (forall t {:trigger s.derive(t)} :: !IsBlank(s.derive(t)))
  }

  /** The assumption can be met. */
  lemma SomeSignerIsSound()
    ensures exists s :: Sound(s)
  {
    var s := Signer((t: string, p: string, n: string) => "sig", (t: string, p: string, n: string, g: string) => g == "sig",
      (t: string, p: string, n: string, g: string) => g == "sig", (t: string) => "peer");
    assert !IsSpace("peer"[0]);
    assert Sound(s);
  }

  /** Fills in what a relay asks for; `draw` is the random nonce used when there is none. */
  function RelayOptsForHandshake(s: Signer, o: Opts, token: string, draw: string): Opts {
    if !IsBlank(o.cluster) then o.(peerId := "", nonce := "", sig := "")
    else if !(o.relayHop > 0 || o.relayMaxHop > 0 || !IsBlank(o.peerId)) then o
    else
      var nonce := if o.nonce == "" then draw else o.nonce;
      var peerId := if o.peerId == "" then s.derive(token) else o.peerId;
      o.(relayHop := if o.relayHop <= 0 then 1 else o.relayHop,
         relayMaxHop := if o.relayMaxHop <= 0 then 2 else o.relayMaxHop,
         nonce := nonce, peerId := peerId,
         sig := if o.sig == "" then s.sign(token, peerId, nonce) else o.sig)
  }

  /** Completing options a second time changes nothing. */
  lemma HandshakeOptsAreStable(s: Signer, o: Opts, token: string, draw: string, draw': string)
    requires Sound(s) && draw != ""
    ensures var once := RelayOptsForHandshake(s, o, token, draw); RelayOptsForHandshake(s, once, token, draw') == once
  {
    assert IsBlank("");
    if o.peerId == "" { assert !IsBlank(s.derive(token)); }
  }

  /** Whether a sender announces a relay session; otherwise it asks for a plain TCP session. */
  predicate AsksForRelay(o: Opts) { (o.relayHop > 0 || o.relayMaxHop > 0) && IsBlank(o.cluster) && !IsBlank(o.peerId) }

  /** UDP hops are served by the Go relay, TCP and QUIC hops by the Java server. */
  datatype Program = GoRelay | JavaRelay

  /** A session as it reaches a relay: the options are what the sender wrote, in the sender's way of writing. */
  datatype Msg = Msg(program: Program, asks: bool, o: Opts, writer: Writer)

  /** What a relay does with a session: refuse, reach the target itself, hand it to the next hop, or give up on that hop. */
  datatype Verdict = Refuse | Deliver | Relay(hop: Hop, msg: Msg) | ToServer(hop: Hop) | BadKind(hop: Hop) | BadHop

  predicate IsUdp(h: Hop) { h.kind == "peer_udp" }

  predicate IsTcp(h: Hop) { EqualFold(h.kind, "peer_tcp") }

  function ProgramOf(h: Hop): Program { if IsUdp(h) then GoRelay else JavaRelay }

  function LowerChar(c: char): char {
    if 'A' <= c <= 'Z' then (c as int + 32) as char
    else if c == '\U{212A}' then 'k'
    else if c == '\U{130}' then 'i'
    else c
  }

  /** Equal up to the case of letters, as equalsIgnoreCase has it for the ASCII names of hop kinds. */
  predicate EqualFold(a: string, b: string) {
    |a| == |b| && (a == "" || (LowerChar(a[0]) == LowerChar(b[0]) && EqualFold(a[1..], b[1..])))
  }

  lemma {:induction false} EqualFolds(a: string)
    ensures EqualFold(a, a)
  {
    if a != "" { EqualFolds(a[1..]); }
  }

  function Lower(s: string): string { seq(|s|, i requires 0 <= i < |s| => LowerChar(s[i])) }

  // ---- The Go relay -------------------------------------------------------------------------

  function GoCap(relayMaxHop: int): nat {
    if relayMaxHop <= 0 || relayMaxHop > GO_HOP_LIMIT then GO_HOP_LIMIT else relayMaxHop
  }

  predicate GoKnows(s: Signer, token: string, o: Opts) {
    o.peerId != "" && o.nonce != "" && o.sig != "" && s.check(token, o.peerId, o.nonce, o.sig)
  }

  predicate AllowPeerRelayOptions(s: Signer, o: Opts, token: string) {
    o.relayHop > 0 && o.relayHop <= GoCap(o.relayMaxHop) && GoKnows(s, token, o)
  }

  predicate RelayHopLimitExceeded(o: Opts) {
    o.relayHop > (if o.relayMaxHop <= 0 then DEFAULT_MAX_HOPS else o.relayMaxHop)
  }

  /** The second hop check of the Go relay never fires behind the first. */
  lemma SecondLimitIsIdle(s: Signer, o: Opts, token: string)
    requires AllowPeerRelayOptions(s, o, token)
    ensures !RelayHopLimitExceeded(o)
  {}

  function ProtForRelayForward(s: Signer, o: Opts, token: string, draw: string): Opts {
    var hop := if o.relayHop <= 0 then 1 else o.relayHop;
    RelayOptsForHandshake(s, o.(relayHop := hop + 1, hopIndex := o.hopIndex + 1,
      relayMaxHop := if o.relayMaxHop <= 0 then DEFAULT_MAX_HOPS else o.relayMaxHop), token, draw)
  }

  function DialRelayHop(h: Hop, o: Opts): Verdict {
    var kind := Lower(TrimSpace(h.kind));
    if kind == "peer_udp" then Relay(h, Msg(GoRelay, AsksForRelay(o), o, GoJson))
    else if kind == "peer_quic" || kind == "peer_tcp" then Relay(h, Msg(JavaRelay, AsksForRelay(o), o, GoJson))
    else if IsServerKind(kind) then ToServer(h)
    else BadKind(h)
  }

  /** `fits` tells that the options were within the size a handshake carries; beyond it they are dropped and the relay sees none. */
  function GoStep(s: Signer, asks: bool, o: Opts, token: string, isFresh: bool, fits: bool, draw: string): Verdict {
    if !fits || !asks || !AllowPeerRelayOptions(s, o, token) || !isFresh || RelayHopLimitExceeded(o) then Refuse
    else
      match NextRelayHop(o.hops, o.hopIndex)
      case None => Deliver
      case Some(h) => DialRelayHop(h, ProtForRelayForward(s, o, token, draw))
  }

  /**
   * The Go relay refuses exactly what did not arrive whole, asks for no relaying, counts no hop or more than two or its
   * limit, is not signed, or repeats a nonce.
   */
  lemma GoRefusesIff(s: Signer, asks: bool, o: Opts, token: string, isFresh: bool, fits: bool, draw: string)
    ensures GoStep(s, asks, o, token, isFresh, fits, draw) == Refuse <==>
      || !fits || !asks || !isFresh
      || o.relayHop < 1 || o.relayHop > 2 || (o.relayMaxHop > 0 && o.relayHop > o.relayMaxHop)
      || o.peerId == "" || o.nonce == "" || o.sig == "" || !s.check(token, o.peerId, o.nonce, o.sig)
  {}

  /**
   * The Go relay forwards: the hop list, limit, identity and signature are handed on unchanged, both counters grow by
   * one, and the signature stays as valid as it was.
   */
  lemma ForwardAdvances(s: Signer, o: Opts, token: string, draw: string)
    requires AllowPeerRelayOptions(s, o, token) && AsksForRelay(o)
    ensures var o' := ProtForRelayForward(s, o, token, draw);
      && o' == o.(relayHop := o.relayHop + 1, hopIndex := o.hopIndex + 1, relayMaxHop := o'.relayMaxHop)
      && (o.relayMaxHop >= 1 ==> o'.relayMaxHop == o.relayMaxHop) && o'.relayMaxHop >= 1
      && AsksForRelay(o') && GoKnows(s, token, o')
  {}

  // ---- The Java relay -----------------------------------------------------------------------

  function JavaCap(relayMaxHop: int): nat {
    if relayMaxHop <= 0 || relayMaxHop > JAVA_HOP_LIMIT then JAVA_HOP_LIMIT else relayMaxHop
  }

  function Clamp(v: int, lo: int, hi: int): int { if v < lo then lo else if v > hi then hi else v }

  /** The options as the server's scan yields them: numbers brought into range, a missing limit taken as 2, texts and hops as far as they survive. */
  function JavaSees(o: Opts, w: Writer): Opts {
    o.(relayHop := Clamp(o.relayHop, 0, 8), relayMaxHop := if o.relayMaxHop == 0 then 2 else Clamp(o.relayMaxHop, 1, 8),
       hopIndex := Clamp(o.hopIndex, 0, 16), hops := Survivors(w, o.hops),
       peerId := FieldSeen(w, o.peerId), nonce := FieldSeen(w, o.nonce), sig := FieldSeen(w, o.sig))
  }

  predicate GuardAllows(s: Signer, token: string, peerId: string, nonce: string, sig: string) {
    && !JavaBlank(peerId) && JavaLength(peerId) <= 128
    && !JavaBlank(nonce) && JavaLength(nonce) <= 128
    && !JavaBlank(sig) && JavaLength(sig) <= 256
    && !JavaBlank(token) && s.checkUrl(token, peerId, nonce, sig)
  }

  function JavaParseHop(raw: string): Option<Hop> {
    var i := FirstColon(raw);
    if i == |raw| || i == 0 || i >= |raw| - 1 then None else Some(Hop(raw[..i], raw[i + 1..]))
  }

  /** The fields the Java relay writes for the next one. */
  function JavaForward(o: Opts): Opts {
    o.(relayHop := o.relayHop + 1, hopIndex := o.hopIndex + 1, cluster := "", plannerV2 := false)
  }

  /** The message a Java relay sends on. */
  function JavaSends(o: Opts): Msg { Msg(JavaRelay, true, JavaForward(o), JavaJson) }

  /**
   * A Java relay's step on the options as it sees them. `admits` stands for the server's policy, capacity and budget. A
   * plain TCP session goes straight to the target.
   */
  function JavaStep(s: Signer, asks: bool, o: Opts, token: string, admits: bool): Verdict {
    if !asks then Deliver
    else if !admits || o.relayHop > JavaCap(o.relayMaxHop) || !GuardAllows(s, token, o.peerId, o.nonce, o.sig) then Refuse
    else
      var idx := if o.hopIndex < 1 then 1 else o.hopIndex;
      if idx >= |o.hops| then Deliver
      else
        match JavaParseHop(o.hops[idx])
        case None => BadHop
        case Some(h) => if IsTcp(h) then Relay(h, JavaSends(o)) else BadKind(h)
  }

  /**
   * The Java relay refuses, of what asks for relaying, exactly what it has no room for, counts more than four hops or its
   * limit, or is not signed for its token with texts of bearable length.
   */
  lemma JavaRefusesIff(s: Signer, asks: bool, o: Opts, token: string, admits: bool)
    ensures JavaStep(s, asks, o, token, admits) == Refuse <==>
      asks &&
      (|| !admits || o.relayHop > 4 || (o.relayMaxHop > 0 && o.relayHop > o.relayMaxHop)
       || JavaBlank(o.peerId) || JavaBlank(o.nonce) || JavaBlank(o.sig) || JavaBlank(token)
       || JavaLength(o.peerId) > 128 || JavaLength(o.nonce) > 128 || JavaLength(o.sig) > 256
       || !s.checkUrl(token, o.peerId, o.nonce, o.sig))
  {}

  /** What a Java relay sees of what one that saw `o` sent on. */
  function SeenNext(o: Opts): Opts {
    o.(relayHop := Clamp(o.relayHop + 1, 0, 8), hopIndex := Clamp(o.hopIndex + 1, 0, 16), hops := AgainAll(o.hops, 1),
       peerId := Again(o.peerId, 1), nonce := Again(o.nonce, 1), sig := Again(o.sig, 1), cluster := "", plannerV2 := false)
  }

  /** What one Java relay hands on, the next sees with counters advanced, every backslash doubled and nothing else changed. */
  lemma JavaSeesNext(o: Opts, w: Writer)
    ensures JavaSees(JavaForward(JavaSees(o, w)), JavaJson) == SeenNext(JavaSees(o, w))
  {
    SeenIsSettled(o, w, JavaSees(o, w));
    SeesForwarded(JavaSees(o, w));
  }

  /** What a Java relay writes of these options the next one reads with its backslashes doubled. */
  ghost predicate Settled(a: Opts) {
    && Survivors(JavaJson, a.hops) == AgainAll(a.hops, 1) && FieldSeen(JavaJson, a.peerId) == Again(a.peerId, 1)
    && FieldSeen(JavaJson, a.nonce) == Again(a.nonce, 1) && FieldSeen(JavaJson, a.sig) == Again(a.sig, 1)
  }

  lemma SeenIsSettled(o: Opts, w: Writer, a: Opts)
    requires a.hops == Survivors(w, o.hops)
    requires a.peerId == FieldSeen(w, o.peerId) && a.nonce == FieldSeen(w, o.nonce) && a.sig == FieldSeen(w, o.sig)
    ensures Settled(a)
  {
    SurvivorsAreTidy(w, o.hops);
    SurvivesAgain(a.hops);
    FieldTwice(w, o.peerId);
    FieldTwice(w, o.nonce);
    FieldTwice(w, o.sig);
  }

  lemma SeesForwarded(a: Opts)
    requires Settled(a) && 1 <= a.relayMaxHop <= 8
    ensures JavaSees(JavaForward(a), JavaJson) == SeenNext(a)
  {}

  lemma FieldTwice(w: Writer, x: string)
    ensures FieldSeen(JavaJson, FieldSeen(w, x)) == Again(FieldSeen(w, x), 1)
  {
    FieldIsSettled(w, x);
    FieldSeenAgain(FieldSeen(w, x));
    assert Again(FieldSeen(w, x), 0) == FieldSeen(w, x);
  }

  /** What the n-th further relay sees, `more` being what one makes of what another sent. */
  function After<T>(more: T -> T, o: T, n: nat): T { if n == 0 then o else more(After(more, o, n - 1)) }

  lemma AgainMore(xs: seq<string>, n: nat)
    ensures AgainAll(AgainAll(xs, n), 1) == AgainAll(xs, n + 1) && AgainAll(xs, 0) == xs
  {
    forall i | 0 <= i < |xs| ensures AgainAll(AgainAll(xs, n), 1)[i] == AgainAll(xs, n + 1)[i] { AgainOnce(xs[i], n); }
  }

  lemma AgainOnce(x: string, n: nat)
    ensures Again(Again(x, n), 1) == Again(x, n + 1)
  {
    assert Again(Again(x, n), 0) == Again(x, n);
  }

  /** Counters are n further on, the limit is the same, texts have their backslashes doubled n times. */
  ghost predicate Aged(a: Opts, o: Opts, n: nat) {
    && a.relayHop == a.hopIndex == o.relayHop + n && a.relayMaxHop == o.relayMaxHop && a.hops == AgainAll(o.hops, n)
    && a.peerId == Again(o.peerId, n) && a.nonce == Again(o.nonce, n) && a.sig == Again(o.sig, n)
  }

  /** What the n-th further relay sees, in closed form. */
  lemma {:induction false} SeenAfterIs(o: Opts, n: nat)
    requires 0 <= o.relayHop == o.hopIndex && o.relayHop + n <= 8
    ensures Aged(After(SeenNext, o, n), o, n)
  {
    if n == 0 {
      AgainMore(o.hops, 0);
    } else {
      SeenAfterIs(o, n - 1);
      SeenNextIs(After(SeenNext, o, n - 1), o, n - 1);
    }
  }

  lemma SeenNextIs(a: Opts, o: Opts, n: nat)
    requires Aged(a, o, n) && 0 <= a.relayHop < 8
    ensures Aged(SeenNext(a), o, n + 1)
  {
    AgainMore(o.hops, n);
    AgainOnce(o.peerId, n);
    AgainOnce(o.nonce, n);
    AgainOnce(o.sig, n);
  }
}
