/** Whole chains of relays: where a planned route leads, hop by hop. */
module RouteChains {
  import opened Bytes
  import opened Collections
  import opened Text
  import opened RouteHops
  import opened OptionScan
  import opened RouteRelays
  import WireHandshake

  datatype Ending = Exited | Refused | Unsupported | AtServer | Malformed

  datatype Trace = Trace(visited: seq<Hop>, ending: Ending)

  /**
   * What the relays of a chain meet: the shared token, which nonces are new, which servers have room, random draws, and
   * how the options look as JSON.
   */
  datatype Env = Env(token: string, isFresh: int -> bool, admits: int -> bool, draw: int -> string, json: Opts -> seq<byte>) {
    /** Whether a UDP relay receives these options at all. */
    predicate Fits(o: Opts) { |json(o)| <= WireHandshake.MAX_OPTS }
  }

  function Level(o: Opts): nat { if o.relayHop < 0 then 0 else if o.relayHop > 5 then 5 else o.relayHop }

  ghost predicate Advancing(step: Msg -> Verdict) {
    forall m {:trigger step(m)} :: step(m).Relay? ==> Level(m.o) <= 4 && Level(step(m).msg.o) == Level(m.o) + 1
  }

  function StepOf(s: Signer, env: Env): Msg -> Verdict {
    (m: Msg) =>
      if m.program == GoRelay then
        GoStep(s, m.asks, m.o, env.token, env.isFresh(m.o.hopIndex), env.Fits(m.o), env.draw(m.o.hopIndex))
      else JavaStep(s, m.asks, JavaSees(m.o, m.writer), env.token, env.admits(m.o.hopIndex))
  }

  lemma GoAdvances(s: Signer, asks: bool, o: Opts, token: string, isFresh: bool, fits: bool, draw: string)
    ensures var v := GoStep(s, asks, o, token, isFresh, fits, draw); v.Relay? ==> 1 <= o.relayHop <= 2 && v.msg.o.relayHop == o.relayHop + 1
  {}

  lemma JavaAdvances(s: Signer, asks: bool, o: Opts, token: string, admits: bool)
    ensures var v := JavaStep(s, asks, o, token, admits);
      v.Relay? ==> o.relayHop <= 4 && v.msg.o.relayHop == o.relayHop + 1
  {}

  lemma GoMsgAdvances(s: Signer, env: Env, m: Msg)
    requires m.program == GoRelay
    ensures StepOf(s, env)(m).Relay? ==> Level(m.o) <= 4 && Level(StepOf(s, env)(m).msg.o) == Level(m.o) + 1
  {
    GoAdvances(s, m.asks, m.o, env.token, env.isFresh(m.o.hopIndex), env.Fits(m.o), env.draw(m.o.hopIndex));
  }

  lemma SightKeepsLevel(m: Msg)
    ensures var o := JavaSees(m.o, m.writer); Level(o) == Level(m.o) && 0 <= o.relayHop
  {}

  lemma JavaMsgAdvances(s: Signer, env: Env, m: Msg)
    requires m.program == JavaRelay
    ensures StepOf(s, env)(m).Relay? ==> Level(m.o) <= 4 && Level(StepOf(s, env)(m).msg.o) == Level(m.o) + 1
  {
    SightKeepsLevel(m);
    JavaAdvances(s, m.asks, JavaSees(m.o, m.writer), env.token, env.admits(m.o.hopIndex));
  }

  lemma StepsAdvance(s: Signer, env: Env)
    ensures Advancing(StepOf(s, env))
  {
    forall m {:trigger StepOf(s, env)(m)} | StepOf(s, env)(m).Relay?
      ensures Level(m.o) <= 4 && Level(StepOf(s, env)(m).msg.o) == Level(m.o) + 1
    {
      if m.program == GoRelay { GoMsgAdvances(s, env, m); } else { JavaMsgAdvances(s, env, m); }
    }
  }

  /** The run that starts when the relay at `at` receives `m`. */
  ghost function Chain(step: Msg -> Verdict, m: Msg, at: Hop): Trace
    requires Advancing(step)
    decreases 5 - Level(m.o)
  {
    match step(m)
    case Refuse => Trace([at], Refused)
    case Deliver => Trace([at], Exited)
    case ToServer(_) => Trace([at], AtServer)
    case BadKind(_) => Trace([at], Unsupported)
    case BadHop => Trace([at], Malformed)
    case Relay(h, next) =>
      var more := Chain(step, next, h);
      Trace([at] + more.visited, more.ending)
  }

  /** Whatever the options say, a session is looked at by at most six relays, and by five when it starts at hop one. */
  lemma {:induction false} ChainIsShort(step: Msg -> Verdict, m: Msg, at: Hop)
    requires Advancing(step)
    ensures 1 <= |Chain(step, m, at).visited| && |Chain(step, m, at).visited| + Level(m.o) <= 6
    decreases 5 - Level(m.o)
  {
    var v := step(m);
    if v.Relay? { ChainIsShort(step, v.msg, v.hop); }
  }

  function LeadingUdp(hops: seq<Hop>): (n: nat)
    ensures n <= |hops| && (forall i :: 0 <= i < n ==> IsUdp(hops[i])) && (n < |hops| ==> !IsUdp(hops[n]))
  {
    if hops == [] || !IsUdp(hops[0]) then 0
    else
      var n := LeadingUdp(hops[1..]);
      assert forall i :: 0 < i < |hops| ==> hops[i] == hops[1..][i - 1];
      n + 1
  }

  // ---- The route as the relays read it ----------------------------------------------------------

  /** The hops a session would visit, the first `udp` of them served by Go relays; `torn` tells that an unreadable entry follows. */
  datatype Path = Path(hops: seq<Hop>, udp: nat, torn: bool)

  /** Hops read off a list, and whether an unreadable entry ended the reading. */
  datatype Reading = Reading(hops: seq<Hop>, torn: bool)

  /** What Java relays make of a list of `len` entries from entry i on, the first of them having it through n others. */
  function Tail(read: (nat, nat) -> Option<Hop>, len: nat, n: nat, i: nat): Reading
    decreases len - i
  {
    if i >= len then Reading([], false)
    else
      match read(i, n)
      case None => Reading([], true)
      case Some(h) => var more := Tail(read, len, n + 1, i + 1); Reading([h] + more.hops, more.torn)
  }

  /** How entry i of a list reads after n Java relays. */
  function ReadOf(xs: seq<string>): (nat, nat) -> Option<Hop> {
    (i: nat, n: nat) => if i < |xs| then JavaParseHop(Again(xs[i], n)) else None
  }

  /** The list as the first Java relay reads it. */
  function ListSeen(hops: seq<Hop>): seq<string> { Survivors(GoJson, EncodedHops(hops)) }

  /** UDP hops and the first hop that is not are taken from the plan, the rest from what Java relays make of the list. */
  function PathOf(hops: seq<Hop>, xs: seq<string>): Path {
    var u := LeadingUdp(hops);
    if u == |hops| then Path(hops, u, false) else Continued(hops, u, Tail(ReadOf(xs), |xs|, 0, u + 1))
  }

  function Continued(hops: seq<Hop>, u: nat, more: Reading): Path
    requires u < |hops|
  {
    Path(hops[..u + 1] + more.hops, u, more.torn)
  }

  function Route(hops: seq<Hop>): Path { PathOf(hops, ListSeen(hops)) }

  lemma {:induction false} TailAt(read: (nat, nat) -> Option<Hop>, len: nat, n: nat, i: nat, d: nat)
    requires d <= |Tail(read, len, n, i).hops|
    ensures Tail(read, len, n + d, i + d) == Reading(Tail(read, len, n, i).hops[d..], Tail(read, len, n, i).torn)
    decreases d
  {
    if d > 0 {
      var more := Tail(read, len, n + 1, i + 1);
      assert Tail(read, len, n, i).hops == [read(i, n).value] + more.hops;
      TailAt(read, len, n + 1, i + 1, d - 1);
      assert ([read(i, n).value] + more.hops)[d..] == more.hops[d - 1..];
    }
  }

  lemma TailBegins(read: (nat, nat) -> Option<Hop>, len: nat, n: nat, i: nat)
    ensures var p := Tail(read, len, n, i);
      if i >= len then p == Reading([], false)
      else if read(i, n).None? then p == Reading([], true)
      else p.hops != [] && p.hops[0] == read(i, n).value
  {}

  /** What the Java relay at position k reads in a list of `len` entries is the next hop of the path, or nothing, or unreadable. */
  ghost predicate ReadsNext(read: (nat, nat) -> Option<Hop>, len: nat, p: Path, k: nat)
    requires p.udp < k <= |p.hops|
  {
    var e := read(k, k - 1 - p.udp);
    if k >= len then k == |p.hops| && !p.torn
    else if e.None? then k == |p.hops| && p.torn
    else k < |p.hops| && p.hops[k] == e.value
  }

  ghost predicate ReadsOn(read: (nat, nat) -> Option<Hop>, len: nat, p: Path) {
    forall k: nat {:trigger ReadsNext(read, len, p, k)} :: p.udp < k <= |p.hops| ==> ReadsNext(read, len, p, k)
  }

  /** A plan, the list Java relays get to see and the path that results. */
  datatype Course = Course(plan: seq<Hop>, xs: seq<string>, path: Path)

  /** The path starts as planned, and every Java relay on it reads what comes next. */
  ghost predicate Charted(c: Course) {
    && StartsAs(c.plan, c.path)
    && (c.path.udp < |c.plan| ==> ReadsOn(ReadOf(c.xs), |c.xs|, c.path))
  }

  ghost predicate StartsAs(plan: seq<Hop>, p: Path) {
    && p.udp <= |plan| && (p.udp == |plan| ==> p == Path(plan, p.udp, false))
    && (forall i :: 0 <= i < p.udp ==> IsUdp(plan[i]))
    && (p.udp < |plan| ==> |p.hops| > p.udp && !IsUdp(plan[p.udp]) && forall i :: 0 <= i <= p.udp ==> p.hops[i] == plan[i])
  }

  lemma TailReads(read: (nat, nat) -> Option<Hop>, len: nat, front: seq<Hop>, p: Path)
    requires front != [] && p.udp == |front| - 1
    requires p.hops == front + Tail(read, len, 0, |front|).hops && p.torn == Tail(read, len, 0, |front|).torn
    ensures ReadsOn(read, len, p)
  {
    forall k: nat {:trigger ReadsNext(read, len, p, k)} | p.udp < k <= |p.hops| ensures ReadsNext(read, len, p, k) {
      var n := k - |front|;
      TailAt(read, len, 0, |front|, n);
      TailBegins(read, len, n, k);
      DropFront(front, Tail(read, len, 0, |front|).hops, n);
    }
  }

  lemma DropFront<T>(a: seq<T>, b: seq<T>, n: nat)
    requires n <= |b|
    ensures (a + b)[|a| + n..] == b[n..]
  {}

  lemma PathIsCharted(hops: seq<Hop>, xs: seq<string>)
    ensures Charted(Course(hops, xs, PathOf(hops, xs)))
  {
    var u, p := LeadingUdp(hops), PathOf(hops, xs);
    if u < |hops| {
      var front := hops[..u + 1];
      var more := Tail(ReadOf(xs), |xs|, 0, u + 1);
      assert p == Path(front + more.hops, u, more.torn) && |front| == u + 1;
      TailReads(ReadOf(xs), |xs|, front, p);
    }
  }

  // ---- Which hops pass --------------------------------------------------------------------------

  /** What decides a route besides its hops: the options the client sends, and whether its identity passes the guard after n Java relays. */
  datatype Terms = Terms(first: Opts, knows: nat -> bool)

  function Counted(o: Opts, k: nat): Opts { o.(relayHop := k, hopIndex := k) }

  /** Go relays serve the leading UDP hops; then come one hop of any kind and TCP hops, served by Java relays. */
  predicate Supported(p: Path, i: nat)
    requires i < |p.hops|
  {
    i <= p.udp || IsTcp(p.hops[i])
  }

  /** The relay serving hop i accepts a session that has come this far. */
  predicate Admitted(env: Env, t: Terms, p: Path, i: nat) {
    if i < p.udp then i + 1 <= GoCap(t.first.relayMaxHop) && env.isFresh(i + 1) && env.Fits(Counted(t.first, i + 1))
    else i + 1 <= JavaCap(t.first.relayMaxHop) && t.knows(i - p.udp) && env.admits(i + 1)
  }

  /** Which relays of a path accept. */
  function Accepts(env: Env, t: Terms, p: Path): nat -> bool { (i: nat) => Admitted(env, t, p, i) }

  predicate HopOk(ok: nat -> bool, p: Path, i: nat)
    requires i < |p.hops|
  {
    Supported(p, i) && ok(i)
  }

  /** The first hop from i on that fails, or the length. */
  function FirstBad(ok: nat -> bool, p: Path, i: nat): (f: nat)
    requires i <= |p.hops|
    ensures i <= f <= |p.hops| && (f < |p.hops| ==> !HopOk(ok, p, f))
    ensures forall j :: i <= j < f ==> HopOk(ok, p, j)
    decreases |p.hops| - i
  {
    if i == |p.hops| || !HopOk(ok, p, i) then i else FirstBad(ok, p, i + 1)
  }

  /** Every hop is supported and accepts. */
  ghost predicate Passable(ok: nat -> bool, p: Path) {
    forall i :: 0 <= i < |p.hops| ==> HopOk(ok, p, i)
  }

  /** How far a chain gets when hop f is the first that fails: an unsupported hop is never reached, a refusing one is. */
  function StoppedAt(p: Path, from: nat, f: nat): Trace
    requires from <= f <= |p.hops|
  {
    if f == |p.hops| then Trace(p.hops[from..], if p.torn then Malformed else Exited)
    else if !Supported(p, f) then Trace(p.hops[from..f], Unsupported)
    else Trace(p.hops[from..f + 1], Refused)
  }

  // ---- One relay --------------------------------------------------------------------------------

  predicate Knows(s: Signer, token: string, o: Opts) { GuardAllows(s, token, o.peerId, o.nonce, o.sig) }

  /** What the first Java relay of a route sees of the client's options. */
  function FirstSeen(first: Opts, u: nat): Opts { JavaSees(Counted(first, u + 1), GoJson) }

  /** The client's options carry the plan, both counters at one, and an identity that Go relays accept. */
  ghost predicate Launched(s: Signer, env: Env, t: Terms, c: Course) {
    && AllPeers(c.plan) && c.plan != [] && t.first.hops == EncodedHops(c.plan) && c.xs == Survivors(GoJson, t.first.hops)
    && t.first.relayHop == t.first.hopIndex == 1
    && t.first.relayMaxHop >= 1 && GoKnows(s, env.token, t.first) && AsksForRelay(t.first)
  }

  /** The message that reaches the k-th relay while only Go relays have served it. */
  function GoMsg(first: Opts, u: nat): nat -> Msg {
    (k: nat) => Msg(if k <= u then GoRelay else JavaRelay, true, Counted(first, k), GoJson)
  }

  /** How Java relays see, send and act. */
  datatype Java = Java(see: Msg -> Opts, send: Opts -> Msg, more: Opts -> Opts, act: (Opts, bool) -> Verdict)

  function JavaOf(s: Signer, token: string): Java {
    Java((m: Msg) => JavaSees(m.o, m.writer), JavaSends, SeenNext, (o: Opts, admits: bool) => JavaStep(s, true, o, token, admits))
  }

  /** A message as it reaches the k-th relay of a path. */
  ghost predicate AtRelay(j: Java, go: nat -> Msg, p: Path, m: Msg, k: nat) {
    && 1 <= k <= |p.hops| && k <= 5
    && if k <= p.udp then m == go(k)
       else m.program == JavaRelay && m.asks && m.o.hopIndex == k && j.see(m) == After(j.more, j.see(go(p.udp + 1)), k - 1 - p.udp)
  }

  /** The verdict a path calls for at its k-th relay, `at` saying which messages may reach which relay. */
  ghost predicate Expected(at: (Msg, nat) -> bool, ok: nat -> bool, p: Path, k: nat, v: Verdict)
    requires 1 <= k <= |p.hops|
  {
    if !ok(k - 1) then v == Refuse
    else if k == |p.hops| then v == if p.torn then BadHop else Deliver
    else if !Supported(p, k) then v == BadKind(p.hops[k])
    else v.Relay? && v.hop == p.hops[k] && at(v.msg, k + 1)
  }

  /** Which messages may reach which relay. */
  ghost function AtOf(j: Java, go: nat -> Msg, p: Path): (Msg, nat) -> bool { (m: Msg, k: nat) => AtRelay(j, go, p, m, k) }

  lemma LiteralKinds(h: Hop)
    requires PeerHop(h)
    ensures Lower(h.kind) == h.kind == TrimSpace(h.kind)
  {
    assert Trimmed(h.kind);
    forall i | 0 <= i < |h.kind| ensures LowerChar(h.kind[i]) == h.kind[i] {}
  }

  lemma PeersAreDialled(h: Hop, o: Opts)
    requires PeerHop(h)
    ensures DialRelayHop(h, o) == Relay(h, Msg(ProgramOf(h), AsksForRelay(o), o, GoJson))
  {
    LiteralKinds(h);
  }

  /** The entry a Java relay reads next. */
  function Entry(xs: seq<string>, k: nat): Option<Hop> { if k < |xs| then JavaParseHop(xs[k]) else None }

  /** What a Java relay decides, given whether it accepts the session, the length of its list, the entry it reads and what it would hand on. */
  function Decides(next: Msg, ok: bool, k: nat, len: nat, e: Option<Hop>): Verdict {
    if !ok then Refuse
    else if k >= len then Deliver
    else
      match e
      case None => BadHop
      case Some(h) => if IsTcp(h) then Relay(h, next) else BadKind(h)
  }

  /** A Java relay's step, given the counters it sees. */
  lemma JavaStepIs(s: Signer, o: Opts, token: string, admits: bool, k: nat)
    requires o.relayHop == o.hopIndex == k >= 1
    ensures JavaStep(s, true, o, token, admits) ==
      Decides(JavaSends(o), k <= JavaCap(o.relayMaxHop) && Knows(s, token, o) && admits, k, |o.hops|, Entry(o.hops, k))
  {}

  lemma EntryIs(xs: seq<string>, k: nat, n: nat)
    ensures Entry(AgainAll(xs, n), k) == ReadOf(xs)(k, n)
  {}

  /** The step of the relay after n Java relays that started with seeing `seen`. */
  lemma JavaStepAfter(s: Signer, token: string, seen: Opts, admits: bool, ok: bool, k: nat, n: nat, o: Opts, v: Verdict, next: Msg)
    requires ok == (k <= JavaCap(seen.relayMaxHop) && Knows(s, token, o) && admits)
    requires 1 <= seen.relayHop == seen.hopIndex && k == seen.relayHop + n <= 8
    requires o == After(SeenNext, seen, n) && v == JavaStep(s, true, o, token, admits) && next == JavaSends(o)
    ensures v == Decides(next, ok, k, |seen.hops|, ReadOf(seen.hops)(k, n))
  {
    SeenAfterIs(seen, n);
    JavaStepIs(s, o, token, admits, k);
    EntryIs(seen.hops, k, n);
  }

  lemma SendsCount(s: Signer, token: string, seen: Opts, n: nat, o: Opts)
    requires 1 <= seen.relayHop == seen.hopIndex && seen.relayHop + n <= 8 && o == After(SeenNext, seen, n)
    ensures var m := JavaOf(s, token).send(o); m.program == JavaRelay && m.asks && m.o.hopIndex == seen.relayHop + n + 1
  {
    SeenAfterIs(seen, n);
  }

  /** Java relays act on what they see, and see of what another sends on what `more` says. */
  ghost predicate ActsOnSight(step: Msg -> Verdict, j: Java, admits: int -> bool) {
    && (forall m: Msg {:trigger step(m)} :: m.program == JavaRelay && m.asks ==> step(m) == j.act(j.see(m), admits(m.o.hopIndex)))
    && (forall m: Msg {:trigger j.send(j.see(m))} :: j.see(j.send(j.see(m))) == j.more(j.see(m)))
  }

  lemma StepsActOnSight(s: Signer, env: Env)
    ensures ActsOnSight(StepOf(s, env), JavaOf(s, env.token), env.admits)
  {
    var j := JavaOf(s, env.token);
    forall m: Msg {:trigger j.send(j.see(m))} ensures j.see(j.send(j.see(m))) == j.more(j.see(m)) { SightIsNext(s, env.token, m); }
    forall m: Msg {:trigger StepOf(s, env)(m)} | m.program == JavaRelay && m.asks
      ensures StepOf(s, env)(m) == j.act(j.see(m), env.admits(m.o.hopIndex))
    {}
  }

  lemma SightIsNext(s: Signer, token: string, m: Msg)
    ensures var j := JavaOf(s, token); j.see(j.send(j.see(m))) == j.more(j.see(m))
  {
    JavaSeesNext(m.o, m.writer);
  }

  /** The acts along a row of Java relays, by what each of them sees. */
  ghost predicate ActsAlong(j: Java, read: (nat, nat) -> Option<Hop>, len: nat, seen: Opts, ok: nat -> bool, admits: int -> bool, u: nat) {
    forall k: nat {:trigger ok(k - 1)} :: u < k <= 5 ==> ActsAt(j, read, len, After(j.more, seen, k - 1 - u), ok(k - 1), admits, u, k)
  }

  ghost predicate ActsAt(j: Java, read: (nat, nat) -> Option<Hop>, len: nat, o: Opts, ok: bool, admits: int -> bool, u: nat, k: nat)
    requires u < k
  {
    && j.act(o, admits(k)) == Decides(j.send(o), ok, k, len, read(k, k - 1 - u))
    && j.send(o).program == JavaRelay && j.send(o).asks && j.send(o).o.hopIndex == k + 1
  }

  lemma JavaActIs(s: Signer, token: string, admits: bool, seen: Opts, ok: bool, u: nat, k: nat, o: Opts)
    requires seen.relayHop == seen.hopIndex == u + 1 && u < k <= 5 && o == After(SeenNext, seen, k - 1 - u)
    requires ok == (k <= JavaCap(seen.relayMaxHop) && Knows(s, token, o) && admits)
    ensures var j := JavaOf(s, token); j.act(o, admits) == Decides(j.send(o), ok, k, |seen.hops|, ReadOf(seen.hops)(k, k - 1 - u))
  {
    var j := JavaOf(s, token);
    JavaStepAfter(s, token, seen, admits, ok, k, k - 1 - u, o, j.act(o, admits), j.send(o));
  }

  lemma JavaActsAt(s: Signer, token: string, admits: int -> bool, seen: Opts, ok: bool, u: nat, k: nat, o: Opts, j: Java)
    requires seen.relayHop == seen.hopIndex == u + 1 && u < k <= 5 && o == After(SeenNext, seen, k - 1 - u) && j == JavaOf(s, token)
    requires ok == (k <= JavaCap(seen.relayMaxHop) && Knows(s, token, o) && admits(k))
    ensures ActsAt(j, ReadOf(seen.hops), |seen.hops|, o, ok, admits, u, k)
  {
    JavaActIs(s, token, admits(k), seen, ok, u, k, o);
    SendsCount(s, token, seen, k - 1 - u, o);
    ActsAtBy(j, ReadOf(seen.hops), |seen.hops|, o, ok, admits, u, k, j.send(o));
  }

  lemma ActsAtBy(j: Java, read: (nat, nat) -> Option<Hop>, len: nat, o: Opts, ok: bool, admits: int -> bool, u: nat, k: nat, m: Msg)
    requires u < k && m == j.send(o) && m.program == JavaRelay && m.asks && m.o.hopIndex == k + 1
    requires j.act(o, admits(k)) == Decides(m, ok, k, len, read(k, k - 1 - u))
    ensures ActsAt(j, read, len, o, ok, admits, u, k)
  {}

  lemma JavaActsAlong(s: Signer, token: string, admits: int -> bool, seen: Opts, ok: nat -> bool, u: nat)
    requires seen.relayHop == seen.hopIndex == u + 1
    requires forall k: nat {:trigger ok(k - 1)} :: u < k <= 5 ==>
      ok(k - 1) == (k <= JavaCap(seen.relayMaxHop) && Knows(s, token, After(SeenNext, seen, k - 1 - u)) && admits(k))
    ensures ActsAlong(JavaOf(s, token), ReadOf(seen.hops), |seen.hops|, seen, ok, admits, u)
  {
    forall k: nat {:trigger ok(k - 1)} | u < k <= 5
      ensures ActsAt(JavaOf(s, token), ReadOf(seen.hops), |seen.hops|, After(SeenNext, seen, k - 1 - u), ok(k - 1), admits, u, k)
    {
      JavaActsAt(s, token, admits, seen, ok(k - 1), u, k, After(SeenNext, seen, k - 1 - u), JavaOf(s, token));
    }
  }

  lemma AcceptsIs(env: Env, t: Terms, p: Path, k: nat)
    requires k > p.udp
    ensures Accepts(env, t, p)(k - 1) == (k <= JavaCap(t.first.relayMaxHop) && t.knows(k - 1 - p.udp) && env.admits(k))
  {}

  lemma JavaStepAt(step: Msg -> Verdict, j: Java, go: nat -> Msg, read: (nat, nat) -> Option<Hop>, len: nat,
                   admits: int -> bool, ok: nat -> bool, p: Path, seen: Opts, m: Msg, k: nat)
    requires ActsOnSight(step, j, admits) && ActsAlong(j, read, len, seen, ok, admits, p.udp) && ReadsOn(read, len, p)
    requires seen == j.see(go(p.udp + 1))
    requires AtRelay(j, go, p, m, k) && k > p.udp && (ok(k - 1) ==> k <= 4)
    ensures Expected(AtOf(j, go, p), ok, p, k, step(m))
  {
    assert ReadsNext(read, len, p, k);
    var o := After(j.more, seen, k - 1 - p.udp);
    assert ActsAt(j, read, len, o, ok(k - 1), admits, p.udp, k);
    assert After(j.more, seen, k - p.udp) == j.more(o);
    assert j.send(j.see(m)) == j.send(o);
    if ok(k - 1) && k < |p.hops| { assert AtRelay(j, go, p, j.send(o), k + 1); }
  }

  lemma ForwardCounts(s: Signer, o: Opts, k: nat, token: string, draw: string)
    requires 1 <= k <= 2 && o.relayMaxHop >= 1 && GoKnows(s, token, o) && AsksForRelay(o)
    ensures ProtForRelayForward(s, Counted(o, k), token, draw) == Counted(o, k + 1) && AsksForRelay(Counted(o, k + 1))
  {}

  lemma GoAdmits(s: Signer, o: Opts, token: string)
    requires o.relayHop >= 1 && o.relayMaxHop >= 1 && GoKnows(s, token, o)
    ensures AllowPeerRelayOptions(s, o, token) && !RelayHopLimitExceeded(o) <==> o.relayHop <= GoCap(o.relayMaxHop)
  {}

  /** A Go relay's step, given whether it admits and what dialling the next hop would give. */
  lemma GoStepWith(s: Signer, o: Opts, token: string, isFresh: bool, fits: bool, draw: string, next: Option<Hop>, dialled: Verdict)
    requires o.relayHop >= 1 && o.relayMaxHop >= 1 && GoKnows(s, token, o) && next == NextRelayHop(o.hops, o.hopIndex)
    requires next.Some? ==> dialled == DialRelayHop(next.value, ProtForRelayForward(s, o, token, draw))
    ensures GoStep(s, true, o, token, isFresh, fits, draw) ==
      if !(o.relayHop <= GoCap(o.relayMaxHop) && isFresh && fits) then Refuse else if next.None? then Deliver else dialled
  {
    GoAdmits(s, o, token);
  }

  /** A Go relay's step on options that carry the plan. */
  lemma GoStepIs(s: Signer, o: Opts, plan: seq<Hop>, k: nat, token: string, isFresh: bool, fits: bool, draw: string, v: Verdict, o': Opts)
    requires AllPeers(plan) && 1 <= k <= |plan| && o.hops == EncodedHops(plan) && o.relayHop == o.hopIndex == k && o.relayMaxHop >= 1
    requires GoKnows(s, token, o) && v == GoStep(s, true, o, token, isFresh, fits, draw) && o' == ProtForRelayForward(s, o, token, draw)
    ensures if !(k <= GoCap(o.relayMaxHop) && isFresh && fits) then v == Refuse
      else if k == |plan| then v == Deliver
      else v == Relay(plan[k], Msg(ProgramOf(plan[k]), AsksForRelay(o'), o', GoJson))
  {
    NextOnRoute(plan, k);
    var next := NextRelayHop(o.hops, o.hopIndex);
    if k < |plan| {
      assert PeerHop(plan[k]);
      PeersAreDialled(plan[k], o');
      GoStepWith(s, o, token, isFresh, fits, draw, next, DialRelayHop(plan[k], o'));
    } else {
      GoStepWith(s, o, token, isFresh, fits, draw, next, Deliver);
    }
  }

  /** Go relays refuse, deliver at the end of the plan, or hand on what the next relay needs. */
  ghost predicate GoHands(step: Msg -> Verdict, go: nat -> Msg, ok: nat -> bool, plan: seq<Hop>, u: nat) {
    forall k: nat {:trigger ok(k - 1)} :: 1 <= k <= u && k <= |plan| ==> GoHandsAt(step, go, ok(k - 1), plan, k)
  }

  ghost predicate GoHandsAt(step: Msg -> Verdict, go: nat -> Msg, ok: bool, plan: seq<Hop>, k: nat)
    requires k <= |plan|
  {
    step(go(k)) == (if !ok then Refuse else if k == |plan| then Deliver else Relay(plan[k], go(k + 1))) && (ok ==> k <= 2)
  }

  lemma GoDecides(s: Signer, env: Env, t: Terms, plan: seq<Hop>, u: nat, k: nat, v: Verdict)
    requires AllPeers(plan) && t.first.hops == EncodedHops(plan) && t.first.relayMaxHop >= 1 && GoKnows(s, env.token, t.first) && AsksForRelay(t.first)
    requires 1 <= k <= u && k <= |plan| && (k < |plan| ==> (IsUdp(plan[k]) <==> k < u))
    requires v == GoStep(s, true, Counted(t.first, k), env.token, env.isFresh(k), env.Fits(Counted(t.first, k)), env.draw(k))
    ensures if !(k <= GoCap(t.first.relayMaxHop) && env.isFresh(k) && env.Fits(Counted(t.first, k))) then v == Refuse
      else if k == |plan| then v == Deliver
      else v == Relay(plan[k], GoMsg(t.first, u)(k + 1))
  {
    GoStepIs(s, Counted(t.first, k), plan, k, env.token, env.isFresh(k), env.Fits(Counted(t.first, k)), env.draw(k), v,
      ProtForRelayForward(s, Counted(t.first, k), env.token, env.draw(k)));
    if k <= 2 { ForwardCounts(s, t.first, k, env.token, env.draw(k)); }
  }

  lemma GoStepOf(s: Signer, env: Env, first: Opts, u: nat, k: nat)
    requires k <= u
    ensures StepOf(s, env)(GoMsg(first, u)(k)) ==
      GoStep(s, true, Counted(first, k), env.token, env.isFresh(k), env.Fits(Counted(first, k)), env.draw(k))
  {}

  lemma GoAccepts(env: Env, t: Terms, p: Path, k: nat)
    requires 1 <= k <= p.udp
    ensures Accepts(env, t, p)(k - 1) == (k <= GoCap(t.first.relayMaxHop) && env.isFresh(k) && env.Fits(Counted(t.first, k)))
  {}

  lemma GoHandsOne(s: Signer, env: Env, t: Terms, plan: seq<Hop>, u: nat, ok: bool, k: nat)
    requires AllPeers(plan) && t.first.hops == EncodedHops(plan) && t.first.relayMaxHop >= 1 && GoKnows(s, env.token, t.first) && AsksForRelay(t.first)
    requires 1 <= k <= u && k <= |plan| && (k < |plan| ==> (IsUdp(plan[k]) <==> k < u))
    requires ok == (k <= GoCap(t.first.relayMaxHop) && env.isFresh(k) && env.Fits(Counted(t.first, k)))
    ensures GoHandsAt(StepOf(s, env), GoMsg(t.first, u), ok, plan, k)
  {
    GoStepOf(s, env, t.first, u, k);
    GoDecides(s, env, t, plan, u, k, StepOf(s, env)(GoMsg(t.first, u)(k)));
  }

  lemma GoHandsAll(s: Signer, env: Env, t: Terms, c: Course)
    requires Launched(s, env, t, c) && StartsAs(c.plan, c.path)
    ensures GoHands(StepOf(s, env), GoMsg(t.first, c.path.udp), Accepts(env, t, c.path), c.plan, c.path.udp)
  {
    var u := c.path.udp;
    forall k: nat {:trigger Accepts(env, t, c.path)(k - 1)} | 1 <= k <= u && k <= |c.plan|
      ensures GoHandsAt(StepOf(s, env), GoMsg(t.first, u), Accepts(env, t, c.path)(k - 1), c.plan, k)
    {
      GoAccepts(env, t, c.path, k);
      GoHandsOne(s, env, t, c.plan, u, Accepts(env, t, c.path)(k - 1), k);
    }
  }

  lemma GoStepAt(step: Msg -> Verdict, j: Java, go: nat -> Msg, ok: nat -> bool, plan: seq<Hop>, p: Path, m: Msg, k: nat)
    requires GoHands(step, go, ok, plan, p.udp) && StartsAs(plan, p) && AtRelay(j, go, p, m, k) && k <= p.udp
    requires go(p.udp + 1).program == JavaRelay && go(p.udp + 1).asks && go(p.udp + 1).o.hopIndex == p.udp + 1
    ensures Expected(AtOf(j, go, p), ok, p, k, step(m))
  {
    assert m == go(k) && GoHandsAt(step, go, ok(k - 1), plan, k);
    assert k < |plan| ==> k < |p.hops| && p.hops[k] == plan[k];
  }

  // ---- From relay to relay ----------------------------------------------------------------------

  /** The verdicts along a path are those expected, from the k-th relay on. */
  ghost predicate Along(step: Msg -> Verdict, ok: nat -> bool, m: Msg, p: Path, k: nat)
    requires 1 <= k <= |p.hops|
    decreases |p.hops| - k
  {
    var v := step(m);
    if !ok(k - 1) then v == Refuse
    else if k == |p.hops| then v == if p.torn then BadHop else Deliver
    else if !Supported(p, k) then v == BadKind(p.hops[k])
    else v.Relay? && v.hop == p.hops[k] && Along(step, ok, v.msg, p, k + 1)
  }

  /** Every step from a relay of the path is as expected. */
  ghost predicate Keeps(step: Msg -> Verdict, at: (Msg, nat) -> bool, ok: nat -> bool, p: Path) {
    forall m, k: nat {:trigger at(m, k)} :: at(m, k) ==> 1 <= k <= |p.hops| && Expected(at, ok, p, k, step(m))
  }

  /** The terms are those of the options a client sends. */
  ghost predicate Tied(s: Signer, env: Env, t: Terms, u: nat) {
    forall n {:trigger t.knows(n)} :: t.knows(n) == Knows(s, env.token, After(SeenNext, FirstSeen(t.first, u), n))
  }

  lemma FirstSeenIs(first: Opts, u: nat)
    requires u <= 7 && first.relayMaxHop >= 1
    ensures var o := FirstSeen(first, u);
      o.relayHop == o.hopIndex == u + 1 && JavaCap(o.relayMaxHop) == JavaCap(first.relayMaxHop) && o.hops == Survivors(GoJson, first.hops)
  {}

  lemma SeenFirst(s: Signer, token: string, first: Opts, u: nat)
    ensures JavaOf(s, token).see(GoMsg(first, u)(u + 1)) == FirstSeen(first, u)
  {}

  /** What a row of Java relays decides by: the limit, whom the guard knows, and who has room. */
  ghost predicate Decisive(ok: nat -> bool, cap: nat, knows: nat -> bool, admits: int -> bool, u: nat) {
    forall i: nat {:trigger ok(i)} :: u <= i ==> ok(i) == (i + 1 <= cap && knows(i - u) && admits(i + 1))
  }

  ghost predicate KnowsSeen(knows: nat -> bool, guard: Opts -> bool, seen: Opts) {
    forall n {:trigger knows(n)} :: knows(n) == guard(After(SeenNext, seen, n))
  }

  lemma ActsBySight(s: Signer, token: string, admits: int -> bool, seen: Opts, xs: seq<string>, ok: nat -> bool, cap: nat,
                    knows: nat -> bool, guard: Opts -> bool, u: nat)
    requires seen.relayHop == seen.hopIndex == u + 1 && seen.hops == xs && cap == JavaCap(seen.relayMaxHop)
    requires guard == ((o: Opts) => Knows(s, token, o))
    requires KnowsSeen(knows, guard, seen) && Decisive(ok, cap, knows, admits, u)
    ensures ActsAlong(JavaOf(s, token), ReadOf(xs), |xs|, seen, ok, admits, u)
  {
    forall k: nat {:trigger ok(k - 1)} | u < k <= 5
      ensures ok(k - 1) == (k <= JavaCap(seen.relayMaxHop) && Knows(s, token, After(SeenNext, seen, k - 1 - u)) && admits(k))
    {
      assert knows(k - 1 - u) == guard(After(SeenNext, seen, k - 1 - u));
    }
    JavaActsAlong(s, token, admits, seen, ok, u);
  }

  lemma AcceptsEach(env: Env, t: Terms, p: Path)
    ensures Decisive(Accepts(env, t, p), JavaCap(t.first.relayMaxHop), t.knows, env.admits, p.udp)
  {}

  lemma AcceptsBound(env: Env, t: Terms, p: Path)
    ensures forall k: nat {:trigger Accepts(env, t, p)(k - 1)} :: p.udp < k && Accepts(env, t, p)(k - 1) ==> k <= 4
  {
    forall k: nat {:trigger Accepts(env, t, p)(k - 1)} | p.udp < k && Accepts(env, t, p)(k - 1) ensures k <= 4 {
      AcceptsIs(env, t, p, k);
    }
  }

  /** What the relays of a path do, taken together. */
  ghost predicate Rules(step: Msg -> Verdict, j: Java, go: nat -> Msg, read: (nat, nat) -> Option<Hop>, len: nat, admits: int -> bool,
                        ok: nat -> bool, plan: seq<Hop>, p: Path, seen: Opts)
  {
    && StartsAs(plan, p) && (p.udp < |plan| ==> ReadsOn(read, len, p))
    && GoHands(step, go, ok, plan, p.udp) && go(p.udp + 1).program == JavaRelay && go(p.udp + 1).asks && go(p.udp + 1).o.hopIndex == p.udp + 1
    && ActsOnSight(step, j, admits) && seen == j.see(go(p.udp + 1)) && (p.udp <= 4 ==> ActsAlong(j, read, len, seen, ok, admits, p.udp))
    && forall k: nat {:trigger ok(k - 1)} :: p.udp < k && ok(k - 1) ==> k <= 4
  }

  lemma StepsKeep(step: Msg -> Verdict, j: Java, go: nat -> Msg, read: (nat, nat) -> Option<Hop>, len: nat, admits: int -> bool,
                  ok: nat -> bool, plan: seq<Hop>, p: Path, seen: Opts)
    requires Rules(step, j, go, read, len, admits, ok, plan, p, seen)
    ensures Keeps(step, AtOf(j, go, p), ok, p)
  {
    var at := AtOf(j, go, p);
    forall m, k: nat {:trigger at(m, k)} | at(m, k) ensures 1 <= k <= |p.hops| && Expected(at, ok, p, k, step(m)) {
      if k <= p.udp {
        GoStepAt(step, j, go, ok, plan, p, m, k);
      } else {
        JavaStepAt(step, j, go, read, len, admits, ok, p, seen, m, k);
      }
    }
  }

  lemma {:induction false} RelaysGoAlong(step: Msg -> Verdict, at: (Msg, nat) -> bool, ok: nat -> bool, m: Msg, p: Path, k: nat)
    requires Keeps(step, at, ok, p) && 1 <= k <= |p.hops| && at(m, k)
    ensures Along(step, ok, m, p, k)
    decreases |p.hops| - k
  {
    assert Expected(at, ok, p, k, step(m));
    if ok(k - 1) && k < |p.hops| && Supported(p, k) { RelaysGoAlong(step, at, ok, step(m).msg, p, k + 1); }
  }

  lemma {:induction false} ChainGoesAlong(step: Msg -> Verdict, ok: nat -> bool, m: Msg, p: Path, k: nat)
    requires Advancing(step) && 1 <= k <= |p.hops| && Supported(p, k - 1) && Along(step, ok, m, p, k)
    ensures Chain(step, m, p.hops[k - 1]) == StoppedAt(p, k - 1, FirstBad(ok, p, k - 1))
    decreases |p.hops| - k
  {
    assert p.hops[k - 1..k] == [p.hops[k - 1]];
    if ok(k - 1) && k < |p.hops| && Supported(p, k) {
      ChainGoesAlong(step, ok, step(m).msg, p, k + 1);
      Prepend(p, k, FirstBad(ok, p, k));
    }
  }

  lemma Prepend(p: Path, k: nat, f: nat)
    requires 1 <= k <= f <= |p.hops|
    ensures var more := StoppedAt(p, k, f); Trace([p.hops[k - 1]] + more.visited, more.ending) == StoppedAt(p, k - 1, f)
  {
    assert p.hops[k - 1..] == [p.hops[k - 1]] + p.hops[k..];
    assert p.hops[k - 1..f] == [p.hops[k - 1]] + p.hops[k..f];
    if f < |p.hops| { assert p.hops[k - 1..f + 1] == [p.hops[k - 1]] + p.hops[k..f + 1]; }
  }

  lemma JavaRowActs(s: Signer, env: Env, t: Terms, c: Course)
    requires Launched(s, env, t, c) && Tied(s, env, t, c.path.udp) && c.path.udp <= 4
    ensures ActsAlong(JavaOf(s, env.token), ReadOf(c.xs), |c.xs|, FirstSeen(t.first, c.path.udp), Accepts(env, t, c.path), env.admits, c.path.udp)
  {
    FirstSeenIs(t.first, c.path.udp);
    AcceptsEach(env, t, c.path);
    TiedByGuard(s, env, t, c.path.udp);
    ActsBySight(s, env.token, env.admits, FirstSeen(t.first, c.path.udp), c.xs, Accepts(env, t, c.path), JavaCap(t.first.relayMaxHop),
      t.knows, (o: Opts) => Knows(s, env.token, o), c.path.udp);
  }

  lemma TiedByGuard(s: Signer, env: Env, t: Terms, u: nat)
    requires Tied(s, env, t, u)
    ensures KnowsSeen(t.knows, (o: Opts) => Knows(s, env.token, o), FirstSeen(t.first, u))
  {
  }

  lemma GoMsgEnds(first: Opts, u: nat)
    ensures var m := GoMsg(first, u)(u + 1); m.program == JavaRelay && m.asks && m.o.hopIndex == u + 1
  {}

  lemma RelaysRule(s: Signer, env: Env, t: Terms, c: Course)
    requires Launched(s, env, t, c) && Charted(c) && Tied(s, env, t, c.path.udp)
    ensures Rules(StepOf(s, env), JavaOf(s, env.token), GoMsg(t.first, c.path.udp), ReadOf(c.xs), |c.xs|, env.admits,
      Accepts(env, t, c.path), c.plan, c.path, FirstSeen(t.first, c.path.udp))
  {
    SeenFirst(s, env.token, t.first, c.path.udp);
    StepsActOnSight(s, env);
    GoHandsAll(s, env, t, c);
    GoMsgEnds(t.first, c.path.udp);
    if c.path.udp <= 4 { JavaRowActs(s, env, t, c); }
    AcceptsBound(env, t, c.path);
  }

  /** A chain visits the hops of its path in order, up to the first that its predecessor cannot dial or that refuses. */
  lemma ChainFollowsPath(s: Signer, env: Env, t: Terms, c: Course)
    requires Launched(s, env, t, c) && Charted(c) && Tied(s, env, t, c.path.udp)
    ensures Advancing(StepOf(s, env)) && c.path.hops != [] && c.path.hops[0] == c.plan[0]
    ensures Chain(StepOf(s, env), GoMsg(t.first, c.path.udp)(1), c.plan[0]) ==
      StoppedAt(c.path, 0, FirstBad(Accepts(env, t, c.path), c.path, 0))
  {
    StepsAdvance(s, env);
    RelaysRule(s, env, t, c);
    StepsKeep(StepOf(s, env), JavaOf(s, env.token), GoMsg(t.first, c.path.udp), ReadOf(c.xs), |c.xs|, env.admits,
      Accepts(env, t, c.path), c.plan, c.path, FirstSeen(t.first, c.path.udp));
    PathStarts(c);
    FirstArrives(JavaOf(s, env.token), GoMsg(t.first, c.path.udp), c.path);
    AlongAndBack(StepOf(s, env), AtOf(JavaOf(s, env.token), GoMsg(t.first, c.path.udp), c.path), Accepts(env, t, c.path),
      GoMsg(t.first, c.path.udp)(1), c.path);
  }

  lemma FirstArrives(j: Java, go: nat -> Msg, p: Path)
    requires p.hops != [] && (p.udp == 0 ==> go(1).program == JavaRelay && go(1).asks && go(1).o.hopIndex == 1)
    ensures AtRelay(j, go, p, go(1), 1)
  {}

  lemma AlongAndBack(step: Msg -> Verdict, at: (Msg, nat) -> bool, ok: nat -> bool, m: Msg, p: Path)
    requires Advancing(step) && Keeps(step, at, ok, p) && p.hops != [] && at(m, 1)
    ensures Chain(step, m, p.hops[0]) == StoppedAt(p, 0, FirstBad(ok, p, 0))
  {
    RelaysGoAlong(step, at, ok, m, p, 1);
    ChainGoesAlong(step, ok, m, p, 1);
  }

  lemma PathStarts(c: Course)
    requires StartsAs(c.plan, c.path) && c.plan != []
    ensures c.path.hops != [] && c.path.hops[0] == c.plan[0]
  {}

  // ---- From the client on -------------------------------------------------------------------

  /** The options a client sends to the first relay. */
  function ClientOpts(s: Signer, base: Opts, hops: seq<Hop>, relayPeerId: string, token: string, draw: string): Opts {
    RelayOptsForHandshake(s, RelayProtForPeerHop(AttachRouteHops(base, hops), relayPeerId), token, draw)
  }

  function RelayProtForPeerHop(o: Opts, relayPeerId: string): Opts {
    var hop := if o.relayHop <= 0 then 1 else o.relayHop;
    o.(peerId := if IsBlank(relayPeerId) then o.peerId else TrimSpace(relayPeerId),
       relayHop := hop,
       relayMaxHop := if o.relayMaxHop <= 0 then DEFAULT_MAX_HOPS else o.relayMaxHop,
       hopIndex := if o.hopIndex > 0 then o.hopIndex else if o.plannerV2 then hop else 1)
  }

  function AttachRouteHops(base: Opts, plan: seq<Hop>): Opts {
    var hops := EncodedHops(plan);
    base.(hops := hops,
          relayMaxHop := if base.relayMaxHop <= 0 && |hops| > 0 then |hops| else base.relayMaxHop,
          plannerV2 := base.plannerV2 || (IsBlank(base.routeId) && |hops| > 1))
  }

  /** Options a client starts from: no route progress yet, no cluster exit, and no signature made for other fields. */
  ghost predicate Unstarted(base: Opts) {
    base.relayHop <= 1 && base.hopIndex <= 1 && IsBlank(base.cluster) && base.sig == "" && (base.peerId == "" || !IsBlank(base.peerId))
  }

  lemma ClientCounts(base: Opts, hops: seq<Hop>, relayPeerId: string)
    requires Unstarted(base) && hops != [] && |EncodedHops(hops)| == |hops|
    ensures var o := RelayProtForPeerHop(AttachRouteHops(base, hops), relayPeerId);
      && o.relayHop == o.hopIndex == 1 && o.hops == EncodedHops(hops) && o.cluster == base.cluster && o.sig == ""
      && o.relayMaxHop == (if base.relayMaxHop <= 0 then |hops| else base.relayMaxHop)
  {}

  lemma ClientNamed(o: Opts, relayPeerId: string)
    requires o.peerId == "" || !IsBlank(o.peerId)
    ensures var o' := RelayProtForPeerHop(o, relayPeerId); o'.peerId == "" || !IsBlank(o'.peerId)
  {
    if !IsBlank(relayPeerId) { TrimmingKeepsText(relayPeerId); }
  }

  lemma SigningCompletes(s: Signer, o: Opts, token: string, draw: string)
    requires Sound(s) && draw != "" && o.relayHop == 1 && o.relayMaxHop >= 1
    requires IsBlank(o.cluster) && o.sig == "" && (o.peerId == "" || !IsBlank(o.peerId))
    ensures var o' := RelayOptsForHandshake(s, o, token, draw);
      && o'.hops == o.hops && o'.relayHop == 1 && o'.hopIndex == o.hopIndex && o'.relayMaxHop == o.relayMaxHop
      && AsksForRelay(o') && GoKnows(s, token, o')
  {
    assert !IsBlank(s.derive(token)) && IsBlank("");
  }

  /** The terms of a client's route. */
  function TermsOf(s: Signer, base: Opts, hops: seq<Hop>, relayPeerId: string, token: string, draw: string): Terms {
    var o, u := ClientOpts(s, base, hops, relayPeerId, token, draw), LeadingUdp(hops);
    Terms(o, (n: nat) => Knows(s, token, After(SeenNext, FirstSeen(o, u), n)))
  }

  /** The message that reaches the first relay. */
  function ClientMsg(s: Signer, base: Opts, hops: seq<Hop>, relayPeerId: string, token: string, draw: string): Msg
    requires hops != []
  {
    var o := ClientOpts(s, base, hops, relayPeerId, token, draw);
    Msg(ProgramOf(hops[0]), AsksForRelay(o), o, GoJson)
  }

  function CourseOf(hops: seq<Hop>): Course { Course(hops, ListSeen(hops), Route(hops)) }

  lemma ClientLaunches(s: Signer, env: Env, base: Opts, hops: seq<Hop>, relayPeerId: string, draw: string)
    requires Sound(s) && Unstarted(base) && draw != "" && hops != [] && AllPeers(hops)
    ensures var t := TermsOf(s, base, hops, relayPeerId, env.token, draw);
      && Launched(s, env, t, CourseOf(hops)) && Tied(s, env, t, Route(hops).udp)
      && t.first.relayMaxHop == if base.relayMaxHop <= 0 then |hops| else base.relayMaxHop
  {
    PeersRoundTrip(hops);
    ClientCounts(base, hops, relayPeerId);
    ClientNamed(AttachRouteHops(base, hops), relayPeerId);
    SigningCompletes(s, RelayProtForPeerHop(AttachRouteHops(base, hops), relayPeerId), env.token, draw);
  }

  /**
   * From plan to exit: a peer route planned by BuildRoutePlan, whatever its hops and their addresses, is followed as the
   * relays read it, hop by hop to the first that fails, and leaves for the target exactly when none does and no entry
   * turns out unreadable.
   */
  lemma RouteRuns(s: Signer, env: Env, base: Opts, d: Decision, serverAddr: string, relayPeerId: string, draw: string)
    requires Sound(s) && Unstarted(base) && draw != ""
    requires Plan(d, serverAddr) != [] && AllPeers(Plan(d, serverAddr))
    ensures Advancing(StepOf(s, env))
    ensures var hops := Plan(d, serverAddr);
      var t, p := TermsOf(s, base, hops, relayPeerId, env.token, draw), Route(hops);
      var run := Chain(StepOf(s, env), ClientMsg(s, base, hops, relayPeerId, env.token, draw), hops[0]);
      && run == StoppedAt(p, 0, FirstBad(Accepts(env, t, p), p, 0))
      && (run.ending == Exited <==> Passable(Accepts(env, t, p), p) && !p.torn)
  {
    PeerRouteRuns(s, env, base, Plan(d, serverAddr), relayPeerId, draw);
  }

  lemma PeerRouteRuns(s: Signer, env: Env, base: Opts, hops: seq<Hop>, relayPeerId: string, draw: string)
    requires Sound(s) && Unstarted(base) && draw != "" && hops != [] && AllPeers(hops)
    ensures Advancing(StepOf(s, env))
    ensures var t, p := TermsOf(s, base, hops, relayPeerId, env.token, draw), Route(hops);
      var run := Chain(StepOf(s, env), ClientMsg(s, base, hops, relayPeerId, env.token, draw), hops[0]);
      && run == StoppedAt(p, 0, FirstBad(Accepts(env, t, p), p, 0))
      && (run.ending == Exited <==> Passable(Accepts(env, t, p), p) && !p.torn)
  {
    var t, c := TermsOf(s, base, hops, relayPeerId, env.token, draw), CourseOf(hops);
    ClientLaunches(s, env, base, hops, relayPeerId, draw);
    PathIsCharted(hops, ListSeen(hops));
    ChainFollowsPath(s, env, t, c);
    FirstMsg(s, base, hops, relayPeerId, env.token, draw);
    StopsWhereBad(Accepts(env, t, c.path), c.path);
  }

  lemma FirstMsg(s: Signer, base: Opts, hops: seq<Hop>, relayPeerId: string, token: string, draw: string)
    requires hops != []
    requires var o := ClientOpts(s, base, hops, relayPeerId, token, draw); o.relayHop == o.hopIndex == 1 && AsksForRelay(o)
    ensures ClientMsg(s, base, hops, relayPeerId, token, draw) ==
      GoMsg(TermsOf(s, base, hops, relayPeerId, token, draw).first, LeadingUdp(hops))(1)
  {
    assert IsUdp(hops[0]) <==> LeadingUdp(hops) >= 1;
  }

  lemma StopsWhereBad(ok: nat -> bool, p: Path)
    ensures StoppedAt(p, 0, FirstBad(ok, p, 0)).ending == Exited <==> Passable(ok, p) && !p.torn
  {}
}
