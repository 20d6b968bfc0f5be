/** What the sessions of the UDP peer relay are given: the messages their addresses complete, first to last. */
module PeerMessages {
  import opened Bytes
  import opened Collections
  import opened ChunkTransport
  import opened PeerRelay

  type Events = seq<Event>

  /** The session belongs to the address and has not been closed. */
  ghost predicate OpenFor(r: State, key: string, id: nat) {
    id < |r.sessions| && r.sessions[id].key == key && !r.sessions[id].closed
  }

  ghost predicate NoneOpen(r: State, key: string) { forall id: nat :: !OpenFor(r, key, id) }

  /** This closing of a session of the address takes effect. */
  ghost predicate Closes(r: State, id: nat, key: string) { OpenFor(r, key, id) && r.sessions[id].done }

  /** The datagrams from the address since the last session of it was closed. */
  ghost function Pkts(limit: nat, es: Events, key: string): seq<seq<byte>> {
    if es == [] then []
    else
      var front, e := es[..|es| - 1], es[|es| - 1];
      if e.Dispatch? && e.key == key then Pkts(limit, front, key) + [e.pkt]
      else if e.CommitClose? && Closes(After(limit, front), e.id, key) then []
      else Pkts(limit, front, key)
  }

  /** The message that a datagram completes, coming after all those. */
  ghost function Completed(limit: nat, es: Events, key: string, pkt: seq<byte>): Option<seq<byte>> {
    FedAll(EMPTY, Pkts(limit, es, key) + [pkt]).1[|Pkts(limit, es, key)|]
  }

  /** The messages meant for session `id`: the one that opened it and those completed while it was open and its inbox not full. */
  ghost function Taken(limit: nat, es: Events, id: nat): seq<seq<byte>> {
    if es == [] then []
    else
      var front, e := es[..|es| - 1], es[|es| - 1];
      var r := After(limit, front);
      if !e.Dispatch? then Taken(limit, front, id)
      else
        var msg := Completed(limit, front, e.key, e.pkt);
        if msg.None? then Taken(limit, front, id)
        else if OpenFor(r, e.key, id) && |r.sessions[id].inbox| < 256 then Taken(limit, front, id) + [msg.value]
        else if id == |r.sessions| && NoneOpen(r, e.key) && r.held < limit then [msg.value]
        else Taken(limit, front, id)
  }

  // ---- Steps ----------------------------------------------------------------------------------

  lemma HandledAsm(r: State, key: string, p: Peer, asm: Asm, msg: Option<seq<byte>>, k: string)
    requires p == PeerAt(r, key) && (p.sess.Some? ==> p.sess.value < |r.sessions|)
    requires (asm == EMPTY || asm.InProgress()) && (msg.Some? ==> asm == EMPTY)
    ensures PeerAt(Handled(r, key, p, asm, msg), k).asm == if k == key then asm else PeerAt(r, k).asm
  {}

  lemma DispatchedAsm(r: State, key: string, pkt: seq<byte>, k: string)
    requires Inv(r) && Usable(r, key)
    ensures PeerAt(Dispatched(r, key, pkt), k).asm == if k == key then Fed(PeerAt(r, key).asm, pkt).0 else PeerAt(r, k).asm
  {
    var p := PeerAt(r, key);
    FedStaysTidy(p.asm, pkt);
    HandledAsm(r, key, p, Fed(p.asm, pkt).0, Fed(p.asm, pkt).1, k);
  }

  lemma CommittedAsm(r: State, id: nat, k: string)
    requires Inv(r) && id < |r.sessions|
    ensures PeerAt(CloseCommitted(r, id), k).asm == if Closes(r, id, k) then EMPTY else PeerAt(r, k).asm
  {
    assert SessionOk(r, id);
  }

  /** The assembler kept for an address is one that was fed the datagrams from it since its last session was closed. */
  lemma {:induction false} AsmIsFed(limit: nat, es: Events, key: string)
    ensures PeerAt(After(limit, es), key).asm == FedAll(EMPTY, Pkts(limit, es, key)).0
    decreases |es|
  {
    if es != [] {
      var front, e := es[..|es| - 1], es[|es| - 1];
      var r := After(limit, front);
      AsmIsFed(limit, front, key);
      StepAsm(r, e, key);
      if e.Dispatch? && e.key == key { FedAppend(EMPTY, Pkts(limit, front, key), e.pkt); }
    }
  }

  lemma StepAsm(r: State, e: Event, key: string)
    requires Inv(r)
    ensures Tidy(PeerAt(r, key).asm)
    ensures PeerAt(Next(r, e), key).asm ==
      if e.Dispatch? && e.key == key then Fed(PeerAt(r, key).asm, e.pkt).0
      else if e.CommitClose? && Closes(r, e.id, key) then EMPTY
      else PeerAt(r, key).asm
  {
    UsableInv(r, key);
    match e
    case Dispatch(k, pkt) =>
      UsableInv(r, k);
      DispatchedAsm(r, k, pkt, key);
    case BeginClose(_) =>
    case CommitClose(id) =>
      if id < |r.sessions| { CommittedAsm(r, id, key); }
    case Read(_, _, _) =>
  }

  /** What a datagram completes, as the relay's own assembler sees it. */
  lemma CompletedIsFed(limit: nat, es: Events, key: string, pkt: seq<byte>)
    ensures Tidy(PeerAt(After(limit, es), key).asm)
    ensures Completed(limit, es, key, pkt) == Fed(PeerAt(After(limit, es), key).asm, pkt).1
  {
    AsmIsFed(limit, es, key);
    FedAppend(EMPTY, Pkts(limit, es, key), pkt);
  }

  lemma OpenIsOwned(r: State, key: string, id: nat)
    requires Inv(r)
    ensures OpenFor(r, key, id) <==> PeerAt(r, key).sess == Some(id)
  {
    if id < |r.sessions| { assert SessionOk(r, id); }
    if key in r.peers { assert PeerOk(r, key); }
  }

  lemma NoneOpenIff(r: State, key: string)
    requires Inv(r)
    ensures NoneOpen(r, key) <==> PeerAt(r, key).sess == None
  {
    forall id: nat ensures OpenFor(r, key, id) <==> PeerAt(r, key).sess == Some(id) { OpenIsOwned(r, key, id); }
    if PeerAt(r, key).sess.Some? { assert OpenFor(r, key, PeerAt(r, key).sess.value); }
  }

  /** What handling does to what one session has accepted. */
  lemma HandledAccepts(r: State, key: string, asm: Asm, msg: Option<seq<byte>>, id: nat)
    requires Inv(r) && Usable(r, key)
    ensures var r' := Handled(r, key, PeerAt(r, key), asm, msg);
      if id < |r.sessions| then
        id < |r'.sessions| && r'.sessions[id].accepted ==
          if msg.Some? && OpenFor(r, key, id) && |r.sessions[id].inbox| < 256 then r.sessions[id].accepted + msg.value
          else r.sessions[id].accepted
      else if id < |r'.sessions| then
        && id == |r.sessions| && msg.Some? && NoneOpen(r, key) && r.held < r.limit
        && r'.sessions[id].key == key && r'.sessions[id].accepted == msg.value && !r'.sessions[id].done
      else id == |r.sessions| && msg.Some? && NoneOpen(r, key) ==> r.held == r.limit
  {
    OpenIsOwned(r, key, id);
    NoneOpenIff(r, key);
    if id < |r.sessions| { assert SessionOk(r, id); }
  }

  lemma OtherStepsAccept(r: State, e: Event, id: nat)
    requires Inv(r) && !e.Dispatch?
    ensures |Next(r, e).sessions| == |r.sessions|
    ensures id < |r.sessions| ==> Next(r, e).sessions[id].accepted == r.sessions[id].accepted
  {
    if e.Read? && e.id < |r.sessions| {
      assert SessionOk(r, e.id);
      ReadConserves(r.sessions[e.id], e.n, e.preferDone);
    }
  }

  // ---- Runs -----------------------------------------------------------------------------------

  /**
   * In every interleaving of datagrams, reads and closings: what a session has accepted is exactly the messages that its
   * address completed from the one that opened it until it was closed, in order, leaving out only those that met a full inbox.
   */
  lemma {:induction false} AcceptedIsTaken(limit: nat, es: Events, id: nat)
    ensures id < |After(limit, es).sessions| ==> After(limit, es).sessions[id].accepted == Flatten(Taken(limit, es, id))
    ensures id >= |After(limit, es).sessions| ==> Taken(limit, es, id) == []
    decreases |es|
  {
    if es != [] {
      var front, e := es[..|es| - 1], es[|es| - 1];
      var r := After(limit, front);
      AcceptedIsTaken(limit, front, id);
      if e.Dispatch? {
        UsableInv(r, e.key);
        CompletedIsFed(limit, front, e.key, e.pkt);
        var (asm, msg) := Fed(PeerAt(r, e.key).asm, e.pkt);
        HandledAccepts(r, e.key, asm, msg, id);
        if msg.Some? {
          FlattenAppend(Taken(limit, front, id), [msg.value]);
          FlattenOne(msg.value);
        }
      } else {
        OtherStepsAccept(r, e, id);
      }
    }
  }

  lemma AfterDispatch(limit: nat, es: Events, key: string, pkt: seq<byte>)
    ensures var r := After(limit, es);
      && Usable(r, key) && Tidy(PeerAt(r, key).asm)
      && After(limit, es + [Dispatch(key, pkt)]) ==
         Handled(r, key, PeerAt(r, key), Fed(PeerAt(r, key).asm, pkt).0, Completed(limit, es, key, pkt))
  {
    assert (es + [Dispatch(key, pkt)])[..|es|] == es;
    UsableInv(After(limit, es), key);
    CompletedIsFed(limit, es, key, pkt);
  }

  /** A session is opened by exactly the message that an address without an open one completes while a token is free. */
  lemma OpensIff(limit: nat, es: Events, key: string, pkt: seq<byte>)
    ensures var r, r' := After(limit, es), After(limit, es + [Dispatch(key, pkt)]);
      |r'.sessions| == |r.sessions| +
        if Completed(limit, es, key, pkt).Some? && NoneOpen(r, key) && r.held < limit then 1 else 0
  {
    var r := After(limit, es);
    AfterDispatch(limit, es, key, pkt);
    HandledSize(r, key, Fed(PeerAt(r, key).asm, pkt).0, Completed(limit, es, key, pkt));
  }

  lemma HandledSize(r: State, key: string, asm: Asm, msg: Option<seq<byte>>)
    requires Inv(r) && Usable(r, key)
    ensures |Handled(r, key, PeerAt(r, key), asm, msg).sessions| ==
      |r.sessions| + if msg.Some? && NoneOpen(r, key) && r.held < r.limit then 1 else 0
  {
    NoneOpenIff(r, key);
  }

  /** The datagrams since the last closing are chunks of p in any order and with repeats, and only this one is missing. */
  ghost predicate LastMissing(limit: nat, es: Events, key: string, p: seq<byte>, order: seq<nat>, last: nat) {
    && Fits(p) && Order(ChunkCount(|p|), order) && last < ChunkCount(|p|)
    && Seen(order) < Indices(ChunkCount(|p|)) && Seen(order) + {last} == Indices(ChunkCount(|p|))
    && Pkts(limit, es, key) == Deliver(Pieces(p), order)
  }

  lemma LastCompletes(limit: nat, es: Events, key: string, p: seq<byte>, order: seq<nat>, last: nat)
    requires LastMissing(limit, es, key, p, order, last)
    ensures Completed(limit, es, key, Packets(Pieces(p))[last]) == Some(p)
  {
    Reassembly(p, order, last);
  }

  /** Nothing was read of the session yet, and a read with room for p returns just p. */
  ghost predicate ReadsAs(s: Session, p: seq<byte>) {
    && s.accepted == p && s.returned == [] && s.readOff <= |s.readBuf|
    && forall n: nat, preferDone {:trigger ReadTurn(s, n, preferDone)} :: n >= |p| ==> ReadTurn(s, n, preferDone).1 == Data(p)
  }

  ghost predicate OpensWith(r: State, r': State, key: string, p: seq<byte>) {
    var id := |r.sessions|;
    |r'.sessions| == id + 1 && OpenFor(r', key, id) && !r'.sessions[id].done && ReadsAs(r'.sessions[id], p)
  }

  lemma HandledOpens(r: State, key: string, asm: Asm, p: seq<byte>)
    requires Inv(r) && Usable(r, key) && NoneOpen(r, key) && r.held < r.limit && p != []
    ensures OpensWith(r, Handled(r, key, PeerAt(r, key), asm, Some(p)), key, p)
  {
    NoneOpenIff(r, key);
    assert p[0..|p|] == p;
  }

  /**
   * Whatever else happens in between: when the last missing chunk of p arrives from an address without an open session
   * and a token is free, a new session of that address has p to read, and a read with room for it returns just p.
   */
  lemma FirstMessageArrives(limit: nat, es: Events, key: string, p: seq<byte>, order: seq<nat>, last: nat)
    requires LastMissing(limit, es, key, p, order, last)
    requires NoneOpen(After(limit, es), key) && After(limit, es).held < limit
    ensures OpensWith(After(limit, es), After(limit, es + [Dispatch(key, Packets(Pieces(p))[last])]), key, p)
  {
    var r, pkt := After(limit, es), Packets(Pieces(p))[last];
    LastCompletes(limit, es, key, p, order, last);
    AfterDispatch(limit, es, key, pkt);
    HandledOpens(r, key, Fed(PeerAt(r, key).asm, pkt).0, p);
  }

  /** And when a session is open, p joins what was accepted for it, unless its inbox is full. */
  lemma NextMessageArrives(limit: nat, es: Events, key: string, p: seq<byte>, order: seq<nat>, last: nat, id: nat)
    requires LastMissing(limit, es, key, p, order, last) && OpenFor(After(limit, es), key, id)
    ensures var r, r' := After(limit, es), After(limit, es + [Dispatch(key, Packets(Pieces(p))[last])]);
      && |r'.sessions| == |r.sessions|
      && r'.sessions[id].accepted == if |r.sessions[id].inbox| < 256 then r.sessions[id].accepted + p else r.sessions[id].accepted
  {
    var r, pkt := After(limit, es), Packets(Pieces(p))[last];
    LastCompletes(limit, es, key, p, order, last);
    OpensIff(limit, es, key, pkt);
    AfterDispatch(limit, es, key, pkt);
    HandledAccepts(r, key, Fed(PeerAt(r, key).asm, pkt).0, Some(p), id);
  }
}
