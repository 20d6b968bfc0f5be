/** The UDP peer relay: one assembler and at most one session per remote address, under a counting semaphore. */
module PeerRelay {
  import opened Bytes
  import opened Collections
  import opened ChunkTransport

  const INBOX_CAPACITY := 256

  /**
   * A session. `done` is set by the first Close before it takes the relay lock, `closed` once its critical
   * section has run. The last three fields record history: octets accepted for the session, octets its
   * reader has been given, and semaphore tokens it has given back.
   */
  datatype Session = Session(
    key: string, inbox: seq<seq<byte>>, inClosed: bool, done: bool, closed: bool,
    readBuf: seq<byte>, readOff: nat, accepted: seq<byte>, returned: seq<byte>, released: nat)

  datatype Peer = Peer(asm: Asm, sess: Option<nat>)

  /** `panicked` records a send on, or a second close of, a closed channel. */
  datatype State = State(limit: nat, held: nat, peers: map<string, Peer>, sessions: seq<Session>, panicked: bool)

  function Initial(limit: nat): State { State(limit, 0, map[], [], false) }

  function NewSession(key: string, msg: seq<byte>): Session {
    Session(key, [], false, false, false, msg, 0, msg, [], 0)
  }

  ghost predicate PeerOk(r: State, key: string)
    requires key in r.peers
  {
    var p := r.peers[key];
    && Tidy(p.asm)
    && (p.sess.None? ==> p.asm.InProgress())
    && (p.sess.Some? ==> p.sess.value < |r.sessions| && r.sessions[p.sess.value].key == key && !r.sessions[p.sess.value].closed)
  }

  /** Nothing is lost, doubled or reordered between acceptance and the reader. */
  ghost predicate Conserves(s: Session) {
    s.readOff <= |s.readBuf| && s.accepted == s.returned + s.readBuf[s.readOff..] + Flatten(s.inbox)
  }

  ghost predicate SessionOk(r: State, id: nat)
    requires id < |r.sessions|
  {
    var s := r.sessions[id];
    && (!s.closed ==> s.key in r.peers && r.peers[s.key].sess == Some(id))
    && (s.inClosed <==> s.closed)
    && (s.closed ==> s.done)
    && s.released == (if s.closed then 1 else 0)
    && |s.inbox| <= INBOX_CAPACITY
    && Conserves(s)
  }

  ghost function WithSession(peers: map<string, Peer>): set<string> {
    set key | key in peers && peers[key].sess.Some?
  }

  ghost predicate Inv(r: State) {
    && !r.panicked
    && r.held == |WithSession(r.peers)| && r.held <= r.limit
    && (forall key {:trigger PeerOk(r, key)} :: key in r.peers ==> PeerOk(r, key))
    && (forall id: nat {:trigger SessionOk(r, id)} :: id < |r.sessions| ==> SessionOk(r, id))
  }

  function PeerAt(r: State, key: string): Peer {
    if key in r.peers then r.peers[key] else Peer(EMPTY, None)
  }

  /** The entry's fields are in range, which every reachable state satisfies. */
  ghost predicate Usable(r: State, key: string) {
    var p := PeerAt(r, key);
    Tidy(p.asm) && (p.sess.Some? ==> p.sess.value < |r.sessions|)
  }

  /** One datagram from the address `key`, handled under the relay lock. */
  function Dispatched(r: State, key: string, pkt: seq<byte>): State
    requires Usable(r, key)
  {
    var p := PeerAt(r, key);
    var (asm, msg) := Fed(p.asm, pkt);
    Handled(r, key, p, asm, msg)
  }

  /** The part of dispatch after the assembler, given its new state and the message it completed. */
  function Handled(r: State, key: string, p: Peer, asm: Asm, msg: Option<seq<byte>>): State
    requires p.sess.Some? ==> p.sess.value < |r.sessions|
  {
    match msg
    case None =>
      if p.sess.None? && !asm.InProgress() then r.(peers := r.peers - {key})
      else r.(peers := r.peers[key := Peer(asm, p.sess)])
    case Some(m) =>
      match p.sess
      case None =>
        if r.held < r.limit then
          r.(held := r.held + 1, peers := r.peers[key := Peer(asm, Some(|r.sessions|))], sessions := r.sessions + [NewSession(key, m)])
        else r.(peers := r.peers - {key})
      case Some(id) =>
        var s := r.sessions[id];
        var q := r.(peers := r.peers[key := Peer(asm, p.sess)]);
        if s.inClosed then q.(panicked := true)
        else if |s.inbox| < INBOX_CAPACITY then
          q.(sessions := r.sessions[id := s.(inbox := s.inbox + [m], accepted := s.accepted + m)])
        else q
  }

  /** The first Close closes `done`, before the lock; later ones do nothing. */
  function CloseBegun(r: State, id: nat): State
    requires id < |r.sessions|
  {
    r.(sessions := r.sessions[id := r.sessions[id].(done := true)])
  }

  /** The critical section of the first Close. */
  function CloseCommitted(r: State, id: nat): State
    requires id < |r.sessions|
  {
    var s := r.sessions[id];
    if !s.done || s.closed then r
    else if s.key in r.peers && r.peers[s.key].sess == Some(id) then
      var gives := r.held > 0;
      State(r.limit, if gives then r.held - 1 else 0, r.peers - {s.key},
        r.sessions[id := s.(closed := true, inClosed := true, released := s.released + if gives then 1 else 0)],
        r.panicked || s.inClosed)
    else r.(sessions := r.sessions[id := s.(closed := true)])
  }

  datatype Outcome = Data(bytes: seq<byte>) | EndOfStream | Again | Blocked

  /** One turn of the reader's loop; `preferDone` resolves the select when several cases are ready. */
  function ReadTurn(s: Session, n: nat, preferDone: bool): (Session, Outcome)
    requires s.readOff <= |s.readBuf|
  {
    if s.readOff < |s.readBuf| then
      var k := Min(n, |s.readBuf| - s.readOff);
      var out := s.readBuf[s.readOff..s.readOff + k];
      var t := s.(readOff := s.readOff + k, returned := s.returned + out);
      (if t.readOff >= |t.readBuf| then t.(readBuf := [], readOff := 0) else t, Data(out))
    else if s.done && (preferDone || (s.inbox == [] && !s.inClosed)) then (s, EndOfStream)
    else if s.inbox != [] then (s.(readBuf := s.inbox[0], readOff := 0, inbox := s.inbox[1..]), Again)
    else if s.inClosed then (s, EndOfStream)
    else (s, Blocked)
  }

  datatype Event =
    | Dispatch(key: string, pkt: seq<byte>)
    | BeginClose(id: nat)
    | CommitClose(id: nat)
    | Read(id: nat, n: nat, preferDone: bool)

  /** What one atomic step does; steps that name no session do nothing. */
  ghost function Next(r: State, e: Event): State
    requires Inv(r)
  {
    match e
    case Dispatch(key, pkt) => assert Usable(r, key) by { UsableInv(r, key); } Dispatched(r, key, pkt)
    case BeginClose(id) => if id < |r.sessions| then CloseBegun(r, id) else r
    case CommitClose(id) => if id < |r.sessions| then CloseCommitted(r, id) else r
    case Read(id, n, preferDone) =>
      if id < |r.sessions| then
        assert SessionOk(r, id);
        r.(sessions := r.sessions[id := ReadTurn(r.sessions[id], n, preferDone).0])
      else r
  }

  lemma UsableInv(r: State, key: string)
    requires Inv(r)
    ensures Usable(r, key)
  {
    if key in r.peers { assert PeerOk(r, key); }
  }

  lemma DispatchKeepsInv(r: State, key: string, pkt: seq<byte>)
    requires Inv(r) && Usable(r, key)
    ensures Inv(Dispatched(r, key, pkt))
  {
    var p := PeerAt(r, key);
    FedStaysTidy(p.asm, pkt);
    HandledKeepsInv(r, key, p, Fed(p.asm, pkt).0, Fed(p.asm, pkt).1);
  }

  lemma HandledKeepsInv(r: State, key: string, p: Peer, asm: Asm, msg: Option<seq<byte>>)
    requires Inv(r) && p == PeerAt(r, key) && (p.sess.Some? ==> p.sess.value < |r.sessions|)
    requires Tidy(asm) && (asm == EMPTY || asm.InProgress()) && (msg.Some? ==> asm == EMPTY)
    ensures Inv(Handled(r, key, p, asm, msg))
  {
    HandledCounts(r, key, p, asm, msg);
    HandledPeersOk(r, key, p, asm, msg);
    HandledSessionsOk(r, key, p, asm, msg);
    if p.sess.Some? { assert PeerOk(r, key) && SessionOk(r, p.sess.value); }
  }

  lemma HandledPeersOk(r: State, key: string, p: Peer, asm: Asm, msg: Option<seq<byte>>)
    requires Inv(r) && p == PeerAt(r, key) && (p.sess.Some? ==> p.sess.value < |r.sessions|)
    requires Tidy(asm) && (msg.Some? ==> asm == EMPTY) && (asm == EMPTY || asm.InProgress())
    ensures var r' := Handled(r, key, p, asm, msg); forall k :: k in r'.peers ==> PeerOk(r', k)
  {
    var r' := Handled(r, key, p, asm, msg);
    forall k | k in r'.peers ensures PeerOk(r', k) {
      if k in r.peers { assert PeerOk(r, k); }
    }
  }

  lemma HandledSessionsOk(r: State, key: string, p: Peer, asm: Asm, msg: Option<seq<byte>>)
    requires Inv(r) && p == PeerAt(r, key) && (p.sess.Some? ==> p.sess.value < |r.sessions|)
    ensures var r' := Handled(r, key, p, asm, msg); forall id: nat :: id < |r'.sessions| ==> SessionOk(r', id)
  {
    var r' := Handled(r, key, p, asm, msg);
    if key in r.peers { assert PeerOk(r, key); }
    forall id: nat | id < |r'.sessions| ensures SessionOk(r', id) {
      if id < |r.sessions| {
        assert SessionOk(r, id);
        if msg.Some? { InboxGrows(r.sessions[id], msg.value); }
      }
    }
  }

  lemma InboxGrows(s: Session, m: seq<byte>)
    requires Conserves(s)
    ensures Conserves(s.(inbox := s.inbox + [m], accepted := s.accepted + m))
  {
    FlattenAppend(s.inbox, [m]);
    FlattenOne(m);
  }

  ghost predicate Owns(peers: map<string, Peer>, key: string) { key in peers && peers[key].sess.Some? }

  lemma SessionCountPut(peers: map<string, Peer>, key: string, p: Peer)
    ensures |WithSession(peers[key := p])| ==
      |WithSession(peers)| + (if p.sess.Some? then 1 else 0) - (if Owns(peers, key) then 1 else 0)
  {
    var before, after := WithSession(peers), WithSession(peers[key := p]);
    if p.sess.Some? {
      assert after == before + {key};
    } else {
      assert after == before - {key};
    }
    assert key in before <==> Owns(peers, key);
  }

  lemma SessionCountDrop(peers: map<string, Peer>, key: string)
    ensures |WithSession(peers - {key})| == |WithSession(peers)| - (if Owns(peers, key) then 1 else 0)
  {
    assert WithSession(peers - {key}) == WithSession(peers) - {key};
    assert key in WithSession(peers) <==> Owns(peers, key);
  }

  lemma HandledCounts(r: State, key: string, p: Peer, asm: Asm, msg: Option<seq<byte>>)
    requires r.held == |WithSession(r.peers)| && r.held <= r.limit
    requires p == PeerAt(r, key) && (p.sess.Some? ==> p.sess.value < |r.sessions|)
    ensures var r' := Handled(r, key, p, asm, msg); r'.held == |WithSession(r'.peers)| && r'.held <= r'.limit
  {
    SessionCountPut(r.peers, key, Peer(asm, p.sess));
    SessionCountPut(r.peers, key, Peer(asm, Some(|r.sessions|)));
    SessionCountDrop(r.peers, key);
    assert Owns(r.peers, key) <==> p.sess.Some?;
  }

  lemma CommitKeepsInv(r: State, id: nat)
    requires Inv(r) && id < |r.sessions|
    ensures Inv(CloseCommitted(r, id))
    ensures var r' := CloseCommitted(r, id); r.sessions[id].done ==> r'.sessions[id].closed && r'.sessions[id].released == 1
  {
    var s, r' := r.sessions[id], CloseCommitted(r, id);
    assert SessionOk(r, id);
    if s.done && !s.closed {
      assert s.key in WithSession(r.peers);
      assert WithSession(r'.peers) == WithSession(r.peers) - {s.key};
      forall k | k in r'.peers ensures PeerOk(r', k) { assert PeerOk(r, k); }
      forall i: nat | i < |r'.sessions| ensures SessionOk(r', i) {
        assert SessionOk(r, i);
      }
    }
  }

  lemma ReadConserves(s: Session, n: nat, preferDone: bool)
    requires Conserves(s)
    ensures var (t, out) := ReadTurn(s, n, preferDone);
      && Conserves(t) && |t.inbox| <= |s.inbox| && t.accepted == s.accepted
      && t.returned == s.returned + (if out.Data? then out.bytes else [])
      && t == s.(readBuf := t.readBuf, readOff := t.readOff, inbox := t.inbox, returned := t.returned)
  {
    if s.readOff < |s.readBuf| {
      var k := Min(n, |s.readBuf| - s.readOff);
      HandOver(s.returned, s.readBuf, s.readOff, k, Flatten(s.inbox));
    } else if s.inbox != [] {
      assert s.inbox[0][0..] == s.inbox[0];
      Refill(s.returned, s.inbox[0], Flatten(s.inbox[1..]), s.readBuf[s.readOff..]);
    }
  }

  lemma HandOver(given: seq<byte>, buf: seq<byte>, off: nat, k: nat, rest: seq<byte>)
    requires off + k <= |buf|
    ensures given + buf[off..] + rest == (given + buf[off..off + k]) + buf[off + k..] + rest
    ensures off + k == |buf| ==> given + buf[off..] + rest == (given + buf[off..off + k]) + [] + rest
  {
    assert buf[off..] == buf[off..off + k] + buf[off + k..];
  }

  lemma Refill(given: seq<byte>, first: seq<byte>, rest: seq<byte>, left: seq<byte>)
    requires left == []
    ensures given + left + (first + rest) == given + first + rest
  {}

  lemma SessionChangeKeepsInv(r: State, id: nat, t: Session)
    requires Inv(r) && id < |r.sessions|
    requires var s := r.sessions[id]; t.key == s.key && t.closed == s.closed && t.inClosed == s.inClosed && t.released == s.released && (s.done ==> t.done)
    requires |t.inbox| <= INBOX_CAPACITY && Conserves(t)
    ensures Inv(r.(sessions := r.sessions[id := t]))
  {
    var r' := r.(sessions := r.sessions[id := t]);
    forall k | k in r'.peers ensures PeerOk(r', k) { assert PeerOk(r, k); }
    forall i: nat | i < |r'.sessions| ensures SessionOk(r', i) { assert SessionOk(r, i); }
    assert SessionOk(r, id);
  }

  /** Every step, in any state the invariant allows, keeps the invariant; nothing ever panics. */
  lemma NextKeepsInv(r: State, e: Event)
    requires Inv(r)
    ensures Inv(Next(r, e))
  {
    match e
    case Dispatch(key, pkt) =>
      UsableInv(r, key);
      DispatchKeepsInv(r, key, pkt);
    case BeginClose(id) =>
      if id < |r.sessions| {
        assert SessionOk(r, id);
        SessionChangeKeepsInv(r, id, r.sessions[id].(done := true));
      }
    case CommitClose(id) =>
      if id < |r.sessions| { CommitKeepsInv(r, id); }
    case Read(id, n, preferDone) =>
      if id < |r.sessions| {
        assert SessionOk(r, id);
        ReadConserves(r.sessions[id], n, preferDone);
        SessionChangeKeepsInv(r, id, ReadTurn(r.sessions[id], n, preferDone).0);
      }
  }

  /** The state after any interleaving of dispatches, closes and reads. */
  ghost function After(limit: nat, events: seq<Event>): (r: State)
    ensures Inv(r) && r.limit == limit
  {
    if events == [] then
      assert WithSession(map[]) == {};
      Initial(limit)
    else
      var before := After(limit, events[..|events| - 1]);
      NextKeepsInv(before, events[|events| - 1]);
      Next(before, events[|events| - 1])
  }

  /** In every interleaving: no panic; tokens held are the entries with a session and never exceed the limit; idle entries are assembling. */
  lemma TokensMatchSessions(limit: nat, events: seq<Event>)
    ensures var r := After(limit, events);
      && !r.panicked
      && r.held == |WithSession(r.peers)| <= limit
      && (forall key :: key in r.peers ==> r.peers[key].sess.Some? || r.peers[key].asm.InProgress())
  {
    var r := After(limit, events);
    forall key | key in r.peers ensures r.peers[key].sess.Some? || r.peers[key].asm.InProgress() {
      assert PeerOk(r, key);
    }
  }

  /** In every interleaving a session gives back exactly one token, when it is closed, and two open sessions never share an address. */
  lemma OneTokenPerSession(limit: nat, events: seq<Event>, a: nat, b: nat)
    requires a < |After(limit, events).sessions| && b < |After(limit, events).sessions|
    ensures var ss := After(limit, events).sessions;
      && ss[a].released == (if ss[a].closed then 1 else 0)
      && (a != b && ss[a].key == ss[b].key ==> ss[a].closed || ss[b].closed)
  {
    var r := After(limit, events);
    assert SessionOk(r, a) && SessionOk(r, b);
  }

  /** What a session's reader has been given is always a prefix of what was accepted for it. */
  lemma ReaderSeesPrefix(limit: nat, events: seq<Event>, id: nat)
    requires id < |After(limit, events).sessions|
    ensures var s := After(limit, events).sessions[id];
      s.returned <= s.accepted && (s.inbox == [] && s.readOff == |s.readBuf| ==> s.returned == s.accepted)
  {
    assert SessionOk(After(limit, events), id);
  }

  class PeerUDPRelay {
    const limit: nat
    var held: nat
    var peers: map<string, Peer>
    var sessions: seq<Session>
    var panicked: bool

    function View(): State
      reads this
    {
      State(limit, held, peers, sessions, panicked)
    }

    /** A non-positive limit means 32 sessions. */
    constructor (maxConcurrent: int)
      ensures limit == if maxConcurrent <= 0 then 32 else maxConcurrent
      ensures View() == Initial(limit)
    {
      limit := if maxConcurrent <= 0 then 32 else maxConcurrent;
      held, peers, sessions, panicked := 0, map[], [], false;
    }

    /** Returns the session to be closed after the lock is released, when its inbox was full. */
    method Dispatch(key: string, pkt: seq<byte>) returns (overflow: Option<nat>)
      requires Inv(View())
      modifies this
      ensures Usable(old(View()), key) && View() == Dispatched(old(View()), key, pkt) && Inv(View())
      ensures overflow.Some? ==> old(PeerAt(View(), key).sess) == overflow && |sessions[overflow.value].inbox| == INBOX_CAPACITY
    {
      UsableInv(View(), key);
      DispatchKeepsInv(View(), key, pkt);
      var st := Peer(EMPTY, None);
      if key in peers {
        st := peers[key];
      }
      var (asm, msg) := Fed(st.asm, pkt);
      if msg.None? {
        if st.sess.None? && !asm.InProgress() {
          peers := peers - {key};
        } else {
          peers := peers[key := Peer(asm, st.sess)];
        }
        return None;
      }
      if st.sess.None? {
        if held < limit {
          held := held + 1;
          peers := peers[key := Peer(asm, Some(|sessions|))];
          sessions := sessions + [NewSession(key, msg.value)];
        } else {
          peers := peers - {key};
        }
        return None;
      }
      var id := st.sess.value;
      var s := sessions[id];
      peers := peers[key := Peer(asm, st.sess)];
      assert SessionOk(old(View()), id);
      panicked := panicked || s.inClosed;
      if !s.inClosed && |s.inbox| < INBOX_CAPACITY {
        sessions := sessions[id := s.(inbox := s.inbox + [msg.value], accepted := s.accepted + msg.value)];
        return None;
      }
      return Some(id);
    }

    method CloseSession(id: nat)
      requires Inv(View()) && id < |sessions|
      modifies this
      ensures Inv(View()) && View() == CloseCommitted(CloseBegun(old(View()), id), id)
      ensures sessions[id].closed && sessions[id].released == 1
    {
      NextKeepsInv(View(), BeginClose(id));
      sessions := sessions[id := sessions[id].(done := true)];
      CommitKeepsInv(View(), id);
      var s := sessions[id];
      if s.closed {
        return;
      }
      if s.key in peers && peers[s.key].sess == Some(id) {
        var gives := held > 0;
        peers := peers - {s.key};
        panicked := panicked || s.inClosed;
        sessions := sessions[id := s.(closed := true, inClosed := true, released := s.released + if gives then 1 else 0)];
        held := if gives then held - 1 else 0;
      } else {
        sessions := sessions[id := s.(closed := true)];
      }
    }

    /**
     * Reads for one session with nothing interleaved: loops past empty messages, then returns data, end of stream, or
     * blocks. Together with what is said of the outcomes: while the session is not closed, a read with room for an octet
     * returns some exactly when something accepted was not returned yet.
     */
    method Read(id: nat, n: nat, preferDone: bool) returns (out: Outcome)
      requires Inv(View()) && id < |sessions|
      modifies this
      ensures Inv(View()) && !out.Again?
      ensures held == old(held) && peers == old(peers) && |sessions| == |old(sessions)| && sessions == old(sessions)[id := sessions[id]]
      ensures sessions[id].returned == old(sessions)[id].returned + if out.Data? then out.bytes else []
      ensures out.Blocked? ==> sessions[id].returned == sessions[id].accepted && !sessions[id].done
      ensures out.EndOfStream? ==> sessions[id].done
      ensures out.Data? && n > 0 ==> out.bytes != []
      ensures sessions[id].accepted == old(sessions)[id].accepted && sessions[id].done == old(sessions)[id].done
    {
      out := Again;
      while out.Again?
        invariant Inv(View()) && id < |sessions|
        invariant held == old(held) && peers == old(peers) && |sessions| == |old(sessions)| && sessions == old(sessions)[id := sessions[id]]
        invariant sessions[id].returned == old(sessions)[id].returned + if out.Data? then out.bytes else []
        invariant out.Blocked? ==> sessions[id].returned == sessions[id].accepted && !sessions[id].done
        invariant (out.EndOfStream? ==> sessions[id].done) && (out.Data? && n > 0 ==> out.bytes != [])
        invariant sessions[id].accepted == old(sessions)[id].accepted && sessions[id].done == old(sessions)[id].done
        decreases |sessions[id].inbox|, if out.Again? then 1 else 0
      {
        assert SessionOk(View(), id);
        NextKeepsInv(View(), Event.Read(id, n, preferDone));
        ReadConserves(sessions[id], n, preferDone);
        var (t, o) := ReadTurn(sessions[id], n, preferDone);
        sessions, out := sessions[id := t], o;
      }
    }
  }
}
