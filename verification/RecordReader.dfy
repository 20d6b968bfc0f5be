/** The record reader as it blocks in the middle of a frame: octets leave the connection as they arrive. */
module RecordReader {
  import opened Bytes
  import opened Collections
  import opened RecordStream

  /** A call in progress: the length record read so far, or that record, the length it announced and the body read so far. */
  datatype Phase = Header(encLen: seq<byte>) | Waiting(encLen: seq<byte>, dataLen: nat, encData: seq<byte>) {
    function Held(): seq<byte> { if Header? then encLen else encLen + encData }
  }

  const IDLE := Header([])

  /** The counters as they were before the call in progress. */
  function Base(d: Dir, ph: Phase): Dir { if ph.Waiting? && d.nL > 0 then d.(nL := d.nL - 1) else d }

  ghost predicate PhaseOk(c: Cipher, d: Dir, ph: Phase)
    requires Sound(c)
  {
    match ph
    case Header(h) => |h| < LEN_HDR
    case Waiting(h, n, b) => d.nL > 0 && |h| == LEN_HDR && Announced(c, Base(d, ph), h) == Some(n) && 2 + TAG <= n <= MAX_CHUNK && |b| < n
  }

  datatype Outcome = More | Failed | Taken(payload: seq<byte>)

  datatype Pump = Pump(d: Dir, ph: Phase, out: Outcome, used: nat)

  /** The body: taken octet by octet, opened once complete. */
  ghost function PumpBody(c: Cipher, d: Dir, h: seq<byte>, n: nat, b: seq<byte>, buf: seq<byte>): Pump
    requires Sound(c) && |b| <= n
  {
    var k := n - |b|;
    if |buf| < k then Pump(d, Waiting(h, n, b + buf), More, |buf|)
    else
      match c.open(d.dataKey, Nonce12(d.nD), b + buf[..k])
      case None => Pump(d, IDLE, Failed, k)
      case Some(pt) =>
        var d' := d.(nD := d.nD + 1);
        if |pt| < 2 || 2 + ReadU16(pt[..2]) > |pt| then Pump(d', IDLE, Failed, k)
        else Pump(d', IDLE, Taken(pt[2..2 + ReadU16(pt[..2])]), k)
  }

  ghost function PumpHeader(c: Cipher, d: Dir, h: seq<byte>, buf: seq<byte>): Pump
    requires Sound(c) && |h| < LEN_HDR
  {
    var k := LEN_HDR - |h|;
    if |buf| < k then Pump(d, Header(h + buf), More, |buf|)
    else
      match Announced(c, d, h + buf[..k])
      case None => Pump(d, IDLE, Failed, k)
      case Some(n) =>
        var d' := d.(nL := d.nL + 1);
        if n < 2 + TAG || n > MAX_CHUNK then Pump(d', IDLE, Failed, k)
        else
          var p := PumpBody(c, d', h + buf[..k], n, [], buf[k..]);
          p.(used := p.used + k)
  }

  /** What a call in progress does with the octets that have arrived. */
  ghost function Pumped(c: Cipher, d: Dir, ph: Phase, buf: seq<byte>): Pump
    requires Sound(c) && PhaseOk(c, d, ph)
  {
    match ph
    case Header(h) => PumpHeader(c, d, h, buf)
    case Waiting(h, n, b) => PumpBody(c, d, h, n, b, buf)
  }

  class Receiver {
    const c: Cipher
    var d: Dir
    var ph: Phase
    var rbuf: seq<byte>

    ghost predicate Valid()
      reads this
    {
      Sound(c) && PhaseOk(c, d, ph)
    }

    constructor (c: Cipher, dataKey: seq<byte>, lenKey: seq<byte>)
      requires Sound(c)
      ensures this.c == c && Valid() && d == Dir(dataKey, lenKey, 0, 0) && ph == IDLE && rbuf == []
    {
      this.c, d, ph, rbuf := c, Dir(dataKey, lenKey, 0, 0), Header([]), [];
    }

    method ReadBody(h: seq<byte>, n: nat, b: seq<byte>, buf: seq<byte>) returns (out: Outcome, used: nat)
      requires Sound(c) && |b| <= n
      modifies this`d, this`ph
      ensures Pump(d, ph, out, used) == PumpBody(c, old(d), h, n, b, buf)
    {
      var k := n - |b|;
      if |buf| < k {
        ph := Waiting(h, n, b + buf);
        return More, |buf|;
      }
      ph := Header([]);
      var pt := c.open(d.dataKey, Nonce12(d.nD), b + buf[..k]);
      if pt.None? {
        return Failed, k;
      }
      d := d.(nD := d.nD + 1);
      if |pt.value| < 2 {
        return Failed, k;
      }
      var len := ReadU16(pt.value[..2]);
      if 2 + len > |pt.value| {
        return Failed, k;
      }
      return Taken(pt.value[2..2 + len]), k;
    }

    /** Goes on with the frame in progress, or starts one, using the octets of `buf`. */
    method ReadFrame(buf: seq<byte>) returns (out: Outcome, used: nat)
      requires Valid()
      modifies this`d, this`ph
      ensures Pump(d, ph, out, used) == Pumped(c, old(d), old(ph), buf)
    {
      if ph.Waiting? {
        out, used := ReadBody(ph.encLen, ph.dataLen, ph.encData, buf);
        return;
      }
      var k := LEN_HDR - |ph.encLen|;
      if |buf| < k {
        ph := Header(ph.encLen + buf);
        return More, |buf|;
      }
      var encLen := ph.encLen + buf[..k];
      ph := Header([]);
      assert encLen[..LEN_HDR] == encLen;
      var lp := c.open(d.lenKey, Nonce12(d.nL), encLen);
      if lp.None? {
        return Failed, k;
      }
      d := d.(nL := d.nL + 1);
      var n := ReadU16(lp.value);
      if n < 2 + TAG || n > MAX_CHUNK {
        return Failed, k;
      }
      out, used := ReadBody(encLen, n, [], buf[k..]);
      used := used + k;
    }

    /** Leftovers first; otherwise one frame, of which what does not fit is kept. Wait tells that the call is still blocked. */
    method Read(n: nat, buf: seq<byte>) returns (r: ReadResult, used: nat)
      requires Valid()
      modifies this
      ensures var st := Called(c, Reader(old(d), old(ph), old(rbuf)), n, buf); (Reader(d, ph, rbuf), r, used) == (st.rd, st.r, st.used)
    {
      if rbuf != [] {
        var k := Min(n, |rbuf|);
        r, used := Data(rbuf[..k]), 0;
        rbuf := rbuf[k..];
        return;
      }
      var out, u := ReadFrame(buf);
      match out
      case More => return Wait, u;
      case Failed => return Broken, u;
      case Taken(payload) =>
        var k := Min(n, |payload|);
        assert k == |payload| ==> payload[k..] == [];
        rbuf := if k < |payload| then payload[k..] else [];
        return Data(payload[..k]), u;
    }

    /** A deadline passes while the call is blocked: it returns an error and what it had taken is lost. */
    method TimeOut()
      modifies this`ph
      ensures Reader(d, ph, rbuf) == TimedOut(old(Reader(d, ph, rbuf)))
    {
      ph := Header([]);
    }
  }

  datatype Reader = Reader(d: Dir, ph: Phase, rbuf: seq<byte>)

  datatype Call = Call(rd: Reader, r: ReadResult, used: nat)

  ghost function Called(c: Cipher, rd: Reader, n: nat, buf: seq<byte>): Call
    requires Sound(c) && PhaseOk(c, rd.d, rd.ph)
  {
    if rd.rbuf != [] then
      var k := Min(n, |rd.rbuf|);
      Call(rd.(rbuf := rd.rbuf[k..]), Data(rd.rbuf[..k]), 0)
    else
      var p := Pumped(c, rd.d, rd.ph, buf);
      match p.out
      case More => Call(Reader(p.d, p.ph, []), Wait, p.used)
      case Failed => Call(Reader(p.d, p.ph, []), Broken, p.used)
      case Taken(payload) =>
        var k := Min(n, |payload|);
        Call(Reader(p.d, p.ph, payload[k..]), Data(payload[..k]), p.used)
  }

  function TimedOut(rd: Reader): Reader { rd.(ph := IDLE) }

  // ---- Taking a frame apart as it arrives is reading it whole -----------------------------------

  /** What pumping comes to, given what reading the same octets at once would give. */
  ghost predicate SameAsWhole(c: Cipher, d: Dir, ph: Phase, buf: seq<byte>, p: Pump)
    requires Sound(c)
  {
    match RecordStream.ReadFrame(c, Base(d, ph), ph.Held() + buf)
    case NeedMore =>
      && p.out == More && p.used == |buf| && PhaseOk(c, p.d, p.ph)
      && Base(p.d, p.ph) == Base(d, ph) && p.ph.Held() == ph.Held() + buf
    case Bad => p.out == Failed
    case Got(payload, used) =>
      p.out == Taken(payload) && p.d == Advance(Base(d, ph)) && p.ph == IDLE && p.used == used - |ph.Held()| && used >= |ph.Held()|
  }

  lemma BodyAsWhole(c: Cipher, d: Dir, h: seq<byte>, n: nat, b: seq<byte>, buf: seq<byte>)
    requires Sound(c) && d.nL > 0 && |h| == LEN_HDR && |b| < n && 2 + TAG <= n <= MAX_CHUNK
    requires Announced(c, d.(nL := d.nL - 1), h) == Some(n)
    ensures SameAsWhole(c, d, Waiting(h, n, b), buf, PumpBody(c, d, h, n, b, buf))
  {
    var all := (h + b) + buf;
    assert all[..LEN_HDR] == h == h[..LEN_HDR];
    Assoc(h, b, buf);
    if |buf| >= n - |b| {
      assert all[LEN_HDR..LEN_HDR + n] == b + buf[..n - |b|];
    }
  }

  lemma HeaderAsWhole(c: Cipher, d: Dir, h: seq<byte>, buf: seq<byte>)
    requires Sound(c) && |h| < LEN_HDR
    ensures SameAsWhole(c, d, Header(h), buf, PumpHeader(c, d, h, buf))
  {
    var k := LEN_HDR - |h|;
    if |buf| >= k {
      var head, rest := h + buf[..k], buf[k..];
      assert h + buf == head + rest == (head + []) + rest;
      assert (h + buf)[..LEN_HDR] == head == head[..LEN_HDR];
      match Announced(c, d, head)
      case None =>
      case Some(n) =>
        if 2 + TAG <= n <= MAX_CHUNK { BodyAsWhole(c, d.(nL := d.nL + 1), head, n, [], rest); }
    }
  }

  /** However a frame's octets arrive, the result is that of reading them in one piece. */
  lemma PumpingIsReading(c: Cipher, d: Dir, ph: Phase, buf: seq<byte>)
    requires Sound(c) && PhaseOk(c, d, ph)
    ensures SameAsWhole(c, d, ph, buf, Pumped(c, d, ph, buf))
  {
    match ph
    case Header(h) => HeaderAsWhole(c, d, h, buf);
    case Waiting(h, n, b) => BodyAsWhole(c, d, h, n, b, buf);
  }

  lemma PumpKeepsPhase(c: Cipher, d: Dir, ph: Phase, buf: seq<byte>)
    requires Sound(c) && PhaseOk(c, d, ph)
    ensures var p := Pumped(c, d, ph, buf); PhaseOk(c, p.d, p.ph) && p.used <= |buf|
  {
    PumpingIsReading(c, d, ph, buf);
  }

  // ---- Runs -----------------------------------------------------------------------------------

  /** One direction of a connection whose reader may be in the middle of a frame. */
  datatype Conn = Conn(tx: Dir, rd: Reader, wire: seq<byte>, written: seq<byte>, read: seq<byte>, frames: nat, broken: bool)

  datatype Event =
    | Writing(p: seq<byte>, maxPad: int, draws: nat -> Draw)
    | Reading(n: nat, arrived: nat)
    | Expiry

  ghost predicate Ready(c: Cipher, l: Conn)
    requires Sound(c)
  {
    PhaseOk(c, l.rd.d, l.rd.ph)
  }

  ghost function After(c: Cipher, l: Conn, e: Event): Conn
    requires Sound(c) && Ready(c, l)
  {
    match e
    case Writing(p, maxPad, draws) =>
      var rs := Records(p, maxPad, draws, 0);
      l.(tx := AdvanceBy(l.tx, |rs|), wire := l.wire + WireOf(c, l.tx, rs), written := l.written + p, frames := l.frames + |rs|)
    case Reading(n, arrived) =>
      Given(l, Called(c, l.rd, n, l.wire[..Min(arrived, |l.wire|)]))
    case Expiry => l.(rd := TimedOut(l.rd))
  }

  ghost function Given(l: Conn, k: Call): Conn {
    l.(rd := k.rd, wire := l.wire[Min(k.used, |l.wire|)..],
       read := l.read + (if k.r.Data? then k.r.bytes else []), broken := l.broken || k.r.Broken?)
  }

  lemma AfterIsReady(c: Cipher, l: Conn, e: Event)
    requires Sound(c) && Ready(c, l)
    ensures Ready(c, After(c, l, e))
  {
    match e
    case Writing(_, _, _) =>
    case Reading(n, arrived) => PumpKeepsPhase(c, l.rd.d, l.rd.ph, l.wire[..Min(arrived, |l.wire|)]);
    case Expiry =>
  }

  function Start(dataKey: seq<byte>, lenKey: seq<byte>): Conn {
    Conn(Dir(dataKey, lenKey, 0, 0), Reader(Dir(dataKey, lenKey, 0, 0), IDLE, []), [], [], [], 0, false)
  }

  ghost function RunOf(c: Cipher, dataKey: seq<byte>, lenKey: seq<byte>, es: seq<Event>): (l: Conn)
    requires Sound(c)
    ensures Ready(c, l)
  {
    if es == [] then Start(dataKey, lenKey)
    else
      var l := RunOf(c, dataKey, lenKey, es[..|es| - 1]);
      AfterIsReady(c, l, es[|es| - 1]);
      After(c, l, es[|es| - 1])
  }

  /** The connection as if the octets taken by a blocked call were still on their way. */
  function Rewound(l: Conn): Link {
    Link(l.tx, Base(l.rd.d, l.rd.ph), l.rd.ph.Held() + l.wire, l.rd.rbuf, l.written, l.read, l.frames, l.broken)
  }

  /** A deadline changes nothing exactly when the blocked call had not taken a single octet. */
  lemma ExpiryUnseenIff(c: Cipher, l: Conn)
    requires Sound(c) && Ready(c, l)
    ensures Rewound(After(c, l, Expiry)) == Rewound(l) <==> l.rd.ph.Held() == []
  {
    assert |Rewound(After(c, l, Expiry)).wire| == |l.wire| && |Rewound(l).wire| == |l.rd.ph.Held()| + |l.wire|;
  }

  lemma WritingRewound(c: Cipher, l: Conn, p: seq<byte>, maxPad: int, draws: nat -> Draw)
    requires Sound(c) && Ready(c, l)
    ensures Rewound(After(c, l, Writing(p, maxPad, draws))) == Step(c, Rewound(l), WriteOp(p, maxPad, draws))
  {
    Assoc(l.rd.ph.Held(), l.wire, WireOf(c, l.tx, Records(p, maxPad, draws, 0)));
  }

  lemma VisibleRewound(held: seq<byte>, wire: seq<byte>, arrived: nat)
    ensures (held + wire)[..Min(arrived + |held|, |held + wire|)] == held + wire[..Min(arrived, |wire|)]
  {}

  lemma DropTwice(held: seq<byte>, wire: seq<byte>, k: nat)
    requires k <= |wire|
    ensures (held + wire[..k]) + wire[k..] == held + wire && (held + wire)[|held| + k..] == wire[k..]
  {
    assert wire[..k] + wire[k..] == wire;
    Assoc(held, wire[..k], wire[k..]);
  }

  /** A call in steps does to the rewound connection what a call on whole frames does. */
  lemma ReadingRewound(c: Cipher, l: Conn, n: nat, arrived: nat)
    requires Sound(c) && Ready(c, l)
    requires !Step(c, Rewound(l), ReadOp(n, arrived + |l.rd.ph.Held()|)).broken
    ensures Rewound(After(c, l, Reading(n, arrived))) == Step(c, Rewound(l), ReadOp(n, arrived + |l.rd.ph.Held()|))
  {
    var held, buf := l.rd.ph.Held(), l.wire[..Min(arrived, |l.wire|)];
    VisibleRewound(held, l.wire, arrived);
    CallsAgree(c, l, n, arrived);
    SameOutcomeSameLink(l, Called(c, l.rd, n, buf), ReadCall(c, Base(l.rd.d, l.rd.ph), l.rd.rbuf, n, held + buf));
  }

  lemma CallsAgree(c: Cipher, l: Conn, n: nat, arrived: nat)
    requires Sound(c) && Ready(c, l)
    requires !ReadCall(c, Base(l.rd.d, l.rd.ph), l.rd.rbuf, n, l.rd.ph.Held() + l.wire[..Min(arrived, |l.wire|)]).2.Broken?
    ensures var buf := l.wire[..Min(arrived, |l.wire|)];
      SameOutcome(l, Called(c, l.rd, n, buf), ReadCall(c, Base(l.rd.d, l.rd.ph), l.rd.rbuf, n, l.rd.ph.Held() + buf))
  {
    var held, buf := l.rd.ph.Held(), l.wire[..Min(arrived, |l.wire|)];
    if l.rd.rbuf != [] {
      assert (held + l.wire)[0..] == held + l.wire && l.wire[0..] == l.wire;
    } else {
      match RecordStream.ReadFrame(c, Base(l.rd.d, l.rd.ph), held + buf)
      case NeedMore => MoreIsSame(c, l, n, arrived);
      case Got(payload, used) =>
        CallTakesFrame(c, l.rd, n, buf);
        FrameIsSame(l, Called(c, l.rd, n, buf), ReadCall(c, Base(l.rd.d, l.rd.ph), l.rd.rbuf, n, held + buf));
      case Bad => assert false;
    }
  }

  /** The outcomes of a call in steps and of one on whole frames describe the same connection. */
  ghost predicate SameOutcome(l: Conn, k: Call, call: (Dir, seq<byte>, ReadResult, nat)) {
    var (d, rbuf, r, used) := call;
    && k.rd.rbuf == rbuf && k.r == r && k.used <= |l.wire|
    && Base(k.rd.d, k.rd.ph) == d && used <= |l.rd.ph.Held() + l.wire|
    && k.rd.ph.Held() + l.wire[k.used..] == (l.rd.ph.Held() + l.wire)[used..]
  }

  lemma SameOutcomeSameLink(l: Conn, k: Call, call: (Dir, seq<byte>, ReadResult, nat))
    requires SameOutcome(l, k, call)
    ensures Rewound(Given(l, k)) == Handed(Rewound(l), call)
  {}

  lemma MoreIsSame(c: Cipher, l: Conn, n: nat, arrived: nat)
    requires Sound(c) && Ready(c, l) && l.rd.rbuf == []
    requires RecordStream.ReadFrame(c, Base(l.rd.d, l.rd.ph), l.rd.ph.Held() + l.wire[..Min(arrived, |l.wire|)]).NeedMore?
    ensures var buf := l.wire[..Min(arrived, |l.wire|)];
      SameOutcome(l, Called(c, l.rd, n, buf), ReadCall(c, Base(l.rd.d, l.rd.ph), l.rd.rbuf, n, l.rd.ph.Held() + buf))
  {
    var buf := l.wire[..Min(arrived, |l.wire|)];
    PumpingIsReading(c, l.rd.d, l.rd.ph, buf);
    DropTwice(l.rd.ph.Held(), l.wire, |buf|);
    assert (l.rd.ph.Held() + l.wire)[0..] == l.rd.ph.Held() + l.wire;
  }

  lemma CallTakesFrame(c: Cipher, rd: Reader, n: nat, buf: seq<byte>)
    requires Sound(c) && PhaseOk(c, rd.d, rd.ph) && rd.rbuf == []
    requires RecordStream.ReadFrame(c, Base(rd.d, rd.ph), rd.ph.Held() + buf).Got?
    ensures var k, (d, rbuf, r, used) := Called(c, rd, n, buf), ReadCall(c, Base(rd.d, rd.ph), rd.rbuf, n, rd.ph.Held() + buf);
      k.rd == Reader(d, IDLE, rbuf) && k.r == r && k.used <= |buf| && used == |rd.ph.Held()| + k.used
  {
    PumpingIsReading(c, rd.d, rd.ph, buf);
    PumpKeepsPhase(c, rd.d, rd.ph, buf);
  }

  lemma FrameIsSame(l: Conn, k: Call, call: (Dir, seq<byte>, ReadResult, nat))
    requires var (d, rbuf, r, used) := call;
      k.rd == Reader(d, IDLE, rbuf) && k.r == r && k.used <= |l.wire| && used == |l.rd.ph.Held()| + k.used
    ensures SameOutcome(l, k, call)
  {
    DropTwice(l.rd.ph.Held(), l.wire, k.used);
    assert [] + l.wire[k.used..] == l.wire[k.used..];
  }

  /** No deadline passes while part of a frame has been taken. */
  ghost predicate Undisturbed(c: Cipher, dataKey: seq<byte>, lenKey: seq<byte>, es: seq<Event>)
    requires Sound(c)
  {
    forall i :: 0 <= i < |es| && es[i].Expiry? ==> RunOf(c, dataKey, lenKey, es[..i]).rd.ph.Held() == []
  }

  lemma {:induction false} WholeFrameRun(c: Cipher, dataKey: seq<byte>, lenKey: seq<byte>, es: seq<Event>) returns (ops: seq<Op>)
    requires Sound(c) && Undisturbed(c, dataKey, lenKey, es)
    ensures Rewound(RunOf(c, dataKey, lenKey, es)) == Run(c, Fresh(dataKey, lenKey), ops)
  {
    if es == [] {
      ops := [];
    } else {
      var front, e := es[..|es| - 1], es[|es| - 1];
      assert forall i :: 0 <= i < |front| ==> front[..i] == es[..i];
      ops := WholeFrameRun(c, dataKey, lenKey, front);
      var l := RunOf(c, dataKey, lenKey, front);
      match e
      case Writing(p, maxPad, draws) =>
        WritingRewound(c, l, p, maxPad, draws);
        ops := OneOpMore(c, dataKey, lenKey, ops, WriteOp(p, maxPad, draws));
      case Reading(n, arrived) =>
        var op := ReadOp(n, arrived + |l.rd.ph.Held()|);
        var more := OneOpMore(c, dataKey, lenKey, ops, op);
        StreamIsFaithful(c, dataKey, lenKey, more);
        ReadingRewound(c, l, n, arrived);
        ops := more;
      case Expiry =>
        ExpiryUnseenIff(c, l);
    }
  }

  lemma OneOpMore(c: Cipher, dataKey: seq<byte>, lenKey: seq<byte>, ops: seq<Op>, op: Op) returns (more: seq<Op>)
    requires Sound(c)
    ensures Run(c, Fresh(dataKey, lenKey), more) == Step(c, Run(c, Fresh(dataKey, lenKey), ops), op)
  {
    more := ops + [op];
    assert more[..|more| - 1] == ops;
  }

  /**
   * Octets may arrive in any portions, calls may block anywhere in a frame, and deadlines may pass between frames: the
   * reader never fails and sees a prefix of what was written, and only a call that waits for a body has its length counter ahead.
   */
  lemma BlockingIsFaithful(c: Cipher, dataKey: seq<byte>, lenKey: seq<byte>, es: seq<Event>)
    requires Sound(c) && Undisturbed(c, dataKey, lenKey, es)
    ensures var l := RunOf(c, dataKey, lenKey, es);
      && !l.broken && l.read <= l.written
      && (l.wire == [] && l.rd.rbuf == [] && l.rd.ph == IDLE ==> l.read == l.written && l.tx == l.rd.d)
      && l.tx.nD == l.tx.nL == l.frames && l.rd.d.nL == l.rd.d.nD + (if l.rd.ph.Waiting? then 1 else 0)
  {
    var ops := WholeFrameRun(c, dataKey, lenKey, es);
    StreamIsFaithful(c, dataKey, lenKey, ops);
  }

  /** Once everything sent has arrived, a call for at least one octet returns some, wherever in a frame it was blocked. */
  lemma BlockedCallReturns(c: Cipher, dataKey: seq<byte>, lenKey: seq<byte>, es: seq<Event>, n: nat)
    requires Sound(c) && Undisturbed(c, dataKey, lenKey, es) && n > 0
    ensures var l := RunOf(c, dataKey, lenKey, es); l.read != l.written ==> |After(c, l, Reading(n, |l.wire|)).read| > |l.read|
  {
    var l := RunOf(c, dataKey, lenKey, es);
    var ops := WholeFrameRun(c, dataKey, lenKey, es);
    var v := |Rewound(l).wire|;
    assert v == |l.wire| + |l.rd.ph.Held()|;
    var more := OneOpMore(c, dataKey, lenKey, ops, ReadOp(n, v));
    StreamIsFaithful(c, dataKey, lenKey, more);
    ReadsMakeProgress(c, dataKey, lenKey, ops, n);
    SameOctetsRead(c, l, n, v);
  }

  lemma SameOctetsRead(c: Cipher, l: Conn, n: nat, v: nat)
    requires Sound(c) && Ready(c, l) && v == |l.wire| + |l.rd.ph.Held()| && !Step(c, Rewound(l), ReadOp(n, v)).broken
    ensures After(c, l, Reading(n, |l.wire|)).read == Step(c, Rewound(l), ReadOp(n, v)).read
  {
    ReadingRewound(c, l, n, |l.wire|);
  }

  // ---- A deadline inside a frame ----------------------------------------------------------------

  function Mark(k: seq<byte>): (m: seq<byte>)
    ensures |m| == TAG
  {
    seq(TAG, _ => if k == [] then 0 else k[0])
  }

  function OpenMarked(k: seq<byte>, n: seq<byte>, x: seq<byte>): Option<seq<byte>> {
    if |x| >= TAG && x[|x| - TAG..] == Mark(k) then Some(x[..|x| - TAG]) else None
  }

  /** A stand-in that only shows which key sealed a record. */
  function Marked(): Cipher {
    Cipher((k: seq<byte>, n: seq<byte>, p: seq<byte>) => p + Mark(k), OpenMarked)
  }

  lemma MarkedIsSound()
    ensures Sound(Marked())
  {
    var c := Marked();
    forall k: seq<byte>, n: seq<byte>, p: seq<byte>
      ensures |c.seal(k, n, p)| == |p| + TAG && c.open(k, n, c.seal(k, n, p)) == Some(p)
    {
      assert (p + Mark(k))[|p|..] == Mark(k) && (p + Mark(k))[..|p|] == p;
    }
  }

  function NoShaping(k: nat): Draw { Draw(0, None) }

  /** The connection after one octet was sent. */
  function Sent(dk: seq<byte>, lk: seq<byte>, x: byte): Conn {
    Conn(Dir(dk, lk, 1, 1), Reader(Dir(dk, lk, 0, 0), IDLE, []), HeadMark(lk) + BodyMark(dk, x), [x], [], 1, false)
  }

  function HeadMark(lk: seq<byte>): seq<byte> { U16(19) + Mark(lk) }

  function BodyMark(dk: seq<byte>, x: byte): seq<byte> { U16(1) + [x] + Mark(dk) }

  /** The same once the length record has arrived and the call waits for the body. */
  function Blocked(dk: seq<byte>, lk: seq<byte>, x: byte): Conn {
    Sent(dk, lk, x).(rd := Reader(Dir(dk, lk, 0, 1), Waiting(HeadMark(lk), 19, []), []), wire := BodyMark(dk, x))
  }

  lemma OneRecord(x: byte)
    ensures Records([x], 0, NoShaping, 0) == [Record([x], 0)]
  {
    var p: seq<byte> := [x];
    assert p[..1] == p && p[1..] == [] && Pad(0, 1, NoShaping(0)) == 0;
    assert Records(p[1..], 0, NoShaping, 1) == [];
  }

  lemma OneFrame(dk: seq<byte>, lk: seq<byte>, x: byte)
    requires Sound(Marked())
    ensures WireOf(Marked(), Dir(dk, lk, 0, 0), [Record([x], 0)]) == HeadMark(lk) + BodyMark(dk, x)
  {
    var d, r := Dir(dk, lk, 0, 0), Record([x], 0);
    assert Plaintext(r) == U16(1) + [x];
    assert Body(Marked(), d, r) == BodyMark(dk, x);
    assert Head(Marked(), d, 19) == HeadMark(lk);
    assert [r][1..] == [];
    assert WireOf(Marked(), Advance(d), []) == [];
  }

  lemma OneOctetSent(dk: seq<byte>, lk: seq<byte>, x: byte)
    requires Sound(Marked())
    ensures After(Marked(), Start(dk, lk), Writing([x], 0, NoShaping)) == Sent(dk, lk, x)
  {
    OneRecord(x);
    OneFrame(dk, lk, x);
  }

  lemma HeaderTaken(dk: seq<byte>, lk: seq<byte>, x: byte)
    requires Sound(Marked())
    ensures Ready(Marked(), Sent(dk, lk, x)) && After(Marked(), Sent(dk, lk, x), Reading(1, LEN_HDR)) == Blocked(dk, lk, x)
  {
    var h, b := HeadMark(lk), BodyMark(dk, x);
    assert (h + b)[..LEN_HDR] == h && [] + h == h && h[..LEN_HDR] == h && h[LEN_HDR..] == [] && (h + b)[LEN_HDR..] == b;
    assert h[2..] == Mark(lk) && h[..2] == U16(19);
    U16Fits(19);
    assert Announced(Marked(), Dir(dk, lk, 0, 0), h) == Some(19);
  }

  lemma BodyIsNoHeader(dk: seq<byte>, lk: seq<byte>, x: byte, l: Conn)
    requires Sound(Marked()) && lk != [] && x != lk[0] && l == Blocked(dk, lk, x).(rd := TimedOut(Blocked(dk, lk, x).rd))
    ensures Ready(Marked(), l) && After(Marked(), l, Reading(1, LEN_HDR)).broken
  {
    var head := BodyMark(dk, x)[..LEN_HDR];
    assert [] + head == head && head[..LEN_HDR] == head;
    assert head[2] == BodyMark(dk, x)[2] == x;
    assert head[2..][0] == x && Mark(lk)[0] == lk[0];
    assert Announced(Marked(), l.rd.d, head) == None;
  }

  lemma OneEventMore(c: Cipher, dk: seq<byte>, lk: seq<byte>, es: seq<Event>, e: Event, l: Conn)
    requires Sound(c) && RunOf(c, dk, lk, es) == l
    ensures Ready(c, l) && RunOf(c, dk, lk, es + [e]) == After(c, l, e)
  {
    assert (es + [e])[..|es|] == es;
  }

  lemma RunToBlocked(dk: seq<byte>, lk: seq<byte>, x: byte, es: seq<Event>)
    requires Sound(Marked()) && es == [Writing([x], 0, NoShaping), Reading(1, LEN_HDR)]
    ensures RunOf(Marked(), dk, lk, es) == Blocked(dk, lk, x)
  {
    OneOctetSent(dk, lk, x);
    OneEventMore(Marked(), dk, lk, [], es[0], Start(dk, lk));
    assert [] + [es[0]] == es[..1];
    OneEventMore(Marked(), dk, lk, es[..1], es[1], Sent(dk, lk, x));
    assert es[..1] + [es[1]] == es;
    HeaderTaken(dk, lk, x);
  }

  lemma RunToExpiry(dk: seq<byte>, lk: seq<byte>, x: byte, es: seq<Event>, l: Conn)
    requires Sound(Marked()) && es == [Writing([x], 0, NoShaping), Reading(1, LEN_HDR), Expiry]
    requires l == Blocked(dk, lk, x).(rd := TimedOut(Blocked(dk, lk, x).rd))
    ensures RunOf(Marked(), dk, lk, es) == l
  {
    RunToBlocked(dk, lk, x, es[..2]);
    OneEventMore(Marked(), dk, lk, es[..2], Expiry, Blocked(dk, lk, x));
    assert es[..2] + [Expiry] == es;
  }

  lemma LastBreaks(c: Cipher, dk: seq<byte>, lk: seq<byte>, es: seq<Event>, e: Event, l: Conn)
    requires Sound(c) && RunOf(c, dk, lk, es) == l && Ready(c, l) && After(c, l, e).broken
    ensures RunOf(c, dk, lk, es + [e]).broken
  {
    OneEventMore(c, dk, lk, es, e, l);
  }

  /** One octet is sent, its length record arrives, a deadline passes, the body arrives: the reader takes the body for a length record and fails. */
  lemma ExpiryInsideFrameBreaks(dk: seq<byte>, lk: seq<byte>, x: byte)
    requires lk != [] && x != lk[0]
    ensures Sound(Marked())
    ensures RunOf(Marked(), dk, lk, [Writing([x], 0, NoShaping), Reading(1, LEN_HDR), Expiry] + [Reading(1, LEN_HDR)]).broken
  {
    MarkedIsSound();
    var es, l := [Writing([x], 0, NoShaping), Reading(1, LEN_HDR), Expiry], Blocked(dk, lk, x).(rd := TimedOut(Blocked(dk, lk, x).rd));
    RunToExpiry(dk, lk, x, es, l);
    BodyIsNoHeader(dk, lk, x, l);
    LastBreaks(Marked(), dk, lk, es, Reading(1, LEN_HDR), l);
  }
}
