/** The padded AEAD record stream that carries a byte stream after the handshake. */
module RecordStream {
  import opened Bytes
  import opened Collections

  const MAX_FRAME := 16384
  const MAX_PAD := 1024
  const TAG := 16
  const LEN_HDR := 2 + TAG
  const MAX_CHUNK := 2 + MAX_FRAME + MAX_PAD + TAG

  /** An AEAD without associated data: seal and open take key, nonce and text. */
  datatype Cipher = Cipher(
    seal: (seq<byte>, seq<byte>, seq<byte>) -> seq<byte>,
    open: (seq<byte>, seq<byte>, seq<byte>) -> Option<seq<byte>>)

  ghost predicate Sound(c: Cipher) {
    && (forall k, n, p {:trigger c.seal(k, n, p)} :: |c.seal(k, n, p)| == |p| + TAG && c.open(k, n, c.seal(k, n, p)) == Some(p))
    && (forall k, n, x {:trigger c.open(k, n, x)} :: c.open(k, n, x).Some? ==> |x| == |c.open(k, n, x).value| + TAG)
  }

  /** The assumption can be met. */
  lemma SomeCipherIsSound()
    ensures exists c :: Sound(c)
  {
    var c := Cipher((k: seq<byte>, n: seq<byte>, p: seq<byte>) => p + Zeros(TAG),
      (k: seq<byte>, n: seq<byte>, x: seq<byte>) => if |x| < TAG then None else Some(x[..|x| - TAG]));
    forall k: seq<byte>, n: seq<byte>, p: seq<byte>
      ensures |c.seal(k, n, p)| == |p| + TAG && c.open(k, n, c.seal(k, n, p)) == Some(p)
    {
      assert (p + Zeros(TAG))[..|p|] == p;
    }
    assert Sound(c);
  }

  /**
   * One direction: its two keys and the two counters. The source's counters are 64 bits wide; here they count
   * without bound and the nonce takes their low 64 bits, which is the same thing.
   */
  datatype Dir = Dir(dataKey: seq<byte>, lenKey: seq<byte>, nD: nat, nL: nat)

  function Advance(d: Dir): Dir { d.(nD := d.nD + 1, nL := d.nL + 1) }

  function Reverse(s: seq<byte>): (r: seq<byte>)
    ensures |r| == |s|
    ensures forall i :: 0 <= i < |s| ==> r[i] == s[|s| - 1 - i]
  {
    if s == [] then [] else Reverse(s[1..]) + [s[0]]
  }

  /** Four zero octets and the counter, least significant octet first. */
  function Nonce12(ctr: nat): seq<byte> {
    [0, 0, 0, 0] + Reverse(U64(ctr % U64_LIMIT))
  }

  /** Two uses of one key share a nonce exactly when their counters agree modulo 2^64. */
  lemma NonceReuseIff(a: nat, b: nat)
    ensures Nonce12(a) == Nonce12(b) <==> a % U64_LIMIT == b % U64_LIMIT
  {
    if Nonce12(a) == Nonce12(b) {
      var x, y := U64(a % U64_LIMIT), U64(b % U64_LIMIT);
      assert Nonce12(a)[4..] == Reverse(x) && Nonce12(b)[4..] == Reverse(y);
      assert Reverse(x) == Reverse(y);
      forall i | 0 <= i < 8 ensures x[i] == y[i] { assert Reverse(x)[7 - i] == Reverse(y)[7 - i]; }
      assert x == y;
      U64ReadsBack(a % U64_LIMIT);
      U64ReadsBack(b % U64_LIMIT);
    }
  }

  lemma EarlyNoncesDiffer(i: nat, j: nat)
    requires i < j < U64_LIMIT
    ensures Nonce12(i) != Nonce12(j)
  {
    assert i % U64_LIMIT == i && j % U64_LIMIT == j;
    NonceReuseIff(i, j);
  }

  lemma NoncesWrap()
    ensures Nonce12(0) == Nonce12(U64_LIMIT)
  {
    NonceReuseIff(0, U64_LIMIT);
  }

  /** The first n frames under a key use n different nonces exactly when n is at most 2^64. */
  lemma FreshNoncesIff(n: nat)
    ensures (forall i: nat, j: nat :: i < j < n ==> Nonce12(i) != Nonce12(j)) <==> n <= U64_LIMIT
  {
    if n <= U64_LIMIT {
      forall i: nat, j: nat | i < j < n ensures Nonce12(i) != Nonce12(j) { EarlyNoncesDiffer(i, j); }
    } else {
      NoncesWrap();
    }
  }

  /** Random inputs to one frame: a 64-bit draw for the pad and, when shaping is on, the length asked for. */
  datatype Draw = Draw(next64: nat, target: Option<int>)

  function PadLen(maxPad: int, next64: nat): nat {
    if maxPad <= 0 then 0 else next64 % (maxPad + 1)
  }

  function ShapePad(n: nat, target: Option<int>): nat {
    match target
    case None => 0
    case Some(t) => if t <= n then 0 else Min(t - n, MAX_PAD)
  }

  /** The pad the Go writer uses. */
  function Pad(maxPad: int, n: nat, d: Draw): (pad: nat)
    ensures pad <= MAX_PAD
  {
    Min(PadLen(maxPad, d.next64) + ShapePad(n, d.target), MAX_PAD)
  }

  /** The pad the Java writer uses: the shaping part is clipped only in the sum. */
  function JavaPad(n: nat, d: Draw): int {
    var shape := if d.target.Some? && d.target.value > n then d.target.value - n else 0;
    var pad := PadLen(MAX_PAD, d.next64) + shape;
    if pad > MAX_PAD then MAX_PAD else pad
  }

  lemma JavaPadIsGoPad(n: nat, d: Draw)
    ensures JavaPad(n, d) == Pad(MAX_PAD, n, d)
  {}

  /** What one frame carries. */
  datatype Record = Record(payload: seq<byte>, pad: nat)

  ghost predicate Good(r: Record) { 0 < |r.payload| <= MAX_FRAME && r.pad <= MAX_PAD }

  function Plaintext(r: Record): seq<byte> { U16(|r.payload|) + r.payload + Zeros(r.pad) }

  function Body(c: Cipher, d: Dir, r: Record): seq<byte> {
    c.seal(d.dataKey, Nonce12(d.nD), Plaintext(r))
  }

  function Head(c: Cipher, d: Dir, bodyLen: nat): seq<byte> {
    c.seal(d.lenKey, Nonce12(d.nL), U16(bodyLen))
  }

  function Frame(c: Cipher, d: Dir, r: Record): seq<byte> {
    Head(c, d, |Body(c, d, r)|) + Body(c, d, r)
  }

  datatype Parsed = NeedMore | Bad | Got(payload: seq<byte>, used: nat)

  /** What the length record announces, if it opens. */
  ghost function Announced(c: Cipher, d: Dir, buf: seq<byte>): Option<nat>
    requires Sound(c) && |buf| >= LEN_HDR
  {
    match c.open(d.lenKey, Nonce12(d.nL), buf[..LEN_HDR])
    case None => None
    case Some(lp) => Some(ReadU16(lp))
  }

  /** Reading one frame from the octets that have arrived. */
  ghost function ReadFrame(c: Cipher, d: Dir, buf: seq<byte>): Parsed
    requires Sound(c)
  {
    if |buf| < LEN_HDR then NeedMore
    else
      match Announced(c, d, buf)
      case None => Bad
      case Some(n) =>
        if n < 2 + TAG || n > MAX_CHUNK then Bad
        else if |buf| < LEN_HDR + n then NeedMore
        else
          match c.open(d.dataKey, Nonce12(d.nD), buf[LEN_HDR..LEN_HDR + n])
          case None => Bad
          case Some(pt) =>
            if |pt| < 2 then Bad
            else
              var len := ReadU16(pt[..2]);
              if 2 + len > |pt| then Bad else Got(pt[2..2 + len], LEN_HDR + n)
  }

  /** The length record in front opens and announces n octets. */
  ghost predicate Announces(c: Cipher, d: Dir, buf: seq<byte>, n: nat) {
    && |buf| >= 18
    && var lp := c.open(d.lenKey, Nonce12(d.nL), buf[..18]); lp.Some? && |lp.value| == 2 && U16(n) == lp.value && n < U16_LIMIT
  }

  /** The n octets behind the length record open to a 16-bit length, that many octets and padding. */
  ghost predicate Holds(c: Cipher, d: Dir, buf: seq<byte>, n: nat, payload: seq<byte>) {
    && |buf| >= 18 + n && |payload| < U16_LIMIT
    && var pt := c.open(d.dataKey, Nonce12(d.nD), buf[18..18 + n]); pt.Some? && Sized(payload) <= pt.value
  }

  /**
   * Whatever arrives: a payload is accepted exactly when both records in front open under the keys and counters of this
   * frame, announcing 18 to 17426 octets and holding that payload; anything else waits or breaks the stream.
   */
  lemma GotIff(c: Cipher, d: Dir, buf: seq<byte>, payload: seq<byte>, used: nat)
    requires Sound(c)
    ensures ReadFrame(c, d, buf) == Got(payload, used) <==>
      36 <= used <= 17444 && Announces(c, d, buf, used - 18) && Holds(c, d, buf, used - 18, payload)
  {
    AnnouncesIff(c, d, buf, used - 18);
    if |buf| >= used >= 36 { PayloadIff(c.open(d.dataKey, Nonce12(d.nD), buf[18..used]), payload); }
  }

  /** It waits exactly for the length record, or for the rest of what a genuine one announces. */
  lemma WaitsIff(c: Cipher, d: Dir, buf: seq<byte>)
    requires Sound(c)
    ensures ReadFrame(c, d, buf) == NeedMore <==>
      |buf| < 18 || exists n | 18 <= n <= 17426 :: Announces(c, d, buf, n) && |buf| < 18 + n
  {
    if |buf| >= 18 && Announced(c, d, buf).Some? { AnnouncesIff(c, d, buf, Announced(c, d, buf).value); }
    forall n: nat | Announces(c, d, buf, n) ensures Announced(c, d, buf) == Some(n) { AnnouncesIff(c, d, buf, n); }
  }

  lemma AnnouncesIff(c: Cipher, d: Dir, buf: seq<byte>, n: int)
    requires Sound(c)
    ensures n >= 0 ==> (Announces(c, d, buf, n) <==> |buf| >= LEN_HDR && Announced(c, d, buf) == Some(n))
  {
    if |buf| >= 18 && c.open(d.lenKey, Nonce12(d.nL), buf[..18]).Some? {
      var lp := c.open(d.lenKey, Nonce12(d.nL), buf[..18]).value;
      U16Printed(lp);
      if 0 <= n < U16_LIMIT { U16Fits(n); }
    }
  }

  lemma PayloadIff(pt: Option<seq<byte>>, payload: seq<byte>)
    ensures pt.Some? && |payload| < U16_LIMIT && Sized(payload) <= pt.value <==>
      pt.Some? && |pt.value| >= 2 && 2 + ReadU16(pt.value[..2]) <= |pt.value| && payload == pt.value[2..2 + ReadU16(pt.value[..2])]
  {
    if pt.Some? && |pt.value| >= 2 {
      var x := pt.value;
      U16Printed(x[..2]);
      if |payload| < U16_LIMIT && Sized(payload) <= x {
        U16Fits(|payload|);
        assert x[..2] == Sized(payload)[..2] == U16(|payload|);
        assert x[2..2 + |payload|] == Sized(payload)[2..];
      }
      if 2 + ReadU16(x[..2]) <= |x| && payload == x[2..2 + ReadU16(x[..2])] {
        assert x[..2 + |payload|] == U16(|payload|) + payload;
      }
    }
  }

  lemma BodyLength(c: Cipher, d: Dir, r: Record)
    requires Sound(c) && Good(r)
    ensures |Body(c, d, r)| == 2 + |r.payload| + r.pad + TAG
    ensures 2 + TAG < |Body(c, d, r)| <= MAX_CHUNK < U16_LIMIT
  {}

  lemma FrameLength(c: Cipher, d: Dir, r: Record)
    requires Sound(c) && Good(r)
    ensures |Frame(c, d, r)| == LEN_HDR + |Body(c, d, r)|
  {}

  /** A genuine length record announces exactly the body that follows. */
  lemma HeadAnnounces(c: Cipher, d: Dir, n: nat, rest: seq<byte>)
    requires Sound(c) && n < U16_LIMIT
    ensures |Head(c, d, n)| == LEN_HDR && Announced(c, d, Head(c, d, n) + rest) == Some(n)
  {
    U16Fits(n);
    assert (Head(c, d, n) + rest)[..LEN_HDR] == Head(c, d, n);
  }

  /** The reader accepts every frame either writer makes, and takes exactly that frame. */
  lemma FrameReads(c: Cipher, d: Dir, r: Record, rest: seq<byte>)
    requires Sound(c) && Good(r)
    ensures ReadFrame(c, d, Frame(c, d, r) + rest) == Got(r.payload, |Frame(c, d, r)|)
  {
    var body := Body(c, d, r);
    var head, n := Head(c, d, |body|), |body|;
    BodyLength(c, d, r);
    HeadAnnounces(c, d, n, body + rest);
    var buf := Frame(c, d, r) + rest;
    assert buf == head + (body + rest);
    assert buf[LEN_HDR..LEN_HDR + n] == body;
    PlaintextReads(r);
  }

  lemma PlaintextReads(r: Record)
    requires Good(r)
    ensures var pt := Plaintext(r); |pt| >= 2 + |r.payload| && ReadU16(pt[..2]) == |r.payload| && pt[2..2 + |r.payload|] == r.payload
  {
    U16Fits(|r.payload|);
    assert Plaintext(r)[..2] == U16(|r.payload|);
  }

  /** Until a whole frame has arrived the reader waits; it never mistakes a part for a frame. */
  lemma PartialFrameWaits(c: Cipher, d: Dir, r: Record, k: nat)
    requires Sound(c) && Good(r) && k < |Frame(c, d, r)|
    ensures ReadFrame(c, d, Frame(c, d, r)[..k]) == NeedMore
  {
    var body := Body(c, d, r);
    BodyLength(c, d, r);
    if k >= LEN_HDR {
      HeadAnnounces(c, d, |body|, body[..k - LEN_HDR]);
      assert Frame(c, d, r)[..k] == Head(c, d, |body|) + body[..k - LEN_HDR];
    }
  }

  /** The octets of several frames in a row. */
  function WireOf(c: Cipher, d: Dir, rs: seq<Record>): seq<byte>
    decreases |rs|
  {
    if rs == [] then [] else Frame(c, d, rs[0]) + WireOf(c, Advance(d), rs[1..])
  }

  function AdvanceBy(d: Dir, n: nat): Dir { d.(nD := d.nD + n, nL := d.nL + n) }

  lemma {:induction false} WireAppend(c: Cipher, d: Dir, rs: seq<Record>, more: seq<Record>)
    ensures WireOf(c, d, rs + more) == WireOf(c, d, rs) + WireOf(c, AdvanceBy(d, |rs|), more)
    decreases |rs|
  {
    if rs == [] {
      assert rs + more == more;
    } else {
      assert (rs + more)[1..] == rs[1..] + more;
      WireAppend(c, Advance(d), rs[1..], more);
      var tail := WireOf(c, AdvanceBy(d, |rs|), more);
      assert AdvanceBy(Advance(d), |rs| - 1) == AdvanceBy(d, |rs|);
      Assoc(Frame(c, d, rs[0]), WireOf(c, Advance(d), rs[1..]), tail);
    }
  }

  function Payloads(rs: seq<Record>): seq<byte> {
    if rs == [] then [] else rs[0].payload + Payloads(rs[1..])
  }

  lemma {:induction false} PayloadsAppend(rs: seq<Record>, more: seq<Record>)
    ensures Payloads(rs + more) == Payloads(rs) + Payloads(more)
  {
    if rs == [] {
      assert rs + more == more;
    } else {
      assert (rs + more)[1..] == rs[1..] + more;
      PayloadsAppend(rs[1..], more);
      Assoc(rs[0].payload, Payloads(rs[1..]), Payloads(more));
    }
  }

  ghost predicate AllGood(rs: seq<Record>) { forall i :: 0 <= i < |rs| ==> Good(rs[i]) }

  /** How a Write call cuts its buffer, `k` being the number of frames it has already sent. */
  function Records(p: seq<byte>, maxPad: int, draws: nat -> Draw, k: nat): (rs: seq<Record>)
    ensures AllGood(rs)
    decreases |p|
  {
    if p == [] then []
    else
      var n := Min(|p|, MAX_FRAME);
      [Record(p[..n], Pad(maxPad, n, draws(k)))] + Records(p[n..], maxPad, draws, k + 1)
  }

  lemma {:induction false} RecordsCarryAll(p: seq<byte>, maxPad: int, draws: nat -> Draw, k: nat)
    ensures Payloads(Records(p, maxPad, draws, k)) == p
    decreases |p|
  {
    if p != [] {
      var n := Min(|p|, MAX_FRAME);
      RecordsCarryAll(p[n..], maxPad, draws, k + 1);
      var rs := Records(p, maxPad, draws, k);
      assert rs[1..] == Records(p[n..], maxPad, draws, k + 1);
      assert p == p[..n] + p[n..];
    }
  }

  lemma WireSnoc(c: Cipher, d: Dir, rs: seq<Record>, k: nat)
    requires k < |rs|
    ensures WireOf(c, d, rs[..k + 1]) == WireOf(c, d, rs[..k]) + Frame(c, AdvanceBy(d, k), rs[k])
    ensures AdvanceBy(d, k + 1) == Advance(AdvanceBy(d, k))
  {
    assert rs[..k + 1] == rs[..k] + [rs[k]];
    WireAppend(c, d, rs[..k], [rs[k]]);
    assert WireOf(c, AdvanceBy(d, k), [rs[k]]) == Frame(c, AdvanceBy(d, k), rs[k]);
  }

  class Sender {
    const c: Cipher
    const maxPad: int
    var d: Dir

    constructor (c: Cipher, dataKey: seq<byte>, lenKey: seq<byte>, padMax: int)
      ensures this.c == c && maxPad == Min(padMax, MAX_PAD) && d == Dir(dataKey, lenKey, 0, 0)
    {
      this.c, maxPad, d := c, Min(padMax, MAX_PAD), Dir(dataKey, lenKey, 0, 0);
    }

    method WriteFrame(payload: seq<byte>, draw: Draw) returns (wire: seq<byte>)
      modifies this
      ensures wire == Frame(c, old(d), Record(payload, Pad(maxPad, |payload|, draw))) && d == Advance(old(d))
    {
      var pad := PadLen(maxPad, draw.next64) + ShapePad(|payload|, draw.target);
      if pad > MAX_PAD {
        pad := MAX_PAD;
      }
      var body := c.seal(d.dataKey, Nonce12(d.nD), U16(|payload|) + payload + Zeros(pad));
      d := d.(nD := d.nD + 1);
      var head := c.seal(d.lenKey, Nonce12(d.nL), U16(|body|));
      d := d.(nL := d.nL + 1);
      wire := head + body;
    }

    method Write(p: seq<byte>, draws: nat -> Draw) returns (n: nat, wire: seq<byte>)
      modifies this
      ensures n == |p|
      ensures wire == WireOf(c, old(d), Records(p, maxPad, draws, 0))
      ensures d == AdvanceBy(old(d), |Records(p, maxPad, draws, 0)|)
    {
      n, wire := 0, [];
      var left, k := p, 0;
      ghost var all := Records(p, maxPad, draws, 0);
      while left != []
        invariant n + |left| == |p|
        invariant k <= |all| && all[k..] == Records(left, maxPad, draws, k)
        invariant wire == WireOf(c, old(d), all[..k]) && d == AdvanceBy(old(d), k)
        decreases |left|
      {
        var m := Min(|left|, MAX_FRAME);
        var w := WriteFrame(left[..m], draws(k));
        WireSnoc(c, old(d), all, k);
        assert all[k] == all[k..][0];
        wire, n, left, k := wire + w, n + m, left[m..], k + 1;
        assert all[k..] == all[k - 1..][1..];
      }
      assert all[..k] == all;
    }
  }

  datatype ReadResult = Data(bytes: seq<byte>) | Wait | Broken

  /** One Read call on whole frames: new direction state, new leftover, result and octets consumed. */
  ghost function ReadCall(c: Cipher, d: Dir, rbuf: seq<byte>, n: nat, buf: seq<byte>): (Dir, seq<byte>, ReadResult, nat)
    requires Sound(c)
  {
    if rbuf != [] then
      var k := Min(n, |rbuf|);
      (d, rbuf[k..], Data(rbuf[..k]), 0)
    else
      match ReadFrame(c, d, buf)
      case NeedMore => (d, rbuf, Wait, 0)
      case Bad => (d, rbuf, Broken, 0)
      case Got(payload, used) =>
        var k := Min(n, |payload|);
        (Advance(d), payload[k..], Data(payload[..k]), used)
  }

  /** Both ends of one direction, the octets between them, and the history of what was written and read. */
  datatype Link = Link(tx: Dir, rx: Dir, wire: seq<byte>, rbuf: seq<byte>,
                       written: seq<byte>, read: seq<byte>, frames: nat, broken: bool)

  datatype Op =
    | WriteOp(p: seq<byte>, maxPad: int, draws: nat -> Draw)
    | ReadOp(n: nat, visible: nat)

  /** Writes append whole frames; a read sees whatever part of the octets in flight has arrived. */
  ghost function Step(c: Cipher, l: Link, op: Op): Link
    requires Sound(c)
  {
    match op
    case WriteOp(p, maxPad, draws) =>
      var rs := Records(p, maxPad, draws, 0);
      l.(tx := AdvanceBy(l.tx, |rs|), wire := l.wire + WireOf(c, l.tx, rs), written := l.written + p, frames := l.frames + |rs|)
    case ReadOp(n, visible) =>
      Handed(l, ReadCall(c, l.rx, l.rbuf, n, l.wire[..Min(visible, |l.wire|)]))
  }

  ghost function Handed(l: Link, call: (Dir, seq<byte>, ReadResult, nat)): Link {
    var (d, rbuf, r, used) := call;
    l.(rx := d, rbuf := rbuf, wire := l.wire[Min(used, |l.wire|)..],
       read := l.read + (if r.Data? then r.bytes else []), broken := l.broken || r.Broken?)
  }

  /** The octets in flight are exactly the frames `rs`, the next ones the reader expects. */
  ghost predicate Carries(c: Cipher, l: Link, rs: seq<Record>) {
    && AllGood(rs)
    && l.wire == WireOf(c, l.rx, rs)
    && l.tx == AdvanceBy(l.rx, |rs|)
    && l.written == l.read + (l.rbuf + Payloads(rs))
  }

  /** Data and length counters move together, and the reader trails the writer by the frames in flight. */
  ghost predicate Counted(l: Link, inFlight: nat) {
    && l.tx.nD == l.tx.nL == l.frames
    && inFlight <= l.frames
    && l.rx.nD == l.rx.nL == l.frames - inFlight
  }

  ghost predicate InFlight(c: Cipher, l: Link, rs: seq<Record>) {
    Carries(c, l, rs) && Counted(l, |rs|) && !l.broken
  }

  lemma WriteKeepsInFlight(c: Cipher, l: Link, rs: seq<Record>, p: seq<byte>, maxPad: int, draws: nat -> Draw)
    requires Sound(c) && InFlight(c, l, rs)
    ensures InFlight(c, Step(c, l, WriteOp(p, maxPad, draws)), rs + Records(p, maxPad, draws, 0))
  {
    RecordsCarryAll(p, maxPad, draws, 0);
    WriteCarries(c, l, rs, p, Records(p, maxPad, draws, 0));
  }

  lemma WriteCarries(c: Cipher, l: Link, rs: seq<Record>, p: seq<byte>, more: seq<Record>)
    requires Carries(c, l, rs) && AllGood(more) && Payloads(more) == p
    ensures Carries(c, l.(tx := AdvanceBy(l.tx, |more|), wire := l.wire + WireOf(c, l.tx, more), written := l.written + p), rs + more)
  {
    GoodAppend(rs, more);
    WireAppend(c, l.rx, rs, more);
    WrittenGrows(l.read, l.rbuf, rs, more);
  }

  lemma GoodAppend(rs: seq<Record>, more: seq<Record>)
    requires AllGood(rs) && AllGood(more)
    ensures AllGood(rs + more)
  {}

  lemma WrittenGrows(given: seq<byte>, left: seq<byte>, rs: seq<Record>, more: seq<Record>)
    ensures given + (left + Payloads(rs)) + Payloads(more) == given + (left + Payloads(rs + more))
  {
    PayloadsAppend(rs, more);
    Assoc(given, left + Payloads(rs), Payloads(more));
    Assoc(left, Payloads(rs), Payloads(more));
  }

  lemma ReadKeepsInFlight(c: Cipher, l: Link, rs: seq<Record>, n: nat, visible: nat) returns (rs': seq<Record>)
    requires Sound(c) && InFlight(c, l, rs)
    ensures InFlight(c, Step(c, l, ReadOp(n, visible)), rs')
    ensures n > 0 && l.written != l.read && visible >= |l.wire| ==> |Step(c, l, ReadOp(n, visible)).read| > |l.read|
  {
    var seen := l.wire[..Min(visible, |l.wire|)];
    if l.rbuf != [] || rs == [] || |seen| < |Frame(c, l.rx, rs[0])| {
      rs' := rs;
      ReadWithinFrame(c, l, rs, n, visible);
    } else {
      rs' := rs[1..];
      ReadNextFrame(c, l, rs, n, visible);
    }
  }

  /** A read that takes leftovers, or finds no whole frame, leaves the frames in flight alone. */
  lemma ReadWithinFrame(c: Cipher, l: Link, rs: seq<Record>, n: nat, visible: nat)
    requires Sound(c) && InFlight(c, l, rs)
    requires l.rbuf != [] || rs == [] || Min(visible, |l.wire|) < |Frame(c, l.rx, rs[0])|
    ensures var l' := Step(c, l, ReadOp(n, visible)); InFlight(c, l', rs)
    ensures n > 0 && l.written != l.read && visible >= |l.wire| ==> |Step(c, l, ReadOp(n, visible)).read| > |l.read|
  {
    if l.rbuf != [] {
      ReadLeftover(c, l, rs, n, visible);
    } else {
      NoFrameYet(c, l, rs, n, visible);
      if rs != [] { FrameIsOnWire(c, l, rs); }
    }
  }

  lemma FrameIsOnWire(c: Cipher, l: Link, rs: seq<Record>)
    requires rs != [] && l.wire == WireOf(c, l.rx, rs)
    ensures |Frame(c, l.rx, rs[0])| <= |l.wire|
  {}

  lemma NoFrameYet(c: Cipher, l: Link, rs: seq<Record>, n: nat, visible: nat)
    requires Sound(c) && AllGood(rs) && l.wire == WireOf(c, l.rx, rs) && l.rbuf == [] && !l.broken
    requires rs == [] || Min(visible, |l.wire|) < |Frame(c, l.rx, rs[0])|
    ensures Step(c, l, ReadOp(n, visible)) == l
  {
    var k := Min(visible, |l.wire|);
    if rs != [] {
      assert Good(rs[0]);
      assert l.wire[..k] == Frame(c, l.rx, rs[0])[..k];
      PartialFrameWaits(c, l.rx, rs[0], k);
    }
    assert ReadFrame(c, l.rx, l.wire[..k]) == NeedMore;
    assert l.wire[0..] == l.wire && l.read + [] == l.read;
  }

  lemma ReadLeftover(c: Cipher, l: Link, rs: seq<Record>, n: nat, visible: nat)
    requires Sound(c) && InFlight(c, l, rs) && l.rbuf != []
    ensures var l' := Step(c, l, ReadOp(n, visible)); InFlight(c, l', rs)
    ensures n > 0 ==> |Step(c, l, ReadOp(n, visible)).read| > |l.read|
  {
    var k := Min(n, |l.rbuf|);
    LeftoverStep(c, l, n, visible);
    Shift(l.read, l.rbuf, Payloads(rs), k);
  }

  lemma LeftoverStep(c: Cipher, l: Link, n: nat, visible: nat)
    requires Sound(c) && l.rbuf != []
    ensures var k := Min(n, |l.rbuf|);
      Step(c, l, ReadOp(n, visible)) == l.(rbuf := l.rbuf[k..], read := l.read + l.rbuf[..k])
  {
    assert l.wire[0..] == l.wire;
  }

  lemma ReadNextFrame(c: Cipher, l: Link, rs: seq<Record>, n: nat, visible: nat)
    requires Sound(c) && InFlight(c, l, rs) && l.rbuf == [] && rs != []
    requires Min(visible, |l.wire|) >= |Frame(c, l.rx, rs[0])|
    ensures InFlight(c, Step(c, l, ReadOp(n, visible)), rs[1..])
    ensures n > 0 ==> |Step(c, l, ReadOp(n, visible)).read| > |l.read|
  {
    assert Good(rs[0]);
    var f, k := Frame(c, l.rx, rs[0]), Min(n, |rs[0].payload|);
    ArrivedFrame(c, l, rs, l.wire[..Min(visible, |l.wire|)]);
    ReadTakesFrame(l, rs, n);
    FrameLeaves(c, l, rs);
    var l' := l.(rx := Advance(l.rx), rbuf := rs[0].payload[k..], wire := l.wire[|f|..], read := l.read + rs[0].payload[..k]);
    assert Step(c, l, ReadOp(n, visible)) == l';
    assert AllGood(rs[1..]);
  }

  lemma ArrivedFrame(c: Cipher, l: Link, rs: seq<Record>, seen: seq<byte>)
    requires Sound(c) && rs != [] && Good(rs[0]) && l.wire == WireOf(c, l.rx, rs)
    requires seen <= l.wire && |seen| >= |Frame(c, l.rx, rs[0])|
    ensures ReadFrame(c, l.rx, seen) == Got(rs[0].payload, |Frame(c, l.rx, rs[0])|)
  {
    var f, rest := Frame(c, l.rx, rs[0]), WireOf(c, Advance(l.rx), rs[1..]);
    assert seen == f + rest[..|seen| - |f|];
    FrameReads(c, l.rx, rs[0], rest[..|seen| - |f|]);
  }

  lemma FrameLeaves(c: Cipher, l: Link, rs: seq<Record>)
    requires rs != [] && l.wire == WireOf(c, l.rx, rs) && l.tx == AdvanceBy(l.rx, |rs|)
    ensures l.wire[|Frame(c, l.rx, rs[0])|..] == WireOf(c, Advance(l.rx), rs[1..])
    ensures l.tx == AdvanceBy(Advance(l.rx), |rs[1..]|)
  {}

  lemma ReadTakesFrame(l: Link, rs: seq<Record>, n: nat)
    requires rs != [] && l.rbuf == []
    requires l.written == l.read + (l.rbuf + Payloads(rs))
    ensures var p := rs[0].payload; var k := Min(n, |p|); l.written == (l.read + p[..k]) + (p[k..] + Payloads(rs[1..]))
  {
    assert [] + Payloads(rs) == rs[0].payload + Payloads(rs[1..]);
    Shift(l.read, rs[0].payload, Payloads(rs[1..]), Min(n, |rs[0].payload|));
  }

  function Fresh(dataKey: seq<byte>, lenKey: seq<byte>): Link {
    Link(Dir(dataKey, lenKey, 0, 0), Dir(dataKey, lenKey, 0, 0), [], [], [], [], 0, false)
  }

  ghost function Run(c: Cipher, l: Link, ops: seq<Op>): Link
    requires Sound(c)
  {
    if ops == [] then l else Step(c, Run(c, l, ops[..|ops| - 1]), ops[|ops| - 1])
  }

  lemma {:induction false} RunInFlight(c: Cipher, dataKey: seq<byte>, lenKey: seq<byte>, ops: seq<Op>) returns (rs: seq<Record>)
    requires Sound(c)
    ensures InFlight(c, Run(c, Fresh(dataKey, lenKey), ops), rs)
  {
    if ops == [] {
      rs := [];
    } else {
      var l := Run(c, Fresh(dataKey, lenKey), ops[..|ops| - 1]);
      rs := RunInFlight(c, dataKey, lenKey, ops[..|ops| - 1]);
      match ops[|ops| - 1]
      case WriteOp(p, maxPad, draws) =>
        WriteKeepsInFlight(c, l, rs, p, maxPad, draws);
        rs := rs + Records(p, maxPad, draws, 0);
      case ReadOp(n, visible) =>
        rs := ReadKeepsInFlight(c, l, rs, n, visible);
    }
  }

  /** However data is cut into writes, padded, delivered and read: the reader never fails, sees a prefix of what was written, and the counters agree. */
  lemma StreamIsFaithful(c: Cipher, dataKey: seq<byte>, lenKey: seq<byte>, ops: seq<Op>)
    requires Sound(c)
    ensures var l := Run(c, Fresh(dataKey, lenKey), ops);
      && !l.broken && l.read <= l.written
      && (l.wire == [] && l.rbuf == [] ==> l.read == l.written && l.tx == l.rx)
      && l.tx.nD == l.tx.nL == l.frames && l.rx.nD == l.rx.nL <= l.frames
  {
    var rs := RunInFlight(c, dataKey, lenKey, ops);
    var l := Run(c, Fresh(dataKey, lenKey), ops);
    if rs != [] {
      assert Good(rs[0]);
      FrameLength(c, l.rx, rs[0]);
    }
  }

  /** Once everything in flight has arrived, a read of at least one octet delivers some, until nothing is left. */
  lemma ReadsMakeProgress(c: Cipher, dataKey: seq<byte>, lenKey: seq<byte>, ops: seq<Op>, n: nat)
    requires Sound(c) && n > 0
    ensures var l := Run(c, Fresh(dataKey, lenKey), ops); l.read != l.written ==> |Step(c, l, ReadOp(n, |l.wire|)).read| > |l.read|
  {
    var rs := RunInFlight(c, dataKey, lenKey, ops);
    var l := Run(c, Fresh(dataKey, lenKey), ops);
    rs := ReadKeepsInFlight(c, l, rs, n, |l.wire|);
  }
}
