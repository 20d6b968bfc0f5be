/** The two-message dexote handshake over abstract cryptography. */
module Handshake {
  import opened Bytes
  import opened Collections
  import opened HelloCodec
  import opened ReplayCache
  import TimeSlots
  import Wire

  const KEY_LEN := 32
  const MAC_LEN := 16
  const TAG_LEN := 16
  const MAX_CT := 8192

  const INFO_MASK := "dexote-mask-v1"
  const INFO_C2S := "dexote-c2s-v1"
  const INFO_S2C := "dexote-s2c-v1"
  const INFO_SESSION := "dexote-session-v1"

  /** The primitives: X25519 (which refuses some points), HKDF, a keyed MAC and an AEAD with the zero nonce. */
  datatype Crypto = Crypto(
    pub: seq<byte> -> Option<seq<byte>>,
    dh: (seq<byte>, seq<byte>) -> Option<seq<byte>>,
    hkdf: (seq<byte>, seq<byte>, string) -> seq<byte>,
    mac: (seq<byte>, seq<byte>) -> seq<byte>,
    seal: (seq<byte>, seq<byte>, seq<byte>) -> seq<byte>,
    open: (seq<byte>, seq<byte>, seq<byte>) -> Option<seq<byte>>)

  ghost predicate Sound(cr: Crypto) {
    && (forall a {:trigger cr.pub(a)} :: cr.pub(a).Some? ==> |cr.pub(a).value| == KEY_LEN)
    && (forall a, b {:trigger cr.pub(a), cr.pub(b)} :: cr.pub(a).Some? && cr.pub(b).Some? ==>
          cr.dh(a, cr.pub(b).value) == cr.dh(b, cr.pub(a).value))
    && (forall k, s, i {:trigger cr.hkdf(k, s, i)} :: |cr.hkdf(k, s, i)| == KEY_LEN)
    && (forall k, d {:trigger cr.mac(k, d)} :: |cr.mac(k, d)| == MAC_LEN)
    && (forall k, d, p {:trigger cr.seal(k, d, p)} ::
          |cr.seal(k, d, p)| == |p| + TAG_LEN && cr.open(k, d, cr.seal(k, d, p)) == Some(p))
  }

  datatype Error = BadServerKey | WeakPoint | TooLarge | BadMac | DecryptFailed | BadHello | Replayed | EndOfInput

  type Outcome<T> = Result<T, Error>

  function Need<T>(o: Option<T>, e: Error): Outcome<T> { if o.Some? then Ok(o.value) else Err(e) }

  /** The next n octets of the connection, or end of input. */
  function ReadFull(input: seq<byte>, n: nat): Outcome<(seq<byte>, seq<byte>)> {
    if |input| < n then Err(EndOfInput) else Ok((input[..n], input[n..]))
  }

  function SlotBytes(slot: int): seq<byte>
    requires IsI64(slot)
  {
    I64(slot)
  }

  function MaskStream(cr: Crypto, serverPub: seq<byte>, slot: int): seq<byte>
    requires IsI64(slot)
  {
    cr.hkdf(serverPub, SlotBytes(slot), INFO_MASK)
  }

  function Mask(cr: Crypto, pub: seq<byte>, serverPub: seq<byte>, slot: int): (m: seq<byte>)
    requires IsI64(slot) && |pub| == |MaskStream(cr, serverPub, slot)|
    ensures |m| == |pub|
  {
    XorSeq(pub, MaskStream(cr, serverPub, slot))
  }

  method MaskPub(cr: Crypto, pub: seq<byte>, serverPub: seq<byte>, slot: int) returns (m: seq<byte>)
    requires IsI64(slot) && |pub| == KEY_LEN == |MaskStream(cr, serverPub, slot)|
    ensures m == Mask(cr, pub, serverPub, slot)
  {
    var ks := MaskStream(cr, serverPub, slot);
    m := [];
    for i := 0 to KEY_LEN
      invariant m == XorSeq(pub, ks)[..i]
    {
      m := m + [Xor(pub[i], ks[i])];
    }
  }

  /** Unmasking is masking again. */
  lemma UnmaskUndoesMask(cr: Crypto, pub: seq<byte>, serverPub: seq<byte>, slot: int)
    requires Sound(cr) && IsI64(slot) && |pub| == KEY_LEN
    ensures Mask(cr, Mask(cr, pub, serverPub, slot), serverPub, slot) == pub
  {
    XorSeqUndo(pub, MaskStream(cr, serverPub, slot));
  }

  datatype Keys = Keys(tx: seq<byte>, rx: seq<byte>, txLen: seq<byte>, rxLen: seq<byte>, secret: seq<byte>)

  function SessionKeys(cr: Crypto, secret: seq<byte>, cliNonce: seq<byte>, srvNonce: seq<byte>, client: bool): Keys {
    var salt := cliNonce + srvNonce;
    var c2s, s2c := cr.hkdf(secret, salt, INFO_SESSION + "|c2s|data"), cr.hkdf(secret, salt, INFO_SESSION + "|s2c|data");
    var c2sLen, s2cLen := cr.hkdf(secret, salt, INFO_SESSION + "|c2s|len"), cr.hkdf(secret, salt, INFO_SESSION + "|s2c|len");
    var root := cr.hkdf(secret, salt, INFO_SESSION + "|root");
    if client then Keys(c2s, s2c, c2sLen, s2cLen, root) else Keys(s2c, c2s, s2cLen, c2sLen, root)
  }

  /** HKDF tells labels of up to 31 seven-bit characters apart. */
  ghost predicate LabelsApart(cr: Crypto, secret: seq<byte>, salt: seq<byte>) {
    forall i, j {:trigger cr.hkdf(secret, salt, i), cr.hkdf(secret, salt, j)} ::
      IsLabel(i) && IsLabel(j) && cr.hkdf(secret, salt, i) == cr.hkdf(secret, salt, j) ==> i == j
  }

  predicate IsLabel(s: string) { |s| < 32 && forall k :: 0 <= k < |s| ==> s[k] as int < 128 }

  ghost predicate AllLabels(a: string, b: string, c: string, d: string, e: string) {
    && IsLabel(a) && IsLabel(b) && IsLabel(c) && IsLabel(d) && IsLabel(e)
    && a != b && a != c && a != d && a != e && b != c && b != d && b != e && c != d && c != e && d != e
  }

  lemma FiveLabels()
    ensures AllLabels(INFO_SESSION + "|c2s|data", INFO_SESSION + "|s2c|data", INFO_SESSION + "|c2s|len", INFO_SESSION + "|s2c|len",
                      INFO_SESSION + "|root")
  {
    var n := |INFO_SESSION|;
    var a, b, c, d, e := INFO_SESSION + "|c2s|data", INFO_SESSION + "|s2c|data", INFO_SESSION + "|c2s|len", INFO_SESSION + "|s2c|len",
      INFO_SESSION + "|root";
    assert a[n + 1] == 'c' && b[n + 1] == 's' && c[n + 1] == 'c' && d[n + 1] == 's' && |a| > |c| && |b| > |d| > |e|;
  }

  lemma FiveApart(cr: Crypto, secret: seq<byte>, salt: seq<byte>, a: string, b: string, c: string, d: string, e: string)
    requires LabelsApart(cr, secret, salt) && AllLabels(a, b, c, d, e)
    ensures PairwiseDifferent(cr.hkdf(secret, salt, a), cr.hkdf(secret, salt, b), cr.hkdf(secret, salt, c), cr.hkdf(secret, salt, d),
                              cr.hkdf(secret, salt, e))
  {}

  ghost predicate PairwiseDifferent(a: seq<byte>, b: seq<byte>, c: seq<byte>, d: seq<byte>, e: seq<byte>) {
    a != b && a != c && a != d && a != e && b != c && b != d && b != e && c != d && c != e && d != e
  }

  /** No two of a session's five values are the same, so no key serves two purposes or both directions. */
  lemma KeysAreApart(cr: Crypto, secret: seq<byte>, cliNonce: seq<byte>, srvNonce: seq<byte>, client: bool)
    requires LabelsApart(cr, secret, cliNonce + srvNonce)
    ensures var k := SessionKeys(cr, secret, cliNonce, srvNonce, client);
      PairwiseDifferent(k.tx, k.rx, k.txLen, k.rxLen, k.secret)
  {
    var salt := cliNonce + srvNonce;
    FiveLabels();
    FiveApart(cr, secret, salt, INFO_SESSION + "|c2s|data", INFO_SESSION + "|s2c|data", INFO_SESSION + "|c2s|len",
      INFO_SESSION + "|s2c|len", INFO_SESSION + "|root");
  }

  function DeriveSecret(cr: Crypto, ss3: seq<byte>, ss1: seq<byte>, cliNonce: seq<byte>, srvNonce: seq<byte>): seq<byte> {
    cr.hkdf(ss3 + ss1, cliNonce + srvNonce, INFO_SESSION)
  }

  /** What the client draws and reads off its clock. */
  datatype ClientDraws = ClientDraws(scalar: seq<byte>, nonce: seq<byte>, now: int, pad: seq<byte>)

  /** What the client remembers between its hello and the reply. */
  datatype ClientState = ClientState(serverPub: seq<byte>, slot: int, scalar: seq<byte>, nonce: seq<byte>, ss1: seq<byte>)

  function ClientStart(cr: Crypto, serverPub: seq<byte>, slot: int, p: Payload, d: ClientDraws): Outcome<(seq<byte>, ClientState)>
    requires IsI64(slot) && IsI64(d.now)
  {
    var _ :- Check(|serverPub| == KEY_LEN, BadServerKey);
    var ePub :- Need(cr.pub(d.scalar), WeakPoint);
    var ss1 :- Need(cr.dh(d.scalar, serverPub), WeakPoint);
    var _ :- Check(|ePub| == |MaskStream(cr, serverPub, slot)|, BadServerKey);
    var masked := Mask(cr, ePub, serverPub, slot);
    var m := cr.mac(serverPub, masked + SlotBytes(slot));
    var k1 := cr.hkdf(ss1, SlotBytes(slot), INFO_C2S);
    var ct := cr.seal(k1, masked, BuildClient(p, d.nonce, d.now, d.pad));
    var _ :- Check(|ct| <= MAX_CT, TooLarge);
    Ok((masked + (m + (U16(|ct|) + ct)), ClientState(serverPub, slot, d.scalar, d.nonce, ss1)))
  }

  /** The reply, read and turned into keys; the rest of the input belongs to the record stream. */
  function ClientFinish(cr: Crypto, st: ClientState, input: seq<byte>): Outcome<(Keys, seq<byte>, seq<byte>)>
    requires IsI64(st.slot) && |MaskStream(cr, st.serverPub, st.slot)| == KEY_LEN
  {
    var (maskedS, r1) :- ReadFull(input, KEY_LEN);
    var sPub := Mask(cr, maskedS, st.serverPub, st.slot);
    var ss3 :- Need(cr.dh(st.scalar, sPub), WeakPoint);
    var k2 := cr.hkdf(ss3, SlotBytes(st.slot), INFO_S2C);
    var (lb, r2) :- ReadFull(r1, 2);
    var _ :- Check(ReadU16(lb) <= MAX_CT, TooLarge);
    var (sct, r3) :- ReadFull(r2, ReadU16(lb));
    var spt :- Need(cr.open(k2, maskedS, sct), DecryptFailed);
    match ParseServer(spt)
    case Good((srvNonce, caps)) =>
      Ok((SessionKeys(cr, DeriveSecret(cr, ss3, st.ss1, st.nonce, srvNonce), st.nonce, srvNonce, true), caps, r3))
    case BadVersion => Err(BadHello)
    case Short => Err(BadHello)
  }

  /** The first slot whose MAC matches: the Go server offers one slot, the Java server up to three. */
  function MatchSlot(cr: Crypto, serverPub: seq<byte>, slots: seq<int>, masked: seq<byte>, gotMac: seq<byte>): Option<int>
    requires forall s :: s in slots ==> IsI64(s)
  {
    if slots == [] then None
    else if gotMac == cr.mac(serverPub, masked + SlotBytes(slots[0])) then Some(slots[0])
    else MatchSlot(cr, serverPub, slots[1..], masked, gotMac)
  }

  datatype ServerDraws = ServerDraws(scalar: seq<byte>, nonce: seq<byte>, pad: seq<byte>, check: int, add: int)

  datatype Answer = Answer(reply: seq<byte>, keys: Keys, payload: Payload, slot: int, rest: seq<byte>)

  /** The replay decision: without a cache only the timestamp counts. */
  predicate Admits(seen: Option<Seen>, h: Hello) { if seen.None? then Timely(h) else Judged(seen.value, h).1 }

  /** A hello taken apart: the slot it matched, the client's ephemeral key, the first shared secret and the plaintext. */
  datatype Opened = Opened(slot: int, ePub: seq<byte>, ss1: seq<byte>, hello: ClientHello)

  function OpenHello(cr: Crypto, scalar: seq<byte>, serverPub: seq<byte>, slots: seq<int>, input: seq<byte>): (r: Outcome<(Opened, seq<byte>)>)
    requires forall s :: s in slots ==> IsI64(s) && |MaskStream(cr, serverPub, s)| == KEY_LEN
    ensures if r.Ok? then r.value.0.slot in slots else r.error != Replayed
  {
    var (masked, r1) :- ReadFull(input, KEY_LEN);
    var (gotMac, r2) :- ReadFull(r1, MAC_LEN);
    var slot :- Need(MatchSlot(cr, serverPub, slots, masked, gotMac), BadMac);
    assert slot in slots by { MatchedIsOffered(cr, serverPub, slots, masked, gotMac); }
    var ePub := Mask(cr, masked, serverPub, slot);
    var ss1 :- Need(cr.dh(scalar, ePub), WeakPoint);
    var k1 := cr.hkdf(ss1, SlotBytes(slot), INFO_C2S);
    var (lb, r3) :- ReadFull(r2, 2);
    var _ :- Check(ReadU16(lb) <= MAX_CT, TooLarge);
    var (ct, r4) :- ReadFull(r3, ReadU16(lb));
    var pt :- Need(cr.open(k1, masked, ct), DecryptFailed);
    match ParseClient(pt)
    case BadVersion => Err(BadHello)
    case Short => Err(BadHello)
    case Good(h) => Ok((Opened(slot, ePub, ss1, h), r4))
  }

  function ServerRespond(cr: Crypto, scalar: seq<byte>, serverPub: seq<byte>, slots: seq<int>, caps: seq<byte>,
                         seen: Option<Seen>, d: ServerDraws, input: seq<byte>): Outcome<Answer>
    requires forall s :: s in slots ==> IsI64(s) && |MaskStream(cr, serverPub, s)| == KEY_LEN
  {
    var (o, rest) :- OpenHello(cr, scalar, serverPub, slots, input);
    var h := o.hello;
    var _ :- Check(Admits(seen, Hello(h.nonce, h.ts, d.check, d.add)), Replayed);
    var sEPub :- Need(cr.pub(d.scalar), WeakPoint);
    var _ :- Check(|sEPub| == KEY_LEN, WeakPoint);
    var ss3 :- Need(cr.dh(d.scalar, o.ePub), WeakPoint);
    Ok(Answer(Reply(cr, serverPub, o.slot, sEPub, ss3, caps, d),
      SessionKeys(cr, DeriveSecret(cr, ss3, o.ss1, h.nonce, d.nonce), h.nonce, d.nonce, false), h.payload, o.slot, rest))
  }

  /** The cache a handshake leaves behind, whether or not the hello is answered; without one, still none. */
  function ServerSeen(cr: Crypto, scalar: seq<byte>, serverPub: seq<byte>, slots: seq<int>, seen: Option<Seen>, d: ServerDraws,
                      input: seq<byte>): Option<Seen>
    requires forall s :: s in slots ==> IsI64(s) && |MaskStream(cr, serverPub, s)| == KEY_LEN
  {
    var o := OpenHello(cr, scalar, serverPub, slots, input);
    if seen.None? || o.Err? then seen
    else
      var h := o.value.0.hello;
      Some(Judged(seen.value, Hello(h.nonce, h.ts, d.check, d.add)).0)
  }

  function ReplyBody(cr: Crypto, serverPub: seq<byte>, slot: int, sEPub: seq<byte>, ss3: seq<byte>, caps: seq<byte>, d: ServerDraws): seq<byte>
    requires IsI64(slot) && |sEPub| == |MaskStream(cr, serverPub, slot)|
  {
    var k2 := cr.hkdf(ss3, SlotBytes(slot), INFO_S2C);
    cr.seal(k2, Mask(cr, sEPub, serverPub, slot), BuildServer(d.nonce, caps, d.pad))
  }

  function Reply(cr: Crypto, serverPub: seq<byte>, slot: int, sEPub: seq<byte>, ss3: seq<byte>, caps: seq<byte>, d: ServerDraws): seq<byte>
    requires IsI64(slot) && |sEPub| == |MaskStream(cr, serverPub, slot)|
  {
    var sct := ReplyBody(cr, serverPub, slot, sEPub, ss3, caps, d);
    Mask(cr, sEPub, serverPub, slot) + (U16(|sct|) + sct)
  }

  lemma {:induction false} MatchedIsOffered(cr: Crypto, serverPub: seq<byte>, slots: seq<int>, masked: seq<byte>, gotMac: seq<byte>)
    requires forall s :: s in slots ==> IsI64(s)
    ensures MatchSlot(cr, serverPub, slots, masked, gotMac).Some? ==> MatchSlot(cr, serverPub, slots, masked, gotMac).value in slots
  {
    if slots != [] { MatchedIsOffered(cr, serverPub, slots[1..], masked, gotMac); }
  }

  /** No other candidate slot happens to produce the same MAC. */
  ghost predicate MacTellsSlotsApart(cr: Crypto, serverPub: seq<byte>, slots: seq<int>, masked: seq<byte>, slot: int)
    requires IsI64(slot) && forall s :: s in slots ==> IsI64(s)
  {
    forall s :: s in slots && s != slot ==> cr.mac(serverPub, masked + SlotBytes(s)) != cr.mac(serverPub, masked + SlotBytes(slot))
  }

  lemma {:induction false} FindsTheSlot(cr: Crypto, serverPub: seq<byte>, slots: seq<int>, masked: seq<byte>, slot: int)
    requires slot in slots && (forall s :: s in slots ==> IsI64(s))
    requires MacTellsSlotsApart(cr, serverPub, slots, masked, slot)
    ensures MatchSlot(cr, serverPub, slots, masked, cr.mac(serverPub, masked + SlotBytes(slot))) == Some(slot)
  {
    if slots[0] != slot {
      assert slots[0] in slots;
      FindsTheSlot(cr, serverPub, slots[1..], masked, slot);
    }
  }

  /** The client's own limit keeps every 16-bit length in its hello from wrapping. */
  lemma HelloNeverWraps(cr: Crypto, serverPub: seq<byte>, slot: int, p: Payload, d: ClientDraws)
    requires Sound(cr) && IsI64(slot) && IsI64(d.now)
    requires ClientStart(cr, serverPub, slot, p, d).Ok?
    ensures |p.token| < U16_LIMIT && |p.opts| < U16_LIMIT && |d.pad| < U16_LIMIT
    ensures |ClientStart(cr, serverPub, slot, p, d).value.0| <= KEY_LEN + MAC_LEN + 2 + MAX_CT
  {}

  lemma SplitFull(x: seq<byte>, rest: seq<byte>)
    ensures ReadFull(x + rest, |x|) == Ok((x, rest))
  {}

  /** How the server takes a genuine hello apart. */
  lemma ServerReadsHello(cr: Crypto, scalar: seq<byte>, serverPub: seq<byte>, slot: int, p: Payload, d: ClientDraws)
    requires Sound(cr) && cr.pub(scalar) == Some(serverPub) && IsI64(slot) && IsI64(d.now) && |d.nonce| == NONCE_LEN
    requires ClientStart(cr, serverPub, slot, p, d).Ok?
    ensures var hello := ClientStart(cr, serverPub, slot, p, d).value.0;
      var ePub := cr.pub(d.scalar).value;
      var masked := Mask(cr, ePub, serverPub, slot);
      var ss1 := cr.dh(d.scalar, serverPub).value;
      var ct := cr.seal(cr.hkdf(ss1, SlotBytes(slot), INFO_C2S), masked, BuildClient(p, d.nonce, d.now, d.pad));
      && hello == masked + (cr.mac(serverPub, masked + SlotBytes(slot)) + (U16(|ct|) + ct))
      && |ct| <= MAX_CT && ReadU16(U16(|ct|)) == |ct|
      && Mask(cr, masked, serverPub, slot) == ePub
      && cr.dh(scalar, ePub) == Some(ss1)
      && cr.open(cr.hkdf(ss1, SlotBytes(slot), INFO_C2S), masked, ct) == Some(BuildClient(p, d.nonce, d.now, d.pad))
      && ParseClient(BuildClient(p, d.nonce, d.now, d.pad)) == Good(ClientHello(p, d.nonce, d.now))
  {
    HelloNeverWraps(cr, serverPub, slot, p, d);
    UnmaskUndoesMask(cr, cr.pub(d.scalar).value, serverPub, slot);
    ClientRoundTrip(p, d.nonce, d.now, d.pad);
    var ct := cr.seal(cr.hkdf(cr.dh(d.scalar, serverPub).value, SlotBytes(slot), INFO_C2S),
      Mask(cr, cr.pub(d.scalar).value, serverPub, slot), BuildClient(p, d.nonce, d.now, d.pad));
    U16Fits(|ct|);
  }

  ghost predicate Swapped(a: Keys, b: Keys) {
    a.secret == b.secret && a.tx == b.rx && a.rx == b.tx && a.txLen == b.rxLen && a.rxLen == b.txLen
  }

  /** A genuine hello for an offered slot is opened: the client's payload, nonce and timestamp come out, the rest stays. */
  lemma GenuineOpens(cr: Crypto, scalar: seq<byte>, serverPub: seq<byte>, slots: seq<int>, slot: int, p: Payload, d: ClientDraws,
                     rest: seq<byte>)
    requires Sound(cr) && cr.pub(scalar) == Some(serverPub) && IsI64(slot) && IsI64(d.now) && |d.nonce| == NONCE_LEN
    requires slot in slots && (forall s :: s in slots ==> IsI64(s) && |MaskStream(cr, serverPub, s)| == KEY_LEN)
    requires ClientStart(cr, serverPub, slot, p, d).Ok?
    requires MacTellsSlotsApart(cr, serverPub, slots, Mask(cr, cr.pub(d.scalar).value, serverPub, slot), slot)
    ensures var (hello, st) := ClientStart(cr, serverPub, slot, p, d).value;
      OpenHello(cr, scalar, serverPub, slots, hello + rest) ==
        Ok((Opened(slot, cr.pub(d.scalar).value, st.ss1, ClientHello(p, d.nonce, d.now)), rest))
  {
    ServerReadsHello(cr, scalar, serverPub, slot, p, d);
    var masked := Mask(cr, cr.pub(d.scalar).value, serverPub, slot);
    var ss1 := cr.dh(d.scalar, serverPub).value;
    var ct := cr.seal(cr.hkdf(ss1, SlotBytes(slot), INFO_C2S), masked, BuildClient(p, d.nonce, d.now, d.pad));
    var m, lb := cr.mac(serverPub, masked + SlotBytes(slot)), U16(|ct|);
    HelloInPieces(masked, m, lb, ct, rest);
    FindsTheSlot(cr, serverPub, slots, masked, slot);
  }

  /** The server's view of a genuine hello: timely and with a new nonce, it recovers the client's role, token and options and answers. */
  lemma ServerAccepts(cr: Crypto, scalar: seq<byte>, serverPub: seq<byte>, slots: seq<int>, slot: int, p: Payload, d: ClientDraws,
                      caps: seq<byte>, seen: Option<Seen>, sd: ServerDraws, rest: seq<byte>)
    requires Sound(cr) && cr.pub(scalar) == Some(serverPub) && IsI64(slot) && IsI64(d.now) && |d.nonce| == NONCE_LEN
    requires slot in slots && (forall s :: s in slots ==> IsI64(s) && |MaskStream(cr, serverPub, s)| == KEY_LEN)
    requires ClientStart(cr, serverPub, slot, p, d).Ok?
    requires MacTellsSlotsApart(cr, serverPub, slots, Mask(cr, cr.pub(d.scalar).value, serverPub, slot), slot)
    requires cr.pub(sd.scalar).Some? && cr.dh(sd.scalar, cr.pub(d.scalar).value).Some?
    ensures var (hello, st) := ClientStart(cr, serverPub, slot, p, d).value;
      var isNew := seen.None? || d.nonce !in Purged(seen.value, sd.add);
      var ss3 := cr.dh(sd.scalar, cr.pub(d.scalar).value).value;
      ServerRespond(cr, scalar, serverPub, slots, caps, seen, sd, hello + rest) ==
        if !isNew || d.now < sd.check - REPLAY_WINDOW || d.now > sd.check + REPLAY_WINDOW then Err(Replayed)
        else Ok(Answer(Reply(cr, serverPub, slot, cr.pub(sd.scalar).value, ss3, caps, sd),
          SessionKeys(cr, DeriveSecret(cr, ss3, st.ss1, d.nonce, sd.nonce), d.nonce, sd.nonce, false), p, slot, rest))
  {
    GenuineOpens(cr, scalar, serverPub, slots, slot, p, d, rest);
  }

  lemma HelloInPieces(masked: seq<byte>, m: seq<byte>, lb: seq<byte>, ct: seq<byte>, rest: seq<byte>)
    ensures var hello := masked + (m + (lb + ct));
      && ReadFull(hello + rest, |masked|) == Ok((masked, m + (lb + (ct + rest))))
      && ReadFull(m + (lb + (ct + rest)), |m|) == Ok((m, lb + (ct + rest)))
      && ReadFull(lb + (ct + rest), |lb|) == Ok((lb, ct + rest))
      && ReadFull(ct + rest, |ct|) == Ok((ct, rest))
  {
    Assoc(masked, m + (lb + ct), rest);
    Assoc(m, lb + ct, rest);
    Assoc(lb, ct, rest);
    SplitFull(masked, m + (lb + (ct + rest)));
    SplitFull(m, lb + (ct + rest));
    SplitFull(lb, ct + rest);
    SplitFull(ct, rest);
  }

  /**
   * The client's view of a genuine reply: it completes with the server's keys and everything behind the reply left over
   * exactly when the sealed reply is within 8192 octets, however large the capabilities.
   */
  lemma ClientCompletes(cr: Crypto, st: ClientState, caps: seq<byte>, sd: ServerDraws, rest: seq<byte>)
    requires Sound(cr) && IsI64(st.slot) && |sd.nonce| == NONCE_LEN
    requires cr.pub(st.scalar).Some? && cr.pub(sd.scalar).Some? && cr.dh(sd.scalar, cr.pub(st.scalar).value).Some?
    ensures var ss3 := cr.dh(sd.scalar, cr.pub(st.scalar).value).value;
      var reply := Reply(cr, st.serverPub, st.slot, cr.pub(sd.scalar).value, ss3, caps, sd);
      var keys := SessionKeys(cr, DeriveSecret(cr, ss3, st.ss1, st.nonce, sd.nonce), st.nonce, sd.nonce, true);
      && (ClientFinish(cr, st, reply + rest) == Ok((keys, caps, rest)) <==> |caps| + |sd.pad| + 36 <= MAX_CT)
      && (MAX_CT < |caps| + |sd.pad| + 36 < U16_LIMIT ==> ClientFinish(cr, st, reply + rest) == Err(TooLarge))
  {
    if |caps| + |sd.pad| + 36 < U16_LIMIT {
      FittingReply(cr, st, caps, sd, rest);
    } else {
      WrappedReply(cr, st, caps, sd, rest);
    }
  }

  lemma ReplyParts(cr: Crypto, st: ClientState, caps: seq<byte>, sd: ServerDraws)
    requires Sound(cr) && IsI64(st.slot) && |sd.nonce| == NONCE_LEN
    requires cr.pub(st.scalar).Some? && cr.pub(sd.scalar).Some? && cr.dh(sd.scalar, cr.pub(st.scalar).value).Some?
    ensures var sEPub := cr.pub(sd.scalar).value;
      var sct := ReplyBody(cr, st.serverPub, st.slot, sEPub, cr.dh(sd.scalar, cr.pub(st.scalar).value).value, caps, sd);
      && |sct| == |caps| + |sd.pad| + 36 && Mask(cr, Mask(cr, sEPub, st.serverPub, st.slot), st.serverPub, st.slot) == sEPub
      && ReadU16(U16(|sct|)) == |sct| % U16_LIMIT
  {
    var sEPub := cr.pub(sd.scalar).value;
    var sct := ReplyBody(cr, st.serverPub, st.slot, sEPub, cr.dh(sd.scalar, cr.pub(st.scalar).value).value, caps, sd);
    UnmaskUndoesMask(cr, sEPub, st.serverPub, st.slot);
    U16ReadsBack(|sct|);
  }

  lemma FittingReply(cr: Crypto, st: ClientState, caps: seq<byte>, sd: ServerDraws, rest: seq<byte>)
    requires Sound(cr) && IsI64(st.slot) && |sd.nonce| == NONCE_LEN
    requires cr.pub(st.scalar).Some? && cr.pub(sd.scalar).Some? && cr.dh(sd.scalar, cr.pub(st.scalar).value).Some?
    requires |caps| + |sd.pad| + 36 < U16_LIMIT
    ensures var ss3 := cr.dh(sd.scalar, cr.pub(st.scalar).value).value;
      var reply := Reply(cr, st.serverPub, st.slot, cr.pub(sd.scalar).value, ss3, caps, sd);
      ClientFinish(cr, st, reply + rest) ==
        if |caps| + |sd.pad| + 36 <= MAX_CT then
          Ok((SessionKeys(cr, DeriveSecret(cr, ss3, st.ss1, st.nonce, sd.nonce), st.nonce, sd.nonce, true), caps, rest))
        else Err(TooLarge)
  {
    var sEPub := cr.pub(sd.scalar).value;
    var ss3 := cr.dh(sd.scalar, cr.pub(st.scalar).value).value;
    var sct := ReplyBody(cr, st.serverPub, st.slot, sEPub, ss3, caps, sd);
    var masked := Mask(cr, sEPub, st.serverPub, st.slot);
    assert |sct| == |caps| + |sd.pad| + 36;
    U16Fits(|sct|);
    UnmaskUndoesMask(cr, sEPub, st.serverPub, st.slot);
    ServerRoundTrip(sd.nonce, caps, sd.pad);
    ReplyInPieces(masked, U16(|sct|), sct, rest);
  }

  /** A length that wraps makes the client stop before the end of the reply, so more than `rest` is left over. */
  lemma WrappedReply(cr: Crypto, st: ClientState, caps: seq<byte>, sd: ServerDraws, rest: seq<byte>)
    requires Sound(cr) && IsI64(st.slot) && |sd.nonce| == NONCE_LEN
    requires cr.pub(st.scalar).Some? && cr.pub(sd.scalar).Some? && cr.dh(sd.scalar, cr.pub(st.scalar).value).Some?
    requires |caps| + |sd.pad| + 36 >= U16_LIMIT
    ensures var reply := Reply(cr, st.serverPub, st.slot, cr.pub(sd.scalar).value, cr.dh(sd.scalar, cr.pub(st.scalar).value).value, caps, sd);
      var got := ClientFinish(cr, st, reply + rest); got.Ok? ==> |got.value.2| > |rest|
  {
    var sEPub := cr.pub(sd.scalar).value;
    var sct := ReplyBody(cr, st.serverPub, st.slot, sEPub, cr.dh(sd.scalar, cr.pub(st.scalar).value).value, caps, sd);
    ReplyParts(cr, st, caps, sd);
    ReplyInPieces(Mask(cr, sEPub, st.serverPub, st.slot), U16(|sct|), sct, rest);
  }

  lemma ReplyInPieces(masked: seq<byte>, lb: seq<byte>, sct: seq<byte>, rest: seq<byte>)
    ensures var reply := masked + (lb + sct);
      && ReadFull(reply + rest, |masked|) == Ok((masked, lb + (sct + rest)))
      && ReadFull(lb + (sct + rest), |lb|) == Ok((lb, sct + rest))
      && ReadFull(sct + rest, |sct|) == Ok((sct, rest))
  {
    Assoc(masked, lb + sct, rest);
    Assoc(lb, sct, rest);
    SplitFull(masked, lb + (sct + rest));
    SplitFull(lb, sct + rest);
    SplitFull(sct, rest);
  }

  /** The clock readings of a handshake: each side's when it works out slots; the others are in the draws. */
  datatype Clocks = Clocks(client: int, server: int)

  /** Slots are worked out within 120 seconds of each other and the timestamp is within 90 seconds of its check. */
  ghost predicate InTime(at: Clocks, d: ClientDraws, sd: ServerDraws) {
    -TimeSlots.SLOT_SEC <= at.client - at.server <= TimeSlots.SLOT_SEC && -REPLAY_WINDOW <= d.now - sd.check <= REPLAY_WINDOW
  }

  /** Sound primitives, a MAC that tells the candidate slots apart, points that are not refused, sizes within the limits. */
  ghost predicate Meeting(cr: Crypto, scalar: seq<byte>, serverPub: seq<byte>, slots: seq<int>, slot: int, p: Payload, d: ClientDraws,
                          caps: seq<byte>, sd: ServerDraws)
  {
    && Sound(cr) && cr.pub(scalar) == Some(serverPub) && |d.nonce| == |sd.nonce| == NONCE_LEN
    && IsI64(d.now) && IsI64(slot) && (forall s :: s in slots ==> IsI64(s))
    && ClientStart(cr, serverPub, slot, p, d).Ok?
    && MacTellsSlotsApart(cr, serverPub, slots, Mask(cr, cr.pub(d.scalar).value, serverPub, slot), slot)
    && cr.pub(sd.scalar).Some? && cr.dh(sd.scalar, cr.pub(d.scalar).value).Some?
    && |caps| + |sd.pad| + 36 <= MAX_CT
  }

  /** The server accepts and has the client's payload, the client completes, and their keys are each other's swapped. */
  ghost predicate Agree(cr: Crypto, scalar: seq<byte>, serverPub: seq<byte>, slots: seq<int>, slot: int, p: Payload, d: ClientDraws,
                        caps: seq<byte>, seen: Seen, sd: ServerDraws, rest: seq<byte>, rest': seq<byte>)
    requires Meeting(cr, scalar, serverPub, slots, slot, p, d, caps, sd)
  {
    var (hello, st) := ClientStart(cr, serverPub, slot, p, d).value;
    var server := ServerRespond(cr, scalar, serverPub, slots, caps, Some(seen), sd, hello + rest);
    && server.Ok? && server.value.payload == p && server.value.slot == slot && server.value.rest == rest
    && var client := ClientFinish(cr, st, server.value.reply + rest');
    && client.Ok? && client.value.1 == caps && client.value.2 == rest' && Swapped(client.value.0, server.value.keys)
  }

  lemma MeetingAgrees(cr: Crypto, scalar: seq<byte>, serverPub: seq<byte>, slots: seq<int>, slot: int, p: Payload, d: ClientDraws,
                      caps: seq<byte>, seen: Seen, sd: ServerDraws, rest: seq<byte>, rest': seq<byte>)
    requires Meeting(cr, scalar, serverPub, slots, slot, p, d, caps, sd) && slot in slots
    requires -REPLAY_WINDOW <= d.now - sd.check <= REPLAY_WINDOW && d.nonce !in Purged(seen, sd.add)
    ensures Agree(cr, scalar, serverPub, slots, slot, p, d, caps, seen, sd, rest, rest')
  {
    var st := ClientStart(cr, serverPub, slot, p, d).value.1;
    var ss3 := cr.dh(sd.scalar, cr.pub(d.scalar).value).value;
    var secret := DeriveSecret(cr, ss3, st.ss1, d.nonce, sd.nonce);
    var reply := Reply(cr, serverPub, slot, cr.pub(sd.scalar).value, ss3, caps, sd);
    ServerAccepts(cr, scalar, serverPub, slots, slot, p, d, caps, Some(seen), sd, rest);
    ClientCompletes(cr, st, caps, sd, rest');
    AgreesBy(cr, scalar, serverPub, slots, slot, p, d, caps, seen, sd, rest, rest', reply,
      SessionKeys(cr, secret, d.nonce, sd.nonce, false), SessionKeys(cr, secret, d.nonce, sd.nonce, true));
  }

  lemma AgreesBy(cr: Crypto, scalar: seq<byte>, serverPub: seq<byte>, slots: seq<int>, slot: int, p: Payload, d: ClientDraws,
                 caps: seq<byte>, seen: Seen, sd: ServerDraws, rest: seq<byte>, rest': seq<byte>,
                 reply: seq<byte>, serverKeys: Keys, clientKeys: Keys)
    requires Meeting(cr, scalar, serverPub, slots, slot, p, d, caps, sd) && Swapped(clientKeys, serverKeys)
    requires ServerRespond(cr, scalar, serverPub, slots, caps, Some(seen), sd, ClientStart(cr, serverPub, slot, p, d).value.0 + rest) ==
      Ok(Answer(reply, serverKeys, p, slot, rest))
    requires ClientFinish(cr, ClientStart(cr, serverPub, slot, p, d).value.1, reply + rest') == Ok((clientKeys, caps, rest'))
    ensures Agree(cr, scalar, serverPub, slots, slot, p, d, caps, seen, sd, rest, rest')
  {}

  /**
   * Key agreement: a client using its own time slot against the three slots a server tries, with a nonce the cache does
   * not hold, ends up with the server's secret and the four keys swapped, and the server with the client's role, token
   * and options; both sides leave the following octets for the record stream.
   */
  lemma KeyAgreement(cr: Crypto, scalar: seq<byte>, serverPub: seq<byte>, at: Clocks, p: Payload, d: ClientDraws,
                     caps: seq<byte>, seen: Seen, sd: ServerDraws, rest: seq<byte>, rest': seq<byte>)
    requires InTime(at, d, sd) && d.nonce !in Purged(seen, sd.add)
    requires Meeting(cr, scalar, serverPub, TimeSlots.CandidateSlots(at.server, 0), TimeSlots.EffectiveSlot(at.client, 0), p, d, caps, sd)
    ensures Agree(cr, scalar, serverPub, TimeSlots.CandidateSlots(at.server, 0), TimeSlots.EffectiveSlot(at.client, 0), p, d, caps,
                  seen, sd, rest, rest')
  {
    TimeSlots.CoveredWithoutChurn(at.server, at.client);
    MeetingAgrees(cr, scalar, serverPub, TimeSlots.CandidateSlots(at.server, 0), TimeSlots.EffectiveSlot(at.client, 0), p, d, caps,
      seen, sd, rest, rest');
  }

  // ---- The assumptions can be met ------------------------------------------------------------

  /** A stand-in without any secrecy: constant keys, a MAC that shows the slot, sealing that appends zeros. */
  function Toy(): Crypto {
    Crypto((a: seq<byte>) => Some(Zeros(KEY_LEN)), (a: seq<byte>, p: seq<byte>) => Some(Zeros(KEY_LEN)),
      (k: seq<byte>, s: seq<byte>, i: string) => Zeros(KEY_LEN),
      (k: seq<byte>, x: seq<byte>) => if |x| < 8 then Zeros(MAC_LEN) else Zeros(8) + x[|x| - 8..],
      (k: seq<byte>, x: seq<byte>, p: seq<byte>) => p + Zeros(TAG_LEN),
      (k: seq<byte>, x: seq<byte>, c: seq<byte>) => if |c| < TAG_LEN then None else Some(c[..|c| - TAG_LEN]))
  }

  lemma ToyIsSound()
    ensures Sound(Toy())
  {
    var cr := Toy();
    forall k: seq<byte>, x: seq<byte>, p: seq<byte>
      ensures |cr.seal(k, x, p)| == |p| + TAG_LEN && cr.open(k, x, cr.seal(k, x, p)) == Some(p)
    {
      assert (p + Zeros(TAG_LEN))[..|p|] == p;
    }
  }

  lemma ToyTellsSlotsApart(serverPub: seq<byte>, slots: seq<int>, masked: seq<byte>, slot: int)
    requires IsI64(slot) && forall s :: s in slots ==> IsI64(s)
    ensures MacTellsSlotsApart(Toy(), serverPub, slots, masked, slot)
  {
    forall s | s in slots && s != slot
      ensures Toy().mac(serverPub, masked + SlotBytes(s)) != Toy().mac(serverPub, masked + SlotBytes(slot))
    {
      I64ReadsBack(s);
      I64ReadsBack(slot);
      assert (masked + SlotBytes(s))[|masked|..] == SlotBytes(s) && (masked + SlotBytes(slot))[|masked|..] == SlotBytes(slot);
      assert (Zeros(8) + SlotBytes(s))[8..] == SlotBytes(s) && (Zeros(8) + SlotBytes(slot))[8..] == SlotBytes(slot);
    }
  }

  /** A label as octets, filled up and followed by its length. */
  function Spelled(i: string): (h: seq<byte>)
    ensures |h| == KEY_LEN
  {
    if IsLabel(i) then seq(|i|, k requires 0 <= k < |i| && i[k] as int < 128 => i[k] as int as byte) + Zeros(31 - |i|) + [|i| as byte]
    else Zeros(KEY_LEN)
  }

  /** There are primitives that keep labels apart, whatever the secret and the salt. */
  lemma SomeHkdfTellsLabelsApart(secret: seq<byte>, salt: seq<byte>)
    ensures var cr := Toy().(hkdf := (k: seq<byte>, s: seq<byte>, i: string) => Spelled(i)); Sound(cr) && LabelsApart(cr, secret, salt)
  {
    ToyIsSound();
    var cr := Toy().(hkdf := (k: seq<byte>, s: seq<byte>, i: string) => Spelled(i));
    assert Sound(cr) by {
      forall k: seq<byte>, x: seq<byte>, p: seq<byte> ensures cr.seal(k, x, p) == Toy().seal(k, x, p) && cr.open(k, x, p) == Toy().open(k, x, p) {}
    }
    forall i, j | IsLabel(i) && IsLabel(j) && Spelled(i) == Spelled(j) ensures i == j {
      SpelledReads(i, j);
    }
  }

  lemma SpelledReads(i: string, j: string)
    requires IsLabel(i) && IsLabel(j) && Spelled(i) == Spelled(j)
    ensures i == j
  {
    assert Spelled(i)[31] == |i| as byte && Spelled(j)[31] == |j| as byte;
    forall k | 0 <= k < |i| ensures i[k] == j[k] {
      assert Spelled(i)[k] == i[k] as int as byte && Spelled(j)[k] == j[k] as int as byte;
    }
  }

  /** At any ordinary time and for any short token there are primitives and draws that meet every assumption of KeyAgreement. */
  lemma AgreementHasInstances(at: Clocks, ts: int, check: int, add: int, token: seq<byte>)
    requires 0 <= at.client < U32_LIMIT && -TimeSlots.SLOT_SEC <= at.client - at.server <= TimeSlots.SLOT_SEC
    requires 0 <= ts < U32_LIMIT && -REPLAY_WINDOW <= ts - check <= REPLAY_WINDOW && |token| <= 1000
    ensures var d, sd := ClientDraws([], Zeros(NONCE_LEN), ts, []), ServerDraws([], Zeros(NONCE_LEN), [], check, add);
      && InTime(at, d, sd) && d.nonce !in Purged(map[], sd.add)
      && Meeting(Toy(), [], Zeros(KEY_LEN), TimeSlots.CandidateSlots(at.server, 0), TimeSlots.EffectiveSlot(at.client, 0),
                 Payload(3, token, []), d, [], sd)
  {
    SlotsAre64Bit(at);
    ToyMeets(TimeSlots.CandidateSlots(at.server, 0), TimeSlots.EffectiveSlot(at.client, 0), ts, check, add, token);
  }

  lemma SlotsAre64Bit(at: Clocks)
    requires 0 <= at.client < U32_LIMIT && -TimeSlots.SLOT_SEC <= at.client - at.server <= TimeSlots.SLOT_SEC
    ensures IsI64(TimeSlots.EffectiveSlot(at.client, 0))
    ensures forall s :: s in TimeSlots.CandidateSlots(at.server, 0) ==> IsI64(s)
  {
    forall s | s in TimeSlots.CandidateSlots(at.server, 0) ensures IsI64(s) {
      assert s == TimeSlots.TimeSlot(at.server) || s == TimeSlots.TimeSlot(at.server - 120) || s == TimeSlots.TimeSlot(at.server + 120);
    }
  }

  lemma ToyMeets(slots: seq<int>, slot: int, ts: int, check: int, add: int, token: seq<byte>)
    requires IsI64(slot) && IsI64(ts) && |token| <= 1000 && forall s :: s in slots ==> IsI64(s)
    ensures Meeting(Toy(), [], Zeros(KEY_LEN), slots, slot, Payload(3, token, []), ClientDraws([], Zeros(NONCE_LEN), ts, []), [],
                    ServerDraws([], Zeros(NONCE_LEN), [], check, add))
  {
    ToyIsSound();
    ToyTellsSlotsApart(Zeros(KEY_LEN), slots, Mask(Toy(), Zeros(KEY_LEN), Zeros(KEY_LEN), slot), slot);
  }

  // ---- The handshakes as they run on a connection -------------------------------------------

  /** Writes the hello, then reads the reply; nothing is written when the hello cannot be made. */
  method ClientHandshake(cr: Crypto, serverPub: seq<byte>, slot: int, p: Payload, d: ClientDraws, r: Wire.ByteReader, w: Wire.ByteWriter)
    returns (res: Outcome<(Keys, seq<byte>)>)
    requires IsI64(slot) && IsI64(d.now) && |MaskStream(cr, serverPub, slot)| == KEY_LEN
    modifies r, w
    ensures match ClientStart(cr, serverPub, slot, p, d)
      case Err(e) => res == Err(e) && w.out == old(w.out) && r.rest == old(r.rest)
      case Ok(start) =>
        && w.out == old(w.out) + start.0
        && ClientFinish(cr, start.1, old(r.rest)) == if res.Ok? then Ok((res.value.0, res.value.1, r.rest)) else Err(res.error)
  {
    if |serverPub| != KEY_LEN { return Err(BadServerKey); }
    var ePub := cr.pub(d.scalar);
    if ePub.None? { return Err(WeakPoint); }
    var ss1 := cr.dh(d.scalar, serverPub);
    if ss1.None? { return Err(WeakPoint); }
    if |ePub.value| != KEY_LEN { return Err(BadServerKey); }
    var masked := MaskPub(cr, ePub.value, serverPub, slot);
    var m := cr.mac(serverPub, masked + SlotBytes(slot));
    var k1 := cr.hkdf(ss1.value, SlotBytes(slot), INFO_C2S);
    var ct := cr.seal(k1, masked, BuildClient(p, d.nonce, d.now, d.pad));
    if |ct| > MAX_CT { return Err(TooLarge); }
    w.Put(masked);
    w.Put(m);
    w.Put(U16(|ct|));
    w.Put(ct);
    FourPuts(old(w.out), masked, m, U16(|ct|), ct);
    res := AwaitReply(cr, ClientState(serverPub, slot, d.scalar, d.nonce, ss1.value), r);
  }

  lemma FourPuts(base: seq<byte>, a: seq<byte>, b: seq<byte>, c: seq<byte>, d: seq<byte>)
    ensures base + a + b + c + d == base + (a + (b + (c + d)))
  {
    Assoc(base + a + b, c, d);
    Assoc(base + a, b, c + d);
    Assoc(base, a, b + (c + d));
  }

  method AwaitReply(cr: Crypto, st: ClientState, r: Wire.ByteReader) returns (res: Outcome<(Keys, seq<byte>)>)
    requires IsI64(st.slot) && |MaskStream(cr, st.serverPub, st.slot)| == KEY_LEN
    modifies r
    ensures ClientFinish(cr, st, old(r.rest)) == if res.Ok? then Ok((res.value.0, res.value.1, r.rest)) else Err(res.error)
  {
    var maskedS := r.ReadFull(KEY_LEN);
    if maskedS.Err? { return Err(EndOfInput); }
    var sPub := MaskPub(cr, maskedS.value, st.serverPub, st.slot);
    var ss3 := cr.dh(st.scalar, sPub);
    if ss3.None? { return Err(WeakPoint); }
    var k2 := cr.hkdf(ss3.value, SlotBytes(st.slot), INFO_S2C);
    var lb := r.ReadFull(2);
    if lb.Err? { return Err(EndOfInput); }
    if ReadU16(lb.value) > MAX_CT { return Err(TooLarge); }
    var sct := r.ReadFull(ReadU16(lb.value));
    if sct.Err? { return Err(EndOfInput); }
    var spt := cr.open(k2, maskedS.value, sct.value);
    if spt.None? { return Err(DecryptFailed); }
    var hello := ParseServerPlaintext(spt.value);
    if !hello.Good? { return Err(BadHello); }
    var (srvNonce, caps) := hello.value;
    var secret := DeriveSecret(cr, ss3.value, st.ss1, st.nonce, srvNonce);
    return Ok((SessionKeys(cr, secret, st.nonce, srvNonce, true), caps));
  }

  /** The candidate slots are tried in order, up to the first whose MAC matches. */
  method TrySlots(cr: Crypto, serverPub: seq<byte>, slots: seq<int>, masked: seq<byte>, gotMac: seq<byte>) returns (slot: Option<int>)
    requires forall s :: s in slots ==> IsI64(s)
    ensures slot == MatchSlot(cr, serverPub, slots, masked, gotMac)
    ensures slot.Some? ==>
      exists k | 0 <= k < |slots| :: slots[k] == slot.value && gotMac == cr.mac(serverPub, masked + SlotBytes(slots[k])) &&
        (forall i :: 0 <= i < k ==> gotMac != cr.mac(serverPub, masked + SlotBytes(slots[i])))
    ensures slot.None? ==> forall s :: s in slots ==> gotMac != cr.mac(serverPub, masked + SlotBytes(s))
  {
    for i := 0 to |slots|
      invariant forall k :: 0 <= k < i ==> gotMac != cr.mac(serverPub, masked + SlotBytes(slots[k]))
      invariant MatchSlot(cr, serverPub, slots, masked, gotMac) == MatchSlot(cr, serverPub, slots[i..], masked, gotMac)
    {
      var s := slots[i];
      assert slots[i..][0] == s && slots[i..][1..] == slots[i + 1..];
      if gotMac == cr.mac(serverPub, masked + SlotBytes(s)) {
        return Some(s);
      }
    }
    return None;
  }

  ghost function SeenBy(cache: MemReplayCache?): Option<Seen>
    reads if cache == null then {} else {cache}
  {
    if cache == null then None else Some(cache.seen)
  }

  method SendReply(cr: Crypto, serverPub: seq<byte>, slot: int, sEPub: seq<byte>, ss3: seq<byte>, caps: seq<byte>, d: ServerDraws, w: Wire.ByteWriter)
    requires IsI64(slot) && |sEPub| == KEY_LEN == |MaskStream(cr, serverPub, slot)|
    modifies w
    ensures w.out == old(w.out) + Reply(cr, serverPub, slot, sEPub, ss3, caps, d)
  {
    var maskedS := MaskPub(cr, sEPub, serverPub, slot);
    var k2 := cr.hkdf(ss3, SlotBytes(slot), INFO_S2C);
    var sct := cr.seal(k2, maskedS, BuildServer(d.nonce, caps, d.pad));
    w.Put(maskedS);
    w.Put(U16(|sct|));
    w.Put(sct);
    Assoc(old(w.out) + maskedS, U16(|sct|), sct);
    Assoc(old(w.out), maskedS, U16(|sct|) + sct);
  }

  method ReadHello(cr: Crypto, scalar: seq<byte>, serverPub: seq<byte>, slots: seq<int>, r: Wire.ByteReader) returns (res: Outcome<Opened>)
    requires forall s :: s in slots ==> IsI64(s) && |MaskStream(cr, serverPub, s)| == KEY_LEN
    modifies r
    ensures OpenHello(cr, scalar, serverPub, slots, old(r.rest)) == if res.Ok? then Ok((res.value, r.rest)) else Err(res.error)
  {
    var masked := r.ReadFull(KEY_LEN);
    if masked.Err? { return Err(EndOfInput); }
    var gotMac := r.ReadFull(MAC_LEN);
    if gotMac.Err? { return Err(EndOfInput); }
    var matched := TrySlots(cr, serverPub, slots, masked.value, gotMac.value);
    if matched.None? { return Err(BadMac); }
    var slot := matched.value;
    var ePub := MaskPub(cr, masked.value, serverPub, slot);
    var ss1 := cr.dh(scalar, ePub);
    if ss1.None? { return Err(WeakPoint); }
    var k1 := cr.hkdf(ss1.value, SlotBytes(slot), INFO_C2S);
    var lb := r.ReadFull(2);
    if lb.Err? { return Err(EndOfInput); }
    if ReadU16(lb.value) > MAX_CT { return Err(TooLarge); }
    var ct := r.ReadFull(ReadU16(lb.value));
    if ct.Err? { return Err(EndOfInput); }
    var pt := cr.open(k1, masked.value, ct.value);
    if pt.None? { return Err(DecryptFailed); }
    var parsed := ParseClientPlaintext(pt.value);
    if !parsed.Good? { return Err(BadHello); }
    return Ok(Opened(slot, ePub, ss1.value, parsed.value));
  }

  /** Reads a hello and answers it; nothing is written unless the hello is accepted. A null cache refuses no nonce. */
  method ServerHandshake(cr: Crypto, scalar: seq<byte>, serverPub: seq<byte>, slots: seq<int>, caps: seq<byte>,
                         cache: MemReplayCache?, d: ServerDraws, r: Wire.ByteReader, w: Wire.ByteWriter)
    returns (res: Outcome<(Keys, Payload, int)>)
    requires forall s :: s in slots ==> IsI64(s) && |MaskStream(cr, serverPub, s)| == KEY_LEN
    modifies r, w, if cache == null then {} else {cache}
    ensures match ServerRespond(cr, scalar, serverPub, slots, caps, old(SeenBy(cache)), d, old(r.rest))
      case Err(e) => res == Err(e) && w.out == old(w.out)
      case Ok(a) =>
        && res == Ok((a.keys, a.payload, a.slot))
        && w.out == old(w.out) + a.reply && r.rest == a.rest
    ensures SeenBy(cache) == ServerSeen(cr, scalar, serverPub, slots, old(SeenBy(cache)), d, old(r.rest))
  {
    var got := ReadHello(cr, scalar, serverPub, slots, r);
    if got.Err? { return Err(got.error); }
    var (slot, h) := (got.value.slot, got.value.hello);
    if h.ts < d.check - REPLAY_WINDOW || h.ts > d.check + REPLAY_WINDOW { return Err(Replayed); }
    if cache != null {
      var isNew := cache.Add(h.nonce, d.add);
      if !isNew { return Err(Replayed); }
    }
    var sEPub := cr.pub(d.scalar);
    if sEPub.None? || |sEPub.value| != KEY_LEN { return Err(WeakPoint); }
    var ss3 := cr.dh(d.scalar, got.value.ePub);
    if ss3.None? { return Err(WeakPoint); }
    SendReply(cr, serverPub, slot, sEPub.value, ss3.value, caps, d, w);
    var secret := DeriveSecret(cr, ss3.value, got.value.ss1, h.nonce, d.nonce);
    return Ok((SessionKeys(cr, secret, h.nonce, d.nonce, false), h.payload, slot));
  }
}
