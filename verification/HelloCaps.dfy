/** The server's capabilities: a fixed header, a nonce, and tagged extensions up to the end of the input. */
module HelloCaps {
  import opened Bytes
  import opened Collections
  import opened Wire

  const HEADER_LEN := 11
  const MAX_NONCE := 32
  const QUIC_LEAF_PIN: byte := 1
  const RELAY_CLASS: byte := 2
  const PATH_TTL: byte := 3
  const RELAY_FLAGS: byte := 4

  datatype Caps = Caps(version: byte, legacyIPv6: bool, transportMask: byte, featureBits: Short, quicPort: Short, tcpPortHint: Short,
                       obfsProfile: byte, nonce: seq<byte>, pin: seq<byte>, relayClass: byte, pathTTL: byte, relayFlags: Short)

  datatype Ext = Ext(tag: byte, val: seq<byte>)

  /** The lengths the reader insists on, tag by tag; other tags are refused. */
  predicate Fits(e: Ext) {
    |e.val| == (if e.tag == QUIC_LEAF_PIN then 32 else if e.tag == RELAY_CLASS || e.tag == PATH_TTL then 1 else 2)
    && 1 <= e.tag <= 4
  }

  type KnownExt = e: Ext | Fits(e) witness Ext(PATH_TTL, [0])

  function Tlv(e: KnownExt): seq<byte> {
    [e.tag, |e.val| as byte] + e.val
  }

  function Tlvs(es: seq<KnownExt>): seq<byte> {
    if es == [] then [] else Tlv(es[0]) + Tlvs(es[1..])
  }

  function Apply(c: Caps, e: Ext): Read<Caps> {
    if e.tag == QUIC_LEAF_PIN then if |e.val| != 32 then Err(BadLength) else Ok(c.(pin := e.val))
    else if e.tag == RELAY_CLASS then if |e.val| != 1 then Err(BadLength) else Ok(c.(relayClass := e.val[0]))
    else if e.tag == PATH_TTL then if |e.val| != 1 then Err(BadLength) else Ok(c.(pathTTL := e.val[0]))
    else if e.tag == RELAY_FLAGS then if |e.val| != 2 then Err(BadLength) else Ok(c.(relayFlags := ReadU16(e.val)))
    else Err(BadTag)
  }

  /** The extension walk; a single octet left at the end is ignored. */
  function ParseExts(buf: seq<byte>, c: Caps): Read<Caps>
    decreases |buf|
  {
    if |buf| < 2 then Ok(c)
    else
      var n := buf[1] as nat;
      if 2 + n > |buf| then Err(BadLength)
      else
        var c' :- Apply(c, Ext(buf[0], buf[2..2 + n]));
        ParseExts(buf[2 + n..], c')
  }

  /** The last value given for a tag. */
  function LastOf(es: seq<KnownExt>, tag: byte): Option<seq<byte>> {
    if es == [] then None
    else if es[|es| - 1].tag == tag then Some(es[|es| - 1].val)
    else LastOf(es[..|es| - 1], tag)
  }

  /** What extensions mean, without walking octets: each field takes the last value given for it, else keeps its own. */
  function Meaning(c: Caps, es: seq<KnownExt>): Caps
  {
    LastFits(es, QUIC_LEAF_PIN); LastFits(es, RELAY_CLASS); LastFits(es, PATH_TTL); LastFits(es, RELAY_FLAGS);
    var pin, class', ttl, flags := LastOf(es, QUIC_LEAF_PIN), LastOf(es, RELAY_CLASS), LastOf(es, PATH_TTL), LastOf(es, RELAY_FLAGS);
    c.(pin := if pin.Some? then pin.value else c.pin,
       relayClass := if class'.Some? then class'.value[0] else c.relayClass,
       pathTTL := if ttl.Some? then ttl.value[0] else c.pathTTL,
       relayFlags := if flags.Some? then ReadU16(flags.value) else c.relayFlags)
  }

  lemma {:induction false} LastFits(es: seq<KnownExt>, tag: byte)
    ensures LastOf(es, tag).Some? ==> Fits(Ext(tag, LastOf(es, tag).value))
  {
    if es != [] && es[|es| - 1].tag == tag {
      assert Fits(es[|es| - 1]);
    } else if es != [] {
      LastFits(es[..|es| - 1], tag);
    }
  }

  lemma {:induction false} LastOfCons(e: KnownExt, es: seq<KnownExt>, tag: byte)
    ensures LastOf([e] + es, tag) == if LastOf(es, tag).Some? then LastOf(es, tag) else if e.tag == tag then Some(e.val) else None
  {
    if es == [] {
      assert [e] + es == [e] && [e][..0] == [];
    } else {
      assert ([e] + es)[..|es|] == [e] + es[..|es| - 1];
      LastOfCons(e, es[..|es| - 1], tag);
    }
  }

  lemma MeaningCons(c: Caps, e: KnownExt, es: seq<KnownExt>)
    ensures Apply(c, e).Ok? && Meaning(c, [e] + es) == Meaning(Apply(c, e).value, es)
  {
    LastOfCons(e, es, QUIC_LEAF_PIN);
    LastOfCons(e, es, RELAY_CLASS);
    LastOfCons(e, es, PATH_TTL);
    LastOfCons(e, es, RELAY_FLAGS);
  }

  /** Any mix of extensions, in any order and with repeats, is read as what it means; at most one stray octet may follow. */
  lemma {:induction false} WalkRecovers(c: Caps, es: seq<KnownExt>, stray: seq<byte>)
    requires |stray| < 2
    ensures ParseExts(Tlvs(es) + stray, c) == Ok(Meaning(c, es))
    decreases |es|
  {
    if es == [] {
      assert Tlvs(es) + stray == stray;
    } else {
      var e, buf := es[0], Tlvs(es) + stray;
      Assoc(Tlv(e), Tlvs(es[1..]), stray);
      TlvInFront(e, Tlvs(es[1..]) + stray);
      assert es == [e] + es[1..];
      MeaningCons(c, e, es[1..]);
      WalkRecovers(Apply(c, e).value, es[1..], stray);
    }
  }

  lemma TlvInFront(e: KnownExt, rest: seq<byte>)
    ensures var b := Tlv(e) + rest; var n := |e.val|;
      b[0] == e.tag && b[1] as nat == n && 2 + n <= |b| && b[2..2 + n] == e.val && b[2 + n..] == rest
  {}

  ghost predicate AreExts(buf: seq<byte>, es: seq<KnownExt>) {
    exists stray: seq<byte> :: |stray| < 2 && buf == Tlvs(es) + stray
  }

  /** Extension octets are accepted exactly when they are well-formed extensions, with at most one stray octet behind. */
  lemma AcceptedIffExts(buf: seq<byte>, c: Caps)
    ensures ParseExts(buf, c).Ok? <==> exists es :: AreExts(buf, es)
  {
    if ParseExts(buf, c).Ok? {
      var es := TakeApart(buf, c);
    } else if es :| AreExts(buf, es) {
      var stray: seq<byte> :| |stray| < 2 && buf == Tlvs(es) + stray;
      WalkRecovers(c, es, stray);
    }
  }

  lemma {:induction false} TakeApart(buf: seq<byte>, c: Caps) returns (es: seq<KnownExt>)
    requires ParseExts(buf, c).Ok?
    ensures AreExts(buf, es)
    decreases |buf|
  {
    es := [];
    if |buf| < 2 {
      assert buf == Tlvs([]) + buf;
    } else {
      var n := buf[1] as nat;
      var e := Ext(buf[0], buf[2..2 + n]);
      var more := TakeApart(buf[2 + n..], Apply(c, e).value);
      var stray: seq<byte> :| |stray| < 2 && buf[2 + n..] == Tlvs(more) + stray;
      es := [e] + more;
      OneMore(buf, e, more, stray);
    }
  }

  lemma OneMore(buf: seq<byte>, e: KnownExt, more: seq<KnownExt>, stray: seq<byte>)
    requires |buf| >= 2 && buf[0] == e.tag && buf[1] as nat == |e.val| && 2 + |e.val| <= |buf| && buf[2..2 + |e.val|] == e.val
    requires buf[2 + |e.val|..] == Tlvs(more) + stray
    ensures buf == Tlvs([e] + more) + stray
  {
    assert buf == Tlv(e) + buf[2 + |e.val|..];
    Assoc(Tlv(e), Tlvs(more), stray);
    assert ([e] + more)[1..] == more;
  }

  function When(b: bool, e: Ext): (es: seq<KnownExt>)
    requires b ==> Fits(e)
  {
    if b then [e] else []
  }

  function FlagsExt(c: Caps): seq<KnownExt> { When(c.relayFlags != 0, Ext(RELAY_FLAGS, U16(c.relayFlags))) }

  function TtlExts(c: Caps): seq<KnownExt> { When(c.pathTTL != 0, Ext(PATH_TTL, [c.pathTTL])) + FlagsExt(c) }

  function ClassExts(c: Caps): seq<KnownExt> { When(c.relayClass != 0, Ext(RELAY_CLASS, [c.relayClass])) + TtlExts(c) }

  /** The extensions the writer sends: only those set. */
  function ExtsOf(c: Caps): seq<KnownExt>
    requires |c.pin| == 0 || |c.pin| == 32
  {
    When(|c.pin| != 0, Ext(QUIC_LEAF_PIN, c.pin)) + ClassExts(c)
  }

  function Header(c: Caps): seq<byte>
    requires |c.nonce| <= MAX_NONCE
  {
    [c.version, if c.legacyIPv6 then 1 else 0, c.transportMask] + U16(c.featureBits) + U16(c.quicPort) + U16(c.tcpPortHint)
    + [c.obfsProfile, |c.nonce| as byte]
  }

  ghost predicate Encodable(c: Caps) { |c.nonce| <= MAX_NONCE && (|c.pin| == 0 || |c.pin| == 32) }

  lemma {:induction false} TlvsAppend(es: seq<KnownExt>, more: seq<KnownExt>)
    ensures Tlvs(es + more) == Tlvs(es) + Tlvs(more)
  {
    if es == [] {
      assert es + more == more;
    } else {
      assert (es + more)[1..] == es[1..] + more;
      TlvsAppend(es[1..], more);
      Assoc(Tlv(es[0]), Tlvs(es[1..]), Tlvs(more));
    }
  }

  /** Appends one extension when its field is set. */
  method AppendTlv(payload: seq<byte>, isSet: bool, tag: byte, val: seq<byte>, ghost base: seq<byte>, ghost es: seq<KnownExt>) returns (out: seq<byte>)
    requires (isSet ==> Fits(Ext(tag, val))) && payload == base + Tlvs(es)
    ensures out == base + Tlvs(es + When(isSet, Ext(tag, val)))
  {
    if !isSet {
      assert es + When(isSet, Ext(tag, val)) == es;
      return payload;
    }
    var e: KnownExt := Ext(tag, val);
    TlvsAppend(es, [e]);
    assert Tlvs([e]) == Tlv(e) + Tlvs([]) == Tlv(e);
    Assoc(base, Tlvs(es), Tlv(e));
    out := payload + [tag, |val| as byte];
    Assoc(payload, [tag, |val| as byte], val);
    out := out + val;
  }

  method WriteServerHelloCaps(w: ByteWriter, c: Caps) returns (res: Read<()>)
    modifies w
    ensures res.Ok? <==> Encodable(c)
    ensures w.out == if res.Ok? then old(w.out) + (Header(c) + c.nonce + Tlvs(ExtsOf(c))) else old(w.out)
  {
    if |c.nonce| > MAX_NONCE { return Err(BadLength); }
    var legacy: byte := 0;
    if c.legacyIPv6 {
      legacy := 1;
    }
    var payload := [c.version, legacy, c.transportMask] + U16(c.featureBits) + U16(c.quicPort) + U16(c.tcpPortHint)
      + [c.obfsProfile, |c.nonce| as byte] + c.nonce;
    ghost var base := payload;
    assert base + Tlvs([]) == base;
    if |c.pin| != 0 && |c.pin| != 32 { return Err(BadLength); }
    ghost var es: seq<KnownExt> := [];
    payload := AppendTlv(payload, |c.pin| != 0, QUIC_LEAF_PIN, c.pin, base, es);
    es := es + When(|c.pin| != 0, Ext(QUIC_LEAF_PIN, c.pin));
    payload := AppendTlv(payload, c.relayClass != 0, RELAY_CLASS, [c.relayClass], base, es);
    es := es + When(c.relayClass != 0, Ext(RELAY_CLASS, [c.relayClass]));
    payload := AppendTlv(payload, c.pathTTL != 0, PATH_TTL, [c.pathTTL], base, es);
    es := es + When(c.pathTTL != 0, Ext(PATH_TTL, [c.pathTTL]));
    payload := AppendTlv(payload, c.relayFlags != 0, RELAY_FLAGS, U16(c.relayFlags), base, es);
    es := es + When(c.relayFlags != 0, Ext(RELAY_FLAGS, U16(c.relayFlags)));
    FourInOrder(When(|c.pin| != 0, Ext(QUIC_LEAF_PIN, c.pin)), When(c.relayClass != 0, Ext(RELAY_CLASS, [c.relayClass])),
      When(c.pathTTL != 0, Ext(PATH_TTL, [c.pathTTL])), When(c.relayFlags != 0, Ext(RELAY_FLAGS, U16(c.relayFlags))));
    w.Put(payload);
    return Ok(());
  }

  lemma FourInOrder(a: seq<KnownExt>, b: seq<KnownExt>, c: seq<KnownExt>, d: seq<KnownExt>)
    ensures [] + a + b + c + d == a + (b + (c + d))
  {
    Assoc(a + b, c, d);
    Assoc(a, b, c + d);
  }

  function HeaderCaps(buf: seq<byte>, nonce: seq<byte>): Caps
    requires |buf| == HEADER_LEN
  {
    Caps(buf[0], buf[1] == 1, buf[2], ReadU16(buf[3..5]), ReadU16(buf[5..7]), ReadU16(buf[7..9]), buf[9], nonce, [], 0, 0, 0)
  }

  function Parse(input: seq<byte>): Read<Caps> {
    var (buf, r1) :- Take(input, HEADER_LEN);
    var _ :- Check(buf[10] as nat <= MAX_NONCE, BadLength);
    var (nonce, exts) :- Take(r1, buf[10] as nat);
    ParseExts(exts, HeaderCaps(buf, nonce))
  }

  method ReadServerHelloCaps(r: ByteReader) returns (res: Read<Caps>)
    modifies r
    ensures res == Parse(old(r.rest))
  {
    var head := r.ReadFull(HEADER_LEN);
    if head.Err? { return Err(head.error); }
    var buf := head.value;
    var nonceLen := buf[10] as nat;
    if nonceLen > MAX_NONCE { return Err(BadLength); }
    var nonce := r.ReadFull(nonceLen);
    if nonce.Err? { return Err(nonce.error); }
    var caps := Caps(buf[0], buf[1] == 1, buf[2], ReadU16(buf[3..5]), ReadU16(buf[5..7]), ReadU16(buf[7..9]), buf[9], nonce.value, [], 0, 0, 0);
    var ext := r.ReadAll();
    res := ReadExts(ext, caps);
  }

  method ReadExts(ext: seq<byte>, start: Caps) returns (res: Read<Caps>)
    ensures res == ParseExts(ext, start)
  {
    var caps, i := start, 0;
    while i + 2 <= |ext|
      invariant 0 <= i <= |ext|
      invariant ParseExts(ext, start) == ParseExts(ext[i..], caps)
      decreases |ext| - i
    {
      var tag, ln := ext[i], ext[i + 1] as nat;
      ghost var left := ext[i..];
      assert left[0] == tag && left[1] as nat == ln;
      i := i + 2;
      if i + ln > |ext| { return Err(BadLength); }
      var val := ext[i..i + ln];
      assert val == left[2..2 + ln] && ext[i + ln..] == left[2 + ln..];
      i := i + ln;
      if tag == QUIC_LEAF_PIN {
        if ln != 32 { return Err(BadLength); }
        caps := caps.(pin := val);
      } else if tag == RELAY_CLASS {
        if ln != 1 { return Err(BadLength); }
        caps := caps.(relayClass := val[0]);
      } else if tag == PATH_TTL {
        if ln != 1 { return Err(BadLength); }
        caps := caps.(pathTTL := val[0]);
      } else if tag == RELAY_FLAGS {
        if ln != 2 { return Err(BadLength); }
        caps := caps.(relayFlags := ReadU16(val));
      } else {
        return Err(BadTag);
      }
    }
    return Ok(caps);
  }

  lemma HeaderReads(c: Caps, rest: seq<byte>)
    requires |c.nonce| <= MAX_NONCE
    ensures |Header(c)| == HEADER_LEN && Header(c)[10] as nat == |c.nonce|
    ensures HeaderCaps(Header(c), c.nonce) == c.(pin := [], relayClass := 0, pathTTL := 0, relayFlags := 0)
  {
    var h := Header(c);
    assert h[3..5] == U16(c.featureBits) && h[5..7] == U16(c.quicPort) && h[7..9] == U16(c.tcpPortHint);
    U16Fits(c.featureBits);
    U16Fits(c.quicPort);
    U16Fits(c.tcpPortHint);
  }

  lemma MeaningWhen(c: Caps, isSet: bool, e: Ext, es: seq<KnownExt>)
    requires isSet ==> Fits(e)
    ensures isSet ==> Apply(c, e).Ok?
    ensures Meaning(c, When(isSet, e) + es) == Meaning(if isSet then Apply(c, e).value else c, es)
  {
    if isSet {
      MeaningCons(c, e, es);
    } else {
      assert When(isSet, e) + es == es;
    }
  }

  lemma FlagsMean(c: Caps)
    ensures Meaning(c.(relayFlags := 0), FlagsExt(c)) == c
  {
    U16Fits(c.relayFlags);
    assert FlagsExt(c) + [] == FlagsExt(c);
    MeaningWhen(c.(relayFlags := 0), c.relayFlags != 0, Ext(RELAY_FLAGS, U16(c.relayFlags)), []);
  }

  lemma TtlMeans(c: Caps)
    ensures Meaning(c.(pathTTL := 0, relayFlags := 0), TtlExts(c)) == c
  {
    FlagsMean(c);
    MeaningWhen(c.(pathTTL := 0, relayFlags := 0), c.pathTTL != 0, Ext(PATH_TTL, [c.pathTTL]), FlagsExt(c));
  }

  lemma ClassMeans(c: Caps)
    ensures Meaning(c.(relayClass := 0, pathTTL := 0, relayFlags := 0), ClassExts(c)) == c
  {
    TtlMeans(c);
    MeaningWhen(c.(relayClass := 0, pathTTL := 0, relayFlags := 0), c.relayClass != 0, Ext(RELAY_CLASS, [c.relayClass]), TtlExts(c));
  }

  lemma OwnExtsMean(c: Caps)
    requires Encodable(c)
    ensures Meaning(c.(pin := [], relayClass := 0, pathTTL := 0, relayFlags := 0), ExtsOf(c)) == c
  {
    ClassMeans(c);
    MeaningWhen(c.(pin := [], relayClass := 0, pathTTL := 0, relayFlags := 0), |c.pin| != 0, Ext(QUIC_LEAF_PIN, c.pin), ClassExts(c));
  }

  /** Capabilities read back in full, whichever extensions they carry. */
  lemma CapsRoundTrip(c: Caps)
    requires Encodable(c)
    ensures Parse(Header(c) + c.nonce + Tlvs(ExtsOf(c))) == Ok(c)
  {
    var exts := Tlvs(ExtsOf(c));
    Assoc(Header(c), c.nonce, exts);
    HeaderReads(c, c.nonce + exts);
    TakesFront(Header(c), c.nonce + exts);
    TakesFront(c.nonce, exts);
    assert exts + [] == exts;
    WalkRecovers(HeaderCaps(Header(c), c.nonce), ExtsOf(c), []);
    OwnExtsMean(c);
  }
}
