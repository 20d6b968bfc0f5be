/** Length-prefixed UDP frames with a trailing pad and pad length. */
module UdpFrames {
  import opened Bytes
  import opened Collections
  import opened Wire

  const MSG_UDP: byte := 1
  const ADDR_V4: byte := 4
  const ADDR_V6: byte := 6
  const MAX_FLEN := 64 * 1024 + 64

  /** What the reader returns: address type, ports, address and payload. */
  datatype Frame = Frame(addrType: byte, srcPort: Short, dstIP: seq<byte>, dstPort: Short, payload: seq<byte>)

  const MAPPED: seq<byte> := [0, 0, 0, 0, 0, 0, 0, 0, 0, 0, 255, 255]

  /** The IPv4-mapped form of four octets. */
  ghost predicate MappedForm(ip: seq<byte>, v4: seq<byte>) { |v4| == 4 && ip == Zeros(10) + [255, 255] + v4 }

  /** The address a caller passed is sent as type `at` and octets `sent`: IPv4 in four octets, whichever way it was given, else IPv6. */
  ghost predicate SentAs(ip: seq<byte>, at: byte, sent: seq<byte>) {
    if at == 4 then |sent| == 4 && (ip == sent || MappedForm(ip, sent))
    else at == 6 && |sent| == 16 && ip == sent && !MappedForm(ip, ip[12..])
  }

  /** An IPv4-mapped IPv6 address becomes four octets; any other length than 4 or 16 is refused. */
  function NormalizeIP(ip: seq<byte>): (r: Read<(byte, seq<byte>)>)
    ensures r.Ok? ==> SentAs(ip, r.value.0, r.value.1)
    ensures r.Ok? <==> |ip| == 4 || |ip| == 16
  {
    assert MAPPED == Zeros(10) + [255, 255];
    assert |ip| == 16 ==> ip == ip[..12] + ip[12..];
    if |ip| == 4 then Ok((ADDR_V4, ip))
    else if |ip| == 16 && ip[..12] == MAPPED then Ok((ADDR_V4, ip[12..]))
    else if |ip| == 16 then Ok((ADDR_V6, ip))
    else Err(BadAddress)
  }

  /** An address is sent in one way only. */
  lemma SentOneWay(ip: seq<byte>, at: byte, sent: seq<byte>, at': byte, sent': seq<byte>)
    requires SentAs(ip, at, sent) && SentAs(ip, at', sent')
    ensures at == at' && sent == sent'
  {
    assert forall v :: MappedForm(ip, v) ==> ip[12..] == v;
  }

  predicate AddrFits(at: byte, ip: seq<byte>) {
    (at == ADDR_V4 && |ip| == 4) || (at == ADDR_V6 && |ip| == 16)
  }

  function Head(f: Frame): seq<byte> { [MSG_UDP, f.addrType] + (U16(f.srcPort) + (f.dstIP + U16(f.dstPort))) }

  function Trailer(pad: seq<byte>): seq<byte>
    requires |pad| <= 64
  {
    pad + [|pad| as byte]
  }

  /** A frame without its length field. */
  function Layout(f: Frame, pad: seq<byte>): seq<byte>
    requires |pad| <= 64
  {
    Head(f) + (f.payload + Trailer(pad))
  }

  lemma InOrder(base: seq<byte>, n: seq<byte>, msg: byte, at: byte, src: seq<byte>, ip: seq<byte>, dst: seq<byte>, payload: seq<byte>, pad: seq<byte>, padLen: seq<byte>)
    ensures base + n + [msg] + [at] + src + ip + dst + payload + pad + padLen
      == base + (n + (([msg, at] + (src + (ip + dst))) + (payload + (pad + padLen))))
  {
    var head := base + n + [msg] + [at] + src + ip + dst;
    Assoc(head + payload, pad, padLen);
    Assoc(head, payload, pad + padLen);
    Assoc(base + n + [msg] + [at] + src, ip, dst);
    Assoc(base + n + [msg] + [at], src, ip + dst);
    Assoc(base + n, [msg], [at]);
    assert [msg] + [at] == [msg, at];
    Assoc(base + n, [msg, at], src + (ip + dst));
    Assoc(base + n, [msg, at] + (src + (ip + dst)), payload + (pad + padLen));
    Assoc(base, n, ([msg, at] + (src + (ip + dst))) + (payload + (pad + padLen)));
  }

  /** `pad` stands for the random pad octets. */
  method WriteUDPFrame(w: ByteWriter, srcPort: Short, dstIP: seq<byte>, dstPort: Short, payload: seq<byte>, pad: seq<byte>) returns (res: Read<()>)
    requires |pad| <= 64
    modifies w
    ensures match Written(srcPort, dstIP, dstPort, payload, pad)
      case Err(e) => res == Err(e) && w.out == old(w.out)
      case Ok(octets) => res.Ok? && w.out == old(w.out) + octets
  {
    var norm := NormalizeIP(dstIP);
    if norm.Err? { return Err(norm.error); }
    PutFrame(w, srcPort, norm.value.0, norm.value.1, dstPort, payload, pad);
    return Ok(());
  }

  method PutFrame(w: ByteWriter, srcPort: Short, at: byte, ip: seq<byte>, dstPort: Short, payload: seq<byte>, pad: seq<byte>)
    requires |pad| <= 64
    modifies w
    ensures var layout := Layout(Frame(at, srcPort, ip, dstPort, payload), pad); w.out == old(w.out) + (U32(|layout| % U32_LIMIT) + layout)
  {
    var flen := 1 + 1 + 2 + |ip| + 2 + |payload| + |pad| + 1;
    w.Put(U32(flen % U32_LIMIT));
    w.Put([MSG_UDP]);
    w.Put([at]);
    w.Put(U16(srcPort));
    w.Put(ip);
    w.Put(U16(dstPort));
    w.Put(payload);
    w.Put(pad);
    w.Put([|pad| as byte]);
    InOrder(old(w.out), U32(flen % U32_LIMIT), MSG_UDP, at, U16(srcPort), ip, U16(dstPort), payload, pad, [|pad| as byte]);
  }

  /** The checks on the octets behind the length field, in the reader's order. */
  function ParseFrame(buf: seq<byte>): (r: Read<Frame>)
    requires |buf| >= 2
  {
    if buf[0] != MSG_UDP then Err(BadMessage)
    else if |buf| < 4 then Err(EndOfInput)
    else if buf[1] != ADDR_V4 && buf[1] != ADDR_V6 then Err(BadAddress)
    else
      var ipLen := if buf[1] == ADDR_V6 then 16 else 4;
      var off := 6 + ipLen;
      if |buf| < off then Err(EndOfInput)
      else
        var padLen := buf[|buf| - 1] as nat;
        if padLen > 64 || |buf| - 1 - padLen < off then Err(BadLength)
        else Ok(Frame(buf[1], ReadU16(buf[2..4]), buf[4..4 + ipLen], ReadU16(buf[4 + ipLen..off]), buf[off..|buf| - 1 - padLen]))
  }

  function Parse(input: seq<byte>): Read<(Frame, seq<byte>)> {
    var (flen, r1) :- TakeU32(input);
    var _ :- Check(2 <= flen <= MAX_FLEN, BadLength);
    var (buf, r2) :- Take(r1, flen);
    var f :- ParseFrame(buf);
    Ok((f, r2))
  }

  method ReadUDPFrame(r: ByteReader) returns (res: Read<Frame>)
    modifies r
    ensures Parse(old(r.rest)) == if res.Ok? then Ok((res.value, r.rest)) else Err(res.error)
  {
    var flen := r.ReadWord();
    if flen.Err? { return Err(flen.error); }
    if flen.value < 2 || flen.value > MAX_FLEN { return Err(BadLength); }
    var body := r.ReadFull(flen.value);
    if body.Err? { return Err(body.error); }
    var buf := body.value;
    if buf[0] != MSG_UDP { return Err(BadMessage); }
    var at := buf[1];
    var off := 2;
    if |buf| < off + 2 { return Err(EndOfInput); }
    var srcPort := ReadU16(buf[off..off + 2]);
    off := off + 2;
    var ipLen := 4;
    if at == ADDR_V6 {
      ipLen := 16;
    } else if at != ADDR_V4 {
      return Err(BadAddress);
    }
    if |buf| < off + ipLen + 2 { return Err(EndOfInput); }
    var dstIP := buf[off..off + ipLen];
    off := off + ipLen;
    var dstPort := ReadU16(buf[off..off + 2]);
    off := off + 2;
    var padLen := buf[|buf| - 1] as nat;
    if padLen > 64 || |buf| - 1 - padLen < off { return Err(BadLength); }
    return Ok(Frame(at, srcPort, dstIP, dstPort, buf[off..|buf| - 1 - padLen]));
  }

  lemma HeadReads(f: Frame, rest: seq<byte>)
    requires AddrFits(f.addrType, f.dstIP)
    ensures var b := Head(f) + rest; var n := |f.dstIP|;
      |Head(f)| == 6 + n && b[0] == MSG_UDP && b[1] == f.addrType && ReadU16(b[2..4]) == f.srcPort
      && b[4..4 + n] == f.dstIP && ReadU16(b[4 + n..6 + n]) == f.dstPort && b[6 + n..] == rest
  {
    var b, n := Head(f) + rest, |f.dstIP|;
    assert b[2..4] == U16(f.srcPort);
    assert b[4 + n..6 + n] == U16(f.dstPort);
    U16Fits(f.srcPort);
    U16Fits(f.dstPort);
  }

  lemma LayoutParses(f: Frame, pad: seq<byte>)
    requires AddrFits(f.addrType, f.dstIP) && |pad| <= 64
    ensures |Layout(f, pad)| >= 2 && ParseFrame(Layout(f, pad)) == Ok(f)
  {
    var b, off := Layout(f, pad), 6 + |f.dstIP|;
    HeadReads(f, f.payload + Trailer(pad));
    assert b[|b| - 1] as nat == |pad|;
    assert b[off..|b| - 1 - |pad|] == b[off..][..|f.payload|] == f.payload;
  }

  lemma HeadPrinted(buf: seq<byte>, f: Frame)
    requires |buf| >= 2 && ParseFrame(buf) == Ok(f)
    ensures AddrFits(f.addrType, f.dstIP) && |buf| > 6 + |f.dstIP| && buf == Head(f) + buf[6 + |f.dstIP|..]
  {
    var n := |f.dstIP|;
    U16Printed(buf[2..4]);
    U16Printed(buf[4 + n..6 + n]);
    assert Head(f) == buf[..6 + n] by {
      assert buf[..6 + n] == [buf[0], buf[1]] + (buf[2..4] + (buf[4..4 + n] + buf[4 + n..6 + n]));
    }
  }

  lemma TrailerPrinted(rest: seq<byte>)
    requires |rest| > 0 && rest[|rest| - 1] as nat <= 64 && rest[|rest| - 1] as nat < |rest|
    ensures var n := |rest| - 1; var k := rest[n] as nat; var pad := rest[n - k..n];
      |pad| == k && rest == rest[..n - k] + Trailer(pad)
  {}

  /** The pad found in octets that parsed. */
  function PadOf(buf: seq<byte>): (pad: seq<byte>)
    requires |buf| >= 2 && ParseFrame(buf).Ok?
    ensures |pad| <= 64
  {
    var last := |buf| - 1;
    buf[last - buf[last] as nat..last]
  }

  lemma ParsedIsLaidOut(buf: seq<byte>, f: Frame)
    requires |buf| >= 2 && ParseFrame(buf) == Ok(f)
    ensures AddrFits(f.addrType, f.dstIP) && buf == Layout(f, PadOf(buf))
  {
    HeadPrinted(buf, f);
    var off, last := 6 + |f.dstIP|, |buf| - 1;
    var rest, k := buf[off..], buf[last] as nat;
    SliceOfRest(buf, off, 0, last - k - off);
    SliceOfRest(buf, off, last - k - off, last - off);
    TrailerPrinted(rest);
    assert rest == f.payload + Trailer(PadOf(buf));
    LayoutIs(buf, f, PadOf(buf), rest);
  }

  lemma LayoutIs(buf: seq<byte>, f: Frame, pad: seq<byte>, rest: seq<byte>)
    requires |pad| <= 64 && rest == f.payload + Trailer(pad) && buf == Head(f) + rest
    ensures buf == Layout(f, pad)
  {}

  lemma SliceOfRest(buf: seq<byte>, off: nat, i: nat, j: nat)
    requires i <= j && off + j <= |buf|
    ensures buf[off..][i..j] == buf[off + i..off + j]
  {}

  ghost predicate LaidOut(buf: seq<byte>, f: Frame) { exists pad: seq<byte> :: |pad| <= 64 && buf == Layout(f, pad) }

  /** Octets parse to a frame exactly when they are that frame laid out with some pad of at most 64 octets. */
  lemma ParsesIffLaidOut(buf: seq<byte>, f: Frame)
    requires |buf| >= 2
    ensures ParseFrame(buf) == Ok(f) <==> AddrFits(f.addrType, f.dstIP) && LaidOut(buf, f)
  {
    if ParseFrame(buf) == Ok(f) {
      ParsedIsLaidOut(buf, f);
    } else if AddrFits(f.addrType, f.dstIP) && LaidOut(buf, f) {
      var pad: seq<byte> :| |pad| <= 64 && buf == Layout(f, pad);
      LayoutParses(f, pad);
      assert false;
    }
  }

  lemma LengthReads(b: seq<byte>, more: seq<byte>)
    ensures TakeU32(U32(|b| % U32_LIMIT) + b + more) == Ok((|b| % U32_LIMIT, b + more)) && Take(b + more, |b|) == Ok((b, more))
  {
    Assoc(U32(|b| % U32_LIMIT), b, more);
    TakesU32(|b| % U32_LIMIT, b + more);
    TakesFront(b, more);
  }

  lemma PayloadIsBounded(input: seq<byte>)
    requires Parse(input).Ok?
    ensures |Parse(input).value.0.payload| <= MAX_FLEN
  {}

  /** The octets written for a frame to `dstIP`. */
  function Written(srcPort: Short, dstIP: seq<byte>, dstPort: Short, payload: seq<byte>, pad: seq<byte>): Read<seq<byte>>
    requires |pad| <= 64
  {
    var (at, ip) :- NormalizeIP(dstIP);
    var layout := Layout(Frame(at, srcPort, ip, dstPort, payload), pad);
    Ok(U32(|layout| % U32_LIMIT) + layout)
  }

  /**
   * A frame written to an address reads back with that address, an IPv4 address in four octets whichever way it was
   * given, and nothing more consumed, exactly when the frame is within 65600 octets; the writer checks no limit.
   */
  lemma FrameRoundTrip(srcPort: Short, dstIP: seq<byte>, dstPort: Short, payload: seq<byte>, pad: seq<byte>, more: seq<byte>, at: byte, ip: seq<byte>)
    requires SentAs(dstIP, at, ip) && |pad| <= 64
    ensures Written(srcPort, dstIP, dstPort, payload, pad).Ok?
    ensures Parse(Written(srcPort, dstIP, dstPort, payload, pad).value + more) == Ok((Frame(at, srcPort, ip, dstPort, payload), more))
      <==> 7 + |ip| + |payload| + |pad| <= MAX_FLEN
  {
    var (at', ip') := NormalizeIP(dstIP).value;
    SentOneWay(dstIP, at, ip, at', ip');
    LayoutRoundTrip(Frame(at, srcPort, ip, dstPort, payload), pad, more);
  }

  lemma LayoutLength(f: Frame, pad: seq<byte>)
    requires |pad| <= 64
    ensures |Layout(f, pad)| == 7 + |f.dstIP| + |f.payload| + |pad|
  {}

  lemma SmallFrameReads(f: Frame, pad: seq<byte>, more: seq<byte>)
    requires AddrFits(f.addrType, f.dstIP) && |pad| <= 64 && |Layout(f, pad)| <= MAX_FLEN
    ensures var b := Layout(f, pad); Parse(U32(|b| % U32_LIMIT) + b + more) == Ok((f, more))
  {
    LayoutParses(f, pad);
    SmallBodyReads(Layout(f, pad), f, more);
  }

  lemma SmallBodyReads(b: seq<byte>, f: Frame, more: seq<byte>)
    requires 2 <= |b| <= MAX_FLEN && ParseFrame(b) == Ok(f)
    ensures Parse(U32(|b| % U32_LIMIT) + b + more) == Ok((f, more))
  {
    LengthReads(b, more);
  }

  lemma LargeFrameFails(b: seq<byte>, more: seq<byte>)
    requires MAX_FLEN < |b| < U32_LIMIT
    ensures Parse(U32(|b| % U32_LIMIT) + b + more) == Err(BadLength)
  {
    LengthReads(b, more);
  }

  lemma LayoutRoundTrip(f: Frame, pad: seq<byte>, more: seq<byte>)
    requires AddrFits(f.addrType, f.dstIP) && |pad| <= 64
    ensures var b := Layout(f, pad); Parse(U32(|b| % U32_LIMIT) + b + more) == Ok((f, more)) <==> 7 + |f.dstIP| + |f.payload| + |pad| <= MAX_FLEN
  {
    var b := Layout(f, pad);
    LayoutLength(f, pad);
    if |b| <= MAX_FLEN {
      SmallFrameReads(f, pad, more);
    } else if |b| < U32_LIMIT {
      LargeFrameFails(b, more);
    } else if Parse(U32(|b| % U32_LIMIT) + b + more).Ok? {
      PayloadIsBounded(U32(|b| % U32_LIMIT) + b + more);
    }
  }
}
