/** STUN messages: attribute packing, the attribute walk, and the two response parsers built on it. */
module Stun {
  import opened Bytes
  import opened Collections

  const COOKIE: seq<byte> := [0x21, 0x12, 0xA4, 0x42]
  const XOR_RELAYED_ADDRESS: Short := 0x0016
  const REALM: Short := 0x0014
  const NONCE: Short := 0x0015
  const ERROR_CODE: Short := 0x0009
  const XOR_MAPPED_ADDRESS: Short := 0x0020
  const MAPPED_ADDRESS: Short := 0x0001
  const HEADER_LEN := 20
  const V4_PREFIX: seq<byte> := [0, 0, 0, 0, 0, 0, 0, 0, 0, 0, 255, 255]

  type Tx = t: seq<byte> | |t| == 12 witness [0, 0, 0, 0, 0, 0, 0, 0, 0, 0, 0, 0]

  datatype Attr = Attr(typ: Short, val: seq<byte>)

  datatype Endpoint = Endpoint(ip: seq<byte>, port: Short)

  function Padded(n: nat): nat { (n + 3) / 4 * 4 }

  /** One attribute: type, length without padding, value, zeros up to a multiple of four. */
  function Packed(a: Attr): seq<byte> {
    U16(a.typ) + U16(|a.val|) + a.val + Zeros(Padded(|a.val|) - |a.val|)
  }

  method PackAttr(a: Attr) returns (out: array<byte>)
    ensures out[..] == Packed(a)
  {
    var n := |a.val|;
    out := new byte[4 + Padded(n)](_ => 0);
    var typ, len := U16(a.typ), U16(n);
    out[0], out[1], out[2], out[3] := typ[0], typ[1], len[0], len[1];
    forall i | 0 <= i < n { out[4 + i] := a.val[i]; }
  }

  function PackedAll(attrs: seq<Attr>): seq<byte> {
    if attrs == [] then [] else Packed(attrs[0]) + PackedAll(attrs[1..])
  }

  function U16At(s: seq<byte>, i: nat): Short
    requires i + 2 <= |s|
  {
    s[i] as nat * 256 + s[i + 1] as nat
  }

  /** What a walk meets: attributes in order, then the end, or a value that does not fit. */
  datatype Walked = End | Cut | Met(attr: Attr, more: Walked)

  function Listed(attrs: seq<Attr>): Walked {
    if attrs == [] then End else Met(attrs[0], Listed(attrs[1..]))
  }

  /** The attributes from `pos` on: headers are looked for below `end`, values must lie below `limit`. */
  function Walk(pkt: seq<byte>, pos: nat, end: nat, limit: nat): Walked
    requires end <= |pkt| && limit <= |pkt|
    decreases |pkt| + 4 - Min(pos, |pkt| + 4)
  {
    if pos + 4 > end then End
    else
      var at, al := U16At(pkt, pos), U16At(pkt, pos + 2);
      if pos + 4 + al > limit then Cut
      else Met(Attr(at, pkt[pos + 4..pos + 4 + al]), Walk(pkt, pos + 4 + Padded(al), end, limit))
  }

  lemma U16AtReads(s: seq<byte>, i: nat)
    requires i + 2 <= |s|
    ensures U16At(s, i) == ReadU16(s[i..i + 2])
  {}

  lemma AttrInPlace(pkt: seq<byte>, p: nat, a: Attr)
    requires p + |Packed(a)| <= |pkt| && pkt[p..p + |Packed(a)|] == Packed(a)
    ensures |Packed(a)| == 4 + Padded(|a.val|) >= 4 + |a.val|
    ensures U16At(pkt, p) == a.typ && U16At(pkt, p + 2) == |a.val| % U16_LIMIT
    ensures pkt[p + 4..p + 4 + |a.val|] == a.val
  {
    var x := Packed(a);
    InnerSlice(pkt, p, |x|, 0, 2);
    InnerSlice(pkt, p, |x|, 2, 4);
    InnerSlice(pkt, p, |x|, 4, 4 + |a.val|);
    assert x[0..2] == U16(a.typ) && x[2..4] == U16(|a.val|) && x[4..4 + |a.val|] == a.val;
    U16AtReads(pkt, p);
    U16AtReads(pkt, p + 2);
    U16Fits(a.typ);
    U16ReadsBack(|a.val|);
  }

  lemma InnerSlice(s: seq<byte>, p: nat, n: nat, i: nat, j: nat)
    requires p + n <= |s| && i <= j <= n
    ensures s[p..p + n][i..j] == s[p + i..p + j]
  {
    var x, y := s[p..p + n][i..j], s[p + i..p + j];
    forall k | 0 <= k < j - i ensures x[k] == y[k] {}
  }

  ghost predicate AllFit(attrs: seq<Attr>) {
    attrs == [] || (|attrs[0].val| < U16_LIMIT && AllFit(attrs[1..]))
  }

  /** `pkt` holds the packed attributes at `pos`. */
  ghost predicate Holds(pkt: seq<byte>, pos: nat, attrs: seq<Attr>) {
    pos + |PackedAll(attrs)| <= |pkt| && pkt[pos..pos + |PackedAll(attrs)|] == PackedAll(attrs)
  }

  ghost predicate FieldsAt(pkt: seq<byte>, pos: nat, a: Attr) {
    var n := |a.val|;
    && pos + 4 + Padded(n) <= |pkt|
    && U16At(pkt, pos) == a.typ && U16At(pkt, pos + 2) == n % U16_LIMIT
    && pkt[pos + 4..pos + 4 + n] == a.val
  }

  /** Field by field, the attributes stand at `pos` and fill the octets up to `end`. */
  ghost predicate Laid(pkt: seq<byte>, pos: nat, attrs: seq<Attr>, end: nat)
    requires end <= |pkt|
    decreases |attrs|
  {
    if attrs == [] then pos == end
    else
      var next := pos + 4 + Padded(|attrs[0].val|);
      next <= end && FieldsAt(pkt, pos, attrs[0]) && Laid(pkt, next, attrs[1..], end)
  }

  lemma FieldsHold(pkt: seq<byte>, pos: nat, a: Attr, tail: seq<byte>, body: seq<byte>)
    requires body == Packed(a) + tail && pos + |body| <= |pkt| && pkt[pos..pos + |body|] == body
    ensures FieldsAt(pkt, pos, a)
    ensures var next := pos + 4 + Padded(|a.val|); next + |tail| == pos + |body| && pkt[next..next + |tail|] == tail
  {
    var x := Packed(a);
    assert (x + tail)[0..|x|] == x && (x + tail)[|x|..|x| + |tail|] == tail;
    InnerSlice(pkt, pos, |x + tail|, 0, |x|);
    InnerSlice(pkt, pos, |x + tail|, |x|, |x| + |tail|);
    AttrInPlace(pkt, pos, a);
  }

  lemma {:induction false} PackedIsLaid(pkt: seq<byte>, pos: nat, attrs: seq<Attr>, body: seq<byte>)
    requires body == PackedAll(attrs) && pos + |body| <= |pkt| && pkt[pos..pos + |body|] == body
    ensures Laid(pkt, pos, attrs, pos + |body|)
    decreases |attrs|
  {
    if attrs != [] {
      var a, tail := attrs[0], PackedAll(attrs[1..]);
      assert body == Packed(a) + tail;
      FieldsHold(pkt, pos, a, tail, body);
      PackedIsLaid(pkt, pos + 4 + Padded(|a.val|), attrs[1..], tail);
    }
  }

  lemma WalkMeets(pkt: seq<byte>, pos: nat, a: Attr, end: nat, limit: nat)
    requires pos + 4 + Padded(|a.val|) <= end <= limit <= |pkt| && FieldsAt(pkt, pos, a)
    ensures |a.val| < U16_LIMIT ==> Walk(pkt, pos, end, limit) == Met(a, Walk(pkt, pos + 4 + Padded(|a.val|), end, limit))
    ensures |a.val| >= U16_LIMIT ==> Walk(pkt, pos, end, limit).Cut? || Walk(pkt, pos, end, limit).attr != a
  {
    if |a.val| >= U16_LIMIT && Walk(pkt, pos, end, limit).Met? {
      assert |Walk(pkt, pos, end, limit).attr.val| == U16At(pkt, pos + 2);
    }
  }

  lemma {:induction false} WalkIsListed(pkt: seq<byte>, pos: nat, attrs: seq<Attr>, end: nat, limit: nat)
    requires end <= limit <= |pkt| && Laid(pkt, pos, attrs, end)
    ensures Walk(pkt, pos, end, limit) == Listed(attrs) <==> AllFit(attrs)
    decreases |attrs|
  {
    if attrs != [] {
      var a, next := attrs[0], pos + 4 + Padded(|attrs[0].val|);
      WalkMeets(pkt, pos, a, end, limit);
      if |a.val| < U16_LIMIT {
        WalkIsListed(pkt, next, attrs[1..], end, limit);
        assert Walk(pkt, pos, end, limit) == Met(a, Walk(pkt, next, end, limit));
      }
    }
  }

  /**
   * Walking packed attributes gives them back, in order and whatever their types and paddings, exactly when every
   * value fits a 16-bit length.
   */
  lemma WalkRecovers(pkt: seq<byte>, pos: nat, attrs: seq<Attr>, limit: nat)
    requires Holds(pkt, pos, attrs) && pos + |PackedAll(attrs)| <= limit <= |pkt|
    ensures Walk(pkt, pos, pos + |PackedAll(attrs)|, limit) == Listed(attrs) <==> AllFit(attrs)
  {
    PackedIsLaid(pkt, pos, attrs, PackedAll(attrs));
    WalkIsListed(pkt, pos, attrs, pos + |PackedAll(attrs)|, limit);
  }

  /** Section 15.2 of RFC 5389: port and address combined with the cookie and the transaction id. */
  function XorEncoded(e: Endpoint, tx: Tx, reserved: byte): seq<byte>
    requires |e.ip| == 4 || |e.ip| == 16
  {
    [reserved, if |e.ip| == 4 then 1 else 2] + XorSeq(U16(e.port), COOKIE[..2]) + XorSeq(e.ip, (COOKIE + tx)[..|e.ip|])
  }

  function DecodeXorMapped(v: seq<byte>, tx: Tx): Option<Endpoint> {
    if |v| < 8 then None
    else
      var port := ReadU16(XorSeq(v[2..4], COOKIE[..2]));
      if v[1] == 1 then Some(Endpoint(XorSeq(v[4..8], COOKIE), port))
      else if v[1] == 2 && |v| >= 20 then Some(Endpoint(XorSeq(v[4..20], COOKIE + tx), port))
      else None
  }

  method DecodeXor(v: seq<byte>, tx: Tx) returns (r: Option<Endpoint>)
    ensures r == DecodeXorMapped(v, tx)
  {
    if |v| < 8 { return None; }
    var port := ReadU16(XorSeq(v[2..4], COOKIE[..2]));
    if v[1] == 1 {
      return Some(Endpoint(XorSeq(v[4..8], COOKIE), port));
    } else if v[1] == 2 {
      if |v| < 20 { return None; }
      var key := COOKIE + tx;
      var ip := new byte[16](_ => 0);
      for i := 0 to 16
        invariant forall j :: 0 <= j < i ==> ip[j] == Xor(v[4 + j], key[j])
      {
        ip[i] := Xor(v[4 + i], key[i]);
      }
      assert ip[..] == XorSeq(v[4..20], key);
      return Some(Endpoint(ip[..], port));
    }
    return None;
  }

  ghost predicate Encodes(v: seq<byte>, e: Endpoint, tx: Tx) {
    (|e.ip| == 4 || |e.ip| == 16) && exists reserved: byte :: XorEncoded(e, tx, reserved) <= v
  }

  /** Decoding yields an endpoint exactly for the octets that encode it, anything after them being ignored. */
  lemma DecodesIffEncoded(v: seq<byte>, tx: Tx, e: Endpoint)
    ensures DecodeXorMapped(v, tx) == Some(e) <==> Encodes(v, e, tx)
  {
    if Encodes(v, e, tx) {
      var reserved: byte :| XorEncoded(e, tx, reserved) <= v;
      assert v == XorEncoded(e, tx, reserved) + v[4 + |e.ip|..];
      DecodeUndoesEncode(e, tx, reserved, v[4 + |e.ip|..]);
    }
    if DecodeXorMapped(v, tx) == Some(e) {
      EncodeUndoesDecode(v, tx, e);
    }
  }

  lemma KeyFront(tx: Tx)
    ensures (COOKIE + tx)[..4] == COOKIE && (COOKIE + tx)[..16] == COOKIE + tx
  {}

  lemma DecodeUndoesEncode(e: Endpoint, tx: Tx, reserved: byte, more: seq<byte>)
    requires |e.ip| == 4 || |e.ip| == 16
    ensures DecodeXorMapped(XorEncoded(e, tx, reserved) + more, tx) == Some(e)
  {
    var v, key := XorEncoded(e, tx, reserved) + more, (COOKIE + tx)[..|e.ip|];
    KeyFront(tx);
    assert v[2..4] == XorSeq(U16(e.port), COOKIE[..2]);
    assert v[4..4 + |e.ip|] == XorSeq(e.ip, key);
    XorSeqUndo(U16(e.port), COOKIE[..2]);
    XorSeqUndo(e.ip, key);
    U16Fits(e.port);
  }

  lemma EncodeUndoesDecode(v: seq<byte>, tx: Tx, e: Endpoint)
    requires DecodeXorMapped(v, tx) == Some(e)
    ensures (|e.ip| == 4 || |e.ip| == 16) && XorEncoded(e, tx, v[0]) <= v
  {
    var n := |e.ip|;
    KeyFront(tx);
    XorSeqUndo(v[2..4], COOKIE[..2]);
    XorSeqUndo(v[4..4 + n], (COOKIE + tx)[..n]);
    U16Printed(XorSeq(v[2..4], COOKIE[..2]));
    assert v[..4 + n] == [v[0], v[1]] + v[2..4] + v[4..4 + n];
  }

  function DecodeMapped(v: seq<byte>): Option<Endpoint> {
    if |v| < 8 then None
    else if v[1] == 1 then Some(Endpoint(V4_PREFIX + v[4..8], ReadU16(v[2..4])))
    else if v[1] == 2 && |v| >= 20 then Some(Endpoint(v[4..20], ReadU16(v[2..4])))
    else None
  }

  /** Section 15.1 of RFC 5389: family, port and address as they are. */
  function PlainEncoded(family: byte, ip: seq<byte>, port: Short, reserved: byte): seq<byte> {
    [reserved, family] + U16(port) + ip
  }

  /** Four octets of family 1, which become a mapped address of 16, or 16 octets of family 2. */
  ghost predicate Carries(v: seq<byte>, e: Endpoint) {
    || (exists reserved: byte, quad: seq<byte> ::
          |quad| == 4 && e.ip == Zeros(10) + [255, 255] + quad && PlainEncoded(1, quad, e.port, reserved) <= v)
    || (|e.ip| == 16 && exists reserved: byte :: PlainEncoded(2, e.ip, e.port, reserved) <= v)
  }

  /** A plain address decodes exactly from the octets that carry it, anything after them being ignored. */
  lemma DecodesIffCarried(v: seq<byte>, e: Endpoint)
    ensures DecodeMapped(v) == Some(e) <==> Carries(v, e)
  {
    assert V4_PREFIX == Zeros(10) + [255, 255];
    if DecodeMapped(v) == Some(e) {
      U16Printed(v[2..4]);
      var n := if v[1] == 1 then 4 else 16;
      assert PlainEncoded(v[1], v[4..4 + n], e.port, v[0]) == v[..4 + n];
    }
    forall reserved: byte, quad: seq<byte>
      | |quad| == 4 && e.ip == Zeros(10) + [255, 255] + quad && PlainEncoded(1, quad, e.port, reserved) <= v
      ensures DecodeMapped(v) == Some(e)
    {
      PlainDecodes(1, quad, e.port, reserved, v);
    }
    forall reserved: byte | |e.ip| == 16 && PlainEncoded(2, e.ip, e.port, reserved) <= v ensures DecodeMapped(v) == Some(e) {
      PlainDecodes(2, e.ip, e.port, reserved, v);
    }
  }

  lemma PlainDecodes(family: byte, ip: seq<byte>, port: Short, reserved: byte, v: seq<byte>)
    requires |ip| == (if family == 1 then 4 else 16) && (family == 1 || family == 2)
    requires PlainEncoded(family, ip, port, reserved) <= v
    ensures DecodeMapped(v) == Some(Endpoint(if family == 1 then V4_PREFIX + ip else ip, port))
  {
    var x := PlainEncoded(family, ip, port, reserved);
    assert v[..|x|] == x;
    assert v[2..4] == x[2..4] == U16(port) && v[4..4 + |ip|] == x[4..4 + |ip|] == ip;
    U16Fits(port);
  }

  function ErrorCode(v: seq<byte>): int {
    if |v| < 4 then 0 else v[2] as int * 100 + v[3] as int % 100
  }

  /** Section 15.6 of RFC 5389: a code of three digits stands as its hundreds and the rest, before any reason. */
  lemma ErrorCodeReads(code: nat, x: byte, y: byte, reason: seq<byte>)
    requires code < 25600
    ensures ErrorCode([x, y, (code / 100) as byte, (code % 100) as byte] + reason) == code
    ensures ErrorCode([x, y]) == 0
  {}

  /** What an allocation response says; errCode -1 stands for a packet that is not an answer to this request. */
  datatype Allocation = Allocation(relay: Option<Endpoint>, realm: seq<byte>, nonce: seq<byte>, errCode: int)

  const NOTHING := Allocation(None, [], [], 0)

  function Absorb(r: Allocation, a: Attr, tx: Tx): Allocation {
    if a.typ == XOR_RELAYED_ADDRESS then
      var e := DecodeXorMapped(a.val, tx);
      if e.Some? then r.(relay := e) else r
    else if a.typ == REALM then r.(realm := a.val)
    else if a.typ == NONCE then r.(nonce := a.val)
    else if a.typ == ERROR_CODE then r.(errCode := ErrorCode(a.val))
    else r
  }

  function AbsorbAll(r: Allocation, w: Walked, tx: Tx): Allocation
    decreases w
  {
    if w.Met? then AbsorbAll(Absorb(r, w.attr, tx), w.more, tx) else r
  }

  predicate Answers(pkt: seq<byte>, tx: Tx) { |pkt| >= HEADER_LEN && pkt[4..8] == COOKIE && pkt[8..20] == tx }

  function ParseAllocation(pkt: seq<byte>, tx: Tx): Allocation {
    if !Answers(pkt, tx) then NOTHING.(errCode := -1)
    else AbsorbAll(NOTHING, Walk(pkt, HEADER_LEN, Min(HEADER_LEN + ReadU16(pkt[2..4]), |pkt|), |pkt|), tx)
  }

  method ParseAllocateResponse(pkt: seq<byte>, wantTx: Tx) returns (r: Allocation)
    ensures r == ParseAllocation(pkt, wantTx)
  {
    if |pkt| < HEADER_LEN { return NOTHING.(errCode := -1); }
    if pkt[4..8] != COOKIE { return NOTHING.(errCode := -1); }
    if pkt[8..20] != wantTx { return NOTHING.(errCode := -1); }
    var length := ReadU16(pkt[2..4]);
    var end := HEADER_LEN + length;
    if end > |pkt| {
      end := |pkt|;
    }
    r := AbsorbAttrs(pkt, end, wantTx);
  }

  method AbsorbAttrs(pkt: seq<byte>, end: nat, wantTx: Tx) returns (r: Allocation)
    requires end <= |pkt|
    ensures r == AbsorbAll(NOTHING, Walk(pkt, HEADER_LEN, end, |pkt|), wantTx)
  {
    var pos := HEADER_LEN;
    r := NOTHING;
    while pos + 4 <= end
      invariant pos >= HEADER_LEN
      invariant AbsorbAll(NOTHING, Walk(pkt, HEADER_LEN, end, |pkt|), wantTx) == AbsorbAll(r, Walk(pkt, pos, end, |pkt|), wantTx)
      decreases end - pos
    {
      var at, al := U16At(pkt, pos), U16At(pkt, pos + 2);
      pos := pos + 4;
      var pad := Padded(al);
      if pos + al > |pkt| {
        break;
      }
      var val := pkt[pos..pos + al];
      pos := pos + pad;
      if at == XOR_RELAYED_ADDRESS {
        var e := DecodeXor(val, wantTx);
        if e.Some? {
          r := r.(relay := e);
        }
      } else if at == REALM {
        r := r.(realm := val);
      } else if at == NONCE {
        r := r.(nonce := val);
      } else if at == ERROR_CODE {
        r := r.(errCode := ErrorCode(val));
      }
    }
  }

  function LastVal(attrs: seq<Attr>, typ: Short): Option<seq<byte>> {
    if attrs == [] then None
    else if attrs[|attrs| - 1].typ == typ then Some(attrs[|attrs| - 1].val)
    else LastVal(attrs[..|attrs| - 1], typ)
  }

  function LastRelay(attrs: seq<Attr>, tx: Tx): Option<Endpoint> {
    if attrs == [] then None
    else
      var a := attrs[|attrs| - 1];
      if a.typ == XOR_RELAYED_ADDRESS && DecodeXorMapped(a.val, tx).Some? then DecodeXorMapped(a.val, tx)
      else LastRelay(attrs[..|attrs| - 1], tx)
  }

  /** An allocation without any walking: the last decodable relay address, the last realm, nonce and error. */
  function Said(attrs: seq<Attr>, tx: Tx): Allocation {
    var realm, nonce, err := LastVal(attrs, REALM), LastVal(attrs, NONCE), LastVal(attrs, ERROR_CODE);
    Allocation(LastRelay(attrs, tx), if realm.Some? then realm.value else [], if nonce.Some? then nonce.value else [],
               if err.Some? then ErrorCode(err.value) else 0)
  }

  lemma {:induction false} AbsorbSnoc(r: Allocation, attrs: seq<Attr>, a: Attr, tx: Tx)
    ensures AbsorbAll(r, Listed(attrs + [a]), tx) == Absorb(AbsorbAll(r, Listed(attrs), tx), a, tx)
    decreases |attrs|
  {
    if attrs == [] {
      assert ([] + [a])[1..] == [];
    } else {
      assert (attrs + [a])[1..] == attrs[1..] + [a];
      AbsorbSnoc(Absorb(r, attrs[0], tx), attrs[1..], a, tx);
    }
  }

  lemma {:induction false} AbsorbedIsSaid(attrs: seq<Attr>, tx: Tx)
    ensures AbsorbAll(NOTHING, Listed(attrs), tx) == Said(attrs, tx)
    decreases |attrs|
  {
    if attrs != [] {
      var init, a := attrs[..|attrs| - 1], attrs[|attrs| - 1];
      assert attrs == init + [a];
      AbsorbedIsSaid(init, tx);
      AbsorbSnoc(NOTHING, init, a, tx);
    }
  }

  function Header(typ: Short, n: nat, tx: Tx): seq<byte> { U16(typ) + U16(n) + COOKIE + tx }

  lemma HeaderReads(typ: Short, n: Short, tx: Tx, body: seq<byte>)
    ensures var pkt := Header(typ, n, tx) + body;
      |Header(typ, n, tx)| == HEADER_LEN && Answers(pkt, tx) && ReadU16(pkt[..2]) == typ && ReadU16(pkt[2..4]) == n
  {
    var pkt := Header(typ, n, tx) + body;
    assert pkt[..2] == U16(typ) && pkt[2..4] == U16(n) && pkt[4..8] == COOKIE && pkt[8..20] == tx;
    U16Fits(typ);
    U16Fits(n);
  }

  lemma {:induction false} SmallBodiesFit(attrs: seq<Attr>)
    requires |PackedAll(attrs)| < U16_LIMIT
    ensures AllFit(attrs)
  {
    if attrs != [] {
      SmallBodiesFit(attrs[1..]);
    }
  }

  lemma MessageHolds(typ: Short, attrs: seq<Attr>, tx: Tx, trailing: seq<byte>)
    requires |PackedAll(attrs)| < U16_LIMIT
    ensures var body := PackedAll(attrs); var pkt := Header(typ, |body|, tx) + body + trailing;
      && |pkt| >= HEADER_LEN + |body| && Answers(pkt, tx) && ReadU16(pkt[..2]) == typ && ReadU16(pkt[2..4]) == |body|
      && Holds(pkt, HEADER_LEN, attrs)
  {
    var body := PackedAll(attrs);
    var head := Header(typ, |body|, tx);
    HeaderReads(typ, |body|, tx, body + trailing);
    Assoc(head, body, trailing);
    InMiddle(head, body, trailing);
  }

  lemma InMiddle(head: seq<byte>, body: seq<byte>, trailing: seq<byte>)
    ensures (head + body + trailing)[|head|..|head| + |body|] == body
  {}

  /** A packet counts for nothing exactly when it is too short or lacks the cookie or the transaction asked for. */
  lemma StrangersAreIgnored(pkt: seq<byte>, tx: Tx)
    ensures var stranger := |pkt| < 20 || pkt[4..8] != [0x21, 0x12, 0xA4, 0x42] || pkt[8..20] != tx;
      && (ParseAllocation(pkt, tx).errCode == -1 <==> stranger)
      && (stranger ==> ParseAllocation(pkt, tx) == Allocation(None, [], [], -1))
  {
    if Answers(pkt, tx) { AbsorbsNoError(NOTHING, Walk(pkt, HEADER_LEN, Min(HEADER_LEN + ReadU16(pkt[2..4]), |pkt|), |pkt|), tx); }
  }

  lemma {:induction false} AbsorbsNoError(r: Allocation, w: Walked, tx: Tx)
    requires r.errCode >= 0
    ensures AbsorbAll(r, w, tx).errCode >= 0
    decreases w
  {
    if w.Met? { AbsorbsNoError(Absorb(r, w.attr, tx), w.more, tx); }
  }

  /** A response made of packed attributes is read as what they say, octets behind the stated length notwithstanding. */
  lemma AllocationReads(typ: Short, attrs: seq<Attr>, tx: Tx, trailing: seq<byte>)
    requires |PackedAll(attrs)| < U16_LIMIT
    ensures ParseAllocation(Header(typ, |PackedAll(attrs)|, tx) + PackedAll(attrs) + trailing, tx) == Said(attrs, tx)
  {
    MessageHolds(typ, attrs, tx, trailing);
    AllocationOf(Header(typ, |PackedAll(attrs)|, tx) + PackedAll(attrs) + trailing, attrs, tx);
  }

  lemma AllocationOf(pkt: seq<byte>, attrs: seq<Attr>, tx: Tx)
    requires Answers(pkt, tx) && Holds(pkt, HEADER_LEN, attrs) && ReadU16(pkt[2..4]) == |PackedAll(attrs)|
    ensures ParseAllocation(pkt, tx) == Said(attrs, tx)
  {
    SmallBodiesFit(attrs);
    WalkRecovers(pkt, HEADER_LEN, attrs, |pkt|);
    AbsorbedIsSaid(attrs, tx);
  }

  /** A refusal that names its code, realm and nonce is read as just those, and without a relay address. */
  lemma ChallengeReads(typ: Short, code: nat, reason: seq<byte>, realm: seq<byte>, nonce: seq<byte>, tx: Tx, trailing: seq<byte>)
    requires code < 25600
    requires |PackedAll(Challenge(code, reason, realm, nonce))| < U16_LIMIT
    ensures var body := PackedAll(Challenge(code, reason, realm, nonce));
      ParseAllocation(Header(typ, |body|, tx) + body + trailing, tx) == Allocation(None, realm, nonce, code)
  {
    var attrs := Challenge(code, reason, realm, nonce);
    AllocationReads(typ, attrs, tx, trailing);
    ErrorCodeReads(code, 0, 0, reason);
    ChallengeSays(attrs[0], attrs[1], attrs[2], tx);
  }

  function Challenge(code: nat, reason: seq<byte>, realm: seq<byte>, nonce: seq<byte>): seq<Attr>
    requires code < 25600
  {
    [Attr(0x0009, [0, 0, (code / 100) as byte, (code % 100) as byte] + reason), Attr(0x0014, realm), Attr(0x0015, nonce)]
  }

  lemma ChallengeSays(e: Attr, r: Attr, n: Attr, tx: Tx)
    requires e.typ == ERROR_CODE && r.typ == REALM && n.typ == NONCE
    ensures Said([e, r, n], tx) == Allocation(None, r.val, n.val, ErrorCode(e.val))
  {
    var all, two, one := [e, r, n], [e, r], [e];
    assert all[..2] == two && two[..1] == one && one[..0] == [];
    assert LastRelay(all, tx) == LastRelay(two, tx) == LastRelay(one, tx) == LastRelay([], tx) == None;
    assert LastVal(all, REALM) == LastVal(two, REALM) == Some(r.val);
    assert LastVal(all, NONCE) == Some(n.val);
    assert LastVal(all, ERROR_CODE) == LastVal(two, ERROR_CODE) == LastVal(one, ERROR_CODE) == Some(e.val);
  }

  datatype Fault = TooShort | NotSuccess | Truncated | BadCookie | WrongTransaction | BadAttribute | NoAddress

  datatype Binding = Mapped(endpoint: Endpoint) | Refused(fault: Fault)

  function AddressIn(a: Attr, tx: Tx): Option<Endpoint> {
    if a.typ == XOR_MAPPED_ADDRESS then DecodeXorMapped(a.val, tx)
    else if a.typ == MAPPED_ADDRESS then DecodeMapped(a.val)
    else None
  }

  function FirstAddress(w: Walked, tx: Tx): Binding {
    match w
    case End => Refused(NoAddress)
    case Cut => Refused(BadAttribute)
    case Met(a, more) => if AddressIn(a, tx).Some? then Mapped(AddressIn(a, tx).value) else FirstAddress(more, tx)
  }

  /** Of the class bits, only 0x0100 is set. */
  predicate IsSuccess(typ: Short) { typ / 256 % 2 == 1 && typ / 16 % 2 == 0 }

  lemma DigitSkips(a: nat, i: nat)
    requires i >= 4
    ensures Digit(a, i) == Digit(a / 16, i - 4)
  {
    var b := a / 2 / 2;
    assert Digit(a, i) == Digit(b, i - 2);
    assert Digit(b, i - 2) == Digit(b / 2 / 2, i - 4);
    assert b / 2 / 2 == a / 16;
  }

  /** Section 6 of RFC 5389: the class bits are the ninth and the fifth, 0b10 being success. */
  lemma SuccessIffClass(typ: Short)
    ensures IsSuccess(typ) <==> Digit(typ, 8) == 1 && Digit(typ, 4) == 0
    ensures IsSuccess(0x0101) && !IsSuccess(0x0001) && !IsSuccess(0x0011) && !IsSuccess(0x0111)
  {
    DigitSkips(typ, 4);
    DigitSkips(typ, 8);
    DigitSkips(typ / 16, 4);
    assert typ / 16 / 16 == typ / 256;
  }

  function ParseBinding(pkt: seq<byte>, tx: Tx): Binding {
    if |pkt| < HEADER_LEN then Refused(TooShort)
    else if !IsSuccess(ReadU16(pkt[..2])) then Refused(NotSuccess)
    else
      var end := HEADER_LEN + ReadU16(pkt[2..4]);
      if |pkt| < end then Refused(Truncated)
      else if pkt[4..8] != COOKIE then Refused(BadCookie)
      else if pkt[8..20] != tx then Refused(WrongTransaction)
      else FirstAddress(Walk(pkt, HEADER_LEN, end, end), tx)
  }

  /** An address is only taken from a success response to this request whose body has arrived. */
  lemma MappedOnlyFromAnswers(pkt: seq<byte>, tx: Tx)
    requires ParseBinding(pkt, tx).Mapped?
    ensures |pkt| >= 20 && |pkt| >= 20 + ReadU16(pkt[2..4]) && pkt[4..8] == [0x21, 0x12, 0xA4, 0x42] && pkt[8..20] == tx
    ensures Digit(ReadU16(pkt[..2]), 8) == 1 && Digit(ReadU16(pkt[..2]), 4) == 0
  {
    SuccessIffClass(ReadU16(pkt[..2]));
  }

  method ParseBindingResponse(pkt: seq<byte>, wantTx: Tx) returns (r: Binding)
    ensures r == ParseBinding(pkt, wantTx)
  {
    if |pkt| < HEADER_LEN { return Refused(TooShort); }
    if !IsSuccess(ReadU16(pkt[..2])) { return Refused(NotSuccess); }
    var length := ReadU16(pkt[2..4]);
    if |pkt| < HEADER_LEN + length { return Refused(Truncated); }
    if pkt[4..8] != COOKIE { return Refused(BadCookie); }
    if pkt[8..20] != wantTx { return Refused(WrongTransaction); }
    r := FindAddress(pkt, HEADER_LEN + length, wantTx);
  }

  method DecodeAddress(a: Attr, tx: Tx) returns (e: Option<Endpoint>)
    ensures e == AddressIn(a, tx)
  {
    e := None;
    if a.typ == XOR_MAPPED_ADDRESS {
      e := DecodeXor(a.val, tx);
    } else if a.typ == MAPPED_ADDRESS {
      e := DecodeMapped(a.val);
    }
  }

  method FindAddress(pkt: seq<byte>, end: nat, wantTx: Tx) returns (r: Binding)
    requires end <= |pkt|
    ensures r == FirstAddress(Walk(pkt, HEADER_LEN, end, end), wantTx)
  {
    var pos := HEADER_LEN;
    ghost var all := Walk(pkt, pos, end, end);
    ghost var left := all;
    while pos + 4 <= end
      invariant pos >= HEADER_LEN && left == Walk(pkt, pos, end, end)
      invariant FirstAddress(all, wantTx) == FirstAddress(left, wantTx)
      decreases end - pos
    {
      var at, al := U16At(pkt, pos), U16At(pkt, pos + 2);
      pos := pos + 4;
      var pad := Padded(al);
      if pos + al > end { return Refused(BadAttribute); }
      var val := pkt[pos..pos + al];
      pos := pos + pad;
      assert left.attr == Attr(at, val);
      var e := DecodeAddress(Attr(at, val), wantTx);
      if e.Some? { return Mapped(e.value); }
      left := left.more;
    }
    return Refused(NoAddress);
  }

  /** A success response made of packed attributes yields the first address among them. */
  lemma BindingReads(typ: Short, attrs: seq<Attr>, tx: Tx, trailing: seq<byte>)
    requires |PackedAll(attrs)| < U16_LIMIT && IsSuccess(typ)
    ensures ParseBinding(Header(typ, |PackedAll(attrs)|, tx) + PackedAll(attrs) + trailing, tx) == FirstAddress(Listed(attrs), tx)
  {
    MessageHolds(typ, attrs, tx, trailing);
    BindingOf(Header(typ, |PackedAll(attrs)|, tx) + PackedAll(attrs) + trailing, attrs, tx);
  }

  lemma BindingOf(pkt: seq<byte>, attrs: seq<Attr>, tx: Tx)
    requires Answers(pkt, tx) && Holds(pkt, HEADER_LEN, attrs) && IsSuccess(ReadU16(pkt[..2])) && ReadU16(pkt[2..4]) == |PackedAll(attrs)|
    ensures ParseBinding(pkt, tx) == FirstAddress(Listed(attrs), tx)
  {
    SmallBodiesFit(attrs);
    WalkRecovers(pkt, HEADER_LEN, attrs, HEADER_LEN + |PackedAll(attrs)|);
  }

  /** A server's XOR-mapped address reaches the client unchanged when no earlier attribute carries one. */
  lemma MappedAddressArrives(typ: Short, before: seq<Attr>, e: Endpoint, after: seq<Attr>, tx: Tx, trailing: seq<byte>)
    requires IsSuccess(typ) && (|e.ip| == 4 || |e.ip| == 16) && forall a :: a in before ==> AddressIn(a, tx).None?
    requires var attrs := before + ([Attr(XOR_MAPPED_ADDRESS, XorEncoded(e, tx, 0))] + after); |PackedAll(attrs)| < U16_LIMIT
    ensures var attrs := before + ([Attr(XOR_MAPPED_ADDRESS, XorEncoded(e, tx, 0))] + after);
      ParseBinding(Header(typ, |PackedAll(attrs)|, tx) + PackedAll(attrs) + trailing, tx) == Mapped(e)
  {
    var attrs := [Attr(XOR_MAPPED_ADDRESS, XorEncoded(e, tx, 0))] + after;
    DecodeUndoesEncode(e, tx, 0, []);
    assert XorEncoded(e, tx, 0) + [] == XorEncoded(e, tx, 0);
    FirstAfter(before, attrs, tx);
    BindingReads(typ, before + attrs, tx, trailing);
  }

  lemma {:induction false} FirstAfter(before: seq<Attr>, attrs: seq<Attr>, tx: Tx)
    requires forall a :: a in before ==> AddressIn(a, tx).None?
    ensures FirstAddress(Listed(before + attrs), tx) == FirstAddress(Listed(attrs), tx)
  {
    if before == [] {
      assert before + attrs == attrs;
    } else {
      assert (before + attrs)[1..] == before[1..] + attrs;
      FirstAfter(before[1..], attrs, tx);
      assert before[0] in before;
    }
  }
}
