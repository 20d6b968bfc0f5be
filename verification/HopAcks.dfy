/** The acknowledgement a relay sends back for each hop of a route. */
module HopAcks {
  import opened Bytes
  import opened Collections
  import opened Wire

  const MAGIC: byte := 0xA7
  const VERSION: byte := 1

  datatype HopAck = HopAck(routeId: seq<byte>, hopIdx: byte, nodeId: seq<byte>, status: byte, reason: seq<byte>, tsMs: int)

  ghost predicate Encodable(a: HopAck) {
    |a.routeId| < U16_LIMIT && |a.nodeId| < U16_LIMIT && |a.reason| < U16_LIMIT
  }

  function Encoded(a: HopAck): seq<byte>
    requires IsI64(a.tsMs)
  {
    [MAGIC, VERSION, a.status, a.hopIdx] + (Sized(a.routeId) + (Sized(a.nodeId) + (Sized(a.reason) + I64(a.tsMs))))
  }

  lemma InOrder(base: seq<byte>, head: seq<byte>, a: seq<byte>, a': seq<byte>, b: seq<byte>, b': seq<byte>, c: seq<byte>, c': seq<byte>, ts: seq<byte>)
    ensures base + head + a + a' + b + b' + c + c' + ts == base + (head + ((a + a') + ((b + b') + ((c + c') + ts))))
  {
    Assoc(base + head + a + a' + b + b', c, c');
    Assoc(base + head + a + a' + b + b', c + c', ts);
    Assoc(base + head + a + a', b, b');
    Assoc(base + head + a + a', b + b', (c + c') + ts);
    Assoc(base + head, a, a');
    Assoc(base + head, a + a', (b + b') + ((c + c') + ts));
    Assoc(base, head, (a + a') + ((b + b') + ((c + c') + ts)));
  }

  method WriteHopAck(w: ByteWriter, a: HopAck)
    requires IsI64(a.tsMs)
    modifies w
    ensures w.out == old(w.out) + Encoded(a)
  {
    w.Put([MAGIC, VERSION, a.status, a.hopIdx]);
    w.Put(U16(|a.routeId|));
    w.Put(a.routeId);
    w.Put(U16(|a.nodeId|));
    w.Put(a.nodeId);
    w.Put(U16(|a.reason|));
    w.Put(a.reason);
    w.Put(I64(a.tsMs));
    InOrder(old(w.out), [MAGIC, VERSION, a.status, a.hopIdx], U16(|a.routeId|), a.routeId,
      U16(|a.nodeId|), a.nodeId, U16(|a.reason|), a.reason, I64(a.tsMs));
  }

  function Parse(input: seq<byte>): Read<(HopAck, seq<byte>)> {
    var (magic, r1) :- TakeU8(input);
    var _ :- Check(magic == MAGIC, BadMagic);
    var (version, r2) :- TakeU8(r1);
    var _ :- Check(version == VERSION, BadVersion);
    var (status, r3) :- TakeU8(r2);
    var (hopIdx, r4) :- TakeU8(r3);
    var (routeId, r5) :- TakeSized(r4);
    var (nodeId, r6) :- TakeSized(r5);
    var (reason, r7) :- TakeSized(r6);
    var (ts, r8) :- Take(r7, 8);
    Ok((HopAck(routeId, hopIdx, nodeId, status, reason, ReadI64(ts)), r8))
  }

  method ReadSizedString(r: ByteReader) returns (res: Read<seq<byte>>)
    modifies r
    ensures TakeSized(old(r.rest)) == if res.Ok? then Ok((res.value, r.rest)) else Err(res.error)
  {
    var n := r.ReadShort();
    if n.Err? { return Err(n.error); }
    if n.value == 0 { return Ok([]); }
    res := r.ReadFull(n.value);
  }

  method ReadHopAck(r: ByteReader) returns (res: Read<HopAck>)
    modifies r
    ensures Parse(old(r.rest)) == if res.Ok? then Ok((res.value, r.rest)) else Err(res.error)
  {
    var magic := r.ReadByte();
    if magic.Err? { return Err(magic.error); }
    if magic.value != MAGIC { return Err(BadMagic); }
    var version := r.ReadByte();
    if version.Err? { return Err(version.error); }
    if version.value != VERSION { return Err(BadVersion); }
    var status := r.ReadByte();
    if status.Err? { return Err(status.error); }
    var hopIdx := r.ReadByte();
    if hopIdx.Err? { return Err(hopIdx.error); }
    var routeId := ReadSizedString(r);
    if routeId.Err? { return Err(routeId.error); }
    var nodeId := ReadSizedString(r);
    if nodeId.Err? { return Err(nodeId.error); }
    var reason := ReadSizedString(r);
    if reason.Err? { return Err(reason.error); }
    var ts := r.ReadFull(8);
    if ts.Err? { return Err(ts.error); }
    return Ok(HopAck(routeId.value, hopIdx.value, nodeId.value, status.value, reason.value, ReadI64(ts.value)));
  }

  lemma HeadReads(status: byte, hopIdx: byte, rest: seq<byte>)
    ensures var x := [MAGIC, VERSION, status, hopIdx] + rest;
      x[0] == MAGIC && x[1..][0] == VERSION && x[1..][1..][0] == status && x[1..][1..][1..][0] == hopIdx && x[1..][1..][1..][1..] == rest
  {}

  /** An acknowledgement is read back, with nothing more consumed, exactly when its three strings fit 16-bit lengths. */
  lemma HopAckRoundTrip(a: HopAck, more: seq<byte>)
    requires IsI64(a.tsMs)
    ensures Parse(Encoded(a) + more) == Ok((a, more)) <==> Encodable(a)
  {
    if Encodable(a) {
      var t3 := I64(a.tsMs) + more;
      var t2 := Sized(a.reason) + t3;
      var t1 := Sized(a.nodeId) + t2;
      var head := [MAGIC, VERSION, a.status, a.hopIdx];
      Regroup(head, Sized(a.routeId), Sized(a.nodeId), Sized(a.reason), I64(a.tsMs), more);
      assert Encoded(a) + more == head + (Sized(a.routeId) + t1);
      HeadReads(a.status, a.hopIdx, Sized(a.routeId) + t1);
      TakesSized(a.routeId, t1);
      TakesSized(a.nodeId, t2);
      TakesSized(a.reason, t3);
      TakesFront(I64(a.tsMs), more);
      I64ReadsBack(a.tsMs);
    } else if Parse(Encoded(a) + more).Ok? {
      StringsAreShort(Encoded(a) + more);
    }
  }

  /** What is accepted as an acknowledgement is just what a writer prints, and nothing behind it is consumed. */
  lemma ParsesIffPrinted(input: seq<byte>, a: HopAck, rest: seq<byte>)
    ensures Parse(input) == Ok((a, rest)) <==> IsI64(a.tsMs) && Encodable(a) && input == Encoded(a) + rest
  {
    if IsI64(a.tsMs) && Encodable(a) && input == Encoded(a) + rest { HopAckRoundTrip(a, rest); }
    if Parse(input) == Ok((a, rest)) { ParsedIsPrinted(input, a, rest); }
  }

  lemma ParsedIsPrinted(input: seq<byte>, a: HopAck, rest: seq<byte>)
    requires Parse(input) == Ok((a, rest))
    ensures IsI64(a.tsMs) && Encodable(a) && input == Encoded(a) + rest
  {
    var head, r4 := [MAGIC, VERSION, a.status, a.hopIdx], input[1..][1..][1..][1..];
    assert input == head + r4;
    var r7 := ThreeTook(r4, a.routeId, a.nodeId, a.reason);
    I64Printed(r7[..8]);
    assert r7 == I64(a.tsMs) + rest;
    Regroup(head, Sized(a.routeId), Sized(a.nodeId), Sized(a.reason), I64(a.tsMs), rest);
  }

  lemma ThreeTook(r4: seq<byte>, x: seq<byte>, y: seq<byte>, z: seq<byte>) returns (r7: seq<byte>)
    requires TakeSized(r4).Ok? && TakeSized(TakeSized(r4).value.1).Ok? && TakeSized(TakeSized(TakeSized(r4).value.1).value.1).Ok?
    requires var r5 := TakeSized(r4).value.1; var r6 := TakeSized(r5).value.1;
      x == TakeSized(r4).value.0 && y == TakeSized(r5).value.0 && z == TakeSized(r6).value.0
    ensures r7 == TakeSized(TakeSized(TakeSized(r4).value.1).value.1).value.1
    ensures |x| < U16_LIMIT && |y| < U16_LIMIT && |z| < U16_LIMIT && r4 == Sized(x) + (Sized(y) + (Sized(z) + r7))
  {
    TookSized(r4);
    var r5 := TakeSized(r4).value.1;
    TookSized(r5);
    var r6 := TakeSized(r5).value.1;
    TookSized(r6);
    r7 := TakeSized(r6).value.1;
  }

  lemma Regroup(head: seq<byte>, a: seq<byte>, b: seq<byte>, c: seq<byte>, ts: seq<byte>, rest: seq<byte>)
    ensures head + (a + (b + (c + (ts + rest)))) == (head + (a + (b + (c + ts)))) + rest
  {
    Assoc(c, ts, rest);
    Assoc(b, c + ts, rest);
    Assoc(a, b + (c + ts), rest);
    Assoc(head, a + (b + (c + ts)), rest);
  }

  lemma StringsAreShort(input: seq<byte>)
    requires Parse(input).Ok?
    ensures Encodable(Parse(input).value.0)
  {
    var r4 := input[1..][1..][1..][1..];
    TookSized(r4);
    var r5 := TakeSized(r4).value.1;
    TookSized(r5);
    TookSized(TakeSized(r5).value.1);
  }
}
