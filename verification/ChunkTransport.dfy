/** VP02: messages cut into numbered datagrams and put together again in whatever order they arrive. */
module ChunkTransport {
  import opened Bytes
  import opened Collections

  const MAGIC: seq<byte> := [86, 80, 48, 50]
  const HEADER := 12
  const MAX_CHUNK := 1200
  const MAX_COUNT := 2048

  datatype Chunk = Chunk(total: nat, index: nat, payload: seq<byte>)

  function ChunkHeader(total: nat, index: nat, plen: nat): (h: seq<byte>)
    ensures |h| == HEADER
  {
    MAGIC + U16(total) + U16(index) + U32(plen)
  }

  function EncodeChunk(c: Chunk): seq<byte> {
    ChunkHeader(c.total, c.index, |c.payload|) + c.payload
  }

  /** The header checks that precede any change to the slots. */
  function DecodeChunk(pkt: seq<byte>): Option<Chunk> {
    if |pkt| < HEADER || pkt[..4] != MAGIC then None
    else
      var total, index, plen := ReadU16(pkt[4..6]), ReadU16(pkt[6..8]), ReadU32(pkt[8..12]);
      if plen > MAX_CHUNK || |pkt| < HEADER + plen then None
      else if total < 1 || total > MAX_COUNT || index >= total then None
      else Some(Chunk(total, index, pkt[HEADER..HEADER + plen]))
  }

  ghost predicate Sendable(c: Chunk) {
    c.index < c.total <= MAX_COUNT && |c.payload| <= MAX_CHUNK
  }

  lemma ChunkRoundTrip(c: Chunk)
    requires Sendable(c)
    ensures DecodeChunk(EncodeChunk(c)) == Some(c)
  {
    var pkt := EncodeChunk(c);
    HeaderFields(c.total, c.index, |c.payload|, c.payload);
    U16Fits(c.total);
    U16Fits(c.index);
    U32Fits(|c.payload|);
    assert pkt[HEADER..HEADER + |c.payload|] == c.payload;
  }

  /** A datagram is taken for a chunk exactly when it starts with that chunk as a writer can send it; what follows is ignored. */
  lemma DecodesIff(pkt: seq<byte>, c: Chunk)
    ensures DecodeChunk(pkt) == Some(c) <==> Sendable(c) && EncodeChunk(c) <= pkt
  {
    if Sendable(c) && EncodeChunk(c) <= pkt {
      var n := HEADER + |c.payload|;
      assert pkt == ChunkHeader(c.total, c.index, |c.payload|) + pkt[HEADER..] && pkt[..n] == EncodeChunk(c);
      HeaderFields(c.total, c.index, |c.payload|, pkt[HEADER..]);
      U16Fits(c.total);
      U16Fits(c.index);
      U32Fits(|c.payload|);
      assert pkt[HEADER..n] == pkt[..n][HEADER..] == c.payload;
    }
    if DecodeChunk(pkt) == Some(c) {
      U16Printed(pkt[4..6]);
      U16Printed(pkt[6..8]);
      U32Printed(pkt[8..12]);
      assert pkt[..HEADER] == pkt[..4] + pkt[4..6] + pkt[6..8] + pkt[8..12];
      assert pkt[..HEADER + |c.payload|] == pkt[..HEADER] + c.payload;
    }
  }

  lemma HeaderFields(total: nat, index: nat, plen: nat, rest: seq<byte>)
    ensures var pkt := ChunkHeader(total, index, plen) + rest;
      pkt[..4] == MAGIC && pkt[4..6] == U16(total) && pkt[6..8] == U16(index) && pkt[8..12] == U32(plen)
  {
    var h := ChunkHeader(total, index, plen);
    assert h[..4] == MAGIC && h[4..6] == U16(total) && h[6..8] == U16(index) && h[8..12] == U32(plen);
    var pkt := h + rest;
    assert pkt[..4] == h[..4] && pkt[4..6] == h[4..6] && pkt[6..8] == h[6..8] && pkt[8..12] == h[8..12];
  }

  /** How many datagrams a message needs. */
  function ChunkCount(n: nat): nat { (n + MAX_CHUNK - 1) / MAX_CHUNK }

  function Piece(p: seq<byte>, i: nat): (c: seq<byte>)
    requires i < ChunkCount(|p|)
    ensures 0 < |c| <= MAX_CHUNK
  {
    p[i * MAX_CHUNK..Min(i * MAX_CHUNK + MAX_CHUNK, |p|)]
  }

  function Pieces(p: seq<byte>): (ps: seq<seq<byte>>)
    ensures |ps| == ChunkCount(|p|)
    ensures forall i :: 0 <= i < |ps| ==> 0 < |ps[i]| <= MAX_CHUNK
  {
    seq(ChunkCount(|p|), i requires 0 <= i < ChunkCount(|p|) => Piece(p, i))
  }

  function ChunkAt(ps: seq<seq<byte>>, i: nat): Chunk
    requires i < |ps|
  {
    Chunk(|ps|, i, ps[i])
  }

  function Packets(ps: seq<seq<byte>>): (pkts: seq<seq<byte>>)
    ensures |pkts| == |ps|
  {
    seq(|ps|, i requires 0 <= i < |ps| => EncodeChunk(ChunkAt(ps, i)))
  }

  /** Messages the writer accepts: not empty and within 2048 datagrams. */
  predicate Fits(p: seq<byte>) { 0 < |p| && ChunkCount(|p|) <= MAX_COUNT }

  lemma FitsExactly(p: seq<byte>)
    ensures Fits(p) <==> 1 <= |p| <= MAX_CHUNK * MAX_COUNT
  {}

  lemma PacketAt(p: seq<byte>, i: nat)
    requires i < ChunkCount(|p|)
    ensures var lo, hi := i * MAX_CHUNK, Min(i * MAX_CHUNK + MAX_CHUNK, |p|);
      lo < hi && Packets(Pieces(p))[i] == ChunkHeader(ChunkCount(|p|), i, hi - lo) + p[lo..hi]
  {}

  method WriteMessage(p: seq<byte>) returns (sent: Option<seq<seq<byte>>>)
    ensures sent == if Fits(p) then Some(Packets(Pieces(p))) else None
  {
    if |p| == 0 {
      return None;
    }
    var total := (|p| + MAX_CHUNK - 1) / MAX_CHUNK;
    if total > MAX_COUNT {
      return None;
    }
    var out, off := [], 0;
    for index := 0 to total
      invariant off == Min(index * MAX_CHUNK, |p|)
      invariant out == Packets(Pieces(p))[..index]
    {
      var n := MAX_CHUNK;
      if off + n > |p| {
        n := |p| - off;
      }
      var h := ChunkHeader(total, index, n) + p[off..off + n];
      PacketAt(p, index);
      out, off := out + [h], off + n;
    }
    assert Packets(Pieces(p))[..total] == Packets(Pieces(p));
    return Some(out);
  }

  /** The assembler's fields; `parts` is empty exactly when the source's slice is nil. */
  datatype Asm = Asm(total: nat, parts: seq<seq<byte>>, got: nat) {
    predicate InProgress() { parts != [] && 0 < got < total }
  }

  const EMPTY := Asm(0, [], 0)

  /** Every state between calls: nothing held, or some but not all slots counted. */
  ghost predicate Tidy(a: Asm) {
    a == EMPTY || (|a.parts| == a.total && 0 < a.got < a.total)
  }

  function Start(a: Asm, total: nat): Asm {
    if a.parts == [] then Asm(total, seq(total, _ => []), 0) else a
  }

  function Store(a: Asm, c: Chunk): Asm
    requires c.index < |a.parts|
  {
    a.(parts := a.parts[c.index := c.payload], got := a.got + 1)
  }

  /** What one datagram does: the new state and the message completed by it, if any. */
  function Fed(a: Asm, pkt: seq<byte>): (Asm, Option<seq<byte>>)
    requires a.parts == [] || |a.parts| == a.total
  {
    match DecodeChunk(pkt)
    case None => (EMPTY, None)
    case Some(c) => Received(a, c)
  }

  function Received(a: Asm, c: Chunk): (Asm, Option<seq<byte>>)
    requires c.index < c.total && (a.parts == [] || |a.parts| == a.total)
  {
    var s := Start(a, c.total);
    if s.total != c.total then (EMPTY, None)
    else if s.parts[c.index] != [] then (s, None)
    else
      var t := Store(s, c);
      if t.got < t.total then (t, None) else (EMPTY, Some(Flatten(t.parts)))
  }

  class Assembler {
    var total: nat
    var parts: seq<seq<byte>>
    var got: nat

    function View(): Asm
      reads this
    {
      Asm(total, parts, got)
    }

    constructor ()
      ensures View() == EMPTY
    {
      total, parts, got := 0, [], 0;
    }

    method Reset()
      modifies this
      ensures View() == EMPTY
    {
      total, parts, got := 0, [], 0;
    }

    method Feed(pkt: seq<byte>) returns (msg: Option<seq<byte>>)
      requires parts == [] || |parts| == total
      modifies this
      ensures (View(), msg) == Fed(old(View()), pkt)
    {
      if |pkt| < HEADER || pkt[..4] != MAGIC {
        Reset();
        return None;
      }
      var count, index, plen := ReadU16(pkt[4..6]), ReadU16(pkt[6..8]), ReadU32(pkt[8..12]);
      if plen > MAX_CHUNK || |pkt| < HEADER + plen {
        Reset();
        return None;
      }
      var payload := pkt[HEADER..HEADER + plen];
      if count < 1 || count > MAX_COUNT || index >= count {
        Reset();
        return None;
      }
      if parts == [] {
        Reset();
        total, parts := count, seq(count, _ => []);
      }
      if total != count {
        Reset();
        return None;
      }
      if parts[index] != [] {
        return None;
      }
      parts, got := parts[index := payload], got + 1;
      if got < total {
        return None;
      }
      var out := [];
      for i := 0 to |parts|
        invariant View() == Store(Start(old(View()), count), Chunk(count, index, payload))
        invariant out == Flatten(parts[..i])
      {
        assert parts[..i + 1] == parts[..i] + [parts[i]];
        FlattenAppend(parts[..i], [parts[i]]);
        FlattenOne(parts[i]);
        out := out + parts[i];
      }
      assert parts[..|parts|] == parts;
      Reset();
      return Some(out);
    }
  }

  /** Whatever arrives, a datagram that completes nothing leaves the assembler either empty or in progress. */
  lemma FedStaysTidy(a: Asm, pkt: seq<byte>)
    requires Tidy(a)
    ensures Tidy(Fed(a, pkt).0)
    ensures Fed(a, pkt).0 == EMPTY || Fed(a, pkt).0.InProgress()
    ensures Fed(a, pkt).1.Some? ==> Fed(a, pkt).0 == EMPTY
  {}

  /** A datagram that does not start with a chunk as a writer can send it leaves the assembler empty, whatever it held. */
  lemma MalformedResets(a: Asm, pkt: seq<byte>)
    requires Tidy(a) && forall c :: Sendable(c) ==> !(EncodeChunk(c) <= pkt)
    ensures Fed(a, pkt) == (EMPTY, None)
  {
    if DecodeChunk(pkt).Some? { DecodesIff(pkt, DecodeChunk(pkt).value); }
  }

  ghost function Indices(n: nat): (s: set<nat>)
    ensures |s| == n && forall i: nat :: i in s <==> i < n
  {
    if n == 0 then {} else Indices(n - 1) + {n - 1}
  }

  lemma ProperSubsetIsSmaller(s: set<nat>, n: nat)
    requires s <= Indices(n)
    ensures |s| <= n && (|s| == n <==> s == Indices(n))
  {
    assert |Indices(n) - s| == |Indices(n)| - |s|;
  }

  /** Pieces as the writer cuts them: at most 2048, none empty, none above 1200 octets. */
  ghost predicate Cut(ps: seq<seq<byte>>) {
    0 < |ps| <= MAX_COUNT && forall i :: 0 <= i < |ps| ==> 0 < |ps[i]| <= MAX_CHUNK
  }

  /** The slots of an assembler that has seen exactly the chunks in `s`. */
  ghost function Slots(ps: seq<seq<byte>>, s: set<nat>): seq<seq<byte>> {
    seq(|ps|, i requires 0 <= i < |ps| => if i in s then ps[i] else [])
  }

  ghost function Holding(ps: seq<seq<byte>>, s: set<nat>): Asm {
    if s == {} then EMPTY else Asm(|ps|, Slots(ps, s), |s|)
  }

  lemma {:induction false} PiecesFlatten(p: seq<byte>, n: nat)
    requires n <= ChunkCount(|p|)
    ensures Flatten(Pieces(p)[..n]) == p[..Min(n * MAX_CHUNK, |p|)]
  {
    if n > 0 {
      var ps := Pieces(p);
      PiecesFlatten(p, n - 1);
      assert ps[..n] == ps[..n - 1] + [Piece(p, n - 1)];
      FlattenAppend(ps[..n - 1], [Piece(p, n - 1)]);
      FlattenOne(Piece(p, n - 1));
    }
  }

  /** Cutting loses nothing. */
  lemma PiecesMakeTheMessage(p: seq<byte>)
    ensures Flatten(Pieces(p)) == p
    ensures Fits(p) ==> Cut(Pieces(p))
  {
    PiecesFlatten(p, ChunkCount(|p|));
    assert Pieces(p)[..ChunkCount(|p|)] == Pieces(p);
  }

  /** One delivery: a repeat changes nothing, a new chunk is kept, and the last missing one yields the message. */
  lemma OneDelivery(ps: seq<seq<byte>>, s: set<nat>, i: nat)
    requires Cut(ps) && s < Indices(|ps|) && i < |ps|
    ensures Fed(Holding(ps, s), Packets(ps)[i]) ==
      if s + {i} == Indices(|ps|) then (EMPTY, Some(Flatten(ps))) else (Holding(ps, s + {i}), None)
  {
    ChunkRoundTrip(ChunkAt(ps, i));
    OneReceipt(ps, s, i);
  }

  lemma OneReceipt(ps: seq<seq<byte>>, s: set<nat>, i: nat)
    requires Cut(ps) && s < Indices(|ps|) && i < |ps|
    ensures Received(Holding(ps, s), ChunkAt(ps, i)) ==
      if s + {i} == Indices(|ps|) then (EMPTY, Some(Flatten(ps))) else (Holding(ps, s + {i}), None)
  {
    ProperSubsetIsSmaller(s, |ps|);
    StartHolding(ps, s);
    if i in s {
      assert s + {i} == s;
      RepeatChangesNothing(ps, s, i);
    } else {
      ProperSubsetIsSmaller(s + {i}, |ps|);
      StoreHolding(ps, s, i);
    }
  }

  lemma RepeatChangesNothing(ps: seq<seq<byte>>, s: set<nat>, i: nat)
    requires Cut(ps) && i < |ps| && i in s
    ensures Received(Holding(ps, s), ChunkAt(ps, i)) == (Holding(ps, s), None)
  {
    StartHolding(ps, s);
    assert Slots(ps, s)[i] == ps[i] != [];
  }

  lemma StartHolding(ps: seq<seq<byte>>, s: set<nat>)
    requires ps != []
    ensures Start(Holding(ps, s), |ps|) == Asm(|ps|, Slots(ps, s), |s|)
  {
    assert s == {} ==> Slots(ps, s) == seq(|ps|, _ => []);
  }

  lemma StoreHolding(ps: seq<seq<byte>>, s: set<nat>, i: nat)
    requires i < |ps| && i !in s
    ensures Slots(ps, s)[i] == []
    ensures Store(Asm(|ps|, Slots(ps, s), |s|), ChunkAt(ps, i)) == Asm(|ps|, Slots(ps, s + {i}), |s| + 1)
    ensures |s + {i}| == |s| + 1
    ensures s + {i} == Indices(|ps|) ==> Slots(ps, s + {i}) == ps
  {
    assert Slots(ps, s)[i := ps[i]] == Slots(ps, s + {i});
    assert s + {i} == Indices(|ps|) ==> Slots(ps, s + {i}) == ps;
  }

  /** Feeding datagrams one after another: the final state and what each call returned. */
  ghost function FedAll(a: Asm, pkts: seq<seq<byte>>): (r: (Asm, seq<Option<seq<byte>>>))
    requires Tidy(a)
    ensures Tidy(r.0) && |r.1| == |pkts|
  {
    if pkts == [] then (a, [])
    else
      var (b, outs) := FedAll(a, pkts[..|pkts| - 1]);
      var (c, out) := Fed(b, pkts[|pkts| - 1]);
      (c, outs + [out])
  }

  ghost predicate Order(n: nat, order: seq<nat>) {
    forall k :: 0 <= k < |order| ==> order[k] < n
  }

  ghost function Deliver(ps: seq<seq<byte>>, order: seq<nat>): seq<seq<byte>>
    requires Order(|ps|, order)
  {
    seq(|order|, k requires 0 <= k < |order| => Packets(ps)[order[k]])
  }

  ghost function Seen(order: seq<nat>): set<nat> { set i | i in order }

  ghost function Silence(n: nat): seq<Option<seq<byte>>> { seq(n, _ => None) }

  lemma {:induction false} SilentUntilComplete(ps: seq<seq<byte>>, order: seq<nat>)
    requires Cut(ps) && Order(|ps|, order) && Seen(order) < Indices(|ps|)
    ensures FedAll(EMPTY, Deliver(ps, order)) == (Holding(ps, Seen(order)), Silence(|order|))
  {
    if order == [] {
      assert Seen(order) == {} && Deliver(ps, order) == [] && Silence(0) == [];
    } else {
      var front, i := order[..|order| - 1], order[|order| - 1];
      assert order == front + [i];
      assert Seen(order) == Seen(front) + {i};
      SilentUntilComplete(ps, front);
      StaysSilent(ps, front, i);
    }
  }

  lemma StaysSilent(ps: seq<seq<byte>>, front: seq<nat>, i: nat)
    requires Cut(ps) && Order(|ps|, front) && i < |ps| && Seen(front) + {i} < Indices(|ps|)
    requires FedAll(EMPTY, Deliver(ps, front)) == (Holding(ps, Seen(front)), Silence(|front|))
    ensures Order(|ps|, front + [i])
    ensures FedAll(EMPTY, Deliver(ps, front + [i])) == (Holding(ps, Seen(front) + {i}), Silence(|front| + 1))
  {
    OneDelivery(ps, Seen(front), i);
    FedAppend(EMPTY, Deliver(ps, front), Packets(ps)[i]);
    DeliverSnoc(ps, front, i);
  }

  lemma DeliverSnoc(ps: seq<seq<byte>>, front: seq<nat>, i: nat)
    requires Order(|ps|, front) && i < |ps|
    ensures Order(|ps|, front + [i]) && Deliver(ps, front + [i]) == Deliver(ps, front) + [Packets(ps)[i]]
    ensures Silence(|front|) + [None] == Silence(|front| + 1)
  {}

  lemma CompletedBy(ps: seq<seq<byte>>, order: seq<nat>, last: nat)
    requires Cut(ps) && Order(|ps|, order) && last < |ps|
    requires Seen(order) < Indices(|ps|) && Seen(order) + {last} == Indices(|ps|)
    ensures FedAll(EMPTY, Deliver(ps, order) + [Packets(ps)[last]]) == (EMPTY, Silence(|order|) + [Some(Flatten(ps))])
  {
    SilentUntilComplete(ps, order);
    OneDelivery(ps, Seen(order), last);
    FedAppend(EMPTY, Deliver(ps, order), Packets(ps)[last]);
  }

  /** Any order and any repeats: silence until the last missing chunk, then the whole message and an empty assembler. */
  lemma Reassembly(p: seq<byte>, order: seq<nat>, last: nat)
    requires Fits(p) && Order(ChunkCount(|p|), order) && last < ChunkCount(|p|)
    requires Seen(order) < Indices(ChunkCount(|p|)) && Seen(order) + {last} == Indices(ChunkCount(|p|))
    ensures FedAll(EMPTY, Deliver(Pieces(p), order)) == (Holding(Pieces(p), Seen(order)), Silence(|order|))
    ensures FedAll(EMPTY, Deliver(Pieces(p), order) + [Packets(Pieces(p))[last]]) == (EMPTY, Silence(|order|) + [Some(p)])
  {
    PiecesMakeTheMessage(p);
    SilentUntilComplete(Pieces(p), order);
    CompletedBy(Pieces(p), order, last);
  }

  ghost function Filled(a: Asm): set<nat> { set i: nat | i < |a.parts| && a.parts[i] != [] }

  /** The counter equals the number of filled slots after storing a chunk exactly when its payload is not empty. */
  lemma CountIsFilledIff(a: Asm, c: Chunk)
    requires c.index < |a.parts| && a.parts[c.index] == [] && a.got == |Filled(a)|
    ensures Store(a, c).got == |Filled(Store(a, c))| <==> c.payload != []
  {
    if c.payload == [] {
      assert Store(a, c).parts == a.parts;
    } else {
      assert Filled(Store(a, c)) == Filled(a) + {c.index};
    }
  }

  /** An empty chunk sent twice is counted twice: here chunk 1 never arrives and yet a message is reported. */
  lemma EmptyChunkCountsTwice()
    ensures var pkt := EncodeChunk(Chunk(2, 0, [])); FedAll(EMPTY, [pkt, pkt]) == (EMPTY, [None, Some([])])
  {
    var c := Chunk(2, 0, []);
    var pkt := EncodeChunk(c);
    ChunkRoundTrip(c);
    var a := Asm(2, [[], []], 1);
    assert Start(EMPTY, 2).parts == [[], []];
    assert Store(Start(EMPTY, 2), c) == a;
    assert Fed(EMPTY, pkt) == (a, None);
    assert Flatten(a.parts) == [] by { assert a.parts[1..] == [[]]; FlattenOne<byte>([]); }
    assert Fed(a, pkt) == (EMPTY, Some([]));
    FedAppend(EMPTY, [], pkt);
    FedAppend(EMPTY, [pkt], pkt);
    assert [] + [pkt] == [pkt] && [pkt] + [pkt] == [pkt, pkt];
    var quiet: seq<Option<seq<byte>>> := [None];
    assert [] + quiet == quiet && quiet + [Some([])] == [None, Some([])];
  }

  lemma FedAppend(a: Asm, front: seq<seq<byte>>, pkt: seq<byte>)
    requires Tidy(a)
    ensures FedAll(a, front + [pkt]) ==
      var (b, outs) := FedAll(a, front); var (c, out) := Fed(b, pkt); (c, outs + [out])
  {
    assert (front + [pkt])[..|front|] == front;
  }

  /** Feeding `pkts` leads from `a` to `b`, the last of them returning `msg` and all others nothing. */
  ghost predicate Progress(a: Asm, pkts: seq<seq<byte>>, b: Asm, msg: Option<seq<byte>>)
    requires Tidy(a)
  {
    var (c, outs) := FedAll(a, pkts);
    && b == c
    && (forall i :: 0 <= i < |outs| - 1 ==> outs[i] == None)
    && msg == if pkts == [] then None else outs[|pkts| - 1]
  }

  lemma ProgressStep(a: Asm, pkts: seq<seq<byte>>, b: Asm, pkt: seq<byte>)
    requires Tidy(a) && Progress(a, pkts, b, None)
    ensures Tidy(b) && Progress(a, pkts + [pkt], Fed(b, pkt).0, Fed(b, pkt).1) && Tidy(Fed(b, pkt).0)
  {
    FedAppend(a, pkts, pkt);
    FedStaysTidy(b, pkt);
  }

  /** The dialling side of the transport: a byte stream over reassembled messages. */
  class UdpPeerConn {
    const asm: Assembler
    var readCarry: seq<byte>
    var readOff: nat

    ghost predicate Valid()
      reads this, asm
    {
      readOff <= |readCarry| && Tidy(asm.View())
    }

    /** Octets reassembled but not yet handed to the caller. */
    ghost function Pending(): seq<byte>
      requires readOff <= |readCarry|
      reads this
    {
      readCarry[readOff..]
    }

    constructor ()
      ensures Valid() && Pending() == [] && fresh(asm) && asm.View() == EMPTY
    {
      asm := new Assembler();
      readCarry, readOff := [], 0;
    }

    /** Feeds datagrams until one completes a message; None when they run out first. */
    method ReadMessage(pkts: seq<seq<byte>>) returns (msg: Option<seq<byte>>, used: nat)
      requires Tidy(asm.View())
      modifies asm
      ensures used <= |pkts| && Tidy(asm.View())
      ensures Progress(old(asm.View()), pkts[..used], asm.View(), msg)
      ensures msg.None? ==> used == |pkts|
    {
      msg, used := None, 0;
      while msg.None? && used < |pkts|
        invariant used <= |pkts| && Tidy(asm.View())
        invariant Progress(old(asm.View()), pkts[..used], asm.View(), msg)
      {
        ProgressStep(old(asm.View()), pkts[..used], asm.View(), pkts[used]);
        assert pkts[..used + 1] == pkts[..used] + [pkts[used]];
        msg := asm.Feed(pkts[used]);
        used := used + 1;
      }
    }

    /** What is handed over and what stays pending are together what was pending, or the next message when nothing was. */
    method Read(n: nat, pkts: seq<seq<byte>>) returns (out: Option<seq<byte>>)
      requires Valid()
      modifies this, asm
      ensures Valid()
      ensures out.Some? ==> |out.value| == Min(n, |out.value + Pending()|)
      ensures old(Pending()) != [] ==> out.Some? && out.value + Pending() == old(Pending()) && asm.View() == old(asm.View())
      ensures old(Pending()) == [] && out.Some? ==>
        exists k :: 0 < k <= |pkts| && FedAll(old(asm.View()), pkts[..k]).1[k - 1] == Some(out.value + Pending())
    {
      if readOff < |readCarry| {
        var k := Min(n, |readCarry| - readOff);
        out := Some(readCarry[readOff..readOff + k]);
        readOff := readOff + k;
        if readOff >= |readCarry| {
          readCarry, readOff := [], 0;
        }
        return;
      }
      var msg, used := ReadMessage(pkts);
      if msg.None? {
        return None;
      }
      readCarry, readOff := msg.value, Min(n, |msg.value|);
      out := Some(readCarry[..readOff]);
      assert out.value + Pending() == msg.value;
    }
  }
}
