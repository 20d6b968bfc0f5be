/** What a deadline that passes during a read means for everything read later. */
module RecordExpiry {
  import opened Bytes
  import opened Collections
  import opened RecordStream
  import opened RecordReader

  // ---- How far a reader is, whatever the cipher -------------------------------------------------

  /** Octets of the current frame taken, octets left over from the last one, and the records still to come. */
  datatype Shape = Shape(held: nat, rbuf: seq<byte>, rs: seq<Record>)

  function BodySize(r: Record): nat { 2 + |r.payload| + r.pad + TAG }

  function FrameSize(r: Record): nat { LEN_HDR + BodySize(r) }

  function TotalSize(rs: seq<Record>): nat { if rs == [] then 0 else FrameSize(rs[0]) + TotalSize(rs[1..]) }

  lemma {:induction false} WireSize(c: Cipher, d: Dir, rs: seq<Record>)
    requires Sound(c) && AllGood(rs)
    ensures |WireOf(c, d, rs)| == TotalSize(rs)
    decreases |rs|
  {
    if rs != [] {
      assert Good(rs[0]);
      FrameLength(c, d, rs[0]);
      BodyLength(c, d, rs[0]);
      WireSize(c, Advance(d), rs[1..]);
    }
  }

  /** What a call does to the shape when `a` further octets have arrived. */
  function Read(sh: Shape, n: nat, a: nat): Shape {
    if sh.rbuf != [] then sh.(rbuf := sh.rbuf[Min(n, |sh.rbuf|)..])
    else if sh.rs == [] || sh.held + a < FrameSize(sh.rs[0]) then sh.(held := sh.held + a)
    else Shape(0, sh.rs[0].payload[Min(n, |sh.rs[0].payload|)..], sh.rs[1..])
  }

  function Moved(sh: Shape, e: Event): Shape {
    match e
    case Writing(p, maxPad, draws) => sh.(rs := sh.rs + Records(p, maxPad, draws, 0))
    case Reading(n, arrived) => Read(sh, n, Min(arrived, if TotalSize(sh.rs) < sh.held then 0 else TotalSize(sh.rs) - sh.held))
    case Expiry => sh
  }

  function ShapeOf(es: seq<Event>): Shape {
    if es == [] then Shape(0, [], []) else Moved(ShapeOf(es[..|es| - 1]), es[|es| - 1])
  }

  /** Deadlines have passed between frames only. */
  predicate Calm(es: seq<Event>) { forall i :: 0 <= i < |es| && es[i].Expiry? ==> ShapeOf(es[..i]).held == 0 }

  /** The connection is as the shape says, the records in flight being its records. */
  ghost predicate Shaped(c: Cipher, l: Conn, sh: Shape)
    requires Sound(c)
  {
    && Ready(c, l) && InFlight(c, Rewound(l), sh.rs)
    && |l.rd.ph.Held()| == sh.held && l.rd.rbuf == sh.rbuf && (sh.held > 0 ==> sh.rbuf == [])
  }

  lemma ShapedSizes(c: Cipher, l: Conn, sh: Shape)
    requires Sound(c) && Shaped(c, l, sh)
    ensures sh.held + |l.wire| == TotalSize(sh.rs)
  {
    WireSize(c, Rewound(l).rx, sh.rs);
  }

  lemma WritingShapes(c: Cipher, l: Conn, sh: Shape, p: seq<byte>, maxPad: int, draws: nat -> Draw)
    requires Sound(c) && Shaped(c, l, sh)
    ensures Shaped(c, After(c, l, Writing(p, maxPad, draws)), Moved(sh, Writing(p, maxPad, draws)))
  {
    WritingRewound(c, l, p, maxPad, draws);
    WriteKeepsInFlight(c, Rewound(l), sh.rs, p, maxPad, draws);
  }

  /** What a call that finds no leftovers holds afterwards. */
  lemma CallHolds(c: Cipher, l: Conn, n: nat, arrived: nat)
    requires Sound(c) && Ready(c, l) && l.rd.rbuf == []
    ensures var buf, l' := l.wire[..Min(arrived, |l.wire|)], After(c, l, Reading(n, arrived));
      match RecordStream.ReadFrame(c, Base(l.rd.d, l.rd.ph), l.rd.ph.Held() + buf)
      case NeedMore => l'.rd.ph.Held() == l.rd.ph.Held() + buf && l'.rd.rbuf == []
      case Got(payload, _) => l'.rd.ph == IDLE && l'.rd.rbuf == payload[Min(n, |payload|)..]
      case Bad => true
  {
    PumpingIsReading(c, l.rd.d, l.rd.ph, l.wire[..Min(arrived, |l.wire|)]);
  }

  lemma LeftoverShapes(c: Cipher, l: Conn, sh: Shape, n: nat, arrived: nat)
    requires Sound(c) && Shaped(c, l, sh) && sh.rbuf != []
    ensures Shaped(c, After(c, l, Reading(n, arrived)), Read(sh, n, 0))
  {
    AfterIsReady(c, l, Reading(n, arrived));
    var op := ReadOp(n, arrived + |l.rd.ph.Held()|);
    ReadLeftover(c, Rewound(l), sh.rs, n, arrived + |l.rd.ph.Held()|);
    ReadingRewound(c, l, n, arrived);
  }

  lemma WaitHolds(c: Cipher, l: Conn, sh: Shape, n: nat, arrived: nat)
    requires Sound(c) && Shaped(c, l, sh) && sh.rbuf == []
    requires sh.rs == [] || sh.held + Min(arrived, |l.wire|) < FrameSize(sh.rs[0])
    ensures var rd := After(c, l, Reading(n, arrived)).rd; |rd.ph.Held()| == sh.held + Min(arrived, |l.wire|) && rd.rbuf == []
  {
    NothingWhole(c, l, sh, Min(arrived, |l.wire|));
    CallHolds(c, l, n, arrived);
  }

  /** A call in steps leads where the same call on whole frames leads. */
  lemma LeadsTo(c: Cipher, l: Conn, n: nat, arrived: nat, v: nat, r: Link)
    requires Sound(c) && Ready(c, l) && v == arrived + |l.rd.ph.Held()| && r == Step(c, Rewound(l), ReadOp(n, v)) && !r.broken
    ensures Rewound(After(c, l, Reading(n, arrived))) == r
  {
    var op := ReadOp(n, arrived + |l.rd.ph.Held()|);
    assert op == ReadOp(n, v);
    assert Step(c, Rewound(l), op) == r;
    ReadingRewound(c, l, n, arrived);
  }

  lemma WaitSteps(c: Cipher, l: Conn, sh: Shape, n: nat, arrived: nat, v: nat)
    requires Sound(c) && Shaped(c, l, sh) && sh.rbuf == [] && v == arrived + |l.rd.ph.Held()|
    requires sh.rs == [] || sh.held + Min(arrived, |l.wire|) < FrameSize(sh.rs[0])
    ensures Step(c, Rewound(l), ReadOp(n, v)) == Rewound(l) && !Rewound(l).broken
  {
    if sh.rs != [] {
      assert Good(sh.rs[0]);
      FrameLength(c, Rewound(l).rx, sh.rs[0]);
      BodyLength(c, Rewound(l).rx, sh.rs[0]);
    }
    NoFrameYet(c, Rewound(l), sh.rs, n, v);
  }

  lemma WaitFlies(c: Cipher, l: Conn, sh: Shape, n: nat, arrived: nat)
    requires Sound(c) && Shaped(c, l, sh) && sh.rbuf == []
    requires sh.rs == [] || sh.held + Min(arrived, |l.wire|) < FrameSize(sh.rs[0])
    ensures Rewound(After(c, l, Reading(n, arrived))) == Rewound(l)
  {
    WaitSteps(c, l, sh, n, arrived, arrived + |l.rd.ph.Held()|);
    LeadsTo(c, l, n, arrived, arrived + |l.rd.ph.Held()|, Rewound(l));
  }

  lemma WaitShapes(c: Cipher, l: Conn, sh: Shape, n: nat, arrived: nat)
    requires Sound(c) && Shaped(c, l, sh) && sh.rbuf == []
    requires sh.rs == [] || sh.held + Min(arrived, |l.wire|) < FrameSize(sh.rs[0])
    ensures Shaped(c, After(c, l, Reading(n, arrived)), sh.(held := sh.held + Min(arrived, |l.wire|)))
  {
    AfterIsReady(c, l, Reading(n, arrived));
    WaitFlies(c, l, sh, n, arrived);
    WaitHolds(c, l, sh, n, arrived);
    IsShaped(c, After(c, l, Reading(n, arrived)), sh.(held := sh.held + Min(arrived, |l.wire|)), Rewound(l));
  }

  lemma IsShaped(c: Cipher, l: Conn, sh: Shape, r: Link)
    requires Sound(c) && Ready(c, l) && Rewound(l) == r && InFlight(c, r, sh.rs)
    requires |l.rd.ph.Held()| == sh.held && l.rd.rbuf == sh.rbuf && (sh.held > 0 ==> sh.rbuf == [])
    ensures Shaped(c, l, sh)
  {}

  lemma NothingWhole(c: Cipher, l: Conn, sh: Shape, a: nat)
    requires Sound(c) && Shaped(c, l, sh) && a <= |l.wire| && (sh.rs == [] || sh.held + a < FrameSize(sh.rs[0]))
    ensures RecordStream.ReadFrame(c, Base(l.rd.d, l.rd.ph), l.rd.ph.Held() + l.wire[..a]) == NeedMore
  {
    var held, k := l.rd.ph.Held(), sh.held + a;
    assert held + l.wire[..a] == (held + l.wire)[..k];
    if sh.rs != [] {
      assert Good(sh.rs[0]);
      var f := Frame(c, Rewound(l).rx, sh.rs[0]);
      FrameLength(c, Rewound(l).rx, sh.rs[0]);
      BodyLength(c, Rewound(l).rx, sh.rs[0]);
      assert (held + l.wire)[..k] == f[..k];
      PartialFrameWaits(c, Rewound(l).rx, sh.rs[0], k);
    }
  }

  lemma WholeArrived(c: Cipher, l: Conn, sh: Shape, arrived: nat)
    requires Sound(c) && Shaped(c, l, sh) && sh.rs != [] && sh.held + Min(arrived, |l.wire|) >= FrameSize(sh.rs[0])
    ensures Good(sh.rs[0]) && |Frame(c, Rewound(l).rx, sh.rs[0])| <= Min(arrived + sh.held, |Rewound(l).wire|)
    ensures RecordStream.ReadFrame(c, Base(l.rd.d, l.rd.ph), l.rd.ph.Held() + l.wire[..Min(arrived, |l.wire|)]) ==
      Got(sh.rs[0].payload, |Frame(c, Rewound(l).rx, sh.rs[0])|)
  {
    assert Good(sh.rs[0]);
    FrameLength(c, Rewound(l).rx, sh.rs[0]);
    BodyLength(c, Rewound(l).rx, sh.rs[0]);
    VisibleRewound(l.rd.ph.Held(), l.wire, arrived);
    ArrivedFrame(c, Rewound(l), sh.rs, l.rd.ph.Held() + l.wire[..Min(arrived, |l.wire|)]);
  }

  lemma TakeHolds(c: Cipher, l: Conn, sh: Shape, n: nat, arrived: nat)
    requires Sound(c) && Shaped(c, l, sh) && sh.rbuf == [] && sh.rs != []
    requires sh.held + Min(arrived, |l.wire|) >= FrameSize(sh.rs[0])
    ensures var rd := After(c, l, Reading(n, arrived)).rd; rd.ph.Held() == [] && rd.rbuf == sh.rs[0].payload[Min(n, |sh.rs[0].payload|)..]
  {
    WholeArrived(c, l, sh, arrived);
    CallHolds(c, l, n, arrived);
  }

  lemma TakeSteps(c: Cipher, l: Conn, sh: Shape, n: nat, arrived: nat, v: nat) returns (r: Link)
    requires Sound(c) && Shaped(c, l, sh) && sh.rbuf == [] && sh.rs != [] && v == arrived + |l.rd.ph.Held()|
    requires sh.held + Min(arrived, |l.wire|) >= FrameSize(sh.rs[0])
    ensures r == Step(c, Rewound(l), ReadOp(n, v)) && InFlight(c, r, sh.rs[1..]) && !r.broken
  {
    WholeArrived(c, l, sh, arrived);
    ReadNextFrame(c, Rewound(l), sh.rs, n, v);
    r := Step(c, Rewound(l), ReadOp(n, v));
  }

  lemma TakeShapes(c: Cipher, l: Conn, sh: Shape, n: nat, arrived: nat)
    requires Sound(c) && Shaped(c, l, sh) && sh.rbuf == [] && sh.rs != []
    requires sh.held + Min(arrived, |l.wire|) >= FrameSize(sh.rs[0])
    ensures Shaped(c, After(c, l, Reading(n, arrived)), Shape(0, sh.rs[0].payload[Min(n, |sh.rs[0].payload|)..], sh.rs[1..]))
  {
    AfterIsReady(c, l, Reading(n, arrived));
    var v := arrived + |l.rd.ph.Held()|;
    var r := TakeSteps(c, l, sh, n, arrived, v);
    LeadsTo(c, l, n, arrived, v, r);
    TakeHolds(c, l, sh, n, arrived);
    IsShaped(c, After(c, l, Reading(n, arrived)), Shape(0, sh.rs[0].payload[Min(n, |sh.rs[0].payload|)..], sh.rs[1..]), r);
  }

  lemma ReadingShapes(c: Cipher, l: Conn, sh: Shape, n: nat, arrived: nat)
    requires Sound(c) && Shaped(c, l, sh)
    ensures Shaped(c, After(c, l, Reading(n, arrived)), Moved(sh, Reading(n, arrived)))
  {
    ShapedSizes(c, l, sh);
    if sh.rbuf != [] {
      LeftoverShapes(c, l, sh, n, arrived);
    } else if sh.rs == [] || sh.held + Min(arrived, |l.wire|) < FrameSize(sh.rs[0]) {
      WaitShapes(c, l, sh, n, arrived);
    } else {
      TakeShapes(c, l, sh, n, arrived);
    }
  }

  /** Whatever the cipher and the keys, how far the reader is follows from what was written, arrived and asked for. */
  lemma {:induction false} RunIsShaped(c: Cipher, dataKey: seq<byte>, lenKey: seq<byte>, es: seq<Event>)
    requires Sound(c) && Calm(es)
    ensures Shaped(c, RunOf(c, dataKey, lenKey, es), ShapeOf(es))
  {
    if es != [] {
      var front, e := es[..|es| - 1], es[|es| - 1];
      assert forall i :: 0 <= i < |front| ==> front[..i] == es[..i] && front[i] == es[i];
      RunIsShaped(c, dataKey, lenKey, front);
      var l := RunOf(c, dataKey, lenKey, front);
      match e
      case Writing(p, maxPad, draws) => WritingShapes(c, l, ShapeOf(front), p, maxPad, draws);
      case Reading(n, arrived) => ReadingShapes(c, l, ShapeOf(front), n, arrived);
      case Expiry => assert ShapeOf(es[..|es| - 1]).held == 0; CalmExpiry(c, l, ShapeOf(front));
    } else {
      assert Carries(c, Rewound(Start(dataKey, lenKey)), []);
    }
  }

  lemma CalmExpiry(c: Cipher, l: Conn, sh: Shape)
    requires Sound(c) && Shaped(c, l, sh) && sh.held == 0
    ensures Shaped(c, After(c, l, Expiry), sh)
  {
    ExpiryUnseenIff(c, l);
  }

  /** The octets a blocked call holds depend on the events alone. */
  lemma HeldIsShape(c: Cipher, dataKey: seq<byte>, lenKey: seq<byte>, es: seq<Event>)
    requires Sound(c) && Calm(es)
    ensures |RunOf(c, dataKey, lenKey, es).rd.ph.Held()| == ShapeOf(es).held
  {
    RunIsShaped(c, dataKey, lenKey, es);
  }

  // ---- A cipher under which misaligned octets are no length record ------------------------------

  /** The tag shows only whether the text is two octets long, as lengths are. */
  function Tag(v: byte, len: nat): (m: seq<byte>)
    ensures |m| == TAG
  {
    seq(TAG, _ => if len == 2 then v else 0)
  }

  function OpenTagged(v: byte, x: seq<byte>): Option<seq<byte>> {
    if |x| >= TAG && x[|x| - TAG..] == Tag(v, |x| - TAG) then Some(x[..|x| - TAG]) else None
  }

  function Tagged(v: byte): Cipher {
    Cipher((k: seq<byte>, n: seq<byte>, p: seq<byte>) => p + Tag(v, |p|), (k: seq<byte>, n: seq<byte>, x: seq<byte>) => OpenTagged(v, x))
  }

  lemma TaggedIsSound(v: byte)
    ensures Sound(Tagged(v))
  {
    var c := Tagged(v);
    forall k: seq<byte>, n: seq<byte>, p: seq<byte>
      ensures |c.seal(k, n, p)| == |p| + TAG && c.open(k, n, c.seal(k, n, p)) == Some(p)
    {
      assert (p + Tag(v, |p|))[|p|..] == Tag(v, |p|) && (p + Tag(v, |p|))[..|p|] == p;
    }
  }

  /** The body of a record under any such cipher. */
  function BodyOf(r: Record): seq<byte> { Plaintext(r) + Zeros(TAG) }

  lemma TaggedFrame(v: byte, d: Dir, r: Record)
    requires Good(r)
    ensures Body(Tagged(v), d, r) == BodyOf(r) && |BodyOf(r)| == BodySize(r)
    ensures Frame(Tagged(v), d, r) == (U16(BodySize(r)) + Tag(v, 2)) + BodyOf(r)
  {
    assert Tag(v, |Plaintext(r)|) == Zeros(TAG);
  }

  /** The first frame of several and the length at the start of the second. */
  lemma TwoFrames(v: byte, d: Dir, rs: seq<Record>)
    requires |rs| >= 2 && AllGood(rs)
    ensures var w, b := WireOf(Tagged(v), d, rs), BodyOf(rs[0]);
      && |w| >= LEN_HDR + |b| + FrameSize(rs[1]) && w[LEN_HDR..LEN_HDR + |b|] == b
      && w[LEN_HDR + |b|..LEN_HDR + |b| + 2] == U16(BodySize(rs[1]))
  {
    assert Good(rs[0]) && Good(rs[1]);
    TaggedFrame(v, d, rs[0]);
    TaggedFrame(v, Advance(d), rs[1]);
    var more := WireOf(Tagged(v), Advance(Advance(d)), rs[1..][1..]);
    var f0, f1 := Frame(Tagged(v), d, rs[0]), Frame(Tagged(v), Advance(d), rs[1]);
    assert WireOf(Tagged(v), Advance(d), rs[1..]) == f1 + more;
    assert WireOf(Tagged(v), d, rs) == f0 + (f1 + more);
    InSecond(f0, f1, more);
  }

  lemma InSecond(f0: seq<byte>, f1: seq<byte>, more: seq<byte>)
    requires |f0| >= LEN_HDR && |f1| >= 2
    ensures var w := f0 + (f1 + more);
      |w| >= |f0| + |f1| && w[LEN_HDR..|f0|] == f0[LEN_HDR..] && w[|f0|..|f0| + 2] == f1[..2]
  {}

  /** Where to look: the first body octet, or the third octet behind what was lost. */
  function Spot(h: nat): nat { if h <= TAG then LEN_HDR else h + 2 }

  /** What stands there, whatever the tag octet. */
  function Telltale(rs: seq<Record>, h: nat): byte
    requires |rs| >= 2 && 0 < h < FrameSize(rs[0])
  {
    var q, b := Spot(h) - LEN_HDR, BodyOf(rs[0]);
    if q < |b| then b[q] else if q - |b| < 2 then U16(BodySize(rs[1]))[q - |b|] else 0
  }

  lemma TelltaleStands(w: seq<byte>, rs: seq<Record>, h: nat)
    requires |rs| >= 2 && AllGood(rs) && 0 < h < FrameSize(rs[0])
    requires var b := BodyOf(rs[0]);
      && |w| >= LEN_HDR + |b| + FrameSize(rs[1]) && w[LEN_HDR..LEN_HDR + |b|] == b
      && w[LEN_HDR + |b|..LEN_HDR + |b| + 2] == U16(BodySize(rs[1]))
    ensures |w| >= h + LEN_HDR && Spot(h) < |w| && w[Spot(h)] == Telltale(rs, h)
  {
    SpotWithin(rs, h);
    StandsIn(w, BodyOf(rs[0]), U16(BodySize(rs[1])), Spot(h));
  }

  lemma SpotWithin(rs: seq<Record>, h: nat)
    requires |rs| >= 2 && AllGood(rs) && 0 < h < FrameSize(rs[0])
    ensures var q, b, u := Spot(h), BodyOf(rs[0]), U16(BodySize(rs[1]));
      && |b| == BodySize(rs[0]) && LEN_HDR <= q < LEN_HDR + |b| + 2
      && Telltale(rs, h) == if q - LEN_HDR < |b| then b[q - LEN_HDR] else u[q - LEN_HDR - |b|]
  {
    assert Good(rs[0]);
  }

  lemma StandsIn(w: seq<byte>, b: seq<byte>, u: seq<byte>, q: nat)
    requires |u| == 2 && |w| >= LEN_HDR + |b| + 2 && w[LEN_HDR..LEN_HDR + |b|] == b && w[LEN_HDR + |b|..LEN_HDR + |b| + 2] == u
    requires LEN_HDR <= q < LEN_HDR + |b| + 2
    ensures w[q] == if q - LEN_HDR < |b| then b[q - LEN_HDR] else u[q - LEN_HDR - |b|]
  {
    if q - LEN_HDR < |b| {
      assert w[q] == w[LEN_HDR..LEN_HDR + |b|][q - LEN_HDR];
    } else {
      assert w[q] == w[LEN_HDR + |b|..LEN_HDR + |b| + 2][q - LEN_HDR - |b|];
    }
  }

  /** A tag octet that the telltale is not. */
  function Other(x: byte): byte { if x == 255 then 254 else 255 }

  /** Behind the lost octets there is no length record. */
  lemma NoLengthThere(d: Dir, d': Dir, rs: seq<Record>, h: nat, w: seq<byte>)
    requires |rs| >= 2 && AllGood(rs) && 0 < h < FrameSize(rs[0])
    requires var c := Tagged(Other(Telltale(rs, h))); Sound(c) && w == WireOf(c, d, rs)[h..]
    ensures |w| >= LEN_HDR && Announced(Tagged(Other(Telltale(rs, h))), d', w[..LEN_HDR]) == None
  {
    var v, all := Other(Telltale(rs, h)), WireOf(Tagged(Other(Telltale(rs, h))), d, rs);
    TwoFrames(v, d, rs);
    TelltaleStands(all, rs, h);
    NotOpened(v, w, Spot(h) - h, d');
  }

  lemma NotOpened(v: byte, w: seq<byte>, i: nat, d: Dir)
    requires Sound(Tagged(v)) && |w| >= LEN_HDR && 2 <= i < LEN_HDR && w[i] != v
    ensures Announced(Tagged(v), d, w[..LEN_HDR]) == None
  {
    var x := w[..LEN_HDR];
    assert x[..LEN_HDR] == x && x[i] == w[i];
    assert x[2..][i - 2] == x[i] && Tag(v, 2)[i - 2] == v;
  }

  // ---- The exact condition ------------------------------------------------------------------------

  predicate NoExpiry(es: seq<Event>) { forall i :: 0 <= i < |es| ==> !es[i].Expiry? }

  /** No failure, and what was read is a prefix of what was written. */
  ghost predicate Faithful(c: Cipher, dataKey: seq<byte>, lenKey: seq<byte>, es: seq<Event>)
    requires Sound(c)
  {
    var l := RunOf(c, dataKey, lenKey, es); !l.broken && l.read <= l.written
  }

  /** After `es` a deadline may pass: under every cipher, whatever happens next short of another deadline, the stream stays faithful. */
  ghost predicate Harmless(dataKey: seq<byte>, lenKey: seq<byte>, es: seq<Event>) {
    forall c, more {:trigger Faithful(c, dataKey, lenKey, es + [Expiry] + more)} ::
      Sound(c) && NoExpiry(more) ==> Faithful(c, dataKey, lenKey, es + [Expiry] + more)
  }

  lemma CalmIsUndisturbed(c: Cipher, dataKey: seq<byte>, lenKey: seq<byte>, es: seq<Event>)
    requires Sound(c) && Calm(es)
    ensures Undisturbed(c, dataKey, lenKey, es)
  {
    forall i | 0 <= i < |es| && es[i].Expiry? ensures RunOf(c, dataKey, lenKey, es[..i]).rd.ph.Held() == [] {
      CalmPrefix(es, i);
      HeldIsShape(c, dataKey, lenKey, es[..i]);
    }
  }

  lemma CalmPrefix(es: seq<Event>, n: nat)
    requires Calm(es) && n <= |es|
    ensures Calm(es[..n])
  {
    forall i | 0 <= i < n && es[..n][i].Expiry? ensures ShapeOf(es[..n][..i]).held == 0 { assert es[..n][..i] == es[..i]; }
  }

  lemma CalmGoesOn(es: seq<Event>, more: seq<Event>)
    requires Calm(es) && ShapeOf(es).held == 0 && NoExpiry(more)
    ensures Calm(es + [Expiry] + more)
  {
    var all := es + [Expiry] + more;
    assert forall i :: |es| < i < |all| ==> all[i] == more[i - |es| - 1];
    forall i | 0 <= i <= |es| && all[i].Expiry? ensures ShapeOf(all[..i]).held == 0 {
      assert all[..i] == es[..i];
      if i == |es| { assert es[..i] == es; }
    }
  }

  lemma ReadFails(c: Cipher, l: Conn)
    requires Sound(c) && Ready(c, l) && l.rd.ph == IDLE && l.rd.rbuf == [] && |l.wire| >= LEN_HDR
    requires Announced(c, l.rd.d, l.wire[..LEN_HDR]) == None
    ensures After(c, l, Reading(1, |l.wire|)).broken
  {
    assert l.wire[..|l.wire|] == l.wire && [] + l.wire[..LEN_HDR] == l.wire[..LEN_HDR];
  }

  const PROBE := Record([0], 0)

  lemma OneMoreRecord(sh: Shape)
    requires AllGood(sh.rs)
    ensures AllGood(sh.rs + [PROBE]) && Records([0], 0, NoShaping, 0) == [PROBE]
  {
    OneRecord(0);
  }

  /** The octets still to be read once the blocked call's are lost and one more record was written. */
  lemma WhatIsLeft(c: Cipher, l: Conn, sh: Shape)
    requires Sound(c) && Shaped(c, l, sh)
    ensures var l' := After(c, After(c, l, Expiry), Writing([0], 0, NoShaping));
      Ready(c, l') && l'.rd == l.rd.(ph := IDLE) && l.rd.ph.Held() + l'.wire == WireOf(c, Rewound(l).rx, sh.rs + [PROBE])
  {
    OneMoreRecord(sh);
    WireAppend(c, Rewound(l).rx, sh.rs, [PROBE]);
    var held := l.rd.ph.Held();
    Assoc(held, l.wire, WireOf(c, l.tx, [PROBE]));
  }

  /** A write and a read after the deadline that end in failure. */
  ghost predicate Downfall(c: Cipher, l: Conn, l1: Conn, l2: Conn, f: Event, g: Event)
    requires Sound(c)
  {
    && Ready(c, l) && l1 == After(c, l, Expiry) && Ready(c, l1) && l2 == After(c, l1, f) && Ready(c, l2) && After(c, l2, g).broken
    && !f.Expiry? && !g.Expiry?
  }

  /** With the tag octet chosen to differ from the telltale, the next read fails. */
  lemma LossBreaks(c: Cipher, l: Conn, sh: Shape) returns (l1: Conn, l2: Conn, f: Event, g: Event)
    requires Sound(c) && Shaped(c, l, sh) && 0 < sh.held && sh.rs != [] && sh.held < FrameSize(sh.rs[0])
    requires c == Tagged(Other(Telltale(sh.rs + [PROBE], sh.held)))
    ensures Downfall(c, l, l1, l2, f, g)
  {
    WhatIsLeft(c, l, sh);
    OneMoreRecord(sh);
    f := Writing([0], 0, NoShaping);
    l1 := After(c, l, Expiry);
    l2 := After(c, l1, f);
    g := Reading(1, |l2.wire|);
    assert l2.wire == (l.rd.ph.Held() + l2.wire)[sh.held..];
    NoLengthThere(Rewound(l).rx, l2.rd.d, sh.rs + [PROBE], sh.held, l2.wire);
    ReadFails(c, l2);
  }

  lemma {:induction false} HeldIsPartOfFrame(es: seq<Event>)
    requires Calm(es)
    ensures var sh := ShapeOf(es); AllGood(sh.rs) && (sh.held > 0 ==> sh.rs != [] && sh.held < FrameSize(sh.rs[0]))
  {
    TaggedIsSound(0);
    RunIsShaped(Tagged(0), [], [], es);
    HeldWithin(Tagged(0), RunOf(Tagged(0), [], [], es), ShapeOf(es));
  }

  lemma HeldWithin(c: Cipher, l: Conn, sh: Shape)
    requires Sound(c) && Shaped(c, l, sh)
    ensures AllGood(sh.rs) && (sh.held > 0 ==> sh.rs != [] && sh.held < FrameSize(sh.rs[0]))
  {
    if sh.held > 0 {
      ShapedSizes(c, l, sh);
      if sh.rs != [] && sh.held >= FrameSize(sh.rs[0]) { HeldNoFrame(c, l, sh); }
    }
  }

  /** A blocked call never holds a whole frame. */
  lemma HeldNoFrame(c: Cipher, l: Conn, sh: Shape)
    requires Sound(c) && Shaped(c, l, sh) && sh.rs != []
    ensures sh.held < FrameSize(sh.rs[0])
  {
    assert Good(sh.rs[0]);
    var f, held := Frame(c, Rewound(l).rx, sh.rs[0]), l.rd.ph.Held();
    FrameLength(c, Rewound(l).rx, sh.rs[0]);
    BodyLength(c, Rewound(l).rx, sh.rs[0]);
    PumpingIsReading(c, l.rd.d, l.rd.ph, []);
    assert held + [] == held;
    if |held| >= |f| { ArrivedFrame(c, Rewound(l), sh.rs, held); }
  }

  lemma RunOnce(c: Cipher, dk: seq<byte>, lk: seq<byte>, es: seq<Event>, e: Event, l: Conn, l': Conn)
    requires Sound(c) && RunOf(c, dk, lk, es) == l && Ready(c, l) && After(c, l, e) == l'
    ensures RunOf(c, dk, lk, es + [e]) == l'
  {
    OneEventMore(c, dk, lk, es, e, l);
  }

  lemma LossIsHarmful(dataKey: seq<byte>, lenKey: seq<byte>, es: seq<Event>)
    requires Calm(es) && ShapeOf(es).held > 0
    ensures !Harmless(dataKey, lenKey, es)
  {
    var sh := ShapeOf(es);
    HeldIsPartOfFrame(es);
    var v := Other(Telltale(sh.rs + [PROBE], sh.held));
    TaggedIsSound(v);
    LossHarms(Tagged(v), v, dataKey, lenKey, es, sh);
  }

  lemma LossHarms(c: Cipher, v: byte, dataKey: seq<byte>, lenKey: seq<byte>, es: seq<Event>, sh: Shape)
    requires Sound(c) && Calm(es) && sh == ShapeOf(es) && 0 < sh.held && sh.rs != [] && sh.held < FrameSize(sh.rs[0])
    requires c == Tagged(v) && v == Other(Telltale(sh.rs + [PROBE], sh.held))
    ensures !Harmless(dataKey, lenKey, es)
  {
    RunIsShaped(c, dataKey, lenKey, es);
    var l := RunOf(c, dataKey, lenKey, es);
    var l1, l2, f, g := LossBreaks(c, l, sh);
    DownfallHarms(c, dataKey, lenKey, es, l, l1, l2, f, g);
  }

  lemma DownfallHarms(c: Cipher, dk: seq<byte>, lk: seq<byte>, es: seq<Event>, l: Conn, l1: Conn, l2: Conn, f: Event, g: Event)
    requires Sound(c) && RunOf(c, dk, lk, es) == l && Downfall(c, l, l1, l2, f, g)
    ensures !Harmless(dk, lk, es)
  {
    RunFalls(c, dk, lk, es, l, l1, l2, f, g);
    BreaksHarm(c, dk, lk, es, [f, g]);
  }

  lemma BreaksHarm(c: Cipher, dataKey: seq<byte>, lenKey: seq<byte>, es: seq<Event>, more: seq<Event>)
    requires Sound(c) && NoExpiry(more) && RunOf(c, dataKey, lenKey, es + [Expiry] + more).broken
    ensures !Harmless(dataKey, lenKey, es)
  {
    assert !Faithful(c, dataKey, lenKey, es + [Expiry] + more);
  }

  lemma RunFalls(c: Cipher, dk: seq<byte>, lk: seq<byte>, es: seq<Event>, l: Conn, l1: Conn, l2: Conn, f: Event, g: Event)
    requires Sound(c) && RunOf(c, dk, lk, es) == l && Downfall(c, l, l1, l2, f, g)
    ensures RunOf(c, dk, lk, es + [Expiry] + [f, g]).broken && NoExpiry([f, g])
  {
    RunOnce(c, dk, lk, es, Expiry, l, l1);
    RunOnce(c, dk, lk, es + [Expiry], f, l1, l2);
    LastBreaks(c, dk, lk, es + [Expiry] + [f], g, l2);
    InARow(es, Expiry, f, g);
  }

  lemma InARow(es: seq<Event>, e: Event, f: Event, g: Event)
    ensures es + [e] + [f] + [g] == es + [e] + [f, g]
  {}

  /**
   * A deadline after a run without mishaps is harmless, under every cipher and for everything read later, exactly when
   * the blocked call had taken no octet of a frame.
   */
  lemma ExpiryHarmlessIff(dataKey: seq<byte>, lenKey: seq<byte>, es: seq<Event>)
    requires Calm(es)
    ensures Harmless(dataKey, lenKey, es) <==> ShapeOf(es).held == 0
  {
    if ShapeOf(es).held == 0 {
      forall c, more {:trigger Faithful(c, dataKey, lenKey, es + [Expiry] + more)} | Sound(c) && NoExpiry(more)
        ensures Faithful(c, dataKey, lenKey, es + [Expiry] + more)
      {
        CalmGoesOn(es, more);
        CalmIsUndisturbed(c, dataKey, lenKey, es + [Expiry] + more);
        BlockingIsFaithful(c, dataKey, lenKey, es + [Expiry] + more);
      }
    } else {
      LossIsHarmful(dataKey, lenKey, es);
    }
  }
}
