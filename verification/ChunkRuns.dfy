/** What reassembly does outside its ordinary use: with empty pieces, and with something left over from before. */
module ChunkRuns {
  import opened Bytes
  import opened Collections
  import opened ChunkTransport

  // ---- Empty pieces -------------------------------------------------------------------------

  /** Pieces that fit chunks; some may be empty. */
  ghost predicate Chunkable(ps: seq<seq<byte>>) {
    0 < |ps| <= MAX_COUNT && forall i :: 0 <= i < |ps| ==> |ps[i]| <= MAX_CHUNK
  }

  ghost predicate Incomplete(n: nat, order: seq<nat>) { Order(n, order) && Seen(order) < Indices(n) }

  ghost predicate SilentOn(ps: seq<seq<byte>>, order: seq<nat>) {
    Incomplete(|ps|, order) ==> FedAll(EMPTY, Deliver(ps, order)).1 == Silence(|order|)
  }

  ghost predicate CompleteOn(ps: seq<seq<byte>>, order: seq<nat>, last: nat) {
    Incomplete(|ps|, order) && last < |ps| && Seen(order) + {last} == Indices(|ps|) ==>
      FedAll(EMPTY, Deliver(ps, order) + [Packets(ps)[last]]).1 == Silence(|order|) + [Some(Flatten(ps))]
  }

  /** In every order and with any repeats: nothing until the last missing chunk, then exactly the pieces in a row. */
  ghost predicate Reassembles(ps: seq<seq<byte>>) {
    (forall order :: SilentOn(ps, order)) && (forall order, last: nat :: CompleteOn(ps, order, last))
  }

  /** Reassembly is right exactly for a single piece or for pieces none of which is empty. */
  lemma ReassemblesIff(ps: seq<seq<byte>>)
    requires Chunkable(ps)
    ensures Reassembles(ps) <==> |ps| == 1 || [] !in ps
  {
    if [] !in ps {
      NonEmptyReassembles(ps);
    } else if |ps| == 1 {
      OneReassembles(ps);
    } else {
      var e :| 0 <= e < |ps| && ps[e] == [];
      EmptyPieceSpeaks(ps, e);
    }
  }

  lemma NonEmptyReassembles(ps: seq<seq<byte>>)
    requires Cut(ps)
    ensures Reassembles(ps)
  {
    forall order ensures SilentOn(ps, order) {
      if Incomplete(|ps|, order) { SilentUntilComplete(ps, order); }
    }
    forall order, last: nat ensures CompleteOn(ps, order, last) {
      if Incomplete(|ps|, order) && last < |ps| && Seen(order) + {last} == Indices(|ps|) { CompletedBy(ps, order, last); }
    }
  }

  lemma OneReassembles(ps: seq<seq<byte>>)
    requires Chunkable(ps) && |ps| == 1
    ensures Reassembles(ps)
  {
    OnePiece(ps);
    forall order ensures SilentOn(ps, order) {
      if Order(1, order) && order != [] { NothingYet(order); }
    }
    forall order, last: nat ensures CompleteOn(ps, order, last) {
      if Order(1, order) && order != [] { NothingYet(order); }
    }
  }

  lemma NothingYet(order: seq<nat>)
    requires Order(1, order) && order != []
    ensures Seen(order) == Indices(1)
  {
    assert order[0] in Seen(order);
  }

  lemma OnePiece(ps: seq<seq<byte>>)
    requires Chunkable(ps) && |ps| == 1
    ensures FedAll(EMPTY, Deliver(ps, [])) == (EMPTY, []) && Silence(0) == []
    ensures FedAll(EMPTY, Deliver(ps, []) + [Packets(ps)[0]]).1 == [Some(Flatten(ps))]
  {
    ChunkRoundTrip(ChunkAt(ps, 0));
    assert Deliver(ps, []) == [];
    FedAppend(EMPTY, [], Packets(ps)[0]);
    assert Store(Start(EMPTY, 1), ChunkAt(ps, 0)).parts == ps;
  }

  function Again(e: nat, n: nat): seq<nat> { seq(n, _ => e) }

  /** The slots after any number of copies of an empty chunk are all still empty, but counted. */
  ghost function Counting(n: nat, j: nat): Asm { if j == 0 then EMPTY else Asm(n, seq(n, _ => []), j) }

  lemma EmptyAgain(ps: seq<seq<byte>>, e: nat, j: nat)
    requires Chunkable(ps) && e < |ps| && ps[e] == [] && j < |ps|
    ensures Tidy(Counting(|ps|, j))
    ensures Fed(Counting(|ps|, j), Packets(ps)[e]) ==
      if j + 1 < |ps| then (Counting(|ps|, j + 1), None) else (EMPTY, Some(Flatten(seq(|ps|, _ => []))))
  {
    ChunkRoundTrip(ChunkAt(ps, e));
    var none: seq<seq<byte>> := seq(|ps|, _ => []);
    assert none[e := []] == none;
  }

  lemma {:induction false} EmptiesCount(ps: seq<seq<byte>>, e: nat, j: nat)
    requires Chunkable(ps) && e < |ps| && ps[e] == [] && j < |ps|
    ensures FedAll(EMPTY, Deliver(ps, Again(e, j))) == (Counting(|ps|, j), Silence(j))
  {
    if j == 0 {
      assert Deliver(ps, Again(e, 0)) == [] && Silence(0) == [];
    } else {
      EmptiesCount(ps, e, j - 1);
      EmptyAgain(ps, e, j - 1);
      OneMoreCopy(ps, e, j - 1);
      assert Silence(j) == Silence(j - 1) + [None];
    }
  }

  lemma OneMoreCopy(ps: seq<seq<byte>>, e: nat, j: nat)
    requires Chunkable(ps) && e < |ps|
    ensures var (a, outs) := FedAll(EMPTY, Deliver(ps, Again(e, j))); var (b, out) := Fed(a, Packets(ps)[e]);
      FedAll(EMPTY, Deliver(ps, Again(e, j + 1))) == (b, outs + [out])
  {
    assert Again(e, j + 1) == Again(e, j) + [e];
    DeliverSnoc(ps, Again(e, j), e);
    FedAppend(EMPTY, Deliver(ps, Again(e, j)), Packets(ps)[e]);
  }

  /** As many copies of an empty chunk as there are chunks report a message while all others are missing. */
  lemma EmptyPieceSpeaks(ps: seq<seq<byte>>, e: nat)
    requires Chunkable(ps) && e < |ps| && ps[e] == [] && |ps| >= 2
    ensures !SilentOn(ps, Again(e, |ps|))
  {
    var n := |ps|;
    OnlyOneSeen(e, n);
    EmptiesCount(ps, e, n - 1);
    EmptyAgain(ps, e, n - 1);
    OneMoreCopy(ps, e, n - 1);
    SpeaksLast(FedAll(EMPTY, Deliver(ps, Again(e, n))).1, Silence(n - 1), n);
  }

  lemma SpeaksLast(outs: seq<Option<seq<byte>>>, front: seq<Option<seq<byte>>>, n: nat)
    requires n > 0 && |front| == n - 1
    ensures (exists m :: outs == front + [Some(m)]) ==> outs != Silence(n)
  {
    assert Silence(n)[n - 1] == None;
  }

  lemma OnlyOneSeen(e: nat, n: nat)
    requires e < n && n >= 2
    ensures Incomplete(n, Again(e, n)) && |Again(e, n)| == n
  {
    var order := Again(e, n);
    assert Seen(order) == {e} by { assert order[0] == e; }
    var other := if e == 0 then 1 else 0;
    assert other in Indices(n) && other !in Seen(order);
  }

  // ---- Leftovers ----------------------------------------------------------------------------

  /** The first message reported, if any, while datagrams are fed one after another. */
  ghost function FirstReport(a: Asm, pkts: seq<seq<byte>>): Option<seq<byte>>
    requires Tidy(a)
    decreases |pkts|
  {
    if pkts == [] then None
    else
      var (b, out) := Fed(a, pkts[0]);
      FedStaysTidy(a, pkts[0]);
      if out.Some? then out else FirstReport(b, pkts[1..])
  }

  /** The old pieces where they had arrived, the new ones elsewhere. */
  function Mixed(old': seq<seq<byte>>, s: set<nat>, ps: seq<seq<byte>>): seq<seq<byte>>
    requires |old'| == |ps|
  {
    seq(|ps|, i requires 0 <= i < |ps| => if i in s then old'[i] else ps[i])
  }

  lemma OccupiedSlotStays(qs: seq<seq<byte>>, ps: seq<seq<byte>>, s: set<nat>, i: nat)
    requires Cut(qs) && Cut(ps) && |qs| == |ps| && i in s && i < |ps|
    ensures Fed(Holding(qs, s), Packets(ps)[i]) == (Holding(qs, s), None)
  {
    ChunkRoundTrip(ChunkAt(ps, i));
    StartHolding(qs, s);
    assert Slots(qs, s)[i] == qs[i] != [];
  }

  lemma HoldingIsTidy(qs: seq<seq<byte>>, s: set<nat>)
    requires Cut(qs) && s < Indices(|qs|)
    ensures Tidy(Holding(qs, s))
  {
    ProperSubsetIsSmaller(s, |qs|);
  }

  /** With some slots already taken, the others filled by new chunks: the first report is what the slots then hold. */
  lemma {:induction false} ReportsMixed(qs: seq<seq<byte>>, s: set<nat>, ps: seq<seq<byte>>, order: seq<nat>)
    requires Cut(qs) && Cut(ps) && |qs| == |ps| && s < Indices(|ps|) && Order(|ps|, order)
    requires forall i :: 0 <= i < |ps| && i !in s ==> ps[i] == qs[i]
    ensures Tidy(Holding(qs, s))
    ensures FirstReport(Holding(qs, s), Deliver(ps, order)) == if s + Seen(order) == Indices(|ps|) then Some(Flatten(qs)) else None
    decreases |order|
  {
    HoldingIsTidy(qs, s);
    if order == [] {
      assert s + Seen(order) == s;
    } else {
      var i, rest := order[0], order[1..];
      SeenFirst(s, order);
      MixedStep(qs, s, ps, order);
      if s + {i} == Indices(|ps|) {
        SeenWithin(|ps|, rest);
      } else {
        ReportsMixed(qs, s + {i}, ps, rest);
      }
    }
  }

  lemma MixedStep(qs: seq<seq<byte>>, s: set<nat>, ps: seq<seq<byte>>, order: seq<nat>)
    requires Cut(qs) && Cut(ps) && |qs| == |ps| && s < Indices(|ps|) && Order(|ps|, order) && order != []
    requires order[0] !in s ==> ps[order[0]] == qs[order[0]]
    ensures Order(|ps|, order[1..]) && Tidy(Holding(qs, s))
    ensures s + {order[0]} == Indices(|ps|) ==> FirstReport(Holding(qs, s), Deliver(ps, order)) == Some(Flatten(qs))
    ensures s + {order[0]} != Indices(|ps|) ==> s + {order[0]} < Indices(|ps|) && Tidy(Holding(qs, s + {order[0]}))
    ensures s + {order[0]} != Indices(|ps|) ==>
      FirstReport(Holding(qs, s), Deliver(ps, order)) == FirstReport(Holding(qs, s + {order[0]}), Deliver(ps, order[1..]))
  {
    HoldingIsTidy(qs, s);
    DeliverFirst(ps, order);
    MixedDelivery(qs, s, ps, order[0]);
    if s + {order[0]} != Indices(|ps|) { HoldingIsTidy(qs, s + {order[0]}); }
  }

  lemma MixedDelivery(qs: seq<seq<byte>>, s: set<nat>, ps: seq<seq<byte>>, i: nat)
    requires Cut(qs) && Cut(ps) && |qs| == |ps| && s < Indices(|ps|) && i < |ps|
    requires i !in s ==> ps[i] == qs[i]
    ensures Fed(Holding(qs, s), Packets(ps)[i]) ==
      if s + {i} == Indices(|ps|) then (EMPTY, Some(Flatten(qs))) else (Holding(qs, s + {i}), None)
  {
    if i in s {
      OccupiedSlotStays(qs, ps, s, i);
      assert s + {i} == s;
    } else {
      assert Packets(ps)[i] == Packets(qs)[i];
      OneDelivery(qs, s, i);
    }
  }

  lemma SeenFirst(s: set<nat>, order: seq<nat>)
    requires order != []
    ensures s + Seen(order) == (s + {order[0]}) + Seen(order[1..])
  {
    assert order == [order[0]] + order[1..];
  }

  lemma SeenWithin(n: nat, order: seq<nat>)
    requires Order(n, order)
    ensures Seen(order) <= Indices(n) && Indices(n) + Seen(order) == Indices(n)
  {}

  lemma DeliverFirst(ps: seq<seq<byte>>, order: seq<nat>)
    requires Order(|ps|, order) && order != []
    ensures Order(|ps|, order[1..]) && Deliver(ps, order)[0] == Packets(ps)[order[0]] && Deliver(ps, order)[1..] == Deliver(ps, order[1..])
  {}

  /** A chunk of a message with another chunk count throws the leftover away, and itself with it. */
  lemma OtherCountResets(qs: seq<seq<byte>>, s: set<nat>, ps: seq<seq<byte>>, i: nat)
    requires Cut(qs) && Cut(ps) && |qs| != |ps| && s != {} && i < |ps|
    ensures Fed(Holding(qs, s), Packets(ps)[i]) == (EMPTY, None)
  {
    ChunkRoundTrip(ChunkAt(ps, i));
  }

  lemma {:induction false} FlattenInjective(a: seq<seq<byte>>, b: seq<seq<byte>>)
    requires |a| == |b| && forall i :: 0 <= i < |a| - 1 ==> |a[i]| == |b[i]|
    ensures Flatten(a) == Flatten(b) ==> a == b
  {
    if |a| == 1 {
      assert a == [a[0]] && b == [b[0]];
      FlattenOne(a[0]);
      FlattenOne(b[0]);
    } else if |a| > 1 {
      FlattenInjective(a[1..], b[1..]);
      if Flatten(a) == Flatten(b) {
        SameFront(a[0], Flatten(a[1..]), b[0], Flatten(b[1..]));
        assert a == [a[0]] + a[1..] && b == [b[0]] + b[1..];
      }
    }
  }

  lemma SameFront(x: seq<byte>, u: seq<byte>, y: seq<byte>, v: seq<byte>)
    requires |x| == |y| && x + u == y + v
    ensures x == y && u == v
  {
    assert x == (x + u)[..|x|] && y == (y + v)[..|y|];
    assert u == (x + u)[|x|..] && v == (y + v)[|y|..];
  }

  lemma FullPiece(p: seq<byte>, i: nat)
    requires i + 1 < ChunkCount(|p|)
    ensures |Pieces(p)[i]| == MAX_CHUNK
  {}

  lemma MixedIsRightIff(p0: seq<byte>, s: set<nat>, p: seq<byte>)
    requires ChunkCount(|p0|) == ChunkCount(|p|)
    ensures Flatten(Mixed(Pieces(p0), s, Pieces(p))) == p <==> forall i :: i in s && i < ChunkCount(|p|) ==> Pieces(p0)[i] == Pieces(p)[i]
  {
    var mixed, ps := Mixed(Pieces(p0), s, Pieces(p)), Pieces(p);
    PiecesMakeTheMessage(p);
    forall i | 0 <= i < |ps| - 1 ensures |mixed[i]| == |ps[i]| {
      FullPiece(p0, i);
      FullPiece(p, i);
    }
    FlattenInjective(mixed, ps);
    MixedIsNewIff(Pieces(p0), s, ps);
  }

  lemma MixedIsNewIff(qs: seq<seq<byte>>, s: set<nat>, ps: seq<seq<byte>>)
    requires |qs| == |ps|
    ensures Mixed(qs, s, ps) == ps <==> forall i :: i in s && i < |ps| ==> qs[i] == ps[i]
  {
    if i :| i in s && i < |ps| && qs[i] != ps[i] {
      assert Mixed(qs, s, ps)[i] == qs[i];
    }
  }

  /**
   * A message delivered after some but not all chunks of an earlier one: it is the next one reported exactly when, with
   * equal chunk counts, the chunks left over are also its own, and with different counts, it is complete without its
   * first datagram.
   */
  lemma LeftoverSurvivesIff(p0: seq<byte>, s: set<nat>, p: seq<byte>, order: seq<nat>)
    requires Fits(p0) && Fits(p) && {} < s < Indices(ChunkCount(|p0|))
    requires Order(ChunkCount(|p|), order) && Seen(order) == Indices(ChunkCount(|p|))
    ensures Cut(Pieces(p0)) && Tidy(Holding(Pieces(p0), s)) && order != []
    ensures FirstReport(Holding(Pieces(p0), s), Deliver(Pieces(p), order)) == Some(p) <==>
      if ChunkCount(|p0|) == ChunkCount(|p|) then forall i :: i in s ==> Pieces(p0)[i] == Pieces(p)[i]
      else Seen(order[1..]) == Indices(ChunkCount(|p|))
  {
    PiecesMakeTheMessage(p0);
    PiecesMakeTheMessage(p);
    HoldingIsTidy(Pieces(p0), s);
    assert 0 in Indices(ChunkCount(|p|));
    if ChunkCount(|p0|) == ChunkCount(|p|) {
      SameCount(p0, s, p, order);
    } else {
      OtherCount(p0, s, p, order);
    }
  }

  lemma SameCount(p0: seq<byte>, s: set<nat>, p: seq<byte>, order: seq<nat>)
    requires Fits(p0) && Fits(p) && ChunkCount(|p0|) == ChunkCount(|p|) && {} < s < Indices(ChunkCount(|p0|))
    requires Order(ChunkCount(|p|), order) && Seen(order) == Indices(ChunkCount(|p|))
    requires Cut(Pieces(p0)) && Cut(Pieces(p)) && Tidy(Holding(Pieces(p0), s))
    ensures FirstReport(Holding(Pieces(p0), s), Deliver(Pieces(p), order)) == Some(p) <==> forall i :: i in s ==> Pieces(p0)[i] == Pieces(p)[i]
  {
    var mixed := Mixed(Pieces(p0), s, Pieces(p));
    assert Slots(mixed, s) == Slots(Pieces(p0), s);
    assert Cut(mixed);
    assert s + Seen(order) == Indices(|mixed|);
    ReportsMixed(mixed, s, Pieces(p), order);
    MixedIsRightIff(p0, s, p);
    assert forall i :: i in s ==> i < ChunkCount(|p|);
  }

  lemma OtherCount(p0: seq<byte>, s: set<nat>, p: seq<byte>, order: seq<nat>)
    requires Fits(p) && ChunkCount(|p0|) != ChunkCount(|p|) && s != {} && order != []
    requires Order(ChunkCount(|p|), order)
    requires Cut(Pieces(p0)) && Cut(Pieces(p)) && Tidy(Holding(Pieces(p0), s))
    ensures FirstReport(Holding(Pieces(p0), s), Deliver(Pieces(p), order)) == Some(p) <==> Seen(order[1..]) == Indices(ChunkCount(|p|))
  {
    var ps := Pieces(p);
    DeliverFirst(ps, order);
    OtherCountResets(Pieces(p0), s, ps, order[0]);
    assert 0 in Indices(|ps|);
    ReportsMixed(ps, {}, ps, order[1..]);
    assert {} + Seen(order[1..]) == Seen(order[1..]);
    PiecesMakeTheMessage(p);
  }
}
