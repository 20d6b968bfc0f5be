/** When the global cap of the routing table comes into play: an exact count, and a history that gets there. */
module CapHistories {
  import opened Bytes
  import opened Collections
  import opened XorMetric
  import opened Discovery
  import opened RoutingTable
  import opened TableHistory

  /** No bucket is ever offered more than 20 different contacts. */
  ghost predicate Roomy(sp: Space, ids: set<string>) {
    forall b: nat :: b < BUCKET_COUNT ==> |InBucket(sp, ids, b)| <= BUCKET_K
  }

  lemma AcceptedGrows(offers: seq<RelayNode>, n: nat)
    requires n < |offers|
    ensures Accepted(offers[..n + 1]) == Accepted(offers[..n]) + if Accepts(offers[n]) then {offers[n].ID} else {}
  {
    assert offers[..n + 1][..n] == offers[..n];
  }

  /** How many of `ids` the buckets below n hold when each keeps 20 at most. */
  ghost function LoadBelow(sp: Space, ids: set<string>, n: nat): nat {
    if n == 0 then 0 else LoadBelow(sp, ids, n - 1) + Min(BUCKET_K, |InBucket(sp, ids, n - 1)|)
  }

  ghost function Load(sp: Space, ids: set<string>): nat { LoadBelow(sp, ids, BUCKET_COUNT) }

  ghost function Below(sp: Space, ids: set<string>, n: nat): set<string> { set id | id in ids && sp.bucket(id) < n }

  /** Where no bucket overflows, the load is the number of contacts. */
  lemma {:induction false} LoadIsSize(sp: Space, ids: set<string>, n: nat)
    requires forall b: nat :: b < n ==> |InBucket(sp, ids, b)| <= BUCKET_K
    ensures LoadBelow(sp, ids, n) == |Below(sp, ids, n)|
  {
    if n == 0 {
      assert Below(sp, ids, 0) == {};
    } else {
      LoadIsSize(sp, ids, n - 1);
      assert Below(sp, ids, n) == Below(sp, ids, n - 1) + InBucket(sp, ids, n - 1);
      assert Below(sp, ids, n - 1) !! InBucket(sp, ids, n - 1);
    }
  }

  lemma RoomyLoad(sp: Space, ids: set<string>)
    requires sp.Metric() && Roomy(sp, ids)
    ensures Load(sp, ids) == |ids|
  {
    LoadIsSize(sp, ids, BUCKET_COUNT);
    assert Below(sp, ids, BUCKET_COUNT) == ids;
  }

  lemma {:induction false} SameLoad(sp: Space, a: set<string>, b: set<string>, n: nat)
    requires forall k: nat :: k < n ==> Min(BUCKET_K, |InBucket(sp, a, k)|) == Min(BUCKET_K, |InBucket(sp, b, k)|)
    ensures LoadBelow(sp, a, n) == LoadBelow(sp, b, n)
  {
    if n > 0 { SameLoad(sp, a, b, n - 1); }
  }

  /** A newcomer adds to the load when its bucket has room. */
  lemma LoadGrows(sp: Space, ids: set<string>, x: string, n: nat)
    requires x !in ids
    ensures LoadBelow(sp, ids + {x}, n) == LoadBelow(sp, ids, n) +
      if sp.bucket(x) < n && |InBucket(sp, ids, sp.bucket(x))| < BUCKET_K then 1 else 0
  {
    var more := ids + {x};
    forall b: nat | b < n ensures |InBucket(sp, more, b)| == |InBucket(sp, ids, b)| + if sp.bucket(x) == b then 1 else 0 {
      BucketGrows(sp, ids, x, b);
    }
    LoadsDiffer(sp, ids, more, sp.bucket(x), n);
  }

  lemma BucketGrows(sp: Space, ids: set<string>, x: string, b: nat)
    requires x !in ids
    ensures |InBucket(sp, ids + {x}, b)| == |InBucket(sp, ids, b)| + if sp.bucket(x) == b then 1 else 0
  {
    InBucketAdd(sp, ids, x, b);
    if sp.bucket(x) == b { GrownSize(InBucket(sp, ids, b), x); }
  }

  lemma {:induction false} LoadsDiffer(sp: Space, ids: set<string>, more: set<string>, at: nat, n: nat)
    requires forall b: nat :: b < n ==> |InBucket(sp, more, b)| == |InBucket(sp, ids, b)| + if at == b then 1 else 0
    ensures LoadBelow(sp, more, n) == LoadBelow(sp, ids, n) + if at < n && |InBucket(sp, ids, at)| < BUCKET_K then 1 else 0
  {
    if n > 0 { LoadsDiffer(sp, ids, more, at, n - 1); }
  }

  /** A table that holds the nearest of what it has seen is as large as the load of what it has seen. */
  lemma NearestHasLoad(sp: Space, c: Contents, seen: set<string>)
    requires sp.Metric() && HoldsNearest(sp, c, seen)
    ensures |c.byID| == Load(sp, seen)
    ensures forall b: nat :: b < BUCKET_COUNT ==> |InBucket(sp, c.byID.Keys, b)| == Min(BUCKET_K, |InBucket(sp, seen, b)|)
  {
    forall b: nat | b < BUCKET_COUNT ensures |InBucket(sp, c.byID.Keys, b)| == Min(BUCKET_K, |InBucket(sp, seen, b)|) {
      assert KeepsNearest(sp, InBucket(sp, c.byID.Keys, b), InBucket(sp, seen, b), BUCKET_K);
    }
    RoomyLoad(sp, c.byID.Keys);
    SameLoad(sp, c.byID.Keys, seen, BUCKET_COUNT);
    assert |c.byID| == |c.byID.Keys|;
  }

  /** A bucket with room holds everything it was offered. */
  lemma RoomMeansAll(sp: Space, c: Contents, seen: set<string>, id: string)
    requires sp.Metric() && HoldsNearest(sp, c, seen) && |InBucket(sp, seen, sp.bucket(id))| < BUCKET_K
    ensures id in c.byID <==> id in seen
  {
    var b: nat := sp.bucket(id);
    FullSubset(InBucket(sp, c.byID.Keys, b), InBucket(sp, seen, b));
    assert id in InBucket(sp, c.byID.Keys, b) <==> id in c.byID;
    assert id in InBucket(sp, seen, b) <==> id in seen;
  }

  lemma FiresIffOverload(sp: Space, c: Contents, seen: set<string>, r: RelayNode)
    requires Consistent(sp, c) && HoldsNearest(sp, c, seen) && Accepts(r) && Load(sp, seen) <= MAX_ENTRIES
    ensures CapFires(sp, c, r) <==> Load(sp, seen + {r.ID}) > MAX_ENTRIES
  {
    var b: nat := sp.bucket(r.ID);
    NearestHasLoad(sp, c, seen);
    BucketSize(sp, c, b);
    if |InBucket(sp, seen, b)| < BUCKET_K { RoomMeansAll(sp, c, seen, r.ID); }
    if r.ID in seen { assert seen + {r.ID} == seen; } else { LoadGrows(sp, seen, r.ID, BUCKET_COUNT); }
  }

  lemma LoadNeverShrinks(sp: Space, seen: set<string>, x: string)
    ensures Load(sp, seen) <= Load(sp, seen + {x})
  {
    if x in seen { assert seen + {x} == seen; } else { LoadGrows(sp, seen, x, BUCKET_COUNT); }
  }

  /** Over any history, the cap has stayed silent exactly while the contacts accepted, 20 of each bucket counted at most, are no more than 2048. */
  lemma {:induction false} SilentIffWithinCap(sp: Space, trace: seq<Contents>, offers: seq<RelayNode>, n: nat)
    requires Steps(sp, trace, offers) && trace[0].byID == map[] && n <= |offers| && sp.Metric()
    ensures CapSilent(sp, trace, offers, n) <==> Load(sp, Accepted(offers[..n])) <= MAX_ENTRIES
  {
    if n == 0 {
      assert Accepted(offers[..0]) == {};
      NothingLoaded(sp);
    } else {
      SilentIffWithinCap(sp, trace, offers, n - 1);
      OneStepMore(sp, trace, offers, n - 1);
      AcceptedGrows(offers, n - 1);
      var seen, r := Accepted(offers[..n - 1]), offers[n - 1];
      LoadNeverShrinks(sp, seen, r.ID);
      assert seen + {} == seen;
      if CapSilent(sp, trace, offers, n - 1) {
        NearestThroughoutIffNoCap(sp, trace, offers, n - 1);
        assert NearestAt(sp, trace, offers, n - 1) && Offered(sp, trace, offers, n - 1);
        if Accepts(r) { FiresIffOverload(sp, trace[n - 1], seen, r); }
      }
    }
  }

  lemma NothingLoaded(sp: Space)
    requires sp.Metric()
    ensures Load(sp, {}) == 0
  {
    forall b: nat | b < BUCKET_COUNT ensures InBucket(sp, {}, b) == {} {}
    RoomyLoad(sp, {});
  }

  // ---- Every sequence of offers has a history -----------------------------------------------

  lemma {:induction false} Farthest(sp: Space, ids: set<string>) returns (w: string)
    requires ids != {}
    ensures w in ids && forall y :: y in ids ==> sp.rank(y) <= sp.rank(w)
    decreases |ids|
  {
    w :| w in ids;
    var rest := ids - {w};
    if rest != {} {
      var v := Farthest(sp, rest);
      assert forall y :: y in ids ==> y == w || y in rest;
      if sp.rank(w) < sp.rank(v) { w := v; }
    }
  }

  lemma DropOne(sp: Space, c: Contents, w: string) returns (c': Contents)
    requires Indexed(sp, c) && w in c.byID
    ensures Indexed(sp, c') && c'.byID == c.byID - {w}
  {
    var b: nat := sp.bucket(w);
    assert Lists(c.buckets[b], InBucket(sp, c.byID.Keys, b));
    assert w in Elements(c.buckets[b]);
    var i: nat :| i < |c.buckets[b]| && c.buckets[b][i] == w;
    DropKeepsIndexed(sp, c, w, i);
    c' := Dropped(sp, c, w, i);
  }

  lemma TrimOutcome(sp: Space, c: Contents, b: nat) returns (c': Contents)
    requires Indexed(sp, c) && b < BUCKET_COUNT && |InBucket(sp, c.byID.Keys, b)| <= BUCKET_K + 1
    ensures Indexed(sp, c') && Trimmed(sp, c.byID, c'.byID, b)
  {
    var ids := InBucket(sp, c.byID.Keys, b);
    if |ids| <= BUCKET_K {
      c' := c;
    } else {
      var w := Farthest(sp, ids);
      c' := DropOne(sp, c, w);
      TrimStep(sp, c.byID, c.byID, b, w, |ids|);
    }
  }

  lemma CapOutcome(sp: Space, c: Contents) returns (c': Contents)
    requires Indexed(sp, c) && |c.byID| <= MAX_ENTRIES + 1
    ensures Indexed(sp, c') && Capped(sp, c.byID, c'.byID)
  {
    assert |c.byID| == |c.byID.Keys|;
    if |c.byID| <= MAX_ENTRIES {
      c' := c;
    } else {
      var w := Farthest(sp, c.byID.Keys);
      c' := DropOne(sp, c, w);
      CapStep(sp, c.byID, c.byID, c'.byID, w);
    }
  }

  /** Every offer to a consistent table has an outcome. */
  lemma Outcome(sp: Space, c: Contents, r: RelayNode) returns (c': Contents)
    requires Consistent(sp, c)
    ensures Consistent(sp, c') && Inserted(sp, c, c', r)
  {
    if !Accepts(r) {
      c' := c;
    } else if r.ID in c.byID {
      RefreshKeepsConsistent(sp, c, r);
      c' := Contents(c.byID[r.ID := Entry(sp.hash(r.ID), r)], c.buckets);
    } else {
      var p, b: nat := Placed(sp, c, r), sp.bucket(r.ID);
      PlaceKeepsIndexed(sp, c, r);
      PlacedSizes(sp, c, r);
      var t := TrimOutcome(sp, p, b);
      SubsetSize(t.byID.Keys, p.byID.Keys);
      c' := CapOutcome(sp, t);
      PlacingInserts(sp, c, t.byID, c', r);
    }
  }

  lemma PlacedSizes(sp: Space, c: Contents, r: RelayNode)
    requires Consistent(sp, c) && r.ID !in c.byID
    ensures |Placed(sp, c, r).byID.Keys| == |c.byID| + 1
    ensures |InBucket(sp, Placed(sp, c, r).byID.Keys, sp.bucket(r.ID))| <= BUCKET_K + 1
  {
    assert Placed(sp, c, r).byID.Keys == c.byID.Keys + {r.ID};
    GrownSize(c.byID.Keys, r.ID);
    InBucketAdd(sp, c.byID.Keys, r.ID, sp.bucket(r.ID));
    BucketSize(sp, c, sp.bucket(r.ID));
  }

  lemma EmptyIsConsistent(sp: Space) returns (c: Contents)
    requires sp.Metric()
    ensures Consistent(sp, c) && c.byID == map[]
  {
    c := Contents(map[], seq(BUCKET_COUNT, _ => []));
    forall b | 0 <= b < BUCKET_COUNT ensures Lists(c.buckets[b], InBucket(sp, c.byID.Keys, b)) {
      assert Elements<string>([]) == {} == InBucket(sp, {}, b);
    }
  }

  /** Any offers whatever, in any order, lead an empty table through some history. */
  lemma {:induction false} HistoryOf(sp: Space, offers: seq<RelayNode>) returns (trace: seq<Contents>)
    requires sp.Metric()
    ensures Steps(sp, trace, offers) && trace[0].byID == map[] && Consistent(sp, trace[|offers|])
    decreases |offers|
  {
    if offers == [] {
      var c := EmptyIsConsistent(sp);
      trace := [c];
    } else {
      var n := |offers| - 1;
      var front := HistoryOf(sp, offers[..n]);
      var c := Outcome(sp, front[n], offers[n]);
      StepsExtend(sp, front, offers[..n], c, offers[n]);
      assert offers[..n] + [offers[n]] == offers;
      trace := front + [c];
    }
  }

  // ---- A history that reaches the cap -------------------------------------------------------

  const SPREAD := 103

  /** A distance with its first set bit at position n % 103 and n / 103 in the last octet: all different for n below 2060. */
  function Spot(n: nat): Digest {
    var b := n % SPREAD;
    Zeros(DIGEST_LEN)[b / 8 := Bit(b % 8)][31 := (n / SPREAD % 256) as byte]
  }

  function Bit(k: nat): byte
    requires k < 8
  {
    if k == 0 then 128 else if k == 1 then 64 else if k == 2 then 32 else if k == 3 then 16
    else if k == 4 then 8 else if k == 5 then 4 else if k == 6 then 2 else 1
  }

  lemma SpotBucket(n: nat)
    ensures BucketIndex(Spot(n)) == n % SPREAD
  {
    var d, b := Spot(n), n % SPREAD;
    assert d[b / 8] == Bit(b % 8) != 0;
    assert forall i :: 0 <= i < b / 8 ==> d[i] == 0;
    assert ZeroPrefix(d) == b / 8;
    assert LeadingZeros8(Bit(b % 8)) == b % 8;
  }

  function Spread(self: Digest): string -> Digest { id => XorSeq(self, Spot(|id|)) }

  function Name(n: nat): string { seq(n, _ => 'x') }

  function Contact(n: nat): RelayNode { RelayNode(Name(n), [], "", 0, "s", "", 0, "", "", "") }

  function Crowd(n: nat): seq<RelayNode> { seq(n, i requires 0 <= i < n => Contact(i + 1)) }

  lemma SpreadDistance(self: Digest, id: string)
    ensures XorDist(self, Spread(self)(id)) == Spot(|id|)
    ensures SpaceOf(self, Spread(self)).bucket(id) == |id| % SPREAD
  {
    var d := Spot(|id|);
    XorSeqSymmetric(self, d);
    XorSeqUndo(d, self);
    XorSeqSymmetric(XorSeq(d, self), self);
    var sp := SpaceOf(self, Spread(self));
    assert Probe(id);
    assert sp.Dist(id) == d;
    SpotBucket(|id|);
  }

  ghost function Names(n: nat): set<string> { if n == 0 then {} else Names(n - 1) + {Name(n)} }

  lemma {:induction false} NamesAre(n: nat)
    ensures |Names(n)| == n
    ensures forall id :: id in Names(n) ==> |id| <= n
  {
    if n > 0 {
      NamesAre(n - 1);
      assert |Name(n)| == n;
    }
  }

  lemma {:induction false} CrowdAccepted(n: nat)
    ensures Accepted(Crowd(n)) == Names(n)
  {
    if n > 0 {
      CrowdAccepted(n - 1);
      assert Crowd(n)[..n - 1] == Crowd(n - 1);
      ContactIsAccepted(n);
    }
  }

  lemma {:induction false} InEachBucket(sp: Space, n: nat, b: nat)
    requires forall id :: sp.bucket(id) == |id| % SPREAD
    ensures |InBucket(sp, Names(n), b)| <= if b < SPREAD then (n + SPREAD - b) / SPREAD else 0
  {
    if n == 0 {
      assert InBucket(sp, Names(0), b) == {};
    } else {
      InEachBucket(sp, n - 1, b);
      InBucketAdd(sp, Names(n - 1), Name(n), b);
      if b < SPREAD { OneMoreOf(n, b); }
    }
  }

  lemma OneMoreOf(n: nat, b: nat)
    requires n > 0 && b < SPREAD
    ensures (n + SPREAD - b) / SPREAD >= (n - 1 + SPREAD - b) / SPREAD + if n % SPREAD == b then 1 else 0
  {}

  lemma ContactIsAccepted(n: nat)
    requires n > 0
    ensures Accepts(Contact(n))
  {
    assert |Name(n)| == n;
  }

  /** From an empty table, 2048 offers leave every bucket with its nearest; the next makes the cap throw a contact out and leaves a bucket short. */
  ghost predicate ReachesCap(sp: Space, trace: seq<Contents>, offers: seq<RelayNode>) {
    && sp.Metric() && HashesApart(sp, Accepted(offers))
    && Steps(sp, trace, offers) && trace[0].byID == map[] && |offers| == MAX_ENTRIES + 1
    && CapFires(sp, trace[MAX_ENTRIES], offers[MAX_ENTRIES])
    && NearestUpTo(sp, trace, offers, MAX_ENTRIES) && !NearestUpTo(sp, trace, offers, MAX_ENTRIES + 1)
  }

  /** Whatever the node's own identifier, some hash and some offers lead its table to the cap. */
  lemma CapIsReached(self: Digest)
    ensures exists sp: Space, trace, offers :: sp.self == self && ReachesCap(sp, trace, offers)
  {
    var sp, trace, offers := CrowdReachesCap(self);
  }

  lemma CrowdReachesCap(self: Digest) returns (sp: Space, trace: seq<Contents>, offers: seq<RelayNode>)
    ensures sp.self == self && ReachesCap(sp, trace, offers)
  {
    var n := MAX_ENTRIES + 1;
    sp, offers := SpaceOf(self, Spread(self)), Crowd(n);
    forall id ensures sp.bucket(id) == |id| % SPREAD { SpreadDistance(self, id); }
    trace := HistoryOf(sp, offers);
    CrowdAccepted(n);
    CrowdFront(n);
    NamesAre(n);
    NamesAre(n - 1);
    CrowdIsRoomy(sp, n);
    CrowdIsRoomy(sp, n - 1);
    assert HashesApart(sp, Names(n)) by { SpreadApart(sp, self, n); }
    ReachedByLoad(sp, trace, offers);
  }

  lemma ReachedByLoad(sp: Space, trace: seq<Contents>, offers: seq<RelayNode>)
    requires sp.Metric() && HashesApart(sp, Accepted(offers)) && Steps(sp, trace, offers) && trace[0].byID == map[]
    requires |offers| == MAX_ENTRIES + 1 && offers[..MAX_ENTRIES + 1] == offers
    requires Load(sp, Accepted(offers)) == MAX_ENTRIES + 1 && Load(sp, Accepted(offers[..MAX_ENTRIES])) == MAX_ENTRIES
    ensures ReachesCap(sp, trace, offers)
  {
    SilentIffWithinCap(sp, trace, offers, MAX_ENTRIES + 1);
    SilentIffWithinCap(sp, trace, offers, MAX_ENTRIES);
    OneStepMore(sp, trace, offers, MAX_ENTRIES);
    NearestThroughoutIffNoCap(sp, trace, offers, MAX_ENTRIES + 1);
    NearestThroughoutIffNoCap(sp, trace, offers, MAX_ENTRIES);
  }

  lemma CrowdIsRoomy(sp: Space, n: nat)
    requires sp.Metric() && n <= MAX_ENTRIES + 1 && forall id :: sp.bucket(id) == |id| % SPREAD
    ensures Load(sp, Names(n)) == n
  {
    forall b: nat | b < BUCKET_COUNT ensures |InBucket(sp, Names(n), b)| <= BUCKET_K { InEachBucket(sp, n, b); }
    RoomyLoad(sp, Names(n));
    NamesAre(n);
  }

  lemma CrowdFront(n: nat)
    requires n > 0
    ensures Crowd(n)[..n] == Crowd(n) && Crowd(n)[..n - 1] == Crowd(n - 1)
    ensures Accepted(Crowd(n)[..n]) == Names(n) && Accepted(Crowd(n)[..n - 1]) == Names(n - 1)
  {
    assert Crowd(n)[..n] == Crowd(n) && Crowd(n)[..n - 1] == Crowd(n - 1);
    CrowdAccepted(n);
    CrowdAccepted(n - 1);
  }

  lemma SpreadApart(sp: Space, self: Digest, n: nat)
    requires sp.hash == Spread(self) && n < 20 * SPREAD
    ensures HashesApart(sp, Names(n))
  {
    NamesAre(n);
    forall a, b | a in Names(n) && b in Names(n) && a != b ensures sp.hash(a) != sp.hash(b) {
      AllSame(n, a);
      AllSame(n, b);
      SpotsDiffer(|a|, |b|);
      if sp.hash(a) == sp.hash(b) {
        XorSeqSymmetric(self, Spot(|a|));
        XorSeqSymmetric(self, Spot(|b|));
        XorSeqInjective(Spot(|a|), Spot(|b|), self);
      }
    }
  }

  lemma {:induction false} AllSame(n: nat, id: string)
    requires id in Names(n)
    ensures id == Name(|id|)
  {
    if id != Name(n) { AllSame(n - 1, id); }
  }

  lemma SpotsDiffer(m: nat, n: nat)
    requires m < 20 * SPREAD && n < 20 * SPREAD && m != n
    ensures Spot(m) != Spot(n)
  {
    SpotBucket(m);
    SpotBucket(n);
    assert Spot(m)[31] == (m / SPREAD) as byte && Spot(n)[31] == (n / SPREAD) as byte;
    assert m == m / SPREAD * SPREAD + m % SPREAD && n == n / SPREAD * SPREAD + n % SPREAD;
  }
}
