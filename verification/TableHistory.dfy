/** What a routing table holds after a whole history of offers. */
module TableHistory {
  import opened Bytes
  import opened Collections
  import opened XorMetric
  import opened Discovery
  import opened RoutingTable

  /** Every contact ever accepted, whether or not it is still in the table. */
  ghost function Accepted(offers: seq<RelayNode>): set<string> {
    if offers == [] then {}
    else
      var r := offers[|offers| - 1];
      Accepted(offers[..|offers| - 1]) + if Accepts(r) then {r.ID} else {}
  }

  /** The description that the last accepted offer of `id` carried. */
  ghost function Latest(offers: seq<RelayNode>, id: string): RelayNode
    requires id in Accepted(offers)
  {
    var r := offers[|offers| - 1];
    if Accepts(r) && r.ID == id then r else Latest(offers[..|offers| - 1], id)
  }

  /** Offering `r` to a table in state `c` makes the global cap throw a contact out. */
  ghost predicate CapFires(sp: Space, c: Contents, r: RelayNode)
  {
    && Accepts(r) && r.ID !in c.byID
    && |c.byID| == MAX_ENTRIES
    && sp.bucket(r.ID) < |c.buckets| && |c.buckets[sp.bucket(r.ID)]| < BUCKET_K
  }

  /** Every bucket holds the nearest 20 of the given IDs that belong to it. */
  ghost predicate HoldsNearest(sp: Space, c: Contents, seen: set<string>) {
    && c.byID.Keys <= seen
    && forall b: nat :: b < BUCKET_COUNT ==> KeepsNearest(sp, InBucket(sp, c.byID.Keys, b), InBucket(sp, seen, b), BUCKET_K)
  }

  /** Streaming step: keeping the nearest k of what was kept plus a newcomer keeps the nearest k of everything seen, even if the newcomer was evicted before. */
  lemma NewcomerKeepsNearest(sp: Space, kept: set<string>, seen: set<string>, x: string, kept': set<string>, k: nat)
    requires k > 0 && KeepsNearest(sp, kept, seen, k) && x !in kept
    requires KeepsNearest(sp, kept', kept + {x}, k)
    ensures KeepsNearest(sp, kept', seen + {x}, k)
  {
    SubsetSize(kept, seen);
    if x in seen {
      SubsetSize(kept + {x}, seen);
      assert seen + {x} == seen;
    }
    forall z, y | z in seen + {x} - kept' && y in kept' ensures sp.rank(y) <= sp.rank(z) {
      if z !in kept + {x} && y == x {
        SubsetSize(kept + {z}, seen);
        assert |kept'| == |kept| == k;
        var w := SomeoneLeft(kept, kept', x);
        assert sp.rank(y) <= sp.rank(w) <= sp.rank(z);
      }
    }
  }

  lemma SomeoneLeft(kept: set<string>, kept': set<string>, x: string) returns (w: string)
    requires x !in kept && x in kept' && |kept'| == |kept|
    ensures w in kept && w !in kept'
  {
    if kept <= kept' { SubsetSize(kept + {x}, kept'); }
    w :| w in kept && w !in kept';
  }

  /** Without the cap, one offer leaves every bucket with the nearest 20 of what it has been shown. */
  lemma OfferKeepsNearest(sp: Space, c: Contents, c': Contents, r: RelayNode, seen: set<string>)
    requires Consistent(sp, c) && Inserted(sp, c, c', r) && HoldsNearest(sp, c, seen)
    requires Accepts(r) && r.ID !in c.byID && !CapFires(sp, c, r)
    ensures HoldsNearest(sp, c', seen + {r.ID})
  {
    var placed := c.byID[r.ID := Entry(sp.hash(r.ID), r)];
    var m :| Trimmed(sp, placed, m, sp.bucket(r.ID)) && Capped(sp, m, c'.byID);
    BucketSize(sp, c, sp.bucket(r.ID));
    TrimmedSize(sp, c.byID, r, m);
    FullSubset(c'.byID.Keys, m.Keys);
    TrimKeepsNearest(sp, c, r, seen, m);
  }

  lemma TrimKeepsNearest(sp: Space, c: Contents, r: RelayNode, seen: set<string>, m: map<string, Entry>)
    requires Accepts(r) && r.ID !in c.byID && HoldsNearest(sp, c, seen)
    requires Trimmed(sp, c.byID[r.ID := Entry(sp.hash(r.ID), r)], m, sp.bucket(r.ID))
    ensures m.Keys <= seen + {r.ID}
    ensures forall b: nat :: b < BUCKET_COUNT ==> KeepsNearest(sp, InBucket(sp, m.Keys, b), InBucket(sp, seen + {r.ID}, b), BUCKET_K)
  {
    var bi := sp.bucket(r.ID);
    var placed := c.byID[r.ID := Entry(sp.hash(r.ID), r)];
    assert placed.Keys == c.byID.Keys + {r.ID};
    forall b: nat | b < BUCKET_COUNT
      ensures KeepsNearest(sp, InBucket(sp, m.Keys, b), InBucket(sp, seen + {r.ID}, b), BUCKET_K)
    {
      var kept, all := InBucket(sp, c.byID.Keys, b), InBucket(sp, seen, b);
      assert KeepsNearest(sp, kept, all, BUCKET_K);
      InBucketAdd(sp, seen, r.ID, b);
      InBucketAdd(sp, c.byID.Keys, r.ID, b);
      if b == bi {
        NewcomerKeepsNearest(sp, kept, all, r.ID, InBucket(sp, m.Keys, b), BUCKET_K);
      } else {
        assert InBucket(sp, m.Keys, b) == kept;
      }
    }
  }

  /** How many contacts are left once the newcomer's bucket has been trimmed. */
  lemma TrimmedSize(sp: Space, byID: map<string, Entry>, r: RelayNode, m: map<string, Entry>)
    requires r.ID !in byID && |InBucket(sp, byID.Keys, sp.bucket(r.ID))| <= BUCKET_K
    requires Trimmed(sp, byID[r.ID := Entry(sp.hash(r.ID), r)], m, sp.bucket(r.ID))
    ensures |m| == if |InBucket(sp, byID.Keys, sp.bucket(r.ID))| < BUCKET_K then |byID| + 1 else |byID|
  {
    var b := sp.bucket(r.ID);
    var before, after := InBucket(sp, byID.Keys, b), InBucket(sp, m.Keys, b);
    assert byID[r.ID := Entry(sp.hash(r.ID), r)].Keys == byID.Keys + {r.ID};
    InBucketAdd(sp, byID.Keys, r.ID, b);
    GrownSize(before, r.ID);
    OutsideBucket(sp, byID, r, m, b);
    Difference(m.Keys, after);
    Difference(byID.Keys, before);
  }

  lemma OutsideBucket(sp: Space, byID: map<string, Entry>, r: RelayNode, m: map<string, Entry>, b: nat)
    requires r.ID !in byID && b == sp.bucket(r.ID)
    requires Trimmed(sp, byID[r.ID := Entry(sp.hash(r.ID), r)], m, b)
    ensures m.Keys - InBucket(sp, m.Keys, b) == byID.Keys - InBucket(sp, byID.Keys, b)
  {
    var placed := byID[r.ID := Entry(sp.hash(r.ID), r)];
    forall id ensures id in m.Keys - InBucket(sp, m.Keys, b) <==> id in byID.Keys - InBucket(sp, byID.Keys, b) {
      assert id in placed.Keys <==> id == r.ID || id in byID.Keys;
      assert sp.bucket(id) != b && id in placed.Keys ==> id in placed.Keys - InBucket(sp, placed.Keys, b);
    }
  }

  lemma GrownSize<T>(a: set<T>, x: T)
    requires x !in a
    ensures |a + {x}| == |a| + 1
  {}

  lemma Difference<T>(a: set<T>, b: set<T>)
    requires b <= a
    ensures |a - b| == |a| - |b|
  {}

  lemma FullSubset<T>(a: set<T>, b: set<T>)
    requires a <= b && |a| == |b|
    ensures a == b
  {
    assert |b - a| == |b| - |a|;
  }

  /** When the cap does fire, the bucket of the contact it throws out is left short. */
  lemma CapBreaksNearest(sp: Space, c: Contents, c': Contents, r: RelayNode, seen: set<string>)
    requires Consistent(sp, c) && Inserted(sp, c, c', r) && HoldsNearest(sp, c, seen)
    requires CapFires(sp, c, r)
    ensures !HoldsNearest(sp, c', seen + {r.ID})
  {
    var placed := c.byID[r.ID := Entry(sp.hash(r.ID), r)];
    var m :| Trimmed(sp, placed, m, sp.bucket(r.ID)) && Capped(sp, m, c'.byID);
    BucketSize(sp, c, sp.bucket(r.ID));
    TrimmedSize(sp, c.byID, r, m);
    TrimKeepsNearest(sp, c, r, seen, m);
    var gone := Missing(m.Keys, c'.byID.Keys);
    ShortBucket(sp, m.Keys, c'.byID.Keys, gone, seen + {r.ID});
  }

  /** An element of the larger set that the smaller one lacks. */
  lemma Missing<T>(a: set<T>, b: set<T>) returns (x: T)
    requires |b| < |a|
    ensures x in a && x !in b
  {
    if a <= b { SubsetSize(a, b); }
    x :| x in a && x !in b;
  }

  lemma ShortBucket(sp: Space, ids: set<string>, left: set<string>, gone: string, seen: set<string>)
    requires left <= ids && gone in ids && gone !in left
    requires KeepsNearest(sp, InBucket(sp, ids, sp.bucket(gone)), InBucket(sp, seen, sp.bucket(gone)), BUCKET_K)
    ensures !KeepsNearest(sp, InBucket(sp, left, sp.bucket(gone)), InBucket(sp, seen, sp.bucket(gone)), BUCKET_K)
  {
    var kept, kept' := InBucket(sp, ids, sp.bucket(gone)), InBucket(sp, left, sp.bucket(gone));
    SubsetSize(kept', kept - {gone});
    assert |kept - {gone}| == |kept| - 1;
  }

  lemma OfferIffNoCap(sp: Space, c: Contents, c': Contents, offers: seq<RelayNode>, r: RelayNode)
    requires Consistent(sp, c) && Inserted(sp, c, c', r) && HoldsNearest(sp, c, Accepted(offers))
    ensures HoldsNearest(sp, c', Accepted(offers + [r])) <==> !CapFires(sp, c, r)
  {
    assert (offers + [r])[..|offers|] == offers;
    var seen := Accepted(offers);
    if !Accepts(r) {
      assert Accepted(offers + [r]) == seen;
    } else if r.ID in c.byID {
      assert c'.byID.Keys == c.byID.Keys;
      assert Accepted(offers + [r]) == seen;
    } else if CapFires(sp, c, r) {
      CapBreaksNearest(sp, c, c', r, seen);
    } else {
      OfferKeepsNearest(sp, c, c', r, seen);
    }
  }

  ghost predicate NearestAt(sp: Space, trace: seq<Contents>, offers: seq<RelayNode>, i: nat)
    requires i < |trace| && i <= |offers|
  {
    HoldsNearest(sp, trace[i], Accepted(offers[..i]))
  }

  lemma StepIffNoCap(sp: Space, trace: seq<Contents>, offers: seq<RelayNode>, i: nat)
    requires Steps(sp, trace, offers) && i < |offers| && NearestAt(sp, trace, offers, i)
    ensures NearestAt(sp, trace, offers, i + 1) <==> !CapFires(sp, trace[i], offers[i])
  {
    assert offers[..i + 1] == offers[..i] + [offers[i]];
    assert Offered(sp, trace, offers, i);
    OfferIffNoCap(sp, trace[i], trace[i + 1], offers[..i], offers[i]);
  }

  lemma NearestWhenEmpty(sp: Space, c: Contents)
    requires c.byID == map[]
    ensures HoldsNearest(sp, c, {})
  {
    forall b: nat | b < BUCKET_COUNT ensures InBucket(sp, c.byID.Keys, b) == {} == InBucket(sp, {}, b) {}
  }

  ghost predicate NearestUpTo(sp: Space, trace: seq<Contents>, offers: seq<RelayNode>, n: nat)
    requires |trace| == |offers| + 1 && n <= |offers|
  {
    forall i: nat :: i <= n ==> NearestAt(sp, trace, offers, i)
  }

  ghost predicate CapSilent(sp: Space, trace: seq<Contents>, offers: seq<RelayNode>, n: nat)
    requires |trace| == |offers| + 1 && n <= |offers|
  {
    forall i: nat :: i < n ==> !CapFires(sp, trace[i], offers[i])
  }

  lemma OneStepMore(sp: Space, trace: seq<Contents>, offers: seq<RelayNode>, n: nat)
    requires |trace| == |offers| + 1 && n < |offers|
    ensures NearestUpTo(sp, trace, offers, n + 1) <==> NearestUpTo(sp, trace, offers, n) && NearestAt(sp, trace, offers, n + 1)
    ensures CapSilent(sp, trace, offers, n + 1) <==> CapSilent(sp, trace, offers, n) && !CapFires(sp, trace[n], offers[n])
  {}

  lemma NearestAtStart(sp: Space, trace: seq<Contents>, offers: seq<RelayNode>)
    requires |trace| == |offers| + 1 && trace[0].byID == map[]
    ensures NearestUpTo(sp, trace, offers, 0) && CapSilent(sp, trace, offers, 0)
  {
    assert Accepted(offers[..0]) == {};
    NearestWhenEmpty(sp, trace[0]);
    assert NearestAt(sp, trace, offers, 0);
  }

  /** Over a whole history from an empty table: the buckets hold the nearest 20 at every moment exactly when the cap never fires. */
  lemma {:induction false} NearestThroughoutIffNoCap(sp: Space, trace: seq<Contents>, offers: seq<RelayNode>, n: nat)
    requires Steps(sp, trace, offers) && trace[0].byID == map[] && n <= |offers|
    ensures NearestUpTo(sp, trace, offers, n) <==> CapSilent(sp, trace, offers, n)
  {
    if n == 0 {
      NearestAtStart(sp, trace, offers);
    } else {
      NearestThroughoutIffNoCap(sp, trace, offers, n - 1);
      OneStepMore(sp, trace, offers, n - 1);
      if NearestUpTo(sp, trace, offers, n - 1) {
        assert NearestAt(sp, trace, offers, n - 1);
        StepIffNoCap(sp, trace, offers, n - 1);
      }
    }
  }

  /** Contacts still present carry the description offered last, through any number of evictions and returns. */
  lemma {:induction false} PresentIsLatest(sp: Space, trace: seq<Contents>, offers: seq<RelayNode>, n: nat, id: string)
    requires Steps(sp, trace, offers) && trace[0].byID == map[]
    requires n <= |offers| && id in trace[n].byID
    ensures id in Accepted(offers[..n]) && trace[n].byID[id] == Entry(sp.hash(id), Latest(offers[..n], id))
    decreases n
  {
    if n > 0 {
      var r, c := offers[n - 1], trace[n - 1];
      assert offers[..n][..n - 1] == offers[..n - 1];
      assert Offered(sp, trace, offers, n - 1);
      if !(Accepts(r) && r.ID == id) {
        assert id in c.byID && trace[n].byID[id] == c.byID[id];
        PresentIsLatest(sp, trace, offers, n - 1, id);
      }
    }
  }

  ghost predicate HashesApart(sp: Space, ids: set<string>) {
    forall a, b :: a in ids && b in ids && a != b ==> sp.hash(a) != sp.hash(b)
  }

  lemma DistinctRanks(sp: Space, a: string, b: string)
    requires sp.Metric() && sp.hash(a) != sp.hash(b)
    ensures sp.rank(a) != sp.rank(b)
  {
    assert Probe(a) && Probe(b);
    LessIsNumeric(sp.Dist(a), sp.Dist(b));
    if sp.Dist(a) == sp.Dist(b) {
      XorSeqSymmetric(sp.self, sp.hash(a));
      XorSeqSymmetric(sp.self, sp.hash(b));
      XorSeqInjective(sp.hash(a), sp.hash(b), sp.self);
    }
  }

  lemma NearestIsUnique(sp: Space, a: set<string>, b: set<string>, all: set<string>, k: nat)
    requires sp.Metric() && HashesApart(sp, all)
    requires KeepsNearest(sp, a, all, k) && KeepsNearest(sp, b, all, k)
    ensures a == b
  {
    if a <= b {
      FullSubset(a, b);
    } else {
      var x :| x in a && x !in b;
      if b <= a { FullSubset(b, a); }
      var y :| y in b && y !in a;
      DistinctRanks(sp, x, y);
    }
  }

  /** Insertion order, repeats and re-offers of evicted contacts make no difference to who is kept. */
  lemma OrderIndependent(sp: Space, t1: seq<Contents>, o1: seq<RelayNode>, t2: seq<Contents>, o2: seq<RelayNode>)
    requires Steps(sp, t1, o1) && Steps(sp, t2, o2) && t1[0].byID == map[] && t2[0].byID == map[]
    requires CapSilent(sp, t1, o1, |o1|) && CapSilent(sp, t2, o2, |o2|)
    requires sp.Metric() && Accepted(o1) == Accepted(o2) && HashesApart(sp, Accepted(o1))
    ensures t1[|o1|].byID.Keys == t2[|o2|].byID.Keys
  {
    NearestThroughoutIffNoCap(sp, t1, o1, |o1|);
    NearestThroughoutIffNoCap(sp, t2, o2, |o2|);
    assert o1[..|o1|] == o1 && o2[..|o2|] == o2;
    assert NearestAt(sp, t1, o1, |o1|) && NearestAt(sp, t2, o2, |o2|);
    SameKept(sp, t1[|o1|], t2[|o2|], Accepted(o1));
  }

  lemma SameKept(sp: Space, c1: Contents, c2: Contents, seen: set<string>)
    requires sp.Metric() && HashesApart(sp, seen)
    requires HoldsNearest(sp, c1, seen) && HoldsNearest(sp, c2, seen)
    ensures c1.byID.Keys == c2.byID.Keys
  {
    forall id ensures id in c1.byID.Keys <==> id in c2.byID.Keys {
      var b: nat := sp.bucket(id);
      NearestIsUnique(sp, InBucket(sp, c1.byID.Keys, b), InBucket(sp, c2.byID.Keys, b), InBucket(sp, seen, b), BUCKET_K);
      assert id in InBucket(sp, c1.byID.Keys, b) <==> id in c1.byID.Keys;
      assert id in InBucket(sp, c2.byID.Keys, b) <==> id in c2.byID.Keys;
    }
  }

  /** The global cap always takes from the lowest bucket in use. */
  lemma EvictsFromLowestBucket(sp: Space, m: map<string, Entry>, gone: string, id: string)
    requires sp.Metric() && gone in m && id in m
    requires forall y :: y in m ==> sp.rank(y) <= sp.rank(gone)
    ensures sp.bucket(gone) <= sp.bucket(id)
  {
    assert Probe(gone) && Probe(id);
    if sp.bucket(id) < sp.bucket(gone) {
      HigherBucketIsCloser(sp.Dist(gone), sp.Dist(id));
    }
  }
}
