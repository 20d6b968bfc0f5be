/** The Kademlia routing table: contacts by ID, 256 buckets by XOR distance, two eviction policies. */
module RoutingTable {
  import opened Bytes
  import opened Collections
  import opened XorMetric
  import opened Discovery

  const BUCKET_COUNT := 256
  const BUCKET_K := 20
  const MAX_ENTRIES := 2048

  datatype Entry = Entry(id: Digest, n: RelayNode)

  /**
   * Where this node stands: its own identifier, the hash that places every other ID, and
   * what follows from them: the distance of an ID as a number and the bucket it belongs to.
   */
  datatype Space = Space(self: Digest, hash: string -> Digest, rank: string -> nat, bucket: string -> nat) {
    function Dist(id: string): Digest { XorDist(self, hash(id)) }

    ghost predicate Metric() {
      && (forall id :: bucket(id) < BUCKET_COUNT)
      && (forall id {:trigger Probe(id)} :: Probe(id) ==> rank(id) == Value(Dist(id)) && bucket(id) == BucketIndex(Dist(id)))
    }
  }

  /** Marks the IDs whose place is looked up, to keep the metric out of proofs that do not need it. */
  ghost predicate Probe(id: string) { true }

  function SpaceOf(self: Digest, hash: string -> Digest): (sp: Space)
    ensures sp.Metric() && sp.self == self && sp.hash == hash
  {
    var s := Space(self, hash, id => Value(XorDist(self, hash(id))), id => BucketIndex(XorDist(self, hash(id))));
    assert forall id :: s.bucket(id) == BucketIndex(XorDist(self, hash(id)));
    s
  }

  datatype Contents = Contents(byID: map<string, Entry>, buckets: seq<seq<string>>)

  ghost function Elements<T>(s: seq<T>): set<T> { set x | x in s }

  /** `s` lists the members of `ids`, each once. */
  ghost predicate Lists<T>(s: seq<T>, ids: set<T>) {
    Elements(s) == ids && |s| == |ids|
  }

  /** Every entry carries the hash of the ID it is filed under, and no ID is empty. */
  ghost predicate Filed(sp: Space, m: map<string, Entry>) {
    "" !in m && forall id :: id in m ==> m[id].id == sp.hash(id) && m[id].n.ID == id
  }

  /** The map and the buckets describe the same contacts. */
  ghost predicate Indexed(sp: Space, c: Contents) {
    && sp.Metric()
    && |c.buckets| == BUCKET_COUNT
    && Filed(sp, c.byID)
    && (forall b :: 0 <= b < BUCKET_COUNT ==> Lists(c.buckets[b], InBucket(sp, c.byID.Keys, b)))
  }

  /** What holds between calls. */
  ghost predicate Consistent(sp: Space, c: Contents) {
    && Indexed(sp, c)
    && (forall b :: 0 <= b < BUCKET_COUNT ==> |c.buckets[b]| <= BUCKET_K)
    && |c.byID| <= MAX_ENTRIES
  }

  ghost function InBucket(sp: Space, ids: set<string>, b: nat): set<string> {
    set id | id in ids && sp.bucket(id) == b
  }

  /** `kept` are the k members of `all` nearest to this node, or all of them if fewer. */
  ghost predicate KeepsNearest(sp: Space, kept: set<string>, all: set<string>, k: nat) {
    && kept <= all
    && |kept| == Min(k, |all|)
    && forall x, y :: x in all - kept && y in kept ==> sp.rank(y) <= sp.rank(x)
  }

  ghost predicate Restricts(small: map<string, Entry>, big: map<string, Entry>) {
    small.Keys <= big.Keys && forall id :: id in small ==> small[id] == big[id]
  }

  ghost predicate Accepts(r: RelayNode) { r.ID != "" && Reachable(r) }

  /** One bucket is cut down to its nearest members; the other buckets are untouched. */
  ghost predicate Trimmed(sp: Space, m: map<string, Entry>, m': map<string, Entry>, b: nat) {
    && Restricts(m', m)
    && m.Keys - InBucket(sp, m.Keys, b) <= m'.Keys
    && KeepsNearest(sp, InBucket(sp, m'.Keys, b), InBucket(sp, m.Keys, b), BUCKET_K)
  }

  ghost predicate Capped(sp: Space, m: map<string, Entry>, m': map<string, Entry>) {
    Restricts(m', m) && KeepsNearest(sp, m'.Keys, m.Keys, MAX_ENTRIES)
  }

  /** The meaning of offering `r`: ignored, refreshed in place, or placed and then trimmed and capped. */
  ghost predicate Inserted(sp: Space, c: Contents, c': Contents, r: RelayNode) {
    if !Accepts(r) then c' == c
    else
      var placed := c.byID[r.ID := Entry(sp.hash(r.ID), r)];
      if r.ID in c.byID then c' == Contents(placed, c.buckets)
      else exists m :: Trimmed(sp, placed, m, sp.bucket(r.ID)) && Capped(sp, m, c'.byID)
  }

  lemma {:induction false} ElementsSize<T>(s: seq<T>)
    ensures |Elements(s)| <= |s|
  {
    if s == [] {
      assert Elements(s) == {};
    } else {
      ElementsSize(s[1..]);
      assert Elements(s) == {s[0]} + Elements(s[1..]);
    }
  }

  lemma RepeatShrinks<T>(s: seq<T>, i: nat, j: nat)
    requires i < j < |s| && s[i] == s[j]
    ensures |Elements(s)| < |s|
  {
    var t := s[..i] + s[i + 1..];
    ElementsSize(t);
    assert t[j - 1] == s[i];
    assert Elements(s) == Elements(t) by { assert s == s[..i] + [s[i]] + s[i + 1..]; }
  }

  /** Listing each member once is the same as having no repeated entry. */
  lemma ListsHasNoRepeats<T>(s: seq<T>, ids: set<T>)
    ensures Lists(s, ids) <==> Elements(s) == ids && forall i, j :: 0 <= i < j < |s| ==> s[i] != s[j]
  {
    forall i, j | 0 <= i < j < |s| ensures s[i] == s[j] ==> !Lists(s, ids) {
      if s[i] == s[j] { RepeatShrinks(s, i, j); }
    }
    if forall i, j :: 0 <= i < j < |s| ==> s[i] != s[j] { DistinctSize(s); }
  }

  lemma {:induction false} DistinctSize<T>(s: seq<T>)
    requires forall i, j :: 0 <= i < j < |s| ==> s[i] != s[j]
    ensures |Elements(s)| == |s|
  {
    if s == [] {
      assert Elements(s) == {};
    } else {
      DistinctSize(s[1..]);
      assert Elements(s) == {s[0]} + Elements(s[1..]);
    }
  }

  lemma RemovedAt<T>(s: seq<T>, ids: set<T>, i: nat)
    requires i < |s| && Lists(s, ids)
    ensures Lists(s[..i] + s[i + 1..], ids - {s[i]})
  {
    var t := s[..i] + s[i + 1..];
    assert Elements(s) == Elements(t) + {s[i]} by {
      assert s == s[..i] + [s[i]] + s[i + 1..];
    }
    ElementsSize(t);
    assert s[i] in Elements(t) ==> Elements(s) == Elements(t);
  }

  lemma BucketSize(sp: Space, c: Contents, b: nat)
    requires Indexed(sp, c) && b < BUCKET_COUNT
    ensures |InBucket(sp, c.byID.Keys, b)| == |c.buckets[b]|
  {
    assert Lists(c.buckets[b], InBucket(sp, c.byID.Keys, b));
  }

  /** Dropping a farthest member of what is kept keeps the rest nearest. */
  lemma DropFarthest(sp: Space, kept: set<string>, all: set<string>, size: nat, w: string)
    requires KeepsNearest(sp, kept, all, size) && |kept| == size > 0
    requires w in kept && forall y :: y in kept ==> sp.rank(y) <= sp.rank(w)
    ensures KeepsNearest(sp, kept - {w}, all, size - 1)
  {
    var smaller := kept - {w};
    assert |smaller| == size - 1;
    forall x, y | x in all - smaller && y in smaller ensures sp.rank(y) <= sp.rank(x) {
      if x != w { assert x in all - kept; }
    }
    SubsetSize(kept, all);
  }

  lemma RefreshKeepsConsistent(sp: Space, c: Contents, r: RelayNode)
    requires Consistent(sp, c) && r.ID in c.byID
    ensures Consistent(sp, Contents(c.byID[r.ID := Entry(sp.hash(r.ID), r)], c.buckets))
  {
    assert c.byID[r.ID := Entry(sp.hash(r.ID), r)].Keys == c.byID.Keys;
  }

  lemma DropKeepsIndexed(sp: Space, c: Contents, id: string, i: nat)
    requires Indexed(sp, c) && id in c.byID
    requires i < |c.buckets[sp.bucket(id)]| && c.buckets[sp.bucket(id)][i] == id
    ensures Indexed(sp, Dropped(sp, c, id, i))
  {
    var c' := Dropped(sp, c, id, i);
    forall b | 0 <= b < BUCKET_COUNT ensures Lists(c'.buckets[b], InBucket(sp, c'.byID.Keys, b)) {
      var ids := InBucket(sp, c.byID.Keys, b);
      assert Lists(c.buckets[b], ids);
      assert InBucket(sp, c'.byID.Keys, b) == ids - {id};
      if b == sp.bucket(id) {
        RemovedAt(c.buckets[b], ids, i);
      }
    }
  }

  ghost predicate TrimmedTo(sp: Space, m: map<string, Entry>, m': map<string, Entry>, b: nat, size: nat) {
    && Restricts(m', m)
    && m.Keys - InBucket(sp, m.Keys, b) <= m'.Keys
    && KeepsNearest(sp, InBucket(sp, m'.Keys, b), InBucket(sp, m.Keys, b), size)
    && Min(BUCKET_K, |InBucket(sp, m.Keys, b)|) <= size <= |InBucket(sp, m.Keys, b)|
  }

  lemma TrimStep(sp: Space, m: map<string, Entry>, k: map<string, Entry>, b: nat, victim: string, size: nat)
    requires size > BUCKET_K && size == |InBucket(sp, k.Keys, b)| && TrimmedTo(sp, m, k, b, size)
    requires victim in InBucket(sp, k.Keys, b)
    requires forall y :: y in InBucket(sp, k.Keys, b) ==> sp.rank(y) <= sp.rank(victim)
    ensures TrimmedTo(sp, m, k - {victim}, b, size - 1)
  {
    var kept := InBucket(sp, k.Keys, b);
    DropFarthest(sp, kept, InBucket(sp, m.Keys, b), size, victim);
    assert (k - {victim}).Keys == k.Keys - {victim};
    assert InBucket(sp, k.Keys - {victim}, b) == kept - {victim};
  }

  ghost predicate CappedTo(sp: Space, m: map<string, Entry>, m': map<string, Entry>, size: nat) {
    Restricts(m', m) && KeepsNearest(sp, m'.Keys, m.Keys, size) && Min(MAX_ENTRIES, |m|) <= size <= |m|
  }

  lemma CapStep(sp: Space, m: map<string, Entry>, k: map<string, Entry>, k': map<string, Entry>, gone: string)
    requires CappedTo(sp, m, k, |k|) && |k| > MAX_ENTRIES
    requires gone in k && forall y :: y in k ==> sp.rank(y) <= sp.rank(gone)
    requires k' == k - {gone}
    ensures CappedTo(sp, m, k', |k'|) && |k'| == |k| - 1
  {
    DropFarthest(sp, k.Keys, m.Keys, |k|, gone);
    assert k'.Keys == k.Keys - {gone};
    assert |k| == |k.Keys| && |k'| == |k'.Keys| && |m| == |m.Keys|;
  }

  method IndexOf(s: seq<string>, id: string) returns (i: nat)
    requires id in s
    ensures i < |s| && s[i] == id && id !in s[..i]
  {
    i := 0;
    while s[i] != id
      invariant i < |s| && id !in s[..i] && id in s[i..]
      decreases |s| - i
    {
      i := i + 1;
    }
  }

  /** The state between appending a new contact to its bucket and trimming. */
  ghost function Placed(sp: Space, c: Contents, r: RelayNode): Contents
    requires sp.Metric() && |c.buckets| == BUCKET_COUNT
  {
    var b := sp.bucket(r.ID);
    Contents(c.byID[r.ID := Entry(sp.hash(r.ID), r)], c.buckets[b := c.buckets[b] + [r.ID]])
  }

  lemma PlaceKeepsIndexed(sp: Space, c: Contents, r: RelayNode)
    requires Indexed(sp, c) && r.ID != "" && r.ID !in c.byID
    ensures Indexed(sp, Placed(sp, c, r))
  {
    var c' := Placed(sp, c, r);
    assert Filed(sp, c'.byID);
    forall b | 0 <= b < BUCKET_COUNT ensures Lists(c'.buckets[b], InBucket(sp, c'.byID.Keys, b)) {
      var s, ids := c.buckets[b], InBucket(sp, c.byID.Keys, b);
      assert Lists(s, ids);
      InBucketAdd(sp, c.byID.Keys, r.ID, b);
      assert c'.byID.Keys == c.byID.Keys + {r.ID};
      if b == sp.bucket(r.ID) { Appended(s, ids, r.ID); }
    }
  }

  lemma Appended<T>(s: seq<T>, ids: set<T>, x: T)
    requires Lists(s, ids) && x !in ids
    ensures Lists(s + [x], ids + {x})
  {
    assert Elements(s + [x]) == Elements(s) + {x};
  }

  lemma InBucketAdd(sp: Space, ids: set<string>, x: string, b: nat)
    ensures InBucket(sp, ids + {x}, b) == if sp.bucket(x) == b then InBucket(sp, ids, b) + {x} else InBucket(sp, ids, b)
  {}

  ghost function Dropped(sp: Space, c: Contents, id: string, i: nat): Contents
    requires sp.Metric() && |c.buckets| == BUCKET_COUNT && i < |c.buckets[sp.bucket(id)]|
  {
    var b := sp.bucket(id);
    Contents(c.byID - {id}, c.buckets[b := c.buckets[b][..i] + c.buckets[b][i + 1..]])
  }

  class Table {
    const sp: Space
    var byID: map<string, Entry>
    const buckets: array<seq<string>>

    ghost function View(): Contents
      reads this, buckets
    {
      Contents(byID, buckets[..])
    }

    constructor (seed: string, hash: string -> Digest)
      ensures sp == SpaceOf(hash(seed), hash) && fresh(buckets)
      ensures byID == map[] && Consistent(sp, View())
    {
      sp := SpaceOf(hash(seed), hash);
      byID := map[];
      buckets := new seq<string>[BUCKET_COUNT](_ => []);
    }

    method DropContact(id: string)
      requires Indexed(sp, View())
      modifies this`byID, buckets
      ensures Indexed(sp, View())
      ensures byID == old(byID) - {id}
    {
      if id !in byID {
        return;
      }
      ghost var c := View();
      assert Probe(id);
      var d := ComputeXorDist(sp.self, byID[id].id);
      var bi := XorLeadingBitIdx(d);
      var s := buckets[bi];
      assert s == c.buckets[sp.bucket(id)];
      assert Lists(s, InBucket(sp, byID.Keys, sp.bucket(id)));
      assert id in Elements(s);
      var i := IndexOf(s, id);
      buckets[bi] := s[..i] + s[i + 1..];
      byID := byID - {id};
      assert View() == Dropped(sp, c, id, i);
      DropKeepsIndexed(sp, c, id, i);
    }

    /** The first of `ids` at the greatest distance from this node. */
    method FarthestIndex(ids: seq<string>) returns (worst: nat)
      requires ids != [] && sp.Metric() && Filed(sp, byID) && forall id :: id in ids ==> id in byID
      ensures worst < |ids| && forall id :: id in ids ==> sp.rank(id) <= sp.rank(ids[worst])
    {
      var w, worstD := -1, sp.self;
      for i := 0 to |ids|
        invariant -1 <= w < i || w == -1
        invariant w < 0 ==> i == 0
        invariant w >= 0 ==> Value(worstD) == sp.rank(ids[w])
        invariant forall j :: 0 <= j < i ==> sp.rank(ids[j]) <= Value(worstD)
      {
        assert Probe(ids[i]);
        var d := ComputeXorDist(sp.self, byID[ids[i]].id);
        var less := DistLess(worstD, d);
        if w < 0 || less {
          w, worstD := i, d;
        }
      }
      worst := w;
    }

    method TrimBucket(bi: nat)
      requires bi < BUCKET_COUNT
      requires Indexed(sp, View())
      modifies this`byID, buckets
      ensures Indexed(sp, View())
      ensures Trimmed(sp, old(byID), byID, bi)
    {
      assert Lists(View().buckets[bi], InBucket(sp, byID.Keys, bi));
      while |buckets[bi]| > BUCKET_K
        invariant Indexed(sp, View())
        invariant TrimmedTo(sp, old(byID), byID, bi, |buckets[bi]|)
        decreases |buckets[bi]|
      {
        ghost var c := View();
        var ids := buckets[bi];
        assert ids == c.buckets[bi];
        assert Lists(ids, InBucket(sp, byID.Keys, bi));
        assert forall id :: id in ids <==> id in Elements(ids);
        var worst := FarthestIndex(ids);
        DropContact(ids[worst]);
        TrimStep(sp, old(byID), c.byID, bi, ids[worst], |ids|);
        assert Lists(View().buckets[bi], InBucket(sp, byID.Keys, bi));
      }
    }

    method FarthestContact() returns (farthest: string)
      requires sp.Metric() && Filed(sp, byID)
      ensures byID == map[] ==> farthest == ""
      ensures byID != map[] ==> farthest in byID && forall y :: y in byID ==> sp.rank(y) <= sp.rank(farthest)
    {
      var farthestD, first := sp.self, true;
      farthest := "";
      var todo := byID.Keys;
      while todo != {}
        invariant todo <= byID.Keys
        invariant first ==> todo == byID.Keys && farthest == ""
        invariant !first ==> farthest in byID && Value(farthestD) == sp.rank(farthest)
        invariant !first ==> forall y :: y in byID && y !in todo ==> sp.rank(y) <= sp.rank(farthest)
        decreases todo
      {
        var id :| id in todo;
        todo := todo - {id};
        assert Probe(id);
        var d := ComputeXorDist(byID[id].id, sp.self);
        XorSeqSymmetric(sp.self, byID[id].id);
        var less := DistLess(farthestD, d);
        if first || less {
          first, farthest, farthestD := false, id, d;
        }
      }
    }

    method EvictOneFarthest() returns (ghost gone: string)
      requires Indexed(sp, View())
      modifies this`byID, buckets
      ensures Indexed(sp, View())
      ensures byID == old(byID) - {gone}
      ensures old(byID) != map[] ==> gone in old(byID) && forall y :: y in old(byID) ==> sp.rank(y) <= sp.rank(gone)
    {
      var farthest := FarthestContact();
      gone := farthest;
      if farthest != "" {
        DropContact(farthest);
      } else {
        assert byID - {gone} == byID;
      }
    }

    method EnforceCap()
      requires Indexed(sp, View())
      modifies this`byID, buckets
      ensures Indexed(sp, View())
      ensures Capped(sp, old(byID), byID)
    {
      while |byID| > MAX_ENTRIES
        invariant Indexed(sp, View())
        invariant CappedTo(sp, old(byID), byID, |byID|)
        decreases |byID|
      {
        ghost var m := byID;
        ghost var gone := EvictOneFarthest();
        CapStep(sp, old(byID), m, byID, gone);
      }
    }

    method Insert(r: RelayNode)
      requires Consistent(sp, View())
      modifies this`byID, buckets
      ensures Consistent(sp, View())
      ensures Inserted(sp, old(View()), View(), r)
    {
      if r.ID == "" {
        return;
      }
      var hasContact := RelayHasContact(r);
      if !hasContact {
        return;
      }
      if r.ID in byID {
        RefreshKeepsConsistent(sp, View(), r);
        byID := byID[r.ID := Entry(sp.hash(r.ID), r)];
        return;
      }
      PlaceNew(r);
    }

    method PlaceNew(r: RelayNode)
      requires Consistent(sp, View())
      requires Accepts(r) && r.ID !in byID
      modifies this`byID, buckets
      ensures Consistent(sp, View())
      ensures Inserted(sp, old(View()), View(), r)
    {
      ghost var c := View();
      PlaceKeepsIndexed(sp, c, r);
      assert Probe(r.ID);
      var id := sp.hash(r.ID);
      var d := ComputeXorDist(sp.self, id);
      var bi := XorLeadingBitIdx(d);
      byID := byID[r.ID := Entry(id, r)];
      buckets[bi] := buckets[bi] + [r.ID];
      assert buckets[..] == Placed(sp, c, r).buckets;
      TrimBucket(bi);
      ghost var trimmed := byID;
      EnforceCap();
      PlacingInserts(sp, c, trimmed, View(), r);
    }

    method Merge(relays: seq<RelayNode>) returns (ghost trace: seq<Contents>)
      requires Consistent(sp, View())
      modifies this`byID, buckets
      ensures Consistent(sp, View())
      ensures Steps(sp, trace, relays) && trace[0] == old(View()) && trace[|relays|] == View()
    {
      trace := [View()];
      for i := 0 to |relays|
        invariant Consistent(sp, View())
        invariant Steps(sp, trace, relays[..i])
        invariant trace[0] == old(View()) && trace[i] == View()
      {
        Insert(relays[i]);
        StepsExtend(sp, trace, relays[..i], View(), relays[i]);
        trace := trace + [View()];
        assert relays[..i + 1] == relays[..i] + [relays[i]];
      }
      assert relays[..|relays|] == relays;
    }

    method CollectPairs(target: Digest) returns (pp: seq<Pair>)
      requires Filed(sp, byID)
      ensures |pp| == |byID| && Lists(pp, PairsOf(byID, target, byID.Keys))
    {
      pp := [];
      var m, todo := byID, byID.Keys;
      ghost var done: set<string> := {};
      while todo != {}
        invariant done !! todo && done + todo == m.Keys && |pp| == |done|
        invariant Lists(pp, PairsOf(m, target, done))
        decreases |todo|
      {
        var id :| id in todo;
        var d := ComputeXorDist(m[id].id, target);
        MoveOver(m.Keys, done, todo, id);
        PairsGrow(sp, m, target, done, id);
        Appended(pp, PairsOf(m, target, done), Pair(d, m[id].n));
        pp, todo, done := pp + [Pair(d, m[id].n)], todo - {id}, done + {id};
      }
    }

    method NearestTo(target: Digest, k: int) returns (out: seq<RelayNode>)
      requires Filed(sp, byID)
      ensures |out| == if k <= 0 then 0 else Min(k, |byID|)
      ensures forall i :: 0 <= i < |out| ==> out[i].ID in byID && byID[out[i].ID].n == out[i]
      ensures forall i, j :: 0 <= i < j < |out| ==> out[i].ID != out[j].ID
      ensures forall i, j :: 0 <= i < j < |out| ==> Gap(sp, target, out[i].ID) <= Gap(sp, target, out[j].ID)
      ensures forall id, i :: id in byID && id !in IDs(out) && 0 <= i < |out|
                ==> Gap(sp, target, out[i].ID) <= Gap(sp, target, id)
      ensures forall id :: id in byID && sp.hash(id) == target && k > 0 ==> out != [] && sp.hash(out[0].ID) == target
    {
      if k <= 0 {
        return [];
      }
      var pp := CollectPairs(target);
      pp := SortByDistance(pp, PairsOf(byID, target, byID.Keys));
      var n := Min(k, |pp|);
      out := [];
      for i := 0 to n
        invariant |out| == i && forall j :: 0 <= j < i ==> out[j] == pp[j].n
      {
        out := out + [pp[i].n];
      }
      SortedContacts(sp, byID, target, pp, out);
      if out != [] { TargetComesFirst(sp, byID, target, out); }
    }
  }

  /** A contact that is the target comes first. */
  lemma TargetComesFirst(sp: Space, m: map<string, Entry>, target: Digest, out: seq<RelayNode>)
    requires out != [] && forall i, j :: 0 <= i < j < |out| ==> Gap(sp, target, out[i].ID) <= Gap(sp, target, out[j].ID)
    requires forall id, i :: id in m && id !in IDs(out) && 0 <= i < |out| ==> Gap(sp, target, out[i].ID) <= Gap(sp, target, id)
    ensures forall id :: id in m && sp.hash(id) == target ==> sp.hash(out[0].ID) == target
  {
    forall id | id in m && sp.hash(id) == target ensures sp.hash(out[0].ID) == target {
      ZeroDistanceIff(sp.hash(id), target);
      ZeroDistanceIff(sp.hash(out[0].ID), target);
      if id in IDs(out) {
        var i :| 0 <= i < |out| && out[i].ID == id;
        assert i == 0 || Gap(sp, target, out[0].ID) <= Gap(sp, target, out[i].ID);
      }
    }
  }

  /** How far `id` is from `target`, as a number. */
  ghost function Gap(sp: Space, target: Digest, id: string): nat { Value(XorDist(sp.hash(id), target)) }

  ghost function IDs(ns: seq<RelayNode>): set<string> { set i | 0 <= i < |ns| :: ns[i].ID }

  datatype Pair = Pair(d: Digest, n: RelayNode)

  ghost function PairsOf(m: map<string, Entry>, target: Digest, ids: set<string>): set<Pair> {
    set id | id in ids && id in m :: Pair(XorDist(m[id].id, target), m[id].n)
  }

  lemma MoveOver(all: set<string>, done: set<string>, todo: set<string>, id: string)
    requires done !! todo && done + todo == all && id in todo
    ensures id in all && id !in done && done <= all
    ensures done + {id} !! todo - {id} && (done + {id}) + (todo - {id}) == all
    ensures |done + {id}| == |done| + 1 && |todo - {id}| < |todo|
  {}

  lemma PairsGrow(sp: Space, m: map<string, Entry>, target: Digest, ids: set<string>, id: string)
    requires Filed(sp, m) && id in m && id !in ids && ids <= m.Keys
    ensures var p := Pair(XorDist(m[id].id, target), m[id].n);
      p !in PairsOf(m, target, ids) && PairsOf(m, target, ids + {id}) == PairsOf(m, target, ids) + {p}
  {}

  lemma SortedContacts(sp: Space, m: map<string, Entry>, target: Digest, pp: seq<Pair>, out: seq<RelayNode>)
    requires Filed(sp, m) && Lists(pp, PairsOf(m, target, m.Keys)) && SortedPairs(pp)
    requires |out| <= |pp| && forall i :: 0 <= i < |out| ==> out[i] == pp[i].n
    ensures forall i :: 0 <= i < |out| ==> out[i].ID in m && m[out[i].ID].n == out[i]
    ensures forall i, j :: 0 <= i < j < |out| ==> out[i].ID != out[j].ID
    ensures forall i, j :: 0 <= i < j < |out| ==> Gap(sp, target, out[i].ID) <= Gap(sp, target, out[j].ID)
    ensures forall id, i :: id in m && id !in IDs(out) && 0 <= i < |out| ==> Gap(sp, target, out[i].ID) <= Gap(sp, target, id)
  {
    var all := PairsOf(m, target, m.Keys);
    forall i | 0 <= i < |pp| ensures PairFor(sp, m, target, pp[i]) { assert pp[i] in Elements(pp); }
    ListsHasNoRepeats(pp, all);
    assert forall j :: 0 <= j < |out| ==> out[j].ID in IDs(out);
    forall i | 0 <= i < |out| ensures out[i].ID in m && m[out[i].ID].n == out[i] && Gap(sp, target, out[i].ID) == Value(pp[i].d) {
      assert PairFor(sp, m, target, pp[i]);
    }
    forall i, j | 0 <= i < j < |out| ensures out[i].ID != out[j].ID {
      assert PairFor(sp, m, target, pp[i]) && PairFor(sp, m, target, pp[j]);
    }
    forall id, i | id in m && id !in IDs(out) && 0 <= i < |out| ensures Gap(sp, target, out[i].ID) <= Gap(sp, target, id) {
      var t := PairListed(sp, m, target, pp, id);
      assert t >= |out|;
    }
  }

  ghost predicate PairFor(sp: Space, m: map<string, Entry>, target: Digest, p: Pair) {
    p.n.ID in m && p == Pair(XorDist(m[p.n.ID].id, target), m[p.n.ID].n) && Value(p.d) == Gap(sp, target, p.n.ID)
  }

  lemma PairListed(sp: Space, m: map<string, Entry>, target: Digest, pp: seq<Pair>, id: string) returns (t: nat)
    requires Filed(sp, m) && Elements(pp) == PairsOf(m, target, m.Keys) && id in m
    ensures t < |pp| && pp[t].n.ID == id && Value(pp[t].d) == Gap(sp, target, id)
  {
    var p := Pair(XorDist(m[id].id, target), m[id].n);
    assert p in Elements(pp);
    t :| 0 <= t < |pp| && pp[t] == p;
  }

  ghost predicate SortedPairs(pp: seq<Pair>) {
    forall i, j :: 0 <= i < j < |pp| ==> Value(pp[i].d) <= Value(pp[j].d)
  }

  /** What sort.Slice with distLess guarantees: the same pairs, nearest first. */
  method SortByDistance(pp: seq<Pair>, ghost all: set<Pair>) returns (out: seq<Pair>)
    requires Lists(pp, all)
    ensures SortedPairs(out) && Lists(out, all)
  {
    out := [];
    ghost var placed: set<Pair> := {};
    for i := 0 to |pp|
      invariant SortedPairs(out) && Lists(out, placed)
      invariant placed == Elements(pp[..i])
    {
      var k := InsertionPoint(out, pp[i]);
      assert pp[..i + 1] == pp[..i] + [pp[i]];
      NotSeenBefore(pp, all, i);
      InsertedAt(out, placed, pp[i], k);
      InsertSorted(out, pp[i], k);
      out, placed := out[..k] + [pp[i]] + out[k..], placed + {pp[i]};
    }
    assert pp[..|pp|] == pp;
  }

  lemma NotSeenBefore<T>(s: seq<T>, all: set<T>, i: nat)
    requires Lists(s, all) && i < |s|
    ensures s[i] !in Elements(s[..i])
  {
    ListsHasNoRepeats(s, all);
  }

  method InsertionPoint(s: seq<Pair>, x: Pair) returns (k: nat)
    requires SortedPairs(s)
    ensures k <= |s| && (k > 0 ==> Value(s[k - 1].d) <= Value(x.d))
    ensures forall t :: k <= t < |s| ==> Value(x.d) <= Value(s[t].d)
  {
    k := |s|;
    while k > 0
      invariant k <= |s|
      invariant forall t :: k <= t < |s| ==> Value(x.d) <= Value(s[t].d)
    {
      var less := DistLess(x.d, s[k - 1].d);
      if !less { return; }
      k := k - 1;
    }
  }

  lemma InsertSorted(s: seq<Pair>, x: Pair, k: nat)
    requires SortedPairs(s) && k <= |s|
    requires k > 0 ==> Value(s[k - 1].d) <= Value(x.d)
    requires forall t :: k <= t < |s| ==> Value(x.d) <= Value(s[t].d)
    ensures SortedPairs(s[..k] + [x] + s[k..])
  {
    var r := s[..k] + [x] + s[k..];
    forall i, j | 0 <= i < j < |r| ensures Value(r[i].d) <= Value(r[j].d) {
      var a, b := if i < k then i else i - 1, if j < k then j else j - 1;
      assert i != k ==> r[i] == s[a];
      assert j != k ==> r[j] == s[b];
      if j == k && a < k - 1 { assert Value(s[a].d) <= Value(s[k - 1].d); }
    }
  }

  lemma InsertedAt<T>(s: seq<T>, ids: set<T>, x: T, k: nat)
    requires Lists(s, ids) && x !in ids && k <= |s|
    ensures Lists(s[..k] + [x] + s[k..], ids + {x})
  {
    assert s == s[..k] + s[k..];
    assert Elements(s[..k] + [x] + s[k..]) == Elements(s) + {x};
  }

  /** The i-th offer took one consistent table to the next. */
  ghost predicate Offered(sp: Space, trace: seq<Contents>, offers: seq<RelayNode>, i: nat)
    requires i < |offers| && |trace| == |offers| + 1
  {
    Consistent(sp, trace[i]) && Consistent(sp, trace[i + 1]) && Inserted(sp, trace[i], trace[i + 1], offers[i])
  }

  /** A history of offers and the tables between them. */
  ghost predicate Steps(sp: Space, trace: seq<Contents>, offers: seq<RelayNode>) {
    |trace| == |offers| + 1 && forall i: nat :: i < |offers| ==> Offered(sp, trace, offers, i)
  }

  lemma StepsExtend(sp: Space, trace: seq<Contents>, offers: seq<RelayNode>, c: Contents, r: RelayNode)
    requires Steps(sp, trace, offers) && Consistent(sp, trace[|offers|])
    requires Consistent(sp, c) && Inserted(sp, trace[|offers|], c, r)
    ensures Steps(sp, trace + [c], offers + [r])
  {
    var t, o := trace + [c], offers + [r];
    forall i: nat | i < |o| ensures Offered(sp, t, o, i) {
      if i < |offers| { SameOffer(sp, trace, offers, t, o, i); }
    }
  }

  lemma SameOffer(sp: Space, trace: seq<Contents>, offers: seq<RelayNode>, t: seq<Contents>, o: seq<RelayNode>, i: nat)
    requires |trace| == |offers| + 1 && |t| == |o| + 1 && i < |offers| && i < |o|
    requires t[i] == trace[i] && t[i + 1] == trace[i + 1] && o[i] == offers[i]
    requires Offered(sp, trace, offers, i)
    ensures Offered(sp, t, o, i)
  {}

  lemma PlacingInserts(sp: Space, c: Contents, m: map<string, Entry>, c': Contents, r: RelayNode)
    requires Consistent(sp, c) && Indexed(sp, c')
    requires Accepts(r) && r.ID !in c.byID
    requires Trimmed(sp, Placed(sp, c, r).byID, m, sp.bucket(r.ID)) && Capped(sp, m, c'.byID)
    ensures Consistent(sp, c') && Inserted(sp, c, c', r)
  {
    var bi := sp.bucket(r.ID);
    assert Placed(sp, c, r).byID.Keys == c.byID.Keys + {r.ID};
    forall b | 0 <= b < BUCKET_COUNT ensures |c'.buckets[b]| <= BUCKET_K {
      assert Lists(c'.buckets[b], InBucket(sp, c'.byID.Keys, b));
      SubsetSize(InBucket(sp, c'.byID.Keys, b), InBucket(sp, m.Keys, b));
      if b != bi {
        assert Lists(c.buckets[b], InBucket(sp, c.byID.Keys, b));
        SubsetSize(InBucket(sp, m.Keys, b), InBucket(sp, c.byID.Keys, b));
      }
    }
  }
}
