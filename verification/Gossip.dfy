/** Merging of gossiped relay descriptions: the newest per ID wins, old ones age out, the result is sorted by ID. */
module Gossip {
  import opened Bytes
  import opened Collections
  import opened Discovery

  type Index = map<string, RelayNode>

  ghost predicate Candidate(n: RelayNode) { n.ID != "" && Reachable(n) }

  /** The starting index: later entries of the base replace earlier ones. */
  function Indexed(base: seq<RelayNode>): Index {
    if base == [] then map[]
    else
      var n := base[|base| - 1];
      var idx := Indexed(base[..|base| - 1]);
      if n.ID == "" then idx else idx[n.ID := n]
  }

  ghost function Update(idx: Index, n: RelayNode): Index {
    if Candidate(n) && (n.ID in idx ==> n.UpdatedAt > idx[n.ID].UpdatedAt) then idx[n.ID := n] else idx
  }

  ghost function Updated(idx: Index, updates: seq<RelayNode>): Index
    decreases |updates|
  {
    if updates == [] then idx else Updated(Update(idx, updates[0]), updates[1..])
  }

  /** Entries no older than the cutoff. */
  function Kept(idx: Index, cutoff: int): Index { map k | k in idx && idx[k].UpdatedAt >= cutoff :: idx[k] }

  function Cutoff(now: int, maxAge: int): int { (now - maxAge) / 1_000_000_000 }

  /** A description stays exactly while some moment of the second it was updated in is less than `maxAge` ago. */
  lemma KeptIffYoung(idx: Index, k: string, now: int, maxAge: int)
    requires k in idx
    ensures k in Kept(idx, Cutoff(now, maxAge)) <==> now - maxAge < (idx[k].UpdatedAt + 1) * 1_000_000_000
    ensures k in Kept(idx, Cutoff(now, maxAge)) ==> Kept(idx, Cutoff(now, maxAge))[k] == idx[k]
  {}

  ghost function Merged(base: seq<RelayNode>, updates: seq<RelayNode>, cutoff: int): Index {
    Kept(Updated(Indexed(base), updates), cutoff)
  }

  // ---- Sorted lists -------------------------------------------------------------------------

  predicate Before(a: string, b: string) {
    b != "" && (a == "" || a[0] < b[0] || (a[0] == b[0] && Before(a[1..], b[1..])))
  }

  lemma {:induction false} BeforeIsTotal(a: string, b: string)
    ensures Before(a, b) || Before(b, a) || a == b
    ensures !(Before(a, b) && Before(b, a)) && !Before(a, a)
  {
    if a != "" {
      BeforeIsTotal(a[1..], a[1..]);
      if b != "" {
        BeforeIsTotal(a[1..], b[1..]);
        if a[0] == b[0] && a[1..] == b[1..] { assert a == [a[0]] + a[1..] && b == [b[0]] + b[1..]; }
      }
    }
  }

  lemma {:induction false} BeforeIsTransitive(a: string, b: string, c: string)
    requires Before(a, b) && Before(b, c)
    ensures Before(a, c)
  {
    if a != "" && a[0] == b[0] && b[0] == c[0] { BeforeIsTransitive(a[1..], b[1..], c[1..]); }
  }

  ghost predicate Sorted(s: seq<RelayNode>) { forall i, j :: 0 <= i < j < |s| ==> Before(s[i].ID, s[j].ID) }

  ghost predicate SameMembers(a: seq<RelayNode>, b: seq<RelayNode>) { forall n :: n in a <==> n in b }

  /** A list sorted strictly by ID is determined by its members. */
  lemma {:induction false} SortedIsUnique(a: seq<RelayNode>, b: seq<RelayNode>)
    requires Sorted(a) && Sorted(b) && SameMembers(a, b)
    ensures a == b
  {
    if a == [] {
      assert forall i :: 0 <= i < |b| ==> b[i] in a;
    } else {
      SameHead(a, b);
      SameTail(a, b);
      SortedIsUnique(a[1..], b[1..]);
      assert a == [a[0]] + a[1..] && b == [b[0]] + b[1..];
    }
  }

  lemma SameHead(a: seq<RelayNode>, b: seq<RelayNode>)
    requires Sorted(a) && Sorted(b) && SameMembers(a, b) && a != []
    ensures b != [] && a[0] == b[0]
  {
    assert a[0] in b;
    var i :| 0 <= i < |b| && b[i] == a[0];
    assert b[0] in a;
    var j :| 0 <= j < |a| && a[j] == b[0];
    BeforeIsTotal(a[0].ID, b[0].ID);
  }

  lemma SameTail(a: seq<RelayNode>, b: seq<RelayNode>)
    requires Sorted(a) && Sorted(b) && SameMembers(a, b) && a != [] && b != [] && a[0] == b[0]
    ensures SameMembers(a[1..], b[1..]) && Sorted(a[1..]) && Sorted(b[1..])
  {
    forall n ensures n in a[1..] <==> n in b[1..] {
      InTail(a, n);
      InTail(b, n);
      assert n in a <==> n in b;
    }
  }

  lemma InTail(s: seq<RelayNode>, n: RelayNode)
    requires Sorted(s) && s != []
    ensures n in s[1..] <==> n in s && n != s[0]
  {
    BeforeIsTotal(s[0].ID, s[0].ID);
    assert s == [s[0]] + s[1..];
    if n in s[1..] {
      var i :| 0 <= i < |s| - 1 && s[1..][i] == n;
      assert s[i + 1] == n;
    }
  }

  /** A list that shows exactly the entries of an index, in ID order. */
  ghost predicate Lists(s: seq<RelayNode>, idx: Index) {
    && Sorted(s) && (forall n :: n in s ==> n.ID in idx && idx[n.ID] == n) && (forall k :: k in idx ==> k == idx[k].ID && idx[k] in s)
  }

  lemma ListingIsUnique(a: seq<RelayNode>, b: seq<RelayNode>, idx: Index)
    requires Lists(a, idx) && Lists(b, idx)
    ensures a == b
  {
    SortedIsUnique(a, b);
  }

  // ---- The merge ----------------------------------------------------------------------------

  ghost predicate KeyedById(idx: Index) { forall k :: k in idx ==> k == idx[k].ID != "" }

  lemma {:induction false} IndexedByIds(base: seq<RelayNode>)
    ensures KeyedById(Indexed(base))
  {
    if base != [] { IndexedByIds(base[..|base| - 1]); }
  }

  lemma {:induction false} UpdatedByIds(idx: Index, updates: seq<RelayNode>)
    requires KeyedById(idx)
    ensures KeyedById(Updated(idx, updates))
    decreases |updates|
  {
    if updates != [] { UpdatedByIds(Update(idx, updates[0]), updates[1..]); }
  }

  method MergeGossip(base: seq<RelayNode>, updates: seq<RelayNode>, now: int, maxAge: int) returns (out: seq<RelayNode>)
    ensures Lists(out, Merged(base, updates, Cutoff(now, maxAge)))
  {
    var idx: Index := map[];
    for i := 0 to |base|
      invariant idx == Indexed(base[..i])
    {
      assert base[..i + 1][..i] == base[..i];
      if base[i].ID != "" {
        idx := idx[base[i].ID := base[i]];
      }
    }
    assert base[..|base|] == base;
    IndexedByIds(base);
    UpdatedByIds(idx, updates);
    for i := 0 to |updates|
      invariant Updated(Indexed(base), updates) == Updated(idx, updates[i..])
    {
      var n := updates[i];
      assert updates[i..][0] == n && updates[i..][1..] == updates[i + 1..];
      var contact := RelayHasContact(n);
      if n.ID == "" || !contact {
        continue;
      }
      if n.ID !in idx || n.UpdatedAt > idx[n.ID].UpdatedAt {
        idx := idx[n.ID := n];
      }
    }
    out := Listing(idx, Cutoff(now, maxAge));
  }

  method Listing(idx: Index, cutoff: int) returns (out: seq<RelayNode>)
    requires KeyedById(idx)
    ensures Lists(out, Kept(idx, cutoff))
  {
    var found: seq<RelayNode> := [];
    var todo := idx.Keys;
    while todo != {}
      invariant todo <= idx.Keys && Distinct(found)
      invariant forall n :: n in found <==> n.ID in idx && idx[n.ID] == n && n.ID !in todo && n.UpdatedAt >= cutoff
      decreases |todo|
    {
      var k :| k in todo;
      todo := todo - {k};
      if idx[k].UpdatedAt < cutoff {
        continue;
      }
      found := found + [idx[k]];
    }
    out := SortByID(found);
  }

  ghost predicate Distinct(s: seq<RelayNode>) { forall i, j :: 0 <= i < j < |s| ==> s[i].ID != s[j].ID }

  method SortByID(s: seq<RelayNode>) returns (sorted: seq<RelayNode>)
    requires Distinct(s)
    ensures Sorted(sorted) && SameMembers(sorted, s)
  {
    sorted := [];
    for i := 0 to |s|
      invariant Sorted(sorted) && SameMembers(sorted, s[..i])
    {
      forall n | n in sorted ensures n.ID != s[i].ID {
        assert n in s[..i];
      }
      assert s[..i + 1] == s[..i] + [s[i]];
      sorted := Insert(sorted, s[i]);
    }
    assert s[..|s|] == s;
  }

  method Insert(sorted: seq<RelayNode>, n: RelayNode) returns (r: seq<RelayNode>)
    requires Sorted(sorted) && forall x :: x in sorted ==> x.ID != n.ID
    ensures Sorted(r) && forall x :: x in r <==> x in sorted || x == n
  {
    var i := |sorted|;
    while i > 0 && Before(n.ID, sorted[i - 1].ID)
      invariant 0 <= i <= |sorted|
      invariant forall j :: i <= j < |sorted| ==> Before(n.ID, sorted[j].ID)
    {
      i := i - 1;
    }
    forall j | 0 <= j < i ensures Before(sorted[j].ID, n.ID) {
      BeforeIsTotal(n.ID, sorted[i - 1].ID);
      if j < i - 1 { BeforeIsTransitive(sorted[j].ID, sorted[i - 1].ID, n.ID); }
    }
    r := sorted[..i] + [n] + sorted[i..];
    InsertedIsSorted(sorted, n, i);
    InsertedMembers(sorted, n, i);
  }

  lemma InsertedIsSorted(s: seq<RelayNode>, n: RelayNode, i: nat)
    requires Sorted(s) && i <= |s|
    requires (forall j :: 0 <= j < i ==> Before(s[j].ID, n.ID)) && (forall j :: i <= j < |s| ==> Before(n.ID, s[j].ID))
    ensures Sorted(s[..i] + [n] + s[i..])
  {
    var r := s[..i] + [n] + s[i..];
    forall j, k | 0 <= j < k < |r| ensures Before(r[j].ID, r[k].ID) {
      assert r[j] == if j < i then s[j] else if j == i then n else s[j - 1];
      assert r[k] == if k < i then s[k] else if k == i then n else s[k - 1];
    }
  }

  lemma InsertedMembers(s: seq<RelayNode>, n: RelayNode, i: nat)
    requires i <= |s|
    ensures forall x :: x in s[..i] + [n] + s[i..] <==> x in s || x == n
  {
    assert s == s[..i] + s[i..];
  }

  /** A merged list indexes back to exactly what was merged. */
  lemma {:induction false} ListedIndexesBack(s: seq<RelayNode>, idx: Index)
    requires Lists(s, idx) && KeyedById(idx)
    ensures Indexed(s) == idx
  {
    IndexOfSorted(s);
    assert forall k :: k in idx ==> idx[k] in s;
  }

  lemma {:induction false} IndexOfSorted(s: seq<RelayNode>)
    requires Sorted(s)
    ensures forall n :: n in s && n.ID != "" ==> n.ID in Indexed(s) && Indexed(s)[n.ID] == n
    ensures forall k :: k in Indexed(s) ==> Indexed(s)[k] in s && Indexed(s)[k].ID == k
  {
    if s != [] {
      var init, last := s[..|s| - 1], s[|s| - 1];
      assert s == init + [last];
      IndexOfSorted(init);
      forall n | n in init ensures n.ID != last.ID {
        BeforeIsTotal(n.ID, last.ID);
      }
    }
  }

  // ---- Folding over batches -----------------------------------------------------------------

  /** One update treats two indexes alike that agree on everything young enough to be kept. */
  lemma UpdateAgrees(a: Index, b: Index, n: RelayNode, cutoff: int)
    requires Kept(a, cutoff) == Kept(b, cutoff)
    ensures Kept(Update(a, n), cutoff) == Kept(Update(b, n), cutoff)
  {
    var ka, kb := Kept(a, cutoff), Kept(b, cutoff);
    var a', b' := Kept(Update(a, n), cutoff), Kept(Update(b, n), cutoff);
    assert n.ID in ka <==> n.ID in kb;
    forall k ensures (k in a' <==> k in b') && (k in a' && k in b' ==> a'[k] == b'[k]) {
      assert k in ka <==> k in kb;
      if k in ka { assert ka[k] == kb[k]; }
    }
  }

  lemma {:induction false} UpdatedAgrees(a: Index, b: Index, updates: seq<RelayNode>, cutoff: int)
    requires Kept(a, cutoff) == Kept(b, cutoff)
    ensures Kept(Updated(a, updates), cutoff) == Kept(Updated(b, updates), cutoff)
    decreases |updates|
  {
    if updates != [] {
      UpdateAgrees(a, b, updates[0], cutoff);
      UpdatedAgrees(Update(a, updates[0]), Update(b, updates[0]), updates[1..], cutoff);
    }
  }

  lemma {:induction false} UpdatedAppend(idx: Index, a: seq<RelayNode>, b: seq<RelayNode>)
    ensures Updated(idx, a + b) == Updated(Updated(idx, a), b)
    decreases |a|
  {
    if a == [] {
      assert a + b == b;
    } else {
      assert (a + b)[1..] == a[1..] + b;
      UpdatedAppend(Update(idx, a[0]), a[1..], b);
    }
  }

  /** What one round brings, when, and how long descriptions are kept; times in nanoseconds. */
  datatype Batch = Batch(nodes: seq<RelayNode>, now: int, maxAge: int) {
    function Oldest(): int { Cutoff(now, maxAge) }
  }

  /** The successive results of merging batch after batch, from nothing. */
  ghost predicate IsFold(batches: seq<Batch>, outs: seq<seq<RelayNode>>) {
    && |outs| == |batches| + 1 && outs[0] == []
    && forall i :: 0 <= i < |batches| ==> Lists(outs[i + 1], Merged(outs[i], batches[i].nodes, batches[i].Oldest()))
  }

  ghost predicate ClockForward(batches: seq<Batch>) {
    forall i, j :: 0 <= i <= j < |batches| ==> batches[i].now <= batches[j].now && batches[i].maxAge == batches[j].maxAge
  }

  lemma CutoffAdvances(early: int, late: int, maxAge: int)
    requires early <= late
    ensures Cutoff(early, maxAge) <= Cutoff(late, maxAge)
  {}

  function AllNodes(batches: seq<Batch>): seq<RelayNode> {
    if batches == [] then [] else AllNodes(batches[..|batches| - 1]) + batches[|batches| - 1].nodes
  }

  lemma FoldPrefix(batches: seq<Batch>, outs: seq<seq<RelayNode>>, n: nat)
    requires IsFold(batches, outs) && n <= |batches|
    ensures IsFold(batches[..n], outs[..n + 1])
  {
    forall i | 0 <= i < n ensures Lists(outs[..n + 1][i + 1], Merged(outs[..n + 1][i], batches[..n][i].nodes, batches[..n][i].Oldest())) {
      assert Lists(outs[i + 1], Merged(outs[i], batches[i].nodes, batches[i].Oldest()));
    }
  }

  /** Merging batches one after another, as the clock advances, equals one merge of all of them at the last clock reading. */
  lemma {:induction false} FoldIsOneMerge(batches: seq<Batch>, outs: seq<seq<RelayNode>>)
    requires IsFold(batches, outs) && ClockForward(batches) && batches != []
    ensures Lists(outs[|batches|], Merged([], AllNodes(batches), batches[|batches| - 1].Oldest()))
    decreases |batches|
  {
    var n := |batches| - 1;
    var init, last := batches[..n], batches[n];
    var before := Updated(map[], AllNodes(init));
    UpdatedAppend(map[], AllNodes(init), last.nodes);
    assert Lists(outs[n + 1], Merged(outs[n], last.nodes, last.Oldest()));
    if n == 0 {
      assert init == [] && AllNodes(init) == [];
      assert AllNodes(batches) == last.nodes;
    } else {
      var cutoff := batches[n - 1].Oldest();
      FoldPrefix(batches, outs, n);
      FoldIsOneMerge(init, outs[..n + 1]);
      UpdatedByIds(map[], AllNodes(init));
      ListedIndexesBack(outs[n], Kept(before, cutoff));
      CutoffAdvances(batches[n - 1].now, last.now, last.maxAge);
      KeptTwice(before, cutoff, last.Oldest());
      UpdatedAgrees(Kept(before, cutoff), before, last.nodes, last.Oldest());
    }
  }

  lemma KeptTwice(idx: Index, early: int, late: int)
    requires early <= late
    ensures Kept(Kept(idx, early), late) == Kept(idx, late)
  {}

  // ---- Order --------------------------------------------------------------------------------

  ghost predicate Newest(n: RelayNode, updates: seq<RelayNode>) {
    n in updates && Candidate(n) && forall m :: m in updates && Candidate(m) && m.ID == n.ID ==> m.UpdatedAt <= n.UpdatedAt
  }

  ghost predicate HoldsNewest(idx: Index, updates: seq<RelayNode>) {
    && (forall k :: k in idx ==> idx[k].ID == k && Newest(idx[k], updates))
    && (forall n :: n in updates && Candidate(n) ==> n.ID in idx)
  }

  lemma UpdateHoldsNewest(idx: Index, updates: seq<RelayNode>, n: RelayNode)
    requires HoldsNewest(idx, updates)
    ensures HoldsNewest(Update(idx, n), updates + [n])
  {}

  /** From nothing, the index holds a newest description of every ID that has a reachable one. */
  lemma {:induction false} UpdatedHoldsNewest(updates: seq<RelayNode>)
    ensures HoldsNewest(Updated(map[], updates), updates)
  {
    if updates != [] {
      var init, last := updates[..|updates| - 1], updates[|updates| - 1];
      assert updates == init + [last];
      UpdatedHoldsNewest(init);
      UpdatedAppend(map[], init, [last]);
      assert [last][1..] == [];
      UpdateHoldsNewest(Updated(map[], init), init, last);
    }
  }

  /** No two different newest descriptions of one ID are young enough to be kept. */
  ghost predicate NoTies(updates: seq<RelayNode>, cutoff: int) {
    forall a, b :: Newest(a, updates) && Newest(b, updates) && a.ID == b.ID && a.UpdatedAt >= cutoff ==> a == b
  }

  ghost predicate OrderFree(updates: seq<RelayNode>, cutoff: int) {
    forall other :: SameMembers(updates, other) ==> Merged([], other, cutoff) == Merged([], updates, cutoff)
  }

  lemma SameNewest(a: seq<RelayNode>, b: seq<RelayNode>, n: RelayNode)
    requires SameMembers(a, b)
    ensures Newest(n, a) <==> Newest(n, b)
  {}

  lemma {:induction false} FirstStays(idx: Index, updates: seq<RelayNode>, n: RelayNode)
    requires n.ID in idx && idx[n.ID] == n && forall m :: m in updates && Candidate(m) && m.ID == n.ID ==> m.UpdatedAt <= n.UpdatedAt
    ensures n.ID in Updated(idx, updates) && Updated(idx, updates)[n.ID] == n
    decreases |updates|
  {
    if updates != [] {
      assert updates[0] in updates;
      FirstStays(Update(idx, updates[0]), updates[1..], n);
    }
  }

  lemma TiedNodeCanWin(updates: seq<RelayNode>, n: RelayNode, cutoff: int)
    requires Newest(n, updates) && n.UpdatedAt >= cutoff
    ensures SameMembers(updates, [n] + updates)
    ensures n.ID in Merged([], [n] + updates, cutoff) && Merged([], [n] + updates, cutoff)[n.ID] == n
  {
    var all := [n] + updates;
    assert all[1..] == updates;
    FirstStays(Update(map[], n), updates, n);
  }

  lemma NewestMeet(a: seq<RelayNode>, b: seq<RelayNode>, x: Index, y: Index, cutoff: int, k: string)
    requires SameMembers(a, b) && NoTies(a, cutoff) && HoldsNewest(x, a) && HoldsNewest(y, b)
    requires k in x && x[k].UpdatedAt >= cutoff
    ensures k in y && y[k] == x[k]
  {
    assert Newest(x[k], a);
    assert x[k] in b;
    assert Newest(y[k], b);
    SameNewest(a, b, y[k]);
  }

  lemma TiesAgree(a: seq<RelayNode>, b: seq<RelayNode>, cutoff: int)
    requires SameMembers(a, b) && NoTies(a, cutoff)
    ensures NoTies(b, cutoff)
  {
    forall m, n | Newest(m, b) && Newest(n, b) && m.ID == n.ID && m.UpdatedAt >= cutoff ensures m == n {
      SameNewest(a, b, m);
      SameNewest(a, b, n);
    }
  }

  lemma TieFreeMerge(a: seq<RelayNode>, b: seq<RelayNode>, cutoff: int)
    requires SameMembers(a, b) && NoTies(a, cutoff)
    ensures Merged([], a, cutoff) == Merged([], b, cutoff)
  {
    UpdatedHoldsNewest(a);
    UpdatedHoldsNewest(b);
    TiesAgree(a, b, cutoff);
    MeetsAreEqual(a, b, Updated(map[], a), Updated(map[], b), cutoff);
  }

  lemma MeetsAreEqual(a: seq<RelayNode>, b: seq<RelayNode>, x: Index, y: Index, cutoff: int)
    requires SameMembers(a, b) && NoTies(a, cutoff) && NoTies(b, cutoff) && HoldsNewest(x, a) && HoldsNewest(y, b)
    ensures Kept(x, cutoff) == Kept(y, cutoff)
  {
    MeetsOneWay(a, b, x, y, cutoff);
    MeetsOneWay(b, a, y, x, cutoff);
    SubmapsAreEqual(Kept(x, cutoff), Kept(y, cutoff));
  }

  ghost predicate Within(x: Index, y: Index) { forall k :: k in x ==> k in y && y[k] == x[k] }

  lemma SubmapsAreEqual(x: Index, y: Index)
    requires Within(x, y) && Within(y, x)
    ensures x == y
  {
    assert x.Keys == y.Keys;
  }

  lemma MeetsOneWay(a: seq<RelayNode>, b: seq<RelayNode>, x: Index, y: Index, cutoff: int)
    requires SameMembers(a, b) && NoTies(a, cutoff) && HoldsNewest(x, a) && HoldsNewest(y, b)
    ensures Within(Kept(x, cutoff), Kept(y, cutoff))
  {
    var kx, ky := Kept(x, cutoff), Kept(y, cutoff);
    forall k | k in kx ensures k in ky && ky[k] == kx[k] { NewestMeet(a, b, x, y, cutoff, k); }
  }

  lemma TieMakesOrderMatter(updates: seq<RelayNode>, cutoff: int, a: RelayNode, b: RelayNode)
    requires Newest(a, updates) && Newest(b, updates) && a.ID == b.ID && a.UpdatedAt >= cutoff && a != b
    ensures !OrderFree(updates, cutoff)
  {
    assert b.UpdatedAt == a.UpdatedAt;
    TiedNodeCanWin(updates, a, cutoff);
    TiedNodeCanWin(updates, b, cutoff);
    var with, with' := Merged([], [a] + updates, cutoff), Merged([], [b] + updates, cutoff);
    assert with[a.ID] != with'[a.ID];
    DifferentMerges(updates, cutoff, [a] + updates, [b] + updates, with, with');
  }

  lemma DifferentMerges(updates: seq<RelayNode>, cutoff: int, x: seq<RelayNode>, y: seq<RelayNode>, mx: Index, my: Index)
    requires SameMembers(updates, x) && SameMembers(updates, y) && mx == Merged([], x, cutoff) && my == Merged([], y, cutoff) && mx != my
    ensures !OrderFree(updates, cutoff)
  {}

  /** What a merge gives depends only on which descriptions were seen, in whatever order and however often, exactly when no kept ones tie. */
  lemma OrderFreeIffNoTies(updates: seq<RelayNode>, cutoff: int)
    ensures OrderFree(updates, cutoff) <==> NoTies(updates, cutoff)
  {
    if NoTies(updates, cutoff) {
      forall other | SameMembers(updates, other) ensures Merged([], other, cutoff) == Merged([], updates, cutoff) {
        TieFreeMerge(updates, other, cutoff);
      }
    } else {
      var a, b :| Newest(a, updates) && Newest(b, updates) && a.ID == b.ID && a.UpdatedAt >= cutoff && a != b;
      TieMakesOrderMatter(updates, cutoff, a, b);
    }
  }

  /** Two gossip rounds that saw the same descriptions, batched and ordered differently, end with the same list. */
  lemma RoundsAgree(batches: seq<Batch>, outs: seq<seq<RelayNode>>, batches': seq<Batch>, outs': seq<seq<RelayNode>>)
    requires IsFold(batches, outs) && ClockForward(batches) && batches != []
    requires IsFold(batches', outs') && ClockForward(batches') && batches' != []
    requires SameMembers(AllNodes(batches), AllNodes(batches'))
    requires batches[|batches| - 1].Oldest() == batches'[|batches'| - 1].Oldest()
    requires NoTies(AllNodes(batches), batches[|batches| - 1].Oldest())
    ensures outs[|batches|] == outs'[|batches'|]
  {
    var cutoff := batches[|batches| - 1].Oldest();
    FoldIsOneMerge(batches, outs);
    FoldIsOneMerge(batches', outs');
    TieFreeMerge(AllNodes(batches), AllNodes(batches'), cutoff);
    ListingIsUnique(outs[|batches|], outs'[|batches'|], Merged([], AllNodes(batches), cutoff));
  }
}
