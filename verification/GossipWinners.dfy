/** Which description a gossip merge ends up with, read off the two lists. */
module GossipWinners {
  import opened Collections
  import opened Discovery
  import opened Gossip

  type Nodes = seq<RelayNode>

  /** The last entry of the base with this ID. */
  ghost predicate LastInBase(base: Nodes, k: string, i: nat) {
    i < |base| && base[i].ID == k && forall j :: i < j < |base| ==> base[j].ID != k
  }

  ghost predicate Competes(updates: Nodes, k: string, j: nat) { j < |updates| && updates[j].ID == k && Reachable(updates[j]) }

  /** The first of the newest reachable updates with this ID. */
  ghost predicate FirstNewest(updates: Nodes, k: string, j: nat) {
    && Competes(updates, k, j)
    && forall i: nat {:trigger Competes(updates, k, i)} :: Competes(updates, k, i) ==>
         updates[i].UpdatedAt < updates[j].UpdatedAt || (updates[i].UpdatedAt == updates[j].UpdatedAt && i >= j)
  }

  /** The base's last description stands unless a reachable update is newer. */
  ghost predicate BaseWins(base: Nodes, updates: Nodes, k: string, n: RelayNode, i: nat) {
    LastInBase(base, k, i) && n == base[i] && forall j: nat {:trigger Competes(updates, k, j)} :: Competes(updates, k, j) ==> updates[j].UpdatedAt <= n.UpdatedAt
  }

  ghost predicate UpdateWins(base: Nodes, updates: Nodes, k: string, n: RelayNode, j: nat) {
    FirstNewest(updates, k, j) && n == updates[j] && forall i: nat {:trigger LastInBase(base, k, i)} :: LastInBase(base, k, i) ==> base[i].UpdatedAt < n.UpdatedAt
  }

  ghost predicate Wins(base: Nodes, updates: Nodes, n: RelayNode) {
    n.ID != "" && ((exists i :: BaseWins(base, updates, n.ID, n, i)) || (exists j :: UpdateWins(base, updates, n.ID, n, j)))
  }

  lemma OneWinner(base: Nodes, updates: Nodes, m: RelayNode, n: RelayNode)
    requires Wins(base, updates, m) && Wins(base, updates, n) && m.ID == n.ID
    ensures m == n
  {
    var k := n.ID;
    if i :| BaseWins(base, updates, k, m, i) {
      if j :| BaseWins(base, updates, k, n, j) { assert i == j; }
    } else {
      var i :| UpdateWins(base, updates, k, m, i);
      if j :| UpdateWins(base, updates, k, n, j) { assert i == j; }
    }
  }

  /** No entry of either list has this ID and counts. */
  ghost predicate Absent(base: Nodes, updates: Nodes, k: string) {
    k == "" || ((forall i :: 0 <= i < |base| ==> base[i].ID != k) && forall j: nat :: !Competes(updates, k, j))
  }

  ghost predicate Settles(idx: Index, base: Nodes, updates: Nodes, k: string) {
    if k in idx then idx[k].ID == k && Wins(base, updates, idx[k]) else Absent(base, updates, k)
  }

  lemma {:induction false} IndexedSettles(base: Nodes, k: string)
    ensures Settles(Indexed(base), base, [], k)
  {
    if base != [] {
      var n := |base| - 1;
      var init := base[..n];
      IndexedSettles(init, k);
      assert base == init + [base[n]];
      if base[n].ID == k != "" {
        assert BaseWins(base, [], k, base[n], n);
      } else if k in Indexed(init) {
        var i :| BaseWins(init, [], k, Indexed(init)[k], i);
        assert BaseWins(base, [], k, Indexed(init)[k], i);
      }
    }
  }

  lemma CompetesMore(updates: Nodes, u: RelayNode, k: string, j: nat)
    ensures Competes(updates + [u], k, j) <==> Competes(updates, k, j) || (j == |updates| && u.ID == k && Reachable(u))
  {}

  lemma UpdateSettles(idx: Index, base: Nodes, updates: Nodes, u: RelayNode, k: string)
    requires Settles(idx, base, updates, k)
    ensures Settles(Update(idx, u), base, updates + [u], k)
  {
    var more := updates + [u];
    forall j: nat ensures Competes(more, k, j) <==> Competes(updates, k, j) || (j == |updates| && u.ID == k && Reachable(u)) {
      CompetesMore(updates, u, k, j);
    }
    if u.ID == k && Candidate(u) {
      if k in idx {
        Challenge(base, updates, u, k, idx[k]);
      } else {
        assert UpdateWins(base, more, k, u, |updates|);
      }
    } else if k in idx {
      Unchallenged(base, updates, u, k, idx[k]);
    }
  }

  lemma Challenge(base: Nodes, updates: Nodes, u: RelayNode, k: string, n: RelayNode)
    requires Wins(base, updates, n) && n.ID == k == u.ID && Reachable(u)
    ensures Wins(base, updates + [u], if u.UpdatedAt > n.UpdatedAt then u else n)
  {
    var more := updates + [u];
    forall j: nat ensures Competes(more, k, j) <==> Competes(updates, k, j) || j == |updates| { CompetesMore(updates, u, k, j); }
    if i :| BaseWins(base, updates, k, n, i) {
      if u.UpdatedAt > n.UpdatedAt {
        assert UpdateWins(base, more, k, u, |updates|);
      } else {
        assert BaseWins(base, more, k, n, i);
      }
    } else {
      var j :| UpdateWins(base, updates, k, n, j);
      if u.UpdatedAt > n.UpdatedAt {
        assert UpdateWins(base, more, k, u, |updates|);
      } else {
        assert UpdateWins(base, more, k, n, j);
      }
    }
  }

  lemma Unchallenged(base: Nodes, updates: Nodes, u: RelayNode, k: string, n: RelayNode)
    requires Wins(base, updates, n) && n.ID == k && !(u.ID == k && Reachable(u))
    ensures Wins(base, updates + [u], n)
  {
    var more := updates + [u];
    forall j: nat ensures Competes(more, k, j) <==> Competes(updates, k, j) { CompetesMore(updates, u, k, j); }
    if i :| BaseWins(base, updates, k, n, i) {
      assert BaseWins(base, more, k, n, i);
    } else {
      var j :| UpdateWins(base, updates, k, n, j);
      assert UpdateWins(base, more, k, n, j);
    }
  }

  lemma {:induction false} UpdatedSettles(base: Nodes, updates: Nodes, k: string)
    ensures Settles(Updated(Indexed(base), updates), base, updates, k)
    decreases |updates|
  {
    if updates == [] {
      IndexedSettles(base, k);
    } else {
      var init, u := updates[..|updates| - 1], updates[|updates| - 1];
      assert updates == init + [u];
      UpdatedSettles(base, init, k);
      UpdatedAppend(Indexed(base), init, [u]);
      assert [u][1..] == [];
      UpdateSettles(Updated(Indexed(base), init), base, init, u, k);
    }
  }

  /**
   * A description is in the merged list exactly when it won for its ID and the second it was updated in is not over for
   * `maxAge` yet: the base's last one, unless a reachable update is newer; then the first of the newest such updates.
   */
  lemma MergedIffWins(base: Nodes, updates: Nodes, now: int, maxAge: int, out: Nodes, n: RelayNode)
    requires Lists(out, Merged(base, updates, Cutoff(now, maxAge)))
    ensures n in out <==> Wins(base, updates, n) && now - maxAge < (n.UpdatedAt + 1) * 1_000_000_000
  {
    var all := Updated(Indexed(base), updates);
    var kept := Kept(all, Cutoff(now, maxAge));
    UpdatedSettles(base, updates, n.ID);
    assert n in out <==> n.ID in kept && kept[n.ID] == n;
    if n.ID in all { KeptIffYoung(all, n.ID, now, maxAge); }
    if Wins(base, updates, n) {
      NotAbsent(base, updates, n);
      OneWinner(base, updates, n, all[n.ID]);
    }
  }

  lemma NotAbsent(base: Nodes, updates: Nodes, n: RelayNode)
    requires Wins(base, updates, n)
    ensures !Absent(base, updates, n.ID)
  {
    if i: nat :| BaseWins(base, updates, n.ID, n, i) {
      assert base[i].ID == n.ID;
    } else {
      var j: nat :| UpdateWins(base, updates, n.ID, n, j);
      assert Competes(updates, n.ID, j);
    }
  }
}
