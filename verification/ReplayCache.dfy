/** Refusing replayed hellos: the freshness window and the cache of nonces. */
module ReplayCache {
  import opened Bytes
  import opened Collections

  const REPLAY_WINDOW: int := 90
  const RETENTION: int := 2 * REPLAY_WINDOW

  type Seen = map<seq<byte>, int>

  function Purged(seen: Seen, now: int): Seen {
    map k | k in seen && seen[k] >= now - RETENTION :: seen[k]
  }

  function Added(seen: Seen, nonce: seq<byte>, now: int): (Seen, bool) {
    var kept := Purged(seen, now);
    if nonce in kept then (kept, false) else (kept[nonce := now], true)
  }

  class MemReplayCache {
    var seen: Seen

    constructor ()
      ensures seen == map[]
    {
      seen := map[];
    }

    method Add(nonce: seq<byte>, now: int) returns (ok: bool)
      modifies this
      ensures (seen, ok) == Added(old(seen), nonce, now)
    {
      var todo := seen.Keys;
      while todo != {}
        invariant todo <= seen.Keys
        invariant seen.Keys <= old(seen).Keys && forall k :: k in seen ==> seen[k] == old(seen)[k]
        invariant forall k :: k in old(seen) && k !in seen ==> old(seen)[k] < now - RETENTION
        invariant forall k :: k in seen && seen[k] < now - RETENTION ==> k in todo
        decreases todo
      {
        var k :| k in todo;
        todo := todo - {k};
        if seen[k] < now - RETENTION {
          seen := seen - {k};
        }
      }
      assert seen == Purged(old(seen), now);
      if nonce in seen {
        return false;
      }
      seen := seen[nonce := now];
      return true;
    }
  }

  /** A hello reaching the server, with the two clock readings made for it: one for the window check, a later one inside the cache. */
  datatype Hello = Hello(nonce: seq<byte>, ts: int, check: int, add: int)

  predicate Timely(h: Hello) { h.check - REPLAY_WINDOW <= h.ts <= h.check + REPLAY_WINDOW }

  /** One handshake: the window check, then the cache; a stale hello does not touch the cache. */
  function Judged(seen: Seen, h: Hello): (Seen, bool) {
    if !Timely(h) then (seen, false) else Added(seen, h.nonce, h.add)
  }

  function CacheAfter(hs: seq<Hello>): Seen {
    if hs == [] then map[] else Judged(CacheAfter(hs[..|hs| - 1]), hs[|hs| - 1]).0
  }

  /** Whether the i-th hello of a run was accepted. */
  predicate Accepted(hs: seq<Hello>, i: nat)
    requires i < |hs|
  {
    Judged(CacheAfter(hs[..i]), hs[i]).1
  }

  ghost predicate ClockNeverGoesBack(hs: seq<Hello>) {
    forall i, j :: 0 <= i <= j < |hs| ==> hs[i].add <= hs[j].add
  }

  /** An earlier hello with this nonce was accepted at `since` or later. */
  ghost predicate AcceptedSince(hs: seq<Hello>, nonce: seq<byte>, since: int) {
    exists i: nat :: i < |hs| && Accepted(hs, i) && hs[i].nonce == nonce && hs[i].add >= since
  }

  lemma AcceptedPrefix(hs: seq<Hello>, n: nat, i: nat)
    requires i < n <= |hs|
    ensures Accepted(hs[..n], i) <==> Accepted(hs, i)
  {
    assert hs[..n][..i] == hs[..i];
  }

  lemma AcceptedSinceGrows(hs: seq<Hello>, nonce: seq<byte>, since: int)
    requires hs != []
    ensures var n := |hs| - 1;
      AcceptedSince(hs, nonce, since) <==>
        AcceptedSince(hs[..n], nonce, since) || (Accepted(hs, n) && hs[n].nonce == nonce && hs[n].add >= since)
  {
    var n := |hs| - 1;
    forall i: nat | i < n ensures Accepted(hs[..n], i) <==> Accepted(hs, i) { AcceptedPrefix(hs, n, i); }
    if AcceptedSince(hs[..n], nonce, since) {
      var i: nat :| i < n && Accepted(hs[..n], i) && hs[..n][i].nonce == nonce && hs[..n][i].add >= since;
      assert Accepted(hs, i);
    }
    if AcceptedSince(hs, nonce, since) {
      var i: nat :| i < |hs| && Accepted(hs, i) && hs[i].nonce == nonce && hs[i].add >= since;
      if i < n { assert Accepted(hs[..n], i) && hs[..n][i] == hs[i]; }
    }
  }

  /** At any later time, the nonces the cache still knows are exactly those accepted within the retention time. */
  lemma {:induction false} CacheIsRecentAcceptances(hs: seq<Hello>, nonce: seq<byte>, now: int)
    requires ClockNeverGoesBack(hs) && forall i :: 0 <= i < |hs| ==> hs[i].add <= now
    ensures nonce in Purged(CacheAfter(hs), now) <==> AcceptedSince(hs, nonce, now - RETENTION)
  {
    if hs != [] {
      var n := |hs| - 1;
      CacheIsRecentAcceptances(hs[..n], nonce, now);
      AcceptedSinceGrows(hs, nonce, now - RETENTION);
      var before := CacheAfter(hs[..n]);
      assert Accepted(hs, n) == Judged(before, hs[n]).1;
      assert nonce in Purged(Purged(before, hs[n].add), now) <==> nonce in Purged(before, now);
    }
  }

  /** A hello is accepted if and only if its timestamp is in the window and its nonce was not accepted within the last 180 seconds. */
  lemma AcceptedIff(hs: seq<Hello>, j: nat)
    requires j < |hs| && ClockNeverGoesBack(hs)
    ensures Accepted(hs, j) <==> Timely(hs[j]) && !AcceptedSince(hs[..j], hs[j].nonce, hs[j].add - RETENTION)
  {
    CacheIsRecentAcceptances(hs[..j], hs[j].nonce, hs[j].add);
  }

  /** A hello accepted once is refused whenever it returns, provided the second handshake reads the same second twice. */
  lemma NoReplay(hs: seq<Hello>, i: nat, j: nat)
    requires i < j < |hs| && ClockNeverGoesBack(hs)
    requires hs[i].check <= hs[i].add && hs[j].check == hs[j].add
    requires hs[i].nonce == hs[j].nonce && hs[i].ts == hs[j].ts && Accepted(hs, i)
    ensures !Accepted(hs, j)
  {
    AcceptedIff(hs, i);
    AcceptedIff(hs, j);
    AcceptedPrefix(hs, j, i);
    if Timely(hs[j]) {
      assert hs[..j][i] == hs[i];
      assert AcceptedSince(hs[..j], hs[j].nonce, hs[j].add - RETENTION);
    }
  }

  /** The bound is tight: if the clock ticks between the two readings of the second handshake, a replay can get through. */
  lemma TickBetweenReadingsAdmitsReplay(nonce: seq<byte>, t: int)
    ensures var hs := [Hello(nonce, t + 90, t, t), Hello(nonce, t + 90, t + 180, t + 181)];
      ClockNeverGoesBack(hs) && Accepted(hs, 0) && Accepted(hs, 1)
  {
    var hs := [Hello(nonce, t + 90, t, t), Hello(nonce, t + 90, t + 180, t + 181)];
    assert hs[..0] == [] && hs[..1] == [hs[0]];
    assert hs[..1][..0] == [];
    assert CacheAfter(hs[..1]) == map[nonce := t];
  }
}
