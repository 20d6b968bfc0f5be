/** Time slots: which slots a server tries and which one a client uses. */
module TimeSlots {

  const SLOT_SEC: int := 120

  /** Integer division as Java and Go do it: toward zero. */
  function Quot(a: int, b: int): int
    requires b > 0
  {
    if a >= 0 then a / b else -((-a) / b)
  }

  function TimeSlot(now: int): int { Quot(now, SLOT_SEC) }

  function EffectiveSlot(now: int, churnEpoch: int): int {
    if churnEpoch <= 0 then TimeSlot(now) else TimeSlot(now) + Quot(now, churnEpoch) * 13
  }

  function CandidateSlots(now: int, churnEpoch: int): seq<int> {
    var cur := EffectiveSlot(now, churnEpoch);
    var prev := EffectiveSlot(now - SLOT_SEC, churnEpoch);
    var next := EffectiveSlot(now + SLOT_SEC, churnEpoch);
    if prev == cur && next == cur then [cur] else [cur, prev, next]
  }

  /** Without churn every client within one slot length of the server's clock uses a slot the server tries, at any time whatsoever. */
  lemma CoveredWithoutChurn(server: int, client: int)
    requires -SLOT_SEC <= client - server <= SLOT_SEC
    ensures EffectiveSlot(client, 0) in CandidateSlots(server, 0)
  {
    var cur, prev, next := TimeSlot(server), TimeSlot(server - SLOT_SEC), TimeSlot(server + SLOT_SEC);
    assert prev <= TimeSlot(client) <= next;
    assert CandidateSlots(server, 0) == if prev == cur && next == cur then [cur] else [cur, prev, next];
    assert cur in CandidateSlots(server, 0);
    if server >= SLOT_SEC {
      assert prev == cur - 1 && next == cur + 1;
    } else if server <= -SLOT_SEC {
      assert prev == cur - 1 && next == cur + 1;
    }
  }

  ghost predicate Covers(churnEpoch: int, server: int) {
    forall client :: server >= SLOT_SEC && -SLOT_SEC <= client - server <= SLOT_SEC ==>
      EffectiveSlot(client, churnEpoch) in CandidateSlots(server, churnEpoch)
  }

  function Aligned(slot: int, m: int): int
    requires m > 0
  {
    slot + Quot(slot, m) * 13
  }

  /** With churn the slot number is a function of the time slot when the epoch is a whole number of slots. */
  lemma AlignedEpoch(now: int, m: int)
    requires now >= 0 && m > 0
    ensures EffectiveSlot(now, m * SLOT_SEC) == Aligned(TimeSlot(now), m)
  {
    var s := now / SLOT_SEC;
    var c, r := s / m, s % m;
    assert s == c * m + r;
    assert now == c * (m * SLOT_SEC) + (r * SLOT_SEC + now % SLOT_SEC);
    assert r * SLOT_SEC + now % SLOT_SEC < m * SLOT_SEC;
    QuotientIs(now, m * SLOT_SEC, c, r * SLOT_SEC + now % SLOT_SEC);
  }

  lemma QuotientIs(v: int, m: int, q: int, r: int)
    requires m > 0 && 0 <= r < m && v == q * m + r
    ensures v / m == q
  {
    var k := v / m;
    assert (q - k) * m == v % m - r;
    if q > k { assert (q - k) * m >= m by { AtLeastOne(q - k, m); } }
    if q < k { assert (k - q) * m >= m by { AtLeastOne(k - q, m); } }
  }

  lemma AtLeastOne(a: int, m: int)
    requires a >= 1 && m > 0
    ensures a * m >= m
  {}

  lemma AlignedEpochCovers(churnEpoch: int, server: int, client: int)
    requires churnEpoch > 0 && churnEpoch % SLOT_SEC == 0
    requires server >= SLOT_SEC && -SLOT_SEC <= client - server <= SLOT_SEC
    ensures EffectiveSlot(client, churnEpoch) in CandidateSlots(server, churnEpoch)
  {
    var m := churnEpoch / SLOT_SEC;
    assert churnEpoch == m * SLOT_SEC;
    AlignedEpoch(client, m);
    AlignedEpoch(server, m);
    AlignedEpoch(server - SLOT_SEC, m);
    AlignedEpoch(server + SLOT_SEC, m);
    NearbySlots(server, client);
    ListsAll(server, churnEpoch);
    OneOfThree(TimeSlot(server), TimeSlot(client), m);
  }

  lemma OneOfThree(s: int, t: int, m: int)
    requires m > 0 && s - 1 <= t <= s + 1
    ensures Aligned(t, m) == Aligned(s, m) || Aligned(t, m) == Aligned(s - 1, m) || Aligned(t, m) == Aligned(s + 1, m)
  {
    assert t == s || t == s - 1 || t == s + 1;
  }

  lemma NearbySlots(server: int, client: int)
    requires server >= SLOT_SEC && -SLOT_SEC <= client - server <= SLOT_SEC
    ensures TimeSlot(server - SLOT_SEC) == TimeSlot(server) - 1 && TimeSlot(server + SLOT_SEC) == TimeSlot(server) + 1
    ensures TimeSlot(server) - 1 <= TimeSlot(client) <= TimeSlot(server) + 1
  {}

  lemma ListsAll(server: int, churnEpoch: int)
    ensures var cs := CandidateSlots(server, churnEpoch);
      && EffectiveSlot(server, churnEpoch) in cs
      && EffectiveSlot(server - SLOT_SEC, churnEpoch) in cs
      && EffectiveSlot(server + SLOT_SEC, churnEpoch) in cs
  {
    var cs := CandidateSlots(server, churnEpoch);
    assert cs[0] == EffectiveSlot(server, churnEpoch);
    if |cs| > 1 {
      assert cs[1] == EffectiveSlot(server - SLOT_SEC, churnEpoch) && cs[2] == EffectiveSlot(server + SLOT_SEC, churnEpoch);
    }
  }

  /** An epoch that is not a whole number of slots leaves out a client whose clock is a single second ahead, again and again. */
  lemma MisalignedEpochMisses(churnEpoch: int, k: nat)
    requires churnEpoch > 0 && k * churnEpoch > SLOT_SEC && k * churnEpoch % SLOT_SEC != 0
    ensures EffectiveSlot(k * churnEpoch, churnEpoch) !in CandidateSlots(k * churnEpoch - 1, churnEpoch)
  {
    var t := k * churnEpoch;
    QuotientIs(t, churnEpoch, k, 0);
    QuotientIs(t - 1, churnEpoch, k - 1, churnEpoch - 1);
    var m := TimeSlot(t);
    SameSlot(t);
    NotThirteen(m, k, m + 1, Quot(t - 1 + SLOT_SEC, churnEpoch));
    NotThirteen(m, k, m - 1, Quot(t - 1 - SLOT_SEC, churnEpoch));
  }

  lemma SameSlot(t: int)
    requires t > SLOT_SEC && t % SLOT_SEC != 0
    ensures TimeSlot(t - 1) == TimeSlot(t)
    ensures TimeSlot(t - 1 + SLOT_SEC) == TimeSlot(t) + 1 && TimeSlot(t - 1 - SLOT_SEC) == TimeSlot(t) - 1
  {}

  lemma NotThirteen(m: int, k: int, n: int, c: int)
    requires n == m + 1 || n == m - 1
    ensures m + k * 13 != n + c * 13
  {}

  /** Slots are covered at all times exactly when churn is off or its epoch is a whole number of slots. */
  lemma CoveredIff(churnEpoch: int)
    ensures (forall server :: Covers(churnEpoch, server)) <==> churnEpoch <= 0 || churnEpoch % SLOT_SEC == 0
  {
    if churnEpoch <= 0 {
      forall server ensures Covers(churnEpoch, server) {
        forall client | server >= SLOT_SEC && -SLOT_SEC <= client - server <= SLOT_SEC
          ensures EffectiveSlot(client, churnEpoch) in CandidateSlots(server, churnEpoch)
        {
          CoveredWithoutChurn(server, client);
        }
      }
    } else if churnEpoch % SLOT_SEC == 0 {
      forall server ensures Covers(churnEpoch, server) {
        forall client | server >= SLOT_SEC && -SLOT_SEC <= client - server <= SLOT_SEC
          ensures EffectiveSlot(client, churnEpoch) in CandidateSlots(server, churnEpoch)
        {
          AlignedEpochCovers(churnEpoch, server, client);
        }
      }
    } else {
      var k: nat := 1 + SLOT_SEC;
      assert k * churnEpoch == churnEpoch + churnEpoch * SLOT_SEC;
      assert k * churnEpoch % SLOT_SEC == churnEpoch % SLOT_SEC;
      assert k * churnEpoch > SLOT_SEC;
      MisalignedEpochMisses(churnEpoch, k);
      assert !Covers(churnEpoch, k * churnEpoch - 1);
    }
  }

  /**
   * The deployed pair: the client counts churn epochs of `churnEpoch` seconds, the server counts none. The client's slot is
   * among the server's exactly when churn is off or the client's clock has not reached the end of its first epoch, that is,
   * never in practice.
   */
  lemma ChurningClientCoveredIff(churnEpoch: int, server: int, client: int)
    requires server >= SLOT_SEC && -SLOT_SEC <= client - server <= SLOT_SEC
    ensures EffectiveSlot(client, churnEpoch) in CandidateSlots(server, 0) <==> churnEpoch <= 0 || client < churnEpoch
  {
    NearbySlots(server, client);
    ListsAll(server, 0);
    var cur, mine := TimeSlot(server), TimeSlot(client);
    assert forall s :: s in CandidateSlots(server, 0) <==> s == cur || s == cur - 1 || s == cur + 1;
    if churnEpoch > 0 {
      if client < churnEpoch {
        QuotientIs(client, churnEpoch, 0, client);
      } else {
        assert client / churnEpoch >= 1 by { AtLeastOneEpoch(client, churnEpoch); }
      }
    }
  }

  lemma AtLeastOneEpoch(v: int, m: int)
    requires m > 0 && v >= m
    ensures v / m >= 1
  {
    if v / m <= 0 {
      QuotientOf(v, m);
      NoneBelow(v / m, m);
    }
  }

  lemma QuotientOf(v: int, m: int)
    requires m > 0
    ensures v == (v / m) * m + v % m && 0 <= v % m < m
  {}

  lemma NoneBelow(q: int, m: int)
    requires q <= 0 && m > 0
    ensures q * m <= 0
  {}
}
