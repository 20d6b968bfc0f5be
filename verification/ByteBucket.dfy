/** The token bucket that shapes relayed traffic, over exact reals; times are in seconds. */
module ByteBucket {

  const NS := 0.000000001
  const MS := 0.001

  type Amount = n: int | n > 0 witness 1

  datatype Bucket = Bucket(rate: real, burst: real, tok: real, last: real)

  ghost predicate Valid(b: Bucket) { b.rate > 0.0 && b.burst > 0.0 && 0.0 <= b.tok <= b.burst }

  function AtMost(x: real, cap: real): real { if x > cap then cap else x }

  /** The tokens that drip in during `gap` seconds. */
  function Drip(gap: real, rate: real): real { gap * rate }

  function Refilled(b: Bucket, now: real): Bucket {
    if now - b.last > 0.0 then b.(tok := AtMost(b.tok + Drip(now - b.last, b.rate), b.burst), last := now) else b
  }

  /** One pass through the critical section: refill, then take if there is enough. */
  function Attempt(b: Bucket, n: Amount, now: real): (Bucket, bool) {
    var r := Refilled(b, now);
    if r.tok >= n as real then (r.(tok := r.tok - n as real), true) else (r, false)
  }

  /** Whole nanoseconds, and never less than a millisecond. */
  function SleepFor(short: real, rate: real): real
    requires rate > 0.0
  {
    var d := (short / rate * 1000000000.0).Floor as real / 1000000000.0;
    if d < MS then MS else d
  }

  lemma Scaled(x: real, y: real, k: real)
    requires x <= y && k >= 0.0
    ensures x * k <= y * k
  {}

  lemma DripIsPositive(gap: real, rate: real)
    requires gap >= 0.0 && rate > 0.0
    ensures Drip(gap, rate) >= 0.0
  {
    Scaled(0.0, gap, rate);
  }

  lemma RefillKeepsValid(b: Bucket, now: real)
    requires Valid(b)
    ensures Valid(Refilled(b, now)) && Refilled(b, now).tok >= b.tok
  {
    if now - b.last > 0.0 { DripIsPositive(now - b.last, b.rate); }
  }

  lemma AttemptKeepsValid(b: Bucket, n: Amount, now: real)
    requires Valid(b)
    ensures Valid(Attempt(b, n, now).0)
  {
    RefillKeepsValid(b, now);
  }

  /** Attempts by any callers, in the order they enter the critical section. */
  datatype Try = Try(n: Amount, now: real)

  function Granted(b: Bucket, es: seq<Try>): nat
    decreases |es|
  {
    if es == [] then 0
    else
      var (b', ok) := Attempt(b, es[0].n, es[0].now);
      (if ok then es[0].n else 0) + Granted(b', es[1..])
  }

  function After(b: Bucket, es: seq<Try>): Bucket
    decreases |es|
  {
    if es == [] then b else After(Attempt(b, es[0].n, es[0].now).0, es[1..])
  }

  ghost predicate Ordered(from: real, es: seq<Try>)
    decreases |es|
  {
    es != [] ==> from <= es[0].now && Ordered(es[0].now, es[1..])
  }

  /** Tokens never leave the range from zero to the burst, over any run. */
  lemma {:induction false} TokensInRange(b: Bucket, es: seq<Try>)
    requires Valid(b)
    ensures Valid(After(b, es))
    decreases |es|
  {
    if es != [] {
      AttemptKeepsValid(b, es[0].n, es[0].now);
      TokensInRange(Attempt(b, es[0].n, es[0].now).0, es[1..]);
    }
  }

  /** What drips in over a run, were the bucket bottomless. */
  function Inflow(b: Bucket, es: seq<Try>): real
    decreases |es|
  {
    if es == [] then 0.0 else Drip(es[0].now - b.last, b.rate) + Inflow(Attempt(b, es[0].n, es[0].now).0, es[1..])
  }

  /** What is granted and what is left is at most what was there plus what has dripped in. */
  lemma {:induction false} GrantedPlusLeft(b: Bucket, es: seq<Try>)
    requires Valid(b) && Ordered(b.last, es)
    ensures Granted(b, es) as real + After(b, es).tok <= b.tok + Inflow(b, es)
    decreases |es|
  {
    if es != [] {
      AttemptKeepsValid(b, es[0].n, es[0].now);
      OneAttempt(b, es[0].n, es[0].now);
      GrantedPlusLeft(Attempt(b, es[0].n, es[0].now).0, es[1..]);
    }
  }

  lemma {:induction false} InflowIsElapsed(b: Bucket, es: seq<Try>)
    requires Valid(b) && Ordered(b.last, es)
    ensures Inflow(b, es) == Drip((if es == [] then b.last else es[|es| - 1].now) - b.last, b.rate)
    decreases |es|
  {
    if es != [] {
      AttemptKeepsValid(b, es[0].n, es[0].now);
      OneAttempt(b, es[0].n, es[0].now);
      InflowIsElapsed(Attempt(b, es[0].n, es[0].now).0, es[1..]);
      Elapsed(b.last, es[0].now, es[|es| - 1].now, b.rate);
      if |es| > 1 { assert es[1..][|es| - 2] == es[|es| - 1]; }
    }
  }

  lemma Elapsed(from: real, mid: real, to: real, rate: real)
    ensures Drip(to - mid, rate) + Drip(mid - from, rate) == Drip(to - from, rate)
  {}

  lemma OneAttempt(b: Bucket, n: Amount, now: real)
    requires Valid(b) && b.last <= now
    ensures var (b', ok) := Attempt(b, n, now);
      && b'.last == now && b'.rate == b.rate && b'.burst == b.burst
      && (if ok then n as real else 0.0) + b'.tok <= b.tok + Drip(now - b.last, b.rate)
  {
    Scaled(0.0, now - b.last, b.rate);
  }

  lemma RefilledOnce(b: Bucket, es: seq<Try>)
    requires es != [] && b.last <= es[0].now
    ensures Granted(Refilled(b, es[0].now), es) == Granted(b, es) && Refilled(b, es[0].now).last == es[0].now
  {
    assert Attempt(Refilled(b, es[0].now), es[0].n, es[0].now) == Attempt(b, es[0].n, es[0].now);
  }

  /**
   * The rate bound: whoever attempts whatever in between, the bytes granted from one attempt to a later one are at
   * most a full burst plus the rate times the time between them.
   */
  lemma RateBound(b: Bucket, es: seq<Try>)
    requires Valid(b) && es != [] && Ordered(b.last, es)
    ensures Granted(b, es) as real <= b.burst + Drip(es[|es| - 1].now - es[0].now, b.rate)
  {
    var r := Refilled(b, es[0].now);
    RefillKeepsValid(b, es[0].now);
    RefilledOnce(b, es);
    GrantedPlusLeft(r, es);
    InflowIsElapsed(r, es);
    TokensInRange(r, es);
  }

  /** The bound is reached: a full bucket grants its burst at once. */
  lemma RateBoundIsTight(b: Bucket, n: Amount)
    requires Valid(b) && b.tok == b.burst == n as real
    ensures Granted(b, [Try(n, b.last)]) as real == b.burst
  {
    assert [Try(n, b.last)][1..] == [];
  }

  /** Some attempt, now or later, is granted exactly when the amount is within a burst; a larger call never returns. */
  lemma GrantableIffWithinBurst(b: Bucket, n: Amount)
    requires Valid(b)
    ensures (exists now :: now >= b.last && Attempt(b, n, now).1) <==> n as real <= b.burst
  {
    if n as real <= b.burst {
      var now := b.last + b.burst / b.rate;
      FillTime(b.burst, b.rate);
      RefillIs(b, now);
      assert Attempt(b, n, now).1;
    } else {
      forall now ensures !Attempt(b, n, now).1 { RefillKeepsValid(b, now); }
    }
  }

  lemma FillTime(burst: real, rate: real)
    requires burst > 0.0 && rate > 0.0
    ensures burst / rate > 0.0 && Drip(burst / rate, rate) == burst
  {
    var t := burst / rate;
    assert t * rate == burst;
    if t <= 0.0 { Scaled(t, 0.0, rate); }
  }

  lemma SleepCovers(short: real, rate: real)
    requires rate > 0.0 && short > 0.0
    ensures SleepFor(short, rate) >= MS && SleepFor(short, rate) * rate >= short - NS * rate
  {
    var q := short / rate * 1000000000.0;
    var d := q.Floor as real / 1000000000.0;
    assert d > short / rate - NS;
    Scaled(short / rate - NS, SleepFor(short, rate), rate);
    assert (short / rate - NS) * rate == short - NS * rate;
  }

  /** A sleep is at least a millisecond and at most that or the time the missing tokens take, whichever is more. */
  lemma SleepIsBounded(short: real, rate: real)
    requires rate > 0.0 && short > 0.0
    ensures MS <= SleepFor(short, rate) && (SleepFor(short, rate) <= MS || SleepFor(short, rate) <= short / rate)
    ensures SleepFor(short, rate) > short / rate - NS
  {}

  /**
   * The next attempt of a lone caller: it succeeds exactly when it comes no earlier than the missing tokens take to
   * drip in, and is at worst a nanosecond's worth of tokens short because the sleep is cut to whole nanoseconds.
   */
  lemma NextAttempt(r: Bucket, n: Amount, next: real)
    requires Valid(r) && r.tok < n as real <= r.burst
    requires next >= r.last + SleepFor(n as real - r.tok, r.rate)
    ensures Attempt(r, n, next).1 <==> Drip(next - r.last, r.rate) >= n as real - r.tok
    ensures Refilled(r, next).tok >= n as real - NS * r.rate
  {
    var short := n as real - r.tok;
    SleepCovers(short, r.rate);
    Dripped(SleepFor(short, r.rate), next - r.last, r.rate, short - NS * r.rate);
    RefillIs(r, next);
    Scaled(0.0, NS, r.rate);
  }

  /** The sleep is exactly as long as the missing tokens take: not cut to whole nanoseconds, or stretched to a millisecond. */
  predicate SleepIsEnough(short: real, rate: real)
    requires rate > 0.0
  {
    short / rate <= MS || (short / rate * 1000000000.0).Floor as real == short / rate * 1000000000.0
  }

  lemma SleepReaches(short: real, rate: real)
    requires rate > 0.0 && short > 0.0
    ensures SleepFor(short, rate) >= short / rate <==> SleepIsEnough(short, rate)
  {}

  lemma DripReaches(gap: real, short: real, rate: real)
    requires rate > 0.0
    ensures Drip(gap, rate) >= short <==> gap >= short / rate
  {
    var w := short / rate;
    assert w * rate == short;
    if gap >= w { Scaled(w, gap, rate); } else { StrictlyScaled(gap, w, rate); }
  }

  lemma StrictlyScaled(x: real, y: real, k: real)
    requires x < y && k > 0.0
    ensures x * k < y * k
  {}

  /**
   * A lone caller that wakes exactly when its sleep is over has enough tokens if and only if the time they take is at
   * most a millisecond or a whole number of nanoseconds, which is known before the call.
   */
  lemma OneSleepIff(r: Bucket, n: Amount)
    requires Valid(r) && r.tok < n as real <= r.burst
    ensures var short := n as real - r.tok;
      Attempt(r, n, r.last + SleepFor(short, r.rate)).1 <==> SleepIsEnough(short, r.rate)
  {
    var short := n as real - r.tok;
    var sleep := SleepFor(short, r.rate);
    SleepReaches(short, r.rate);
    DripReaches(sleep, short, r.rate);
    assert r.last + sleep - r.last == sleep;
    NextAttempt(r, n, r.last + sleep);
  }

  /** At 3 kbit/s the wait for one byte, 1/375 s, is cut to 2666666 ns, and the attempt after it fails. */
  lemma OneSleepCanFail(t: real)
    ensures var r := Bucket(375.0, 750.0, 0.0, t);
      Valid(r) && SleepFor(1.0, 375.0) == 0.002666666 && !Attempt(r, 1, t + SleepFor(1.0, 375.0)).1
  {
    assert (1.0 / 375.0 * 1000000000.0).Floor == 2666666;
    OneSleepIff(Bucket(375.0, 750.0, 0.0, t), 1);
  }

  lemma Dripped(sleep: real, gap: real, rate: real, want: real)
    requires sleep <= gap && rate > 0.0 && sleep * rate >= want
    ensures Drip(gap, rate) >= want
  {
    Scaled(sleep, gap, rate);
  }

  lemma RefillIs(r: Bucket, next: real)
    requires next > r.last
    ensures Refilled(r, next).tok == AtMost(r.tok + Drip(next - r.last, r.rate), r.burst)
  {
    var gap := next - r.last;
    assert gap > 0.0;
    var drip := gap * r.rate;
    assert Refilled(r, next) == r.(tok := AtMost(r.tok + drip, r.burst), last := next);
  }

  /** A second sleep always suffices. */
  lemma SecondSleepSuffices(r: Bucket, n: Amount, next: real)
    requires Valid(r) && n as real <= r.burst && r.tok >= n as real - NS * r.rate && next >= r.last + MS
    ensures Attempt(r, n, next).1
  {
    Dripped(NS, next - r.last, r.rate, NS * r.rate);
    RefillIs(r, next);
  }

  class Shaper {
    const rate: real
    const burst: real
    var tok: real
    var last: real

    ghost function State(): Bucket
      reads this
    {
      Bucket(rate, burst, tok, last)
    }

    constructor (maxKbps: int, now: real)
      requires maxKbps > 0
      ensures Valid(State()) && State() == Bucket(rate, burst, burst, now)
      ensures rate == maxKbps as real * 125.0 && burst == 2.0 * rate
    {
      var r := maxKbps as real * 1000.0 / 8.0;
      rate, burst, tok, last := r, r * 2.0, r * 2.0, now;
    }

    /** The critical section: whether the bytes were granted, and how long to sleep if not. */
    method TryTake(n: Amount, now: real) returns (ok: bool, sleep: real)
      requires Valid(State())
      modifies this
      ensures (State(), ok) == Attempt(old(State()), n, now) && Valid(State())
      ensures !ok ==> sleep == SleepFor(n as real - tok, rate)
    {
      AttemptKeepsValid(State(), n, now);
      sleep := 0.0;
      var dt := now - last;
      assert dt * rate == Drip(now - last, rate);
      if dt > 0.0 {
        tok := tok + dt * rate;
        if tok > burst {
          tok := burst;
        }
        last := now;
      }
      if tok >= n as real {
        tok := tok - n as real;
        return true, sleep;
      }
      var short := n as real - tok;
      sleep := SleepFor(short, rate);
      return false, sleep;
    }

    /**
     * A lone caller, watched for at most `rounds` sleeps. `wake` says when a sleeper runs again, never too early. A call
     * within the burst takes its bytes once, at its last attempt, after at most two sleeps; OneSleepIff tells when one is
     * enough. A call beyond the burst takes nothing, however long it is watched.
     */
    method WaitTake(n: int, start: real, wake: (real, real) -> real, rounds: nat) returns (ok: bool, sleeps: nat, end: real, ghost tries: seq<Try>)
      requires Valid(State()) && last <= start
      requires forall t, d {:trigger wake(t, d)} :: wake(t, d) >= t + d
      modifies this
      ensures Valid(State()) && State() == After(old(State()), tries) && Ordered(old(last), tries)
      ensures n <= 0 ==> ok && tries == []
      ensures n > 0 ==> |tries| == sleeps + 1 && tries[0] == Try(n, start) && tries[sleeps] == Try(n, end)
      ensures n > 0 ==> Granted(old(State()), tries) == if ok then n else 0
      ensures !ok ==> sleeps == rounds
      ensures n > 0 && n as real <= burst ==> sleeps <= 2 && (rounds >= 2 ==> ok)
      ensures n > 0 && n as real > burst ==> !ok
    {
      ok, sleeps, end, tries := true, 0, start, [];
      if n <= 0 {
        return;
      }
      ghost var b0 := State();
      tries := [Try(n, start)];
      Snoc(b0, [], Try(n, start));
      assert [] + tries == tries;
      BeyondBurst(State(), n, start);
      var sleep;
      ok, sleep := TryTake(n, end);
      while !ok && sleeps < rounds
        invariant Valid(State()) && sleeps <= rounds && last == end && Tried(b0, tries, State(), n, start, end, sleeps, ok)
        invariant n as real <= burst ==> sleeps <= 2 && (!ok ==> sleeps <= 1)
        invariant n as real > burst ==> !ok
        invariant !ok ==> tok < n as real && sleep == SleepFor(n as real - tok, rate)
        invariant !ok && sleeps == 1 && n as real <= burst ==> tok >= n as real - NS * rate
        decreases rounds - sleeps, !ok
      {
        ghost var r := State();
        AfterSleep(r, n, sleeps, wake(end, sleep));
        TriedAgain(b0, tries, r, n, start, end, sleeps, wake(end, sleep));
        end, sleeps := wake(end, sleep), sleeps + 1;
        tries := tries + [Try(n, end)];
        ok, sleep := TryTake(n, end);
      }
    }
  }

  /** Attempts for the same amount, the last of them just now, have led from one bucket to another; none before it was granted. */
  ghost predicate Tried(b0: Bucket, tries: seq<Try>, b: Bucket, n: Amount, start: real, end: real, sleeps: nat, ok: bool) {
    && b == After(b0, tries) && Ordered(b0.last, tries) && Granted(b0, tries) == (if ok then n else 0)
    && |tries| == sleeps + 1 && tries[0] == Try(n, start) && tries[sleeps] == Try(n, end)
  }

  lemma TriedAgain(b0: Bucket, tries: seq<Try>, b: Bucket, n: Amount, start: real, end: real, sleeps: nat, next: real)
    requires Tried(b0, tries, b, n, start, end, sleeps, false) && end <= next
    ensures var (b', ok) := Attempt(b, n, next); Tried(b0, tries + [Try(n, next)], b', n, start, next, sleeps + 1, ok)
  {
    Snoc(b0, tries, Try(n, next));
  }

  /** The attempt behind a caller's first or second sleep. */
  lemma AfterSleep(r: Bucket, n: Amount, sleeps: nat, next: real)
    requires Valid(r) && r.tok < n as real && next >= r.last + SleepFor(n as real - r.tok, r.rate)
    requires n as real <= r.burst ==> sleeps <= 1 && (sleeps == 1 ==> r.tok >= n as real - NS * r.rate)
    ensures next >= r.last
    ensures n as real > r.burst ==> !Attempt(r, n, next).1
    ensures n as real <= r.burst ==> (sleeps == 1 ==> Attempt(r, n, next).1) && Refilled(r, next).tok >= n as real - NS * r.rate
  {
    SleepCovers(n as real - r.tok, r.rate);
    BeyondBurst(r, n, next);
    if n as real <= r.burst {
      NextAttempt(r, n, next);
      if sleeps == 1 { SecondSleepSuffices(r, n, next); }
    }
  }

  lemma BeyondBurst(b: Bucket, n: Amount, now: real)
    requires Valid(b)
    ensures n as real > b.burst ==> !Attempt(b, n, now).1
  {
    RefillKeepsValid(b, now);
  }

  lemma {:induction false} Snoc(b: Bucket, es: seq<Try>, e: Try)
    ensures After(b, es + [e]) == Attempt(After(b, es), e.n, e.now).0
    ensures Granted(b, es + [e]) == Granted(b, es) + if Attempt(After(b, es), e.n, e.now).1 then e.n else 0
    ensures Ordered(b.last, es) && (if es == [] then b.last else es[|es| - 1].now) <= e.now ==> Ordered(b.last, es + [e])
    decreases |es|
  {
    if es == [] {
      assert es + [e] == [e] && [e][1..] == [];
    } else {
      var b' := Attempt(b, es[0].n, es[0].now).0;
      assert (es + [e])[1..] == es[1..] + [e];
      Snoc(b', es[1..], e);
      if Ordered(b.last, es) { Snoc(b'.(last := es[0].now), es[1..], e); }
    }
  }
}
