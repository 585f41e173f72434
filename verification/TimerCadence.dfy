/**
  The timer thread's arithmetic (src/bas/proc/dbgthread.c): `accumulated_ms` and the counter as
  functions of the interval in force at each completed poll.
 */
module TimerCadence {

  const POLL_MS := 100
  const DEFAULT_INTERVAL := 2000
  const INT_MAX := 0x7FFF_FFFF

  /** The largest interval for which `accumulated_ms` cannot overflow. */
  const SAFE_INTERVAL := 2147483600

  /** accumulated_ms after these polls. */
  function Accumulated(polls: seq<int>): (acc: int)
    ensures acc >= 0
  {
    if polls == [] then 0
    else
      var n := |polls| - 1;
      if Accumulated(polls[..n]) + POLL_MS < polls[n] then Accumulated(polls[..n]) + POLL_MS else 0
  }

  /** Poll n of these fires. */
  predicate FiresAt(polls: seq<int>, n: nat)
    requires n < |polls|
  {
    Accumulated(polls[..n]) + POLL_MS >= polls[n]
  }

  function Fires(polls: seq<int>): nat {
    if polls == [] then 0
    else
      var n := |polls| - 1;
      Fires(polls[..n]) + if FiresAt(polls, n) then 1 else 0
  }

  lemma FiresStart()
    ensures Accumulated([]) == 0 && Fires([]) == 0
  {
  }

  lemma FiresStep(polls: seq<int>, interval: int)
    ensures var polls' := polls + [interval];
      if Accumulated(polls) + POLL_MS < interval
      then Accumulated(polls') == Accumulated(polls) + POLL_MS && Fires(polls') == Fires(polls)
      else Accumulated(polls') == 0 && Fires(polls') == Fires(polls) + 1
  {
    assert (polls + [interval])[..|polls|] == polls;
  }

  /** No poll in start..end fires. */
  predicate Quiet(polls: seq<int>, start: nat, end: nat)
    requires start <= end <= |polls|
  {
    forall k :: start <= k < end ==> !FiresAt(polls, k)
  }

  /** A period starts at the first poll and after every fire. */
  predicate PeriodStart(polls: seq<int>, start: nat)
    requires start <= |polls|
  {
    start == 0 || FiresAt(polls, start - 1)
  }

  lemma {:induction false} TimeSinceFire(polls: seq<int>, start: nat, end: nat)
    requires start <= end <= |polls| && PeriodStart(polls, start) && Quiet(polls, start, end)
    ensures Accumulated(polls[..end]) == POLL_MS * (end - start)
    decreases end
  {
    if end > 0 {
      assert polls[..end][..end - 1] == polls[..end - 1];
      if end > start {
        assert !FiresAt(polls, end - 1);
        TimeSinceFire(polls, start, end - 1);
      }
    }
  }

  /**
    Whatever happens to the interval, a fire comes at the first poll by which the time since the
    last fire, counted in polls of 100 ms, reaches the interval then in force.
   */
  lemma FireWhenDue(polls: seq<int>, start: nat, n: nat)
    requires start <= n < |polls| && PeriodStart(polls, start) && Quiet(polls, start, n)
    ensures FiresAt(polls, n) <==> POLL_MS * (n + 1 - start) >= polls[n]
  {
    TimeSinceFire(polls, start, n);
  }

  function Steady(interval: int, n: nat): seq<int> {
    seq(n, _ => interval)
  }

  /** Polls per fire: the interval in units of 100 ms, rounded up. */
  function PollsPerFire(interval: int): int {
    (interval + POLL_MS - 1) / POLL_MS
  }

  lemma DivModNext(n: nat, p: nat)
    requires p > 0
    ensures n % p + 1 < p ==> (n + 1) / p == n / p && (n + 1) % p == n % p + 1
    ensures n % p + 1 == p ==> (n + 1) / p == n / p + 1 && (n + 1) % p == 0
  {
    var q, r := n / p, n % p;
    assert n == p * q + r;
    if r + 1 < p {
      DivModUnique(n + 1, p, q, r + 1);
    } else {
      assert p * (q + 1) == p * q + p;
      DivModUnique(n + 1, p, q + 1, 0);
    }
  }

  lemma DivModUnique(n: nat, p: nat, q: nat, r: nat)
    requires p > 0 && n == p * q + r && r < p
    ensures n / p == q && n % p == r
  {
    var k := n / p - q;
    assert k * p == p * (n / p) - p * q == r - n % p;
    MulBounds(k, p);
  }

  lemma MulBounds(k: int, p: int)
    requires p > 0
    ensures k >= 1 ==> k * p >= p
    ensures k <= -1 ==> k * p <= -p
  {
  }

  /** Cadence: with a constant interval I, n polls make n div ceil(I / 100) fires. */
  lemma {:induction false} SteadyCadence(interval: int, n: nat)
    requires interval > 0
    ensures Fires(Steady(interval, n)) == n / PollsPerFire(interval)
    ensures Accumulated(Steady(interval, n)) == POLL_MS * (n % PollsPerFire(interval))
  {
    hide Steady, PollsPerFire, Accumulated, Fires;
    RoundedUp(interval, 0);
    var p := PollsPerFire(interval);
    if n == 0 {
      NoPolls(interval);
      DivModUnique(0, p, 0, 0);
    } else {
      SteadyCadence(interval, n - 1);
      SteadyStep(interval, n - 1);
      DivModNext(n - 1, p);
      RoundedUp(interval, (n - 1) % p + 1);
    }
  }

  lemma NoPolls(interval: int)
    ensures Fires(Steady(interval, 0)) == 0 && Accumulated(Steady(interval, 0)) == 0
  {
    FiresStart();
    assert Steady(interval, 0) == [];
  }

  lemma SteadyStep(interval: int, n: nat)
    ensures var polls, polls' := Steady(interval, n), Steady(interval, n + 1);
      if Accumulated(polls) + POLL_MS < interval
      then Accumulated(polls') == Accumulated(polls) + POLL_MS && Fires(polls') == Fires(polls)
      else Accumulated(polls') == 0 && Fires(polls') == Fires(polls) + 1
  {
    hide Accumulated, Fires;
    assert Steady(interval, n + 1) == Steady(interval, n) + [interval];
    FiresStep(Steady(interval, n), interval);
  }

  lemma RoundedUp(interval: int, k: nat)
    requires interval > 0
    ensures PollsPerFire(interval) > 0 && (POLL_MS * k < interval <==> k < PollsPerFire(interval))
  {
  }

  predicate Bounded(polls: seq<int>, limit: int) {
    forall k :: 0 <= k < |polls| ==> 0 < polls[k] <= limit
  }

  lemma {:induction false} AccumulatedBound(polls: seq<int>, limit: int)
    requires limit % POLL_MS == 0 && limit > 0 && Bounded(polls, limit)
    ensures Accumulated(polls) <= limit - POLL_MS && Accumulated(polls) % POLL_MS == 0
  {
    if polls != [] {
      AccumulatedBound(polls[..|polls| - 1], limit);
    }
  }

  /** For a constant interval of at most INT_MAX, the accumulator stays in int range iff I <= 2147483600. */
  lemma OverflowIff(interval: int)
    requires 0 < interval <= INT_MAX
    ensures (forall n: nat :: Accumulated(Steady(interval, n)) + POLL_MS <= INT_MAX) <==> interval <= SAFE_INTERVAL
  {
    if interval <= SAFE_INTERVAL {
      forall n: nat
        ensures Accumulated(Steady(interval, n)) + POLL_MS <= INT_MAX
      {
        AccumulatedBound(Steady(interval, n), SAFE_INTERVAL);
      }
    } else {
      var n := SAFE_INTERVAL / POLL_MS;
      SteadyCadence(interval, n);
      assert PollsPerFire(interval) == n + 1;
      DivModUnique(n, n + 1, 0, n);
      assert Accumulated(Steady(interval, n)) + POLL_MS > INT_MAX;
    }
  }
}
