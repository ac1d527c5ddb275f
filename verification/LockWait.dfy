/** lib/hash_chain.py, `_acquire_lock_with_timeout`: polling for an exclusive file lock with backoff.  The
    clock and the lock are given as what each attempt finds; only stopping has to be asked for. */
module LockWait {
  /** What the lock's surroundings do: whether attempt k finds it free, and how much time passes before
      attempt k on top of the requested sleep. */
  datatype Surroundings = Surroundings(free: nat -> bool, lag: nat -> real) {
    ghost predicate Valid() {
      forall k: nat :: lag(k) >= 0.0
    }
  }

  function Ceiling(x: real): (n: int)
    ensures (n - 1) as real < x <= n as real
  {
    -((-x).Floor)
  }

  function Min(x: real, y: real): real {
    if x <= y then x else y
  }

  function MinIndex(x: int, y: int): int {
    if x <= y then x else y
  }

  /** The sleep requested after attempt `k` has failed: the next backoff delay, the last one from then on,
      but never past the deadline. */
  function Sleep(backoff: seq<real>, remaining: real, k: nat): real
    requires backoff != [] && k >= 1
  {
    var delay := Min(backoff[MinIndex(k - 1, |backoff| - 1)], remaining);
    if delay > 0.0 then delay else 0.0
  }

  /** The clock when attempt `k` starts, .. */
  function Start(env: Surroundings, timeout: real, backoff: seq<real>, k: nat): real
    requires backoff != []
    decreases k, 0
  {
    if k <= 1 then 0.0
    else Elapsed(env, timeout, backoff, k - 1) + Sleep(backoff, timeout - Elapsed(env, timeout, backoff, k - 1), k - 1)
  }

  /** .. and when it has failed. */
  function Elapsed(env: Surroundings, timeout: real, backoff: seq<real>, k: nat): real
    requires backoff != []
    decreases k, 1
  {
    Start(env, timeout, backoff, k) + env.lag(k)
  }

  /** The total of the sleeps requested before attempt `k`. */
  function Slept(env: Surroundings, timeout: real, backoff: seq<real>, k: nat): real
    requires backoff != []
  {
    if k <= 1 then 0.0
    else Slept(env, timeout, backoff, k - 1) + Sleep(backoff, timeout - Elapsed(env, timeout, backoff, k - 1), k - 1)
  }

  function Total(sleeps: seq<real>): real {
    if sleeps == [] then 0.0 else Total(sleeps[..|sleeps| - 1]) + sleeps[|sleeps| - 1]
  }

  /** The first `n - 1` attempts failed before the deadline. */
  ghost predicate InTime(env: Surroundings, timeout: real, backoff: seq<real>, n: nat)
    requires backoff != []
  {
    forall k: nat | 1 <= k < n :: Elapsed(env, timeout, backoff, k) < timeout
  }

  /** `n` times `b` */
  function Times(n: nat, b: real): real {
    if n == 0 then 0.0 else Times(n - 1, b) + b
  }

  lemma {:induction false} TimesIsProduct(n: nat, b: real)
    ensures Times(n, b) == n as real * b
  {
    if n > 0 {
      TimesIsProduct(n - 1, b);
      assert n as real * b == (n - 1) as real * b + b;
    }
  }

  /** Only attempts that start before the deadline are followed by another. */
  lemma {:induction false} AttemptBound(attempts: nat, b: real, timeout: real)
    requires attempts >= 1 && b > 0.0 && Times(attempts - 1, b) < timeout
    ensures attempts <= Ceiling(timeout / b)
  {
    TimesIsProduct(attempts - 1, b);
    assert timeout == (timeout / b) * b;
    assert (attempts - 1) as real < timeout / b;
  }

  /** One sleep of at least `b`, or up to the deadline. */
  lemma {:induction false} SleepBounds(backoff: seq<real>, remaining: real, k: nat, b: real)
    requires backoff != [] && k >= 1 && b > 0.0 && remaining > 0.0
    requires forall d | d in backoff :: d >= b
    ensures var s := Sleep(backoff, remaining, k); 0.0 < s <= remaining && (s >= b || s == remaining)
  {
    assert backoff[MinIndex(k - 1, |backoff| - 1)] in backoff;
  }

  /** Sleeping never goes past the deadline, whatever the delays. */
  lemma {:induction false} SleptBounds(env: Surroundings, timeout: real, backoff: seq<real>, n: nat)
    requires env.Valid() && n >= 1 && backoff != [] && InTime(env, timeout, backoff, n)
    ensures 0.0 <= Slept(env, timeout, backoff, n) <= Start(env, timeout, backoff, n)
    ensures Slept(env, timeout, backoff, n) <= timeout || Slept(env, timeout, backoff, n) == 0.0
    decreases n
  {
    if n > 1 {
      SleptBounds(env, timeout, backoff, n - 1);
      assert Elapsed(env, timeout, backoff, n - 1) < timeout && env.lag(n - 1) >= 0.0;
    }
  }

  lemma {:induction false} WaitBounds(env: Surroundings, timeout: real, backoff: seq<real>, n: nat, b: real)
    requires env.Valid() && n >= 1 && backoff != [] && b > 0.0 && forall d | d in backoff :: d >= b
    requires InTime(env, timeout, backoff, n)
    ensures Start(env, timeout, backoff, n) >= Times(n - 1, b) || Start(env, timeout, backoff, n) >= timeout
    decreases n
  {
    if n > 1 {
      WaitBounds(env, timeout, backoff, n - 1, b);
      var before := Elapsed(env, timeout, backoff, n - 1);
      assert before < timeout;
      SleepBounds(backoff, timeout - before, n - 1, b);
      assert env.lag(n - 1) >= 0.0;
    }
  }

  lemma {:induction false} TriesBound(env: Surroundings, timeout: real, backoff: seq<real>, n: nat, b: real)
    requires env.Valid() && n > 1 && backoff != [] && b > 0.0 && forall d | d in backoff :: d >= b
    requires InTime(env, timeout, backoff, n)
    ensures n - 1 <= Ceiling(timeout / b)
  {
    WaitBounds(env, timeout, backoff, n - 1, b);
    assert Elapsed(env, timeout, backoff, n - 1) < timeout && env.lag(n - 1) >= 0.0;
    AttemptBound(n - 1, b, timeout);
  }

  /** Attempt `last` finds the lock free or fails past the deadline. */
  ghost predicate Stops(env: Surroundings, timeout: real, backoff: seq<real>, last: nat)
    requires backoff != []
  {
    last >= 1 && (env.free(last) || Elapsed(env, timeout, backoff, last) >= timeout)
  }

  ghost predicate FirstStop(env: Surroundings, timeout: real, backoff: seq<real>, k: nat)
    requires backoff != []
  {
    Stops(env, timeout, backoff, k) && forall j: nat | 1 <= j < k :: !Stops(env, timeout, backoff, j)
  }

  /** With positive delays there always is such an attempt, early enough. */
  lemma {:induction false} PositiveDelaysStop(env: Surroundings, timeout: real, backoff: seq<real>, b: real) returns (last: nat)
    requires env.Valid() && backoff != [] && b > 0.0 && forall d | d in backoff :: d >= b
    ensures Stops(env, timeout, backoff, last) && (last == 1 || last - 1 <= Ceiling(timeout / b))
  {
    var most := Ceiling(timeout / b);
    var n := if most > 0 then most + 1 else 1;
    if InTime(env, timeout, backoff, n + 1) {
      TriesBound(env, timeout, backoff, n + 1, b);
      assert false;
    }
    last :| 1 <= last <= n && Elapsed(env, timeout, backoff, last) >= timeout;
  }

  /** What the waiting has been so far: `failed` may be one attempt ahead of `sleeps`. */
  ghost predicate Waits(env: Surroundings, timeout: real, backoff: seq<real>, sleeps: seq<real>, failed: seq<real>)
    requires backoff != []
  {
    && |sleeps| <= |failed| <= |sleeps| + 1
    && (failed != [] ==> failed[0] == env.lag(1))
    && (forall j {:trigger sleeps[j]} | 0 <= j < |failed| - 1 :: failed[j + 1] == failed[j] + sleeps[j] + env.lag(j + 2))
    && forall j {:trigger sleeps[j]} | 0 <= j < |sleeps| :: failed[j] < timeout && sleeps[j] == ListedSleep(backoff, j, timeout - failed[j])
  }

  function ListedSleep(backoff: seq<real>, j: nat, remaining: real): real
    requires backoff != []
  {
    var delay := backoff[if j < |backoff| then j else |backoff| - 1];
    if delay <= 0.0 then 0.0 else if delay <= remaining then delay else remaining
  }

  lemma {:induction false} AttemptKeepsWaits(env: Surroundings, timeout: real, backoff: seq<real>, sleeps: seq<real>, failed: seq<real>, elapsed: real)
    requires backoff != [] && Waits(env, timeout, backoff, sleeps, failed) && |failed| == |sleeps|
    requires elapsed == Clock(sleeps, failed) + env.lag(|failed| + 1)
    ensures Waits(env, timeout, backoff, sleeps, failed + [elapsed])
  {
  }

  lemma {:induction false} SleepKeepsWaits(env: Surroundings, timeout: real, backoff: seq<real>, sleeps: seq<real>, failed: seq<real>, delay: real)
    requires backoff != [] && Waits(env, timeout, backoff, sleeps, failed) && |failed| == |sleeps| + 1
    requires failed[|sleeps|] < timeout && delay == ListedSleep(backoff, |sleeps|, timeout - failed[|sleeps|])
    ensures Waits(env, timeout, backoff, sleeps + [delay], failed)
    ensures Total(sleeps + [delay]) == Total(sleeps) + delay
  {
    assert (sleeps + [delay])[..|sleeps|] == sleeps;
  }

  /** The last attempt is the first one that finds the lock free or fails past the deadline.  Delays of zero
      are allowed: the loop ends if there is such an attempt at all.

      `failed[j]` is the clock after attempt `j + 1`, and `sleeps[j]` the sleep that follows it: the delay listed
      at `j`, or the last one listed, but no more than the time remaining, and none if that is not positive. */
  method AcquireLock(env: Surroundings, timeout: real, backoff: seq<real>, ghost b: real, ghost last: nat)
    returns (acquired: bool, attempts: nat, slept: real, elapsed: real, sleeps: seq<real>, failed: seq<real>)
    requires env.Valid() && backoff != [] && Stops(env, timeout, backoff, last)
    ensures 1 <= attempts <= last
    ensures InTime(env, timeout, backoff, attempts) && forall k: nat | 1 <= k < attempts :: !env.free(k)
    ensures acquired <==> env.free(attempts)
    ensures elapsed == Elapsed(env, timeout, backoff, attempts) && slept == Slept(env, timeout, backoff, attempts)
    ensures !acquired ==> elapsed >= timeout
    ensures b > 0.0 && (forall d | d in backoff :: d >= b) && attempts > 1 ==> attempts - 1 <= Ceiling(timeout / b)
    ensures 0.0 <= slept && (slept <= timeout || slept == 0.0)
    ensures slept <= elapsed
    ensures |sleeps| == attempts - 1 && |failed| == attempts && failed[0] == env.lag(1) && failed[attempts - 1] == elapsed
    ensures forall j {:trigger sleeps[j]} | 0 <= j < attempts - 1 :: failed[j + 1] == failed[j] + sleeps[j] + env.lag(j + 2)
    ensures forall j {:trigger sleeps[j]} | 0 <= j < attempts - 1 ::
              var (delay, remaining) := (backoff[if j < |backoff| then j else |backoff| - 1], timeout - failed[j]);
              remaining > 0.0 && sleeps[j] == if delay <= 0.0 then 0.0 else if delay <= remaining then delay else remaining
    ensures slept == Total(sleeps)
  {
    acquired, sleeps, failed := Poll(env, timeout, backoff, last);
    attempts := |failed|;
    slept, elapsed := Total(sleeps), failed[attempts - 1];
    WaitBoundsOf(env, timeout, backoff, attempts, sleeps, failed, b);
  }

  /** Its loop, with what `append` needs of it. */
  method Poll(env: Surroundings, timeout: real, backoff: seq<real>, ghost last: nat) returns (acquired: bool, sleeps: seq<real>, failed: seq<real>)
    requires env.Valid() && backoff != [] && Stops(env, timeout, backoff, last)
    ensures 1 <= |failed| <= last && |sleeps| == |failed| - 1 && Waits(env, timeout, backoff, sleeps, failed)
    ensures forall k: nat | 1 <= k < |failed| :: !env.free(k)
    ensures acquired <==> env.free(|failed|)
    ensures !acquired ==> failed[|failed| - 1] >= timeout
    ensures FirstStop(env, timeout, backoff, |failed|)
  {
    sleeps, failed := [], [];
    while true
      invariant Waiting(env, timeout, backoff, last, sleeps, failed)
      decreases last - |failed|
    {
      var attempts := |failed| + 1;
      var elapsed := Clock(sleeps, failed) + env.lag(attempts);
      acquired := env.free(attempts);
      if acquired || elapsed >= timeout {
        LastAttempt(env, timeout, backoff, last, sleeps, failed);
        return acquired, sleeps, failed + [elapsed];
      }
      var delay := NextDelay(backoff, attempts, timeout - elapsed);
      FailedAttempt(env, timeout, backoff, last, sleeps, failed, delay);
      failed, sleeps := failed + [elapsed], sleeps + [delay];
    }
  }

  /** The clock after the last sleep. */
  function Clock(sleeps: seq<real>, failed: seq<real>): real
    requires |sleeps| == |failed|
  {
    if failed == [] then 0.0 else failed[|failed| - 1] + sleeps[|sleeps| - 1]
  }

  /** State of the loop: every attempt so far has failed before the deadline and been followed by its sleep. */
  ghost predicate Waiting(env: Surroundings, timeout: real, backoff: seq<real>, last: nat, sleeps: seq<real>, failed: seq<real>)
    requires backoff != []
  {
    && |sleeps| == |failed| < last && Waits(env, timeout, backoff, sleeps, failed)
    && forall k: nat | 1 <= k <= |failed| :: !env.free(k)
  }

  lemma {:induction false} LastAttempt(env: Surroundings, timeout: real, backoff: seq<real>, last: nat, sleeps: seq<real>, failed: seq<real>)
    requires backoff != [] && Waiting(env, timeout, backoff, last, sleeps, failed)
    requires env.free(|failed| + 1) || Clock(sleeps, failed) + env.lag(|failed| + 1) >= timeout
    ensures Waits(env, timeout, backoff, sleeps, failed + [Clock(sleeps, failed) + env.lag(|failed| + 1)])
    ensures FirstStop(env, timeout, backoff, |failed| + 1)
  {
    var elapsed := Clock(sleeps, failed) + env.lag(|failed| + 1);
    AttemptKeepsWaits(env, timeout, backoff, sleeps, failed, elapsed);
    AttemptStops(env, timeout, backoff, sleeps, failed + [elapsed]);
  }

  lemma {:induction false} FailedAttempt(env: Surroundings, timeout: real, backoff: seq<real>, last: nat, sleeps: seq<real>, failed: seq<real>, delay: real)
    requires backoff != [] && Stops(env, timeout, backoff, last) && Waiting(env, timeout, backoff, last, sleeps, failed)
    requires var elapsed := Clock(sleeps, failed) + env.lag(|failed| + 1);
             !env.free(|failed| + 1) && elapsed < timeout && delay == ListedSleep(backoff, |failed|, timeout - elapsed)
    ensures Waiting(env, timeout, backoff, last, sleeps + [delay], failed + [Clock(sleeps, failed) + env.lag(|failed| + 1)])
  {
    var more := failed + [Clock(sleeps, failed) + env.lag(|failed| + 1)];
    AttemptKeepsWaits(env, timeout, backoff, sleeps, failed, more[|failed|]);
    assert |more| != last by {
      AttemptStops(env, timeout, backoff, sleeps, more);
    }
    SleepKeepsWaits(env, timeout, backoff, sleeps, more, delay);
  }

  /** The backoff delay after the given number of attempts; a delay that is not positive is no sleep. */
  method NextDelay(backoff: seq<real>, attempts: nat, remaining: real) returns (delay: real)
    requires backoff != [] && attempts >= 1 && remaining > 0.0
    ensures delay == ListedSleep(backoff, attempts - 1, remaining)
  {
    delay := Min(backoff[MinIndex(attempts - 1, |backoff| - 1)], remaining);
    if delay <= 0.0 {
      delay := 0.0;
    }
  }

  /** The clock and the sleeps of a wait are those specified. */
  lemma {:induction false} WaitsAre(env: Surroundings, timeout: real, backoff: seq<real>, sleeps: seq<real>, failed: seq<real>, n: nat)
    requires backoff != [] && Waits(env, timeout, backoff, sleeps, failed) && n < |failed|
    ensures failed[n] == Elapsed(env, timeout, backoff, n + 1)
    ensures Slept(env, timeout, backoff, n + 1) == Total(sleeps[..n])
    ensures InTime(env, timeout, backoff, n + 1)
  {
    if n > 0 {
      WaitsAre(env, timeout, backoff, sleeps, failed, n - 1);
      assert sleeps[..n][..n - 1] == sleeps[..n - 1];
      assert sleeps[n - 1] == Sleep(backoff, timeout - failed[n - 1], n);
    }
  }

  /** The newest attempt stops the wait if it finds the lock free or fails past the deadline; none before did. */
  lemma {:induction false} AttemptStops(env: Surroundings, timeout: real, backoff: seq<real>, sleeps: seq<real>, failed: seq<real>)
    requires backoff != [] && Waits(env, timeout, backoff, sleeps, failed) && |failed| == |sleeps| + 1
    requires forall k: nat | 1 <= k < |failed| :: !env.free(k)
    ensures Stops(env, timeout, backoff, |failed|) <==> env.free(|failed|) || failed[|failed| - 1] >= timeout
    ensures Stops(env, timeout, backoff, |failed|) ==> FirstStop(env, timeout, backoff, |failed|)
  {
    WaitsAre(env, timeout, backoff, sleeps, failed, |failed| - 1);
  }

  lemma {:induction false} WaitBoundsOf(env: Surroundings, timeout: real, backoff: seq<real>, attempts: nat, sleeps: seq<real>, failed: seq<real>, b: real)
    requires env.Valid() && backoff != [] && Waits(env, timeout, backoff, sleeps, failed)
    requires attempts >= 1 && |failed| == attempts && |sleeps| == attempts - 1
    ensures var (slept, elapsed) := (Total(sleeps), failed[attempts - 1]);
            && slept == Slept(env, timeout, backoff, attempts) && elapsed == Elapsed(env, timeout, backoff, attempts)
            && InTime(env, timeout, backoff, attempts)
            && 0.0 <= slept <= elapsed && (slept <= timeout || slept == 0.0)
            && (b > 0.0 && (forall d | d in backoff :: d >= b) && attempts > 1 ==> attempts - 1 <= Ceiling(timeout / b))
  {
    WaitsAre(env, timeout, backoff, sleeps, failed, attempts - 1);
    assert sleeps[..attempts - 1] == sleeps;
    SleptBounds(env, timeout, backoff, attempts);
    if b > 0.0 && (forall d | d in backoff :: d >= b) && attempts > 1 {
      TriesBound(env, timeout, backoff, attempts, b);
    }
  }
}
