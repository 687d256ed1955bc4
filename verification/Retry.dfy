/**
 Retrying with exponential backoff (crates/xmtp_common/src/retry.rs).  Durations and
 instants are nanoseconds.
 */
module Retry {
  import opened Time

  /** The largest Duration: u64::MAX seconds and 999999999 nanoseconds; arithmetic beyond it panics. */
  const DURATION_MAX: nat := 0xFFFF_FFFF_FFFF_FFFF * SECOND + SECOND - 1

  const U32_MAX: nat := 0xFFFF_FFFF

  const INDIVIDUAL_WAIT_MAX: nat := 30 * SECOND

  datatype ExponentialBackoff = ExponentialBackoff(
    multiplier: nat, duration: nat, maxJitter: nat, totalWaitMax: nat, individualWaitMax: nat)

  const DEFAULT := ExponentialBackoff(3, 50 * MILLISECOND, 25 * MILLISECOND, 120 * SECOND, INDIVIDUAL_WAIT_MAX)
  const DEFAULT_RETRIES: nat := 5

  /** What the constructors can build: any settings in range, with the individual limit fixed at 30 seconds. */
  predicate Built(b: ExponentialBackoff)
  {
    && b.multiplier <= U32_MAX && b.individualWaitMax == INDIVIDUAL_WAIT_MAX
    && b.duration <= DURATION_MAX && b.maxJitter <= DURATION_MAX && b.totalWaitMax <= DURATION_MAX
  }

  datatype Backoff = Stop | Wait(d: nat) | Panic

  function Pow(m: nat, k: nat): nat
  {
    if k == 0 then 1 else m * Pow(m, k - 1)
  }

  /** The wait before jitter, in closed form; the first two retries wait the bare duration, even above the limit. */
  function BaseWait(b: ExponentialBackoff, attempts: nat): nat
  {
    if attempts <= 1 then b.duration
    else Min(b.duration * Pow(b.multiplier, attempts - 1), b.individualWaitMax)
  }

  /** Overflow: the first multiplication is the only one that can be too large, and the jitter is added last. */
  predicate Overflows(b: ExponentialBackoff, attempts: nat, jitter: nat)
  {
    (attempts >= 2 && b.duration * b.multiplier > DURATION_MAX) || BaseWait(b, attempts) + jitter > DURATION_MAX
  }

  /** Clamping at every step is clamping once at the end. */
  lemma ClampStep(d: nat, m: nat, cap: nat, k: nat)
    requires k >= 1
    ensures Min(Min(d * Pow(m, k), cap) * m, cap) == Min(d * Pow(m, k + 1), cap)
  {
    var x := d * Pow(m, k);
    assert d * Pow(m, k + 1) == x * m by {
      assert Pow(m, k + 1) == m * Pow(m, k);
      assert d * (m * Pow(m, k)) == (d * Pow(m, k)) * m;
    }
    ClampScale(x, m, cap);
  }

  lemma ClampScale(x: nat, m: nat, cap: nat)
    ensures Min(Min(x, cap) * m, cap) == Min(x * m, cap)
  {
    if x > cap && m > 0 {
      assert cap * m >= cap;
      assert x * m >= cap * m;
    }
  }

  /** The first two waits are the bare duration; from then on each is the one before, multiplied and clamped. */
  lemma WaitsByStep(b: ExponentialBackoff, attempts: nat)
    ensures BaseWait(b, 0) == b.duration == BaseWait(b, 1)
    ensures attempts >= 1 ==>
              BaseWait(b, attempts + 1) == Min(BaseWait(b, attempts) * b.multiplier, b.individualWaitMax)
  {
    if attempts >= 2 {
      ClampStep(b.duration, b.multiplier, b.individualWaitMax, attempts - 1);
    } else if attempts == 1 {
      assert Pow(b.multiplier, 1) == b.multiplier;
    }
  }

  /** The answer the strategy gives. */
  function BackoffAt(b: ExponentialBackoff, attempts: nat, elapsed: nat, jitter: nat): Backoff
  {
    if elapsed > b.totalWaitMax then Stop
    else if Overflows(b, attempts, jitter) then Panic
    else Wait(BaseWait(b, attempts) + jitter)
  }

  /** `elapsed` is the time since the first attempt, `jitter` the random draw. */
  method ComputeBackoff(b: ExponentialBackoff, attempts: nat, elapsed: nat, jitter: nat) returns (r: Backoff)
    requires Built(b) && jitter <= b.maxJitter
    ensures r == BackoffAt(b, attempts, elapsed, jitter)
    ensures r == Stop <==> elapsed > b.totalWaitMax
    ensures attempts <= 1 && r.Wait? ==> r.d == b.duration + jitter
    ensures attempts >= 2 && r.Wait? ==>
              r.d == Min(b.duration * Pow(b.multiplier, attempts - 1), b.individualWaitMax) + jitter
    ensures r == Panic <==>
              && elapsed <= b.totalWaitMax
              && (if attempts <= 1 then b.duration + jitter > DURATION_MAX
                  else
                    var wait := Min(b.duration * Pow(b.multiplier, attempts - 1), b.individualWaitMax);
                    b.duration * b.multiplier > DURATION_MAX || wait + jitter > DURATION_MAX)
  {
    if elapsed > b.totalWaitMax {
      return Stop;
    }
    var duration := b.duration;
    var k := 0;
    var n := if attempts == 0 then 0 else attempts - 1;
    while k < n
      invariant 0 <= k <= n
      invariant duration == BaseWait(b, k + 1)
      invariant k > 0 ==> b.duration * b.multiplier <= DURATION_MAX
    {
      var product := duration * b.multiplier;
      if k > 0 {
        ProductFits(duration, b.multiplier);
        ClampStep(b.duration, b.multiplier, b.individualWaitMax, k);
      } else {
        assert Pow(b.multiplier, 1) == b.multiplier;
      }
      if product > DURATION_MAX {
        return Panic;
      }
      duration := product;
      if duration > b.individualWaitMax {
        duration := b.individualWaitMax;
      }
      k := k + 1;
    }
    if duration + jitter > DURATION_MAX {
      return Panic;
    }
    r := Wait(duration + jitter);
  }

  lemma ProductFits(d: nat, m: nat)
    requires d <= INDIVIDUAL_WAIT_MAX && m <= U32_MAX
    ensures d * m <= DURATION_MAX
  {
    MulGrows(m, d, INDIVIDUAL_WAIT_MAX);
    assert m * INDIVIDUAL_WAIT_MAX <= U32_MAX * 30_000_000_000;
    assert d * m == m * d;
  }

  lemma BaseWaitBounded(b: ExponentialBackoff, attempts: nat)
    ensures BaseWait(b, attempts) <= Max(b.duration, b.individualWaitMax)
  {
  }

  lemma {:induction false} PowGrows(m: nat, i: nat, j: nat)
    requires m >= 1 && i <= j
    ensures 1 <= Pow(m, i) <= Pow(m, j)
  {
    if i > 0 {
      PowGrows(m, i - 1, j - 1);
      assert m * Pow(m, i - 1) <= m * Pow(m, j - 1);
    } else if j > 0 {
      PowGrows(m, 0, j - 1);
    }
  }

  lemma MulGrows(d: nat, x: nat, y: nat)
    requires x <= y
    ensures d * x <= d * y
  {
  }

  /**
   Waits never shrink from one attempt to the next exactly when the duration is zero, or is within
   the limit and multiplied by at least one.
   */
  lemma BaseWaitMonotoneIff(b: ExponentialBackoff)
    ensures (forall i: nat, j: nat :: i <= j ==> BaseWait(b, i) <= BaseWait(b, j))
            <==> b.duration == 0 || (b.multiplier >= 1 && b.duration <= b.individualWaitMax)
  {
    if b.duration == 0 || (b.multiplier >= 1 && b.duration <= b.individualWaitMax) {
      forall i: nat, j: nat | i <= j ensures BaseWait(b, i) <= BaseWait(b, j) {
        if b.duration != 0 && j >= 2 {
          var p, q := if i == 0 then 0 else i - 1, j - 1;
          PowGrows(b.multiplier, p, q);
          MulGrows(b.duration, Pow(b.multiplier, p), Pow(b.multiplier, q));
          MulGrows(b.duration, 1, Pow(b.multiplier, q));
        }
      }
    } else {
      assert Pow(b.multiplier, 1) == b.multiplier;
      assert b.multiplier == 0 ==> b.duration * b.multiplier == 0;
      assert BaseWait(b, 2) < BaseWait(b, 1);
    }
  }

  /** Settings with a duration within the limit and a jitter that can be added to it. */
  predicate CannotOverflow(b: ExponentialBackoff)
  {
    Built(b) && b.duration <= b.individualWaitMax && b.maxJitter <= DURATION_MAX - b.individualWaitMax
  }

  /** Such settings never panic. */
  lemma NoOverflow(b: ExponentialBackoff, attempts: nat, jitter: nat)
    requires CannotOverflow(b) && jitter <= b.maxJitter
    ensures !Overflows(b, attempts, jitter)
  {
    ProductFits(b.duration, b.multiplier);
    BaseWaitBounded(b, attempts);
  }

  // ----- the retry loop -----

  datatype Outcome<T, E> = Ok(value: T) | Err(error: E, retryable: bool)

  datatype Result<T, E> = Success(value: T) | Failure(error: E) | Panicked

  function Pause(w: Backoff): nat
  {
    if w.Wait? then w.d else 0
  }

  /**
   The time since the start when invocation i returns, if it is reached: invocation i takes
   took(i), and the sleep after it lasts late(i) longer than the strategy asked for.
   */
  function Returned(backoff: (nat, nat) -> Backoff, took: nat -> nat, late: nat -> nat, i: nat): nat
  {
    if i == 0 then took(0)
    else
      var before := Returned(backoff, took, late, i - 1);
      before + Pause(backoff(i - 1, before)) + late(i - 1) + took(i)
  }

  /** The sleeps asked for before invocation i. */
  function Slept(backoff: (nat, nat) -> Backoff, took: nat -> nat, late: nat -> nat, i: nat): (total: nat)
    ensures total <= Returned(backoff, took, late, i)
  {
    if i == 0 then 0
    else Slept(backoff, took, late, i - 1) + Pause(backoff(i - 1, Returned(backoff, took, late, i - 1)))
  }

  function SumTo(f: nat -> nat, n: nat): nat
  {
    if n == 0 then 0 else SumTo(f, n - 1) + f(n - 1)
  }

  /** The time adds up: all invocations, all sleeps, and all that the sleeps were late. */
  lemma {:induction false} TimeAddsUp(backoff: (nat, nat) -> Backoff, took: nat -> nat, late: nat -> nat, i: nat)
    ensures Returned(backoff, took, late, i) == SumTo(took, i + 1) + Slept(backoff, took, late, i) + SumTo(late, i)
  {
    if i > 0 {
      TimeAddsUp(backoff, took, late, i - 1);
    } else {
      assert SumTo(took, 1) == took(0);
    }
  }

  /** Invocation i failed with a retryable error, and the strategy asked for a sleep. */
  ghost predicate Retried<T, E>(backoff: (nat, nat) -> Backoff, ops: nat -> Outcome<T, E>, took: nat -> nat,
                                late: nat -> nat, i: nat)
  {
    ops(i).Err? && ops(i).retryable && backoff(i, Returned(backoff, took, late, i)).Wait?
  }

  /**
   The retry_async loop over any strategy.  `ops(i)` is the outcome of invocation i.
   It invokes the operation between once and retries + 1 times; every outcome before the last is
   a retryable error after which the strategy asked for a sleep, and it slept for that long; the
   last outcome is the result; and it gives up only on an error that is not retryable, after the
   last retry, or when the strategy says so.
   */
  method RetryAsync<T, E>(backoff: (nat, nat) -> Backoff, retries: nat, ops: nat -> Outcome<T, E>,
                          took: nat -> nat, late: nat -> nat)
    returns (r: Result<T, E>, attempts: nat, slept: nat)
    ensures attempts <= retries && slept == Slept(backoff, took, late, attempts)
    ensures forall i :: 0 <= i < attempts ==> Retried(backoff, ops, took, late, i)
    ensures var last, verdict := ops(attempts), backoff(attempts, Returned(backoff, took, late, attempts));
            match r
            case Success(v) => last == Ok(v)
            case Failure(e) =>
              last.Err? && last.error == e && (!last.retryable || attempts == retries || verdict == Stop)
            case Panicked => last.Err? && last.retryable && attempts < retries && verdict == Panic
  {
    attempts, slept := 0, 0;
    var now := 0;
    while true
      invariant attempts <= retries && slept == Slept(backoff, took, late, attempts)
      invariant now + took(attempts) == Returned(backoff, took, late, attempts)
      invariant forall i :: 0 <= i < attempts ==> Retried(backoff, ops, took, late, i)
      decreases retries - attempts
    {
      var res := ops(attempts);
      now := now + took(attempts);
      if res.Ok? {
        return Success(res.value), attempts, slept;
      }
      if !res.retryable || attempts >= retries {
        return Failure(res.error), attempts, slept;
      }
      var wait := backoff(attempts, now);
      if !wait.Wait? {
        return if wait.Stop? then Failure(res.error) else Panicked, attempts, slept;
      }
      slept := slept + wait.d;
      now := now + wait.d + late(attempts);
      attempts := attempts + 1;
    }
  }

  /** ExponentialBackoff as a strategy, given the jitter drawn at each attempt. */
  function Strategy(b: ExponentialBackoff, jitter: nat -> nat): (nat, nat) -> Backoff
  {
    (i: nat, elapsed: nat) => BackoffAt(b, i, elapsed, jitter(i))
  }

  /**
   With exponential backoff the sleeps of a run add up to no more than the total limit, one longest
   wait and one jitter: a sleep is only begun within the limit, and the clock has by then advanced
   by all the sleeps before it.
   */
  lemma SleepsBounded<T, E>(b: ExponentialBackoff, jitter: nat -> nat, ops: nat -> Outcome<T, E>, took: nat -> nat,
                            late: nat -> nat, attempts: nat)
    requires forall i :: jitter(i) <= b.maxJitter
    requires forall i :: 0 <= i < attempts ==> Retried(Strategy(b, jitter), ops, took, late, i)
    ensures Slept(Strategy(b, jitter), took, late, attempts)
         <= b.totalWaitMax + Max(b.duration, b.individualWaitMax) + b.maxJitter
  {
    if attempts > 0 {
      var i := attempts - 1;
      assert Retried(Strategy(b, jitter), ops, took, late, i);
      var at := Returned(Strategy(b, jitter), took, late, i);
      assert Strategy(b, jitter)(i, at) == BackoffAt(b, i, at, jitter(i));
      BaseWaitBounded(b, i);
    }
  }

  // ----- the total limit -----

  /** The waits of n retries in a row, before jitter. */
  function Waits(b: ExponentialBackoff, n: nat): nat
  {
    if n == 0 then 0 else Waits(b, n - 1) + BaseWait(b, n - 1)
  }

  /** The longest n retries can possibly sleep. */
  function LongestSleep(b: ExponentialBackoff, n: nat): nat
  {
    if n == 0 then 0 else LongestSleep(b, n - 1) + BaseWait(b, n - 1) + b.maxJitter
  }

  lemma {:induction false} LongestSleepSum(b: ExponentialBackoff, n: nat)
    ensures LongestSleep(b, n) == Waits(b, n) + n * b.maxJitter
  {
    if n > 0 {
      LongestSleepSum(b, n - 1);
      assert n * b.maxJitter == (n - 1) * b.maxJitter + b.maxJitter;
    }
  }

  /** The first n waits stay within the largest Duration, whatever the jitter. */
  ghost predicate NeverOverflows(b: ExponentialBackoff, n: nat)
  {
    forall i :: 0 <= i < n ==> !Overflows(b, i, b.maxJitter)
  }

  /** A run that has slept n times, within its retries and with jitter in range. */
  ghost predicate SleepsTimes<T, E>(b: ExponentialBackoff, retries: nat, ops: nat -> Outcome<T, E>, took: nat -> nat,
                                    late: nat -> nat, jitter: nat -> nat, n: nat)
  {
    && n <= retries && (forall i :: jitter(i) <= b.maxJitter)
    && forall i :: 0 <= i < n ==> Retried(Strategy(b, jitter), ops, took, late, i)
  }

  lemma {:induction false} LongestSleepGrows(b: ExponentialBackoff, m: nat, n: nat)
    requires m <= n
    ensures LongestSleep(b, m) <= LongestSleep(b, n)
  {
    if m < n {
      LongestSleepGrows(b, m, n - 1);
    }
  }

  lemma {:induction false} SleptAtMost<T, E>(b: ExponentialBackoff, retries: nat, ops: nat -> Outcome<T, E>,
                                             took: nat -> nat, late: nat -> nat, jitter: nat -> nat, n: nat)
    requires SleepsTimes(b, retries, ops, took, late, jitter, n)
    ensures Slept(Strategy(b, jitter), took, late, n) <= LongestSleep(b, n)
  {
    if n > 0 {
      SleptAtMost(b, retries, ops, took, late, jitter, n - 1);
      assert Retried(Strategy(b, jitter), ops, took, late, n - 1);
      assert jitter(n - 1) <= b.maxJitter;
    }
  }

  /** Operations that fail at once, sleeps that end on time, and the longest jitter. */
  ghost predicate Worst<T, E>(b: ExponentialBackoff, ops: nat -> Outcome<T, E>, took: nat -> nat, late: nat -> nat,
                              jitter: nat -> nat)
  {
    forall i :: ops(i).Err? && ops(i).retryable && took(i) == 0 && late(i) == 0 && jitter(i) == b.maxJitter
  }

  lemma WorstStep<T, E>(b: ExponentialBackoff, ops: nat -> Outcome<T, E>, took: nat -> nat, late: nat -> nat,
                        jitter: nat -> nat, i: nat, slept: nat)
    requires !Overflows(b, i, b.maxJitter) && Worst(b, ops, took, late, jitter) && slept <= b.totalWaitMax
    requires Slept(Strategy(b, jitter), took, late, i) == slept == Returned(Strategy(b, jitter), took, late, i)
    ensures Retried(Strategy(b, jitter), ops, took, late, i)
    ensures Slept(Strategy(b, jitter), took, late, i + 1) == slept + BaseWait(b, i) + b.maxJitter
         == Returned(Strategy(b, jitter), took, late, i + 1)
  {
    assert jitter(i) == b.maxJitter;
  }

  /** As long as the limit is not passed, the worst run goes on and sleeps the longest. */
  lemma {:induction false} WorstRun<T, E>(b: ExponentialBackoff, ops: nat -> Outcome<T, E>, took: nat -> nat,
                                          late: nat -> nat, jitter: nat -> nat, n: nat)
    requires NeverOverflows(b, n) && Worst(b, ops, took, late, jitter)
    requires n > 0 ==> LongestSleep(b, n - 1) <= b.totalWaitMax
    ensures forall i :: 0 <= i < n ==> Retried(Strategy(b, jitter), ops, took, late, i)
    ensures Slept(Strategy(b, jitter), took, late, n) == LongestSleep(b, n)
         == Returned(Strategy(b, jitter), took, late, n)
  {
    if n > 0 {
      if n > 1 {
        LongestSleepGrows(b, n - 2, n - 1);
      }
      WorstRun(b, ops, took, late, jitter, n - 1);
      WorstStep(b, ops, took, late, jitter, n - 1, LongestSleep(b, n - 1));
    }
  }

  /** The first number of retries whose longest sleep passes the limit. */
  lemma {:induction false} FirstOverrun(b: ExponentialBackoff, retries: nat) returns (n: nat)
    requires LongestSleep(b, retries) > b.totalWaitMax
    ensures 0 < n <= retries && LongestSleep(b, n - 1) <= b.totalWaitMax < LongestSleep(b, n)
  {
    assert LongestSleep(b, 0) == 0;
    n := retries;
    if LongestSleep(b, retries - 1) > b.totalWaitMax {
      n := FirstOverrun(b, retries - 1);
    }
  }

  /**
   The total limit bounds the sleeps of every run with the given number of retries exactly when
   the longest they can possibly sleep is within it (for settings whose waits do not overflow).
   */
  lemma LimitHoldsIff<T, E>(b: ExponentialBackoff, retries: nat, e: E)
    requires NeverOverflows(b, retries)
    ensures (forall ops: nat -> Outcome<T, E>, took: nat -> nat, late: nat -> nat, jitter: nat -> nat, n: nat ::
               SleepsTimes(b, retries, ops, took, late, jitter, n) ==>
                 Slept(Strategy(b, jitter), took, late, n) <= b.totalWaitMax)
            <==> Waits(b, retries) + retries * b.maxJitter <= b.totalWaitMax
  {
    LongestSleepSum(b, retries);
    if LongestSleep(b, retries) <= b.totalWaitMax {
      forall ops: nat -> Outcome<T, E>, took: nat -> nat, late: nat -> nat, jitter: nat -> nat, n: nat
        | SleepsTimes(b, retries, ops, took, late, jitter, n)
        ensures Slept(Strategy(b, jitter), took, late, n) <= b.totalWaitMax
      {
        SleptAtMost(b, retries, ops, took, late, jitter, n);
        LongestSleepGrows(b, n, retries);
      }
    } else {
      var n := FirstOverrun(b, retries);
      var ops: nat -> Outcome<T, E> := _ => Err(e, true);
      var none: nat -> nat := _ => 0;
      var jitter: nat -> nat := _ => b.maxJitter;
      WorstRun(b, ops, none, none, jitter, n);
      assert SleepsTimes(b, retries, ops, none, none, jitter, n);
    }
  }

  /** The default strategy with its five retries keeps to its limit. */
  lemma DefaultKeepsLimit()
    ensures NeverOverflows(DEFAULT, DEFAULT_RETRIES)
    ensures Waits(DEFAULT, DEFAULT_RETRIES) == 2050 * MILLISECOND
    ensures Waits(DEFAULT, DEFAULT_RETRIES) + DEFAULT_RETRIES * DEFAULT.maxJitter <= DEFAULT.totalWaitMax
  {
    forall i | 0 <= i < DEFAULT_RETRIES ensures !Overflows(DEFAULT, i, DEFAULT.maxJitter) {
      NoOverflow(DEFAULT, i, DEFAULT.maxJitter);
    }
    assert Pow(3, 1) == 3 && Pow(3, 2) == 9 && Pow(3, 3) == 27;
    assert BaseWait(DEFAULT, 2) == 150 * MILLISECOND;
    assert BaseWait(DEFAULT, 3) == 450 * MILLISECOND;
    assert BaseWait(DEFAULT, 4) == 1350 * MILLISECOND;
    assert Waits(DEFAULT, 1) == 50 * MILLISECOND;
    assert Waits(DEFAULT, 2) == 100 * MILLISECOND;
    assert Waits(DEFAULT, 3) == 250 * MILLISECOND;
    assert Waits(DEFAULT, 4) == 700 * MILLISECOND;
    assert Waits(DEFAULT, 5) == 2050 * MILLISECOND;
  }

  /** A limit shorter than the first wait is passed by a single retry. */
  lemma ShortLimitIsPassed(b: ExponentialBackoff)
    requires b == ExponentialBackoff(3, SECOND, 0, 0, INDIVIDUAL_WAIT_MAX)
    ensures Built(b) && NeverOverflows(b, 1) && Waits(b, 1) + 1 * b.maxJitter > b.totalWaitMax
  {
    assert Waits(b, 1) == SECOND;
  }

  /** The two together: a run with exponential backoff. */
  method RetryWithBackoff<T, E>(b: ExponentialBackoff, retries: nat, ops: nat -> Outcome<T, E>, took: nat -> nat,
                                late: nat -> nat, jitter: nat -> nat)
    returns (r: Result<T, E>, attempts: nat, slept: nat)
    requires forall i :: jitter(i) <= b.maxJitter
    ensures attempts <= retries && forall i :: 0 <= i < attempts ==> ops(i).Err? && ops(i).retryable
    ensures r.Success? <==> ops(attempts).Ok?
    ensures match r
            case Success(v) => ops(attempts).value == v
            case Failure(e) => ops(attempts).error == e
            case Panicked => !CannotOverflow(b)
    ensures slept <= b.totalWaitMax + Max(b.duration, b.individualWaitMax) + b.maxJitter
  {
    r, attempts, slept := RetryAsync(Strategy(b, jitter), retries, ops, took, late);
    SleepsBounded(b, jitter, ops, took, late, attempts);
    if CannotOverflow(b) {
      NoOverflow(b, attempts, jitter(attempts));
    }
    forall i | 0 <= i < attempts ensures ops(i).Err? && ops(i).retryable {
      assert Retried(Strategy(b, jitter), ops, took, late, i);
    }
  }
}
