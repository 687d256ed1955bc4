/**
 Jittered interval ticks (crates/xmtp_common/src/time.rs).  A tokio interval keeps its
 deadlines anchored at its start and fires missed ticks at once; each tick is then delayed
 by a fresh random draw.  The consumer asks for the next tick as soon as it has one.
 */
module Jitter {
  import opened Time

  /** The interval's state: when its next tick is due. */
  datatype Interval = Interval(due: nat)

  /** A poll at time `now` fires at once if the tick is due, and otherwise when it is. */
  function FiresAt(i: Interval, now: nat): nat
  {
    Max(i.due, now)
  }

  /** The next deadline is one period after this one, however late this tick fired. */
  function Rearmed(i: Interval, base: nat): Interval
  {
    Interval(i.due + base)
  }

  /** The interval before tick n, and the time the consumer asks for it. */
  function Before(start: nat, base: nat, draw: nat -> nat, n: nat): (Interval, nat)
  {
    if n == 0 then (Interval(start), start)
    else
      var (i, now) := Before(start, base, draw, n - 1);
      (Rearmed(i, base), FiresAt(i, now) + draw(n - 1))
  }

  /** When tick n is yielded; `start` is the boot time plus the start-up offset. */
  function Yield(start: nat, base: nat, draw: nat -> nat, n: nat): nat
  {
    var (i, now) := Before(start, base, draw, n);
    FiresAt(i, now) + draw(n)
  }

  lemma {:induction false} Anchored(start: nat, base: nat, draw: nat -> nat, n: nat)
    ensures Before(start, base, draw, n).0 == Interval(start + n * base)
  {
    if n > 0 {
      Anchored(start, base, draw, n - 1);
      assert (n - 1) * base + base == n * base;
    }
  }

  /** Each tick is yielded a draw after the later of its anchored deadline and the tick before. */
  lemma Recurrence(start: nat, base: nat, draw: nat -> nat, n: nat)
    ensures Yield(start, base, draw, 0) == start + draw(0)
    ensures Yield(start, base, draw, n + 1)
         == Max(start + (n + 1) * base, Yield(start, base, draw, n)) + draw(n + 1)
  {
    Anchored(start, base, draw, n + 1);
  }

  ghost predicate DrawsWithin(draw: nat -> nat, jitter: nat)
  {
    forall n: nat :: draw(n) <= jitter
  }

  /** No tick comes before its anchored deadline. */
  lemma {:induction false} NeverEarly(start: nat, base: nat, draw: nat -> nat, n: nat)
    ensures Yield(start, base, draw, n) >= start + n * base
  {
    if n > 0 {
      Recurrence(start, base, draw, n - 1);
    } else {
      Recurrence(start, base, draw, 0);
    }
  }

  /** With a jitter of at most one period the ticks stay anchored for ever. */
  lemma {:induction false} StaysAnchored(start: nat, base: nat, jitter: nat, draw: nat -> nat, n: nat)
    requires jitter <= base && DrawsWithin(draw, jitter)
    ensures Yield(start, base, draw, n) == start + n * base + draw(n)
  {
    if n == 0 {
      Recurrence(start, base, draw, 0);
    } else {
      StaysAnchored(start, base, jitter, draw, n - 1);
      Recurrence(start, base, draw, n - 1);
      assert (n - 1) * base + base == n * base;
    }
  }

  /** For any jitter, the gap between two ticks is within the jitter of one period. */
  lemma GapsBounded(start: nat, base: nat, jitter: nat, draw: nat -> nat, n: nat)
    requires DrawsWithin(draw, jitter)
    ensures var gap := Yield(start, base, draw, n + 1) - Yield(start, base, draw, n);
            (if jitter < base then base - jitter else 0) <= gap <= base + jitter
  {
    Recurrence(start, base, draw, n);
    NeverEarly(start, base, draw, n);
    assert (n + 1) * base == n * base + base;
    if jitter <= base {
      StaysAnchored(start, base, jitter, draw, n);
    }
  }

  /** Tick n falls within the jitter after its anchored deadline. */
  ghost predicate OnSchedule(start: nat, base: nat, jitter: nat, draw: nat -> nat, n: nat)
  {
    start + n * base <= Yield(start, base, draw, n) <= start + n * base + jitter
  }

  /** Every tick of every run stays on schedule exactly when the jitter is at most one period. */
  lemma OnScheduleIff(start: nat, base: nat, jitter: nat)
    ensures (forall draw: nat -> nat, n: nat :: DrawsWithin(draw, jitter) ==> OnSchedule(start, base, jitter, draw, n))
            <==> jitter <= base
  {
    if jitter <= base {
      forall draw: nat -> nat, n: nat | DrawsWithin(draw, jitter) ensures OnSchedule(start, base, jitter, draw, n) {
        StaysAnchored(start, base, jitter, draw, n);
      }
    } else {
      var worst: nat -> nat := n => jitter;
      Recurrence(start, base, worst, 0);
      assert Yield(start, base, worst, 1) == start + jitter + jitter;
      assert DrawsWithin(worst, jitter) && !OnSchedule(start, base, jitter, worst, 1);
    }
  }

  /** The first tick comes within twice the jitter of boot, start-up offset included. */
  lemma FirstTick(boot: nat, offset: nat, base: nat, jitter: nat, draw: nat -> nat)
    requires offset <= jitter && DrawsWithin(draw, jitter)
    ensures boot <= Yield(boot + offset, base, draw, 0) <= boot + 2 * jitter
  {
    Recurrence(boot + offset, base, draw, 0);
  }
}
