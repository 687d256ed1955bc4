/**
 The reconnect loop of the keepalive probe (apps/keepalive-probe/src/main.rs).  Times are
 nanoseconds since the start of the run.
 */
module Reconnect {
  import opened Wrappers
  import opened Time

  /** How one subscription ends: cut off at its budget, ended by the server, or never set up. */
  datatype Attempt = Cutoff(rx: nat) | Ended(reason: string, rx: nat) | Failed(error: string)

  datatype Outcome = Survived | Died(reason: string)

  datatype Result =
    | Ok(outcome: Outcome, runtime: nat, received: nat, disconnects: nat)
    | BadGroup
    | Err(error: string)

  datatype Args = Args(duration: nat, reconnect: bool, continual: bool)

  /**
   What the outside world does: attempt i, given its budget, and how long it takes; and how much
   longer than asked the sleep after it lasts.
   */
  datatype World = World(attempt: (nat, nat) -> Attempt, took: nat -> nat, late: nat -> nat)

  /** When attempt i begins, if every one before it was carried on from. */
  function Start(w: World, i: nat): nat
  {
    if i == 0 then 0 else Start(w, i - 1) + w.took(i - 1) + SECOND + w.late(i - 1)
  }

  function Budget(args: Args, w: World, i: nat): nat
  {
    if Start(w, i) <= args.duration then args.duration - Start(w, i) else 0
  }

  function At(args: Args, w: World, i: nat): Attempt
  {
    w.attempt(i, Budget(args, w, i))
  }

  function Payloads(a: Attempt): nat
  {
    match a
    case Cutoff(rx) => rx
    case Ended(_, rx) => rx
    case Failed(_) => 0
  }

  function Total(args: Args, w: World, n: nat): nat
  {
    if n == 0 then 0 else Total(args, w, n - 1) + Payloads(At(args, w, n - 1))
  }

  function Sum(xs: seq<nat>): nat
  {
    if xs == [] then 0 else Sum(xs[..|xs| - 1]) + xs[|xs| - 1]
  }

  /** What attempt i received: what it says, and nothing if it was never set up. */
  ghost predicate Received(args: Args, w: World, xs: seq<nat>)
  {
    forall i :: 0 <= i < |xs| ==>
      match At(args, w, i)
      case Cutoff(rx) => xs[i] == rx
      case Ended(_, rx) => xs[i] == rx
      case Failed(_) => xs[i] == 0
  }

  lemma {:induction false} TotalIsSum(args: Args, w: World, xs: seq<nat>)
    requires Received(args, w, xs)
    ensures Total(args, w, |xs|) == Sum(xs)
  {
    if xs != [] {
      TotalIsSum(args, w, xs[..|xs| - 1]);
    }
  }

  /** An attempt starts after those before it, a second of sleep for each, and what the sleeps were late. */
  lemma {:induction false} StartIsSum(w: World, xs: seq<nat>, ys: seq<nat>)
    requires |xs| == |ys| && forall i :: 0 <= i < |xs| ==> xs[i] == w.took(i) && ys[i] == w.late(i)
    ensures Start(w, |xs|) == Sum(xs) + |xs| * SECOND + Sum(ys)
  {
    if xs != [] {
      StartIsSum(w, xs[..|xs| - 1], ys[..|xs| - 1]);
    }
  }

  /** The first subscription is made and cannot be set up, in a run that gives up on that. */
  predicate SetupFails(args: Args, w: World)
  {
    args.duration >= SECOND && At(args, w, 0).Failed? && !args.continual
  }

  /** The first subscription is made and lost, in a run that may not reconnect. */
  predicate LostForGood(args: Args, w: World)
  {
    args.duration >= SECOND && !args.reconnect && !At(args, w, 0).Cutoff? && !SetupFails(args, w)
  }

  function Reason(a: Attempt): string
    requires !a.Cutoff?
  {
    if a.Ended? then a.reason else a.error
  }

  /** Attempt i had a second or more left, and was lost. */
  ghost predicate Lost(args: Args, w: World, i: nat)
  {
    Budget(args, w, i) >= SECOND && !At(args, w, i).Cutoff?
  }

  /** One attempt for every whole second. */
  function MaxAttempts(args: Args): nat
  {
    args.duration / SECOND
  }

  lemma {:induction false} StartsNoSooner(w: World, i: nat)
    ensures Start(w, i) >= i * SECOND
  {
    if i > 0 {
      StartsNoSooner(w, i - 1);
    }
  }

  lemma StartsFit(args: Args, w: World, i: nat)
    requires Budget(args, w, i) >= SECOND
    ensures i + 1 <= MaxAttempts(args)
  {
    StartsNoSooner(w, i);
    assert (i + 1) * SECOND <= args.duration;
  }

  /** The counts of a run that stops after n attempts, all but the last lost. */
  ghost predicate Counted(args: Args, w: World, n: nat, received: nat, disconnects: nat, cut: bool)
  {
    received == Total(args, w, n) && n == disconnects + if cut then 1 else 0
  }

  /** How a run of n attempts ended, told from its last attempt and the time that was left. */
  ghost predicate Ending(args: Args, w: World, n: nat, r: Result)
  {
    match r
    case Ok(Survived, runtime, received, disconnects) =>
      if n == 0 || Lost(args, w, n - 1)
      then Budget(args, w, n) < SECOND && runtime == Start(w, n) && Counted(args, w, n, received, disconnects, false)
      else At(args, w, n - 1).Cutoff? && Budget(args, w, n - 1) >= SECOND
           && runtime == Start(w, n - 1) + w.took(n - 1) && Counted(args, w, n, received, disconnects, true)
    case Ok(Died(reason), runtime, received, disconnects) =>
      && n == 1 && !args.reconnect && Lost(args, w, 0) && reason == Reason(At(args, w, 0)) && runtime == w.took(0)
      && Counted(args, w, 1, received, disconnects, false) && (At(args, w, 0).Failed? ==> args.continual)
    case Err(e) => n == 1 && Budget(args, w, 0) >= SECOND && At(args, w, 0) == Failed(e) && !args.continual
    case BadGroup => false
  }

  /** Where the loop stands when it is about to make attempt n. */
  ghost predicate Reached(args: Args, w: World, n: nat, now: nat, received: nat, disconnects: nat)
  {
    && now == Start(w, n) && received == Total(args, w, n) && disconnects == n
    && (n > 0 ==> args.reconnect && !SetupFails(args, w))
    && forall i :: 0 <= i < n ==> Lost(args, w, i)
  }

  /** A run that stopped after n attempts, and why it went on after each one but the last. */
  ghost predicate Stopped(args: Args, w: World, n: nat, r: Result)
  {
    && Ending(args, w, n, r)
    && (forall i :: 0 <= i < n - 1 ==> Lost(args, w, i))
    && (n > 1 || (n == 1 && r.Ok? && r.outcome.Survived? && r.disconnects == 1) ==>
          args.reconnect && !SetupFails(args, w))
  }

  /** The loop. */
  method Hold(args: Args, w: World) returns (r: Result, attempts: nat)
    ensures Stopped(args, w, attempts, r)
  {
    attempts := 0;
    var received, disconnects, now := 0, 0, 0;
    while true
      invariant Reached(args, w, attempts, now, received, disconnects)
      decreases if now <= args.duration then args.duration - now + 1 else 0
    {
      var budget := if now <= args.duration then args.duration - now else 0;
      if budget < SECOND {
        return Ok(Survived, now, received, disconnects), attempts;
      }
      var a := w.attempt(attempts, budget);
      now := now + w.took(attempts);
      attempts := attempts + 1;
      match a {
        case Cutoff(rx) =>
          received := received + rx;
          return Ok(Survived, now, received, disconnects), attempts;
        case Ended(reason, rx) =>
          received := received + rx;
          disconnects := disconnects + 1;
          if !args.reconnect {
            return Ok(Died(reason), now, received, disconnects), attempts;
          }
        case Failed(e) =>
          if !args.continual && disconnects == 0 && received == 0 {
            return Err(e), attempts;
          }
          disconnects := disconnects + 1;
          if !args.reconnect {
            return Ok(Died(e), now, received, disconnects), attempts;
          }
      }
      now := now + SECOND + w.late(attempts - 1);
    }
  }

  /**
   The run makes at most one attempt per second of its duration.  Its payload total is the sum over
   all attempts, and every attempt but one that is cut off is a disconnect.  It fails exactly when
   the group id is bad or the first attempt cannot be set up in a run that is not continual; it
   dies exactly when the first attempt is lost in a run that may not reconnect; and otherwise it
   survives, until it is cut off or less than a second is left.
   */
  method RunSubscribe(args: Args, group: Option<seq<nat>>, w: World) returns (r: Result, attempts: nat)
    ensures attempts <= MaxAttempts(args) && (!args.reconnect ==> attempts <= 1)
    ensures forall i :: 0 <= i < attempts - 1 ==> Lost(args, w, i)
    ensures r.BadGroup? <==> group.None?
    ensures r.Err? <==> group.Some? && SetupFails(args, w)
    ensures r.Ok? && r.outcome.Died? <==> group.Some? && LostForGood(args, w)
    ensures !r.BadGroup? ==> Stopped(args, w, attempts, r)
    ensures r.Ok? ==> forall xs :: |xs| == attempts && Received(args, w, xs) ==> r.received == Sum(xs)
    ensures r.Ok? ==>
              r.disconnects == attempts - if attempts > 0 && At(args, w, attempts - 1).Cutoff? then 1 else 0
    ensures r.Ok? && r.outcome.Died? ==>
              || (At(args, w, 0).Ended? && At(args, w, 0).reason == r.outcome.reason)
              || At(args, w, 0) == Failed(r.outcome.reason)
    ensures r.Err? ==> At(args, w, 0) == Failed(r.error)
  {
    attempts := 0;
    if group.None? {
      return BadGroup, attempts;
    }
    r, attempts := Hold(args, w);
    if attempts > 0 {
      StartsFit(args, w, attempts - 1);
    }
    forall xs | |xs| == attempts && Received(args, w, xs) ensures Total(args, w, attempts) == Sum(xs) {
      TotalIsSum(args, w, xs);
    }
  }

  /** Attempts and sleeps that take no longer than they must. */
  ghost predicate Instant(w: World)
  {
    forall j :: w.took(j) == 0 == w.late(j)
  }

  lemma {:induction false} InstantBudgets(args: Args, w: World, i: nat)
    requires Instant(w)
    ensures Start(w, i) == i * SECOND
    ensures Budget(args, w, i) >= SECOND <==> i < MaxAttempts(args)
  {
    if i > 0 {
      InstantBudgets(args, w, i - 1);
    }
  }

  /** The bound is reached: a run that reconnects and loses every attempt at once makes that many. */
  lemma BoundIsReached(args: Args, w: World, n: nat, r: Result)
    requires Stopped(args, w, n, r) && Instant(w)
    requires args.reconnect && !SetupFails(args, w) && forall i: nat :: !At(args, w, i).Cutoff?
    ensures n == MaxAttempts(args) && r.Ok? && r.outcome == Survived && r.disconnects == n
  {
    InstantBudgets(args, w, 0);
    InstantBudgets(args, w, n);
    if n > 0 {
      InstantBudgets(args, w, n - 1);
    }
  }

  // ----- continual runs -----

  const CENTURY: nat := 100 * 365 * 24 * 3600 * SECOND

  /** What the command line is turned into: a continual run reconnects, for a hundred years. */
  function Effective(args: Args): Args
  {
    if args.continual then Args(CENTURY, true, true) else args
  }

  /** A subscription is cut off only when its budget is used up. */
  ghost predicate Timely(w: World)
  {
    forall i: nat, budget: nat :: w.attempt(i, budget).Cutoff? ==> w.took(i) >= budget
  }

  /** Whatever the server does, a continual run never fails or dies, and lasts a hundred years less one second. */
  lemma ContinualLasts(args: Args, w: World, n: nat, r: Result)
    requires args.continual && Timely(w) && Stopped(Effective(args), w, n, r)
    ensures r.Ok? && r.outcome == Survived && r.runtime + SECOND > CENTURY
  {
    var e := Effective(args);
    assert n > 0 ==> Start(w, n - 1) + Budget(e, w, n - 1) >= CENTURY;
  }

  /** A worker in subscribe mode. */
  method SubscribeMode(args: Args, group: Option<seq<nat>>, w: World) returns (r: Result, attempts: nat)
    ensures attempts <= MaxAttempts(Effective(args))
    ensures r.BadGroup? <==> group.None?
    ensures args.continual && group.Some? && Timely(w) ==>
              r.Ok? && r.outcome == Survived && r.runtime + SECOND > CENTURY
  {
    r, attempts := RunSubscribe(Effective(args), group, w);
    if args.continual && group.Some? && Timely(w) {
      ContinualLasts(args, w, attempts, r);
    }
  }
}
