/**
 StreamCloser (bindings/node/src/streams.rs) over a native TokioStreamHandle
 (crates/xmtp_common/src/stream_handles.rs): many callers race to take one handle out of
 a mutex-guarded option, end the task, and wait for it.
 */
module NativeCloser {
  import opened Wrappers

  datatype StreamResult = StreamOk | StreamErr(message: string)

  /** How a task ends: with its own result, cancelled by an abort, or by a panic. */
  datatype TaskEnd = Completed(result: StreamResult) | Cancelled | Panicked(message: string)

  datatype Reply = ReplyOk | ReplyErr(message: string)

  /**
   Callers of end_and_wait: queued for the lock, joining the task with the lock held, replied
   to (`own`: with the task's own outcome).  Callers of wait_for_ready: queued, waiting for the
   readiness signal with the lock held, done.  Abandoned: the future was dropped.
   */
  datatype Caller = AwaitLock | Joining | Replied(reply: Reply, own: bool)
                  | ReadyAwaitLock | ReadyHolding | ReadyDone | Abandoned

  /**
   `taken` names who took the handle out of the option, if anybody did.  `signalled`: the task has
   sent its readiness signal.  `receiver`: the handle still has the receiver of that signal, which
   the first wait_for_ready takes.
   */
  datatype Closer = Closer(task: Option<TaskEnd>, aborted: bool, signalled: bool, receiver: bool,
                           taken: Option<nat>, lock: Option<nat>, callers: map<nat, Caller>)

  /** A new closer, over a task spawned with a readiness receiver or without. */
  function Initial(receiver: bool): Closer
  {
    Closer(None, false, false, receiver, None, None, map[])
  }

  datatype Step =
    | End
    | TaskReady
    | TaskEnds(how: TaskEnd)
    | CallEndAndWait(id: nat)
    | Acquire(id: nat)
    | Join(id: nat)
    | CallWaitForReady(id: nat)
    | ReadyAcquire(id: nat)
    | ReadySignal(id: nat)
    | DropCall(id: nat)
    | DropJoin(id: nat)

  predicate Is(s: Closer, id: nat, c: Caller)
  {
    id in s.callers && s.callers[id] == c
  }

  /** A receiver resolves when the signal is sent, or dropped unsent with the task that ends. */
  predicate Resolves(s: Closer)
  {
    s.signalled || s.task.Some?
  }

  predicate Enabled(s: Closer, step: Step)
  {
    match step
    case End => true
    case TaskReady => s.task.None? && !s.signalled
    case TaskEnds(how) => s.task.None? && (how == Cancelled ==> s.aborted)
    case CallEndAndWait(id) => id !in s.callers
    case Acquire(id) => Is(s, id, AwaitLock) && s.lock.None?
    case Join(id) => Is(s, id, Joining) && s.task.Some?
    case CallWaitForReady(id) => id !in s.callers
    case ReadyAcquire(id) => Is(s, id, ReadyAwaitLock) && s.lock.None?
    case ReadySignal(id) => Is(s, id, ReadyHolding) && Resolves(s)
    case DropCall(id) => Is(s, id, AwaitLock) || Is(s, id, ReadyAwaitLock) || Is(s, id, ReadyHolding)
    case DropJoin(id) => Is(s, id, Joining)
  }

  /** What end_and_wait makes of the joined task. */
  function ReplyFor(e: TaskEnd): Reply
  {
    match e
    case Cancelled => ReplyOk
    case Panicked(m) => ReplyErr(m)
    case Completed(StreamOk) => ReplyOk
    case Completed(StreamErr(m)) => ReplyErr(m)
  }

  function With(s: Closer, id: nat, c: Caller): Closer
  {
    s.(callers := s.callers[id := c])
  }

  function Take(s: Closer, step: Step): Closer
    requires Enabled(s, step)
  {
    match step
    case End => s.(aborted := true)
    case TaskReady => s.(signalled := true)
    case TaskEnds(how) => s.(task := Some(how))
    // a finished task is not waited for
    case CallEndAndWait(id) => With(s, id, if s.task.Some? then Replied(ReplyOk, false) else AwaitLock)
    // the first to get the lock takes the handle, aborts the task, and keeps the lock across the join
    case Acquire(id) =>
      if s.taken.None? then With(s, id, Joining).(taken := Some(id), aborted := true, lock := Some(id))
      else With(s, id, Replied(ReplyOk, false))
    case Join(id) => With(s, id, Replied(ReplyFor(s.task.value), true)).(lock := None)
    case CallWaitForReady(id) => With(s, id, ReadyAwaitLock)
    // the first to get the lock takes the receiver, and keeps the lock while it waits
    case ReadyAcquire(id) =>
      if s.taken.None? && s.receiver then With(s, id, ReadyHolding).(receiver := false, lock := Some(id))
      else With(s, id, ReadyDone)
    case ReadySignal(id) => With(s, id, ReadyDone).(lock := None)
    // a receiver that was taken is gone with its call
    case DropCall(id) =>
      With(s, id, Abandoned).(lock := if s.callers[id] == ReadyHolding then None else s.lock)
    // dropping a join releases the lock, and the handle is gone
    case DropJoin(id) => With(s, id, Abandoned).(lock := None)
  }

  predicate Legal(s: Closer, steps: seq<Step>)
    decreases |steps|
  {
    steps == [] || (Enabled(s, steps[0]) && Legal(Take(s, steps[0]), steps[1..]))
  }

  function Run(s: Closer, steps: seq<Step>): Closer
    requires Legal(s, steps)
    decreases |steps|
  {
    if steps == [] then s else Run(Take(s, steps[0]), steps[1..])
  }

  lemma {:induction false} RunAppend(s: Closer, first: seq<Step>, second: seq<Step>)
    requires Legal(s, first) && Legal(Run(s, first), second)
    ensures Legal(s, first + second) && Run(s, first + second) == Run(Run(s, first), second)
    decreases |first|
  {
    if first == [] {
      assert first + second == second;
    } else {
      RunAppend(Take(s, first[0]), first[1..], second);
      assert (first + second)[1..] == first[1..] + second;
    }
  }

  // ----- what every run keeps -----

  ghost predicate CallerInv(s: Closer, id: nat)
    requires id in s.callers
  {
    match s.callers[id]
    case Joining => s.lock == Some(id) && s.taken == Some(id) && s.aborted
    case ReadyHolding => s.lock == Some(id) && s.taken.None? && !s.receiver
    case Replied(reply, true) => s.taken == Some(id) && s.task.Some? && reply == ReplyFor(s.task.value)
    case Replied(reply, false) => reply == ReplyOk
    case _ => true
  }

  ghost predicate Inv(s: Closer)
  {
    && (forall id :: id in s.callers ==> CallerInv(s, id))
    && (s.lock.Some? ==> Is(s, s.lock.value, Joining) || Is(s, s.lock.value, ReadyHolding))
  }

  /** Only the holder of the lock joins, or waits for readiness. */
  lemma HolderIsUnique(s: Closer)
    requires Inv(s)
    ensures forall id: nat :: Is(s, id, Joining) || Is(s, id, ReadyHolding) ==> s.lock == Some(id)
  {
    forall id: nat | Is(s, id, Joining) || Is(s, id, ReadyHolding) ensures s.lock == Some(id) {
      assert CallerInv(s, id);
    }
  }

  /** A caller that a step does not touch. */
  lemma OtherCallerKept(s: Closer, t: Closer, id: nat)
    requires id in s.callers && CallerInv(s, id) && id in t.callers && t.callers[id] == s.callers[id]
    requires s.task.Some? ==> t.task == s.task
    requires s.taken.Some? ==> t.taken == s.taken
    requires s.aborted ==> t.aborted
    requires !s.receiver ==> !t.receiver
    requires s.lock == Some(id) ==> t.lock == s.lock && t.taken == s.taken
    ensures CallerInv(t, id)
  {
  }

  /** The step of another caller, or of the task. */
  lemma StepKeepsOther(s: Closer, step: Step, id: nat)
    requires Inv(s) && Enabled(s, step) && id in s.callers && Take(s, step).callers[id] == s.callers[id]
    ensures CallerInv(Take(s, step), id)
  {
    HolderIsUnique(s);
    OtherCallerKept(s, Take(s, step), id);
  }

  /** A caller's own step. */
  lemma StepKeepsOwn(s: Closer, step: Step, id: nat)
    requires Inv(s) && Enabled(s, step) && id in Take(s, step).callers
    requires id in s.callers ==> Take(s, step).callers[id] != s.callers[id]
    ensures CallerInv(Take(s, step), id)
  {
    assert id in s.callers ==> CallerInv(s, id);
    match step {
      case CallEndAndWait(_) =>
      case Acquire(_) =>
      case Join(_) =>
      case CallWaitForReady(_) =>
      case ReadyAcquire(_) =>
      case ReadySignal(_) =>
      case DropCall(_) =>
      case DropJoin(_) =>
    }
  }

  lemma StepKeepsInv(s: Closer, step: Step)
    requires Inv(s) && Enabled(s, step)
    ensures Inv(Take(s, step))
  {
    var t := Take(s, step);
    forall id | id in t.callers ensures CallerInv(t, id) {
      if id in s.callers && t.callers[id] == s.callers[id] {
        StepKeepsOther(s, step, id);
      } else {
        StepKeepsOwn(s, step, id);
      }
    }
    HolderIsUnique(s);
  }

  /** What is settled stays so: the task's end, who has the handle, and that the receiver is gone. */
  ghost predicate Settled(s: Closer, t: Closer)
  {
    && (s.task.Some? ==> t.task == s.task)
    && (s.taken.Some? ==> t.taken == s.taken)
    && (!s.receiver ==> !t.receiver)
  }

  lemma StepSettles(s: Closer, step: Step)
    requires Enabled(s, step)
    ensures Settled(s, Take(s, step))
  {
  }

  lemma {:induction false} RunKeepsInv(s: Closer, steps: seq<Step>)
    requires Inv(s) && Legal(s, steps)
    ensures Inv(Run(s, steps)) && Settled(s, Run(s, steps))
    decreases |steps|
  {
    if steps != [] {
      StepKeepsInv(s, steps[0]);
      StepSettles(s, steps[0]);
      RunKeepsInv(Take(s, steps[0]), steps[1..]);
    }
  }

  /**
   In every run the task's own outcome reaches at most one caller, and reaches it unchanged: as Ok if the
   task was cancelled or completed well, as its message if it panicked or completed with an error.
   */
  lemma OwnResultReachesOne(receiver: bool, steps: seq<Step>, a: nat, b: nat)
    requires Legal(Initial(receiver), steps)
    requires var s := Run(Initial(receiver), steps);
             && a in s.callers && s.callers[a].Replied? && s.callers[a].own
             && b in s.callers && s.callers[b].Replied?
    ensures var s := Run(Initial(receiver), steps);
            && s.task.Some?
            && (s.callers[a].reply == ReplyOk <==> s.task.value == Cancelled || s.task.value == Completed(StreamOk))
            && (forall m :: s.callers[a].reply == ReplyErr(m) <==>
                              s.task.value == Panicked(m) || s.task.value == Completed(StreamErr(m)))
            && (a != b ==> s.callers[b] == Replied(ReplyOk, false))
  {
    RunKeepsInv(Initial(receiver), steps);
    var s := Run(Initial(receiver), steps);
    assert CallerInv(s, a) && CallerInv(s, b);
  }

  /** A caller that comes when the task has ended is answered at once. */
  lemma LateCallerAnswered(s: Closer, id: nat)
    requires s.task.Some? && id !in s.callers
    ensures Enabled(s, CallEndAndWait(id)) && Is(Take(s, CallEndAndWait(id)), id, Replied(ReplyOk, false))
  {
  }

  /** The handle leaves the option at most once: whoever has it at some point of a run has it at every later point. */
  lemma HandleTakenOnce(receiver: bool, first: seq<Step>, second: seq<Step>)
    requires Legal(Initial(receiver), first) && Legal(Run(Initial(receiver), first), second)
    requires Run(Initial(receiver), first).taken.Some?
    ensures Legal(Initial(receiver), first + second)
    ensures Run(Initial(receiver), first + second).taken == Run(Initial(receiver), first).taken
  {
    RunKeepsInv(Initial(receiver), first);
    RunAppend(Initial(receiver), first, second);
    RunKeepsInv(Run(Initial(receiver), first), second);
  }

  // ----- a return means that the task has ended -----

  /** No join is dropped while the task still runs. */
  predicate Undisturbed(s: Closer, steps: seq<Step>)
    requires Legal(s, steps)
    decreases |steps|
  {
    steps != [] ==> !(steps[0].DropJoin? && s.task.None?) && Undisturbed(Take(s, steps[0]), steps[1..])
  }

  /** Whenever an end_and_wait has returned, the task has ended. */
  ghost predicate Waited(s: Closer)
  {
    forall id :: id in s.callers && s.callers[id].Replied? ==> s.task.Some?
  }

  /** What holds besides the invariant as long as a run is undisturbed. */
  ghost predicate JoinInv(s: Closer)
  {
    Waited(s) && (s.taken.Some? ==> s.task.Some? || Is(s, s.taken.value, Joining))
  }

  /** What holds after a disturbance for as long as the task runs: the handle is gone, and nobody joins. */
  ghost predicate Orphaned(s: Closer)
  {
    s.task.None? ==> s.taken.Some? && s.lock.None? && forall id :: id in s.callers ==> s.callers[id] != Joining
  }

  lemma StepKeepsJoinInv(s: Closer, step: Step)
    requires Inv(s) && JoinInv(s) && Enabled(s, step) && !(step.DropJoin? && s.task.None?)
    ensures JoinInv(Take(s, step))
  {
    HolderIsUnique(s);
  }

  lemma DropOrphans(s: Closer, id: nat)
    requires Inv(s) && Enabled(s, DropJoin(id))
    ensures Orphaned(Take(s, DropJoin(id)))
  {
    HolderIsUnique(s);
    assert CallerInv(s, id);
  }

  lemma StepKeepsOrphaned(s: Closer, step: Step)
    requires Inv(s) && Orphaned(s) && Enabled(s, step)
    ensures Orphaned(Take(s, step))
  {
    HolderIsUnique(s);
  }

  lemma {:induction false} RunKeepsOrphaned(s: Closer, steps: seq<Step>)
    requires Inv(s) && Orphaned(s) && Legal(s, steps)
    ensures Orphaned(Run(s, steps))
    decreases |steps|
  {
    if steps != [] {
      StepKeepsInv(s, steps[0]);
      StepKeepsOrphaned(s, steps[0]);
      RunKeepsOrphaned(Take(s, steps[0]), steps[1..]);
    }
  }

  lemma {:induction false} RunKeepsJoinInv(s: Closer, steps: seq<Step>)
    requires Inv(s) && JoinInv(s) && Legal(s, steps)
    ensures if Undisturbed(s, steps) then JoinInv(Run(s, steps)) else Orphaned(Run(s, steps))
    decreases |steps|
  {
    if steps != [] {
      var t := Take(s, steps[0]);
      StepKeepsInv(s, steps[0]);
      if steps[0].DropJoin? && s.task.None? {
        DropOrphans(s, steps[0].id);
        RunKeepsOrphaned(t, steps[1..]);
      } else {
        StepKeepsJoinInv(s, steps[0]);
        RunKeepsJoinInv(t, steps[1..]);
      }
    }
  }

  /** Over every undisturbed interleaving: whenever any end_and_wait has returned, the task has ended. */
  lemma ReturnedMeansEnded(receiver: bool, steps: seq<Step>, id: nat)
    requires Legal(Initial(receiver), steps) && Undisturbed(Initial(receiver), steps)
    requires id in Run(Initial(receiver), steps).callers && Run(Initial(receiver), steps).callers[id].Replied?
    ensures Run(Initial(receiver), steps).task.Some?
  {
    RunKeepsJoinInv(Initial(receiver), steps);
  }

  lemma {:induction false} FreshId(ids: set<nat>) returns (id: nat)
    ensures forall x :: x in ids ==> x < id
  {
    id := 0;
    if ids != {} {
      var x :| x in ids;
      id := FreshId(ids - {x});
      assert forall y :: y in ids ==> y == x || y in ids - {x};
      id := if id <= x then x + 1 else id;
    }
  }

  /** In an orphaned state a new caller of end_and_wait is answered at once, while the task still runs. */
  lemma OrphanedBreaksTheWait(s: Closer) returns (more: seq<Step>)
    requires Orphaned(s) && s.task.None?
    ensures Legal(s, more) && Undisturbed(s, more) && !Waited(Run(s, more))
  {
    var late := FreshId(s.callers.Keys);
    var s1 := Take(s, CallEndAndWait(late));
    var s2 := Take(s1, Acquire(late));
    assert Is(s2, late, Replied(ReplyOk, false)) && s2.task.None?;
    var last: seq<Step> := [Acquire(late)];
    assert last[1..] == [];
    assert Legal(s2, []) && Run(s2, []) == s2 && Undisturbed(s2, []);
    assert Legal(s1, last) && Undisturbed(s1, last) && Run(s1, last) == s2;
    more := [CallEndAndWait(late)] + last;
    assert more[1..] == last;
  }

  ghost predicate StaysWaited(s: Closer, more: seq<Step>)
  {
    Legal(s, more) && Undisturbed(s, more) ==> Waited(Run(s, more))
  }

  /**
   The condition is exact: after any run, returns will mean that the task has ended, in every
   continuation that drops no join of a running task, if and only if the run dropped none either or
   the task has ended since.
   */
  lemma WaitSoundIff(receiver: bool, steps: seq<Step>)
    requires Legal(Initial(receiver), steps)
    ensures (forall more :: StaysWaited(Run(Initial(receiver), steps), more))
            <==> Undisturbed(Initial(receiver), steps) || Run(Initial(receiver), steps).task.Some?
  {
    var s := Run(Initial(receiver), steps);
    RunKeepsInv(Initial(receiver), steps);
    RunKeepsJoinInv(Initial(receiver), steps);
    if Undisturbed(Initial(receiver), steps) || s.task.Some? {
      forall more ensures StaysWaited(s, more) {
        if Legal(s, more) && Undisturbed(s, more) {
          RunKeepsInv(s, more);
          if s.task.None? {
            RunKeepsJoinInv(s, more);
          }
        }
      }
    } else {
      var more := OrphanedBreaksTheWait(s);
      assert !StaysWaited(s, more);
    }
  }

  // ----- who can be answered -----

  /**
   The steps that need nothing of the task and of the callers: locks are passed on, signals that were
   sent arrive, and an aborted task is cancelled.
   */
  predicate Prompt(step: Step)
  {
    step.Acquire? || step.Join? || step.ReadyAcquire? || step.ReadySignal? || step == TaskEnds(Cancelled)
  }

  /** A wait_for_ready holds the lock on a task that is neither ready, nor ended, nor aborted. */
  predicate Blocked(s: Closer)
  {
    && s.lock.Some? && Is(s, s.lock.value, ReadyHolding)
    && !s.signalled && s.task.None? && !s.aborted
  }

  ghost predicate AnsweredBy(s: Closer, id: nat, more: seq<Step>)
  {
    && Legal(s, more) && (forall i :: 0 <= i < |more| ==> Prompt(more[i]))
    && id in Run(s, more).callers && Run(s, more).callers[id].Replied?
  }

  /** What a blocked closer needs: the task getting ready or ending, an end, or the waiting call dropped. */
  predicate Unblocks(s: Closer, step: Step)
  {
    step.TaskReady? || step.TaskEnds? || step.End? || (step.DropCall? && s.lock == Some(step.id))
  }

  /** Until then it stays blocked, whatever else happens, and nobody queued for the lock is answered. */
  lemma {:induction false} BlockedUntil(s: Closer, steps: seq<Step>, id: nat)
    requires Inv(s) && Blocked(s) && Legal(s, steps) && (Is(s, id, AwaitLock) || Is(s, id, Abandoned))
    requires forall i :: 0 <= i < |steps| ==> !Unblocks(s, steps[i])
    ensures var t := Run(s, steps);
            Blocked(t) && t.lock == s.lock && (Is(t, id, AwaitLock) || Is(t, id, Abandoned))
    decreases |steps|
  {
    if steps != [] {
      var t := Take(s, steps[0]);
      StepKeepsInv(s, steps[0]);
      assert !Unblocks(s, steps[0]);
      HolderIsUnique(s);
      assert Blocked(t) && t.lock == s.lock;
      forall i | 0 <= i < |steps[1..]| ensures !Unblocks(t, steps[1..][i]) {
        assert !Unblocks(s, steps[i + 1]);
      }
      BlockedUntil(t, steps[1..], id);
    }
  }

  /** And each of these does unblock it. */
  lemma UnblocksFrees(s: Closer, step: Step)
    requires Inv(s) && Blocked(s) && Enabled(s, step) && Unblocks(s, step)
    ensures !Blocked(Take(s, step))
  {
  }

  // ----- a measure of what there is to do -----

  ghost function Queued(s: Closer): set<nat>
  {
    set id | id in s.callers && s.callers[id] in {AwaitLock, ReadyAwaitLock}
  }

  ghost function Holding(s: Closer): set<nat>
  {
    set id | id in s.callers && s.callers[id] in {Joining, ReadyHolding}
  }

  /** How many steps other than new calls and aborts can still be taken. */
  ghost function Work(s: Closer): nat
  {
    2 * |Queued(s)| + |Holding(s)| + (if s.task.None? then 1 else 0) + (if s.signalled then 0 else 1)
  }

  predicate Request(step: Step)
  {
    step.End? || step.CallEndAndWait? || step.CallWaitForReady?
  }

  /** Every step that is not a new request uses some of the work up. */
  lemma StepsUseWork(s: Closer, step: Step)
    requires Inv(s) && Enabled(s, step) && !Request(step)
    ensures Work(Take(s, step)) < Work(s)
  {
    var t := Take(s, step);
    if step.TaskEnds? || step.TaskReady? {
      assert Queued(t) == Queued(s) && Holding(t) == Holding(s);
    } else {
      MoveUsesWork(s, t, step.id);
    }
  }

  /** A caller that leaves the queue, or lets go of the lock, uses work up. */
  lemma MoveUsesWork(s: Closer, t: Closer, id: nat)
    requires id in Queued(s) + Holding(s) && id in t.callers
    requires t.callers == s.callers[id := t.callers[id]] && s.task == t.task && s.signalled == t.signalled
    requires id !in Queued(t) && (id in Holding(t) ==> id in Queued(s))
    ensures Work(t) < Work(s)
  {
    if id in Queued(s) {
      assert Queued(t) == Queued(s) - {id};
      assert Holding(t) <= Holding(s) + {id};
      assert Holding(t) == Holding(s) || Holding(t) == Holding(s) + {id};
    } else {
      assert Queued(t) == Queued(s);
      assert Holding(t) == Holding(s) - {id};
    }
  }

  predicate Waits(s: Closer, id: nat)
  {
    Is(s, id, AwaitLock) || Is(s, id, Joining)
  }

  /** While an end_and_wait waits and the closer is not blocked, a prompt step leads on. */
  lemma SomeoneCanMove(s: Closer, id: nat) returns (step: Step)
    requires Inv(s) && Waits(s, id) && !Blocked(s)
    ensures Enabled(s, step) && Prompt(step)
    ensures var t := Take(s, step);
            !Blocked(t) && (Waits(t, id) || (id in t.callers && t.callers[id].Replied?))
  {
    assert CallerInv(s, id);
    if s.lock.None? {
      return Acquire(id);
    }
    var holder := s.lock.value;
    assert CallerInv(s, holder);
    if s.task.None? && (s.aborted || s.callers[holder] == Joining) {
      return TaskEnds(Cancelled);
    }
    return if s.callers[holder] == ReadyHolding then ReadySignal(holder) else Join(holder);
  }

  /** Then it is answered within as many prompt steps as there is work left. */
  lemma {:induction false} Answered(s: Closer, id: nat) returns (more: seq<Step>)
    requires Inv(s) && Waits(s, id) && !Blocked(s)
    ensures AnsweredBy(s, id, more) && |more| <= Work(s)
    decreases Work(s)
  {
    var step := SomeoneCanMove(s, id);
    var t := Take(s, step);
    StepKeepsInv(s, step);
    StepsUseWork(s, step);
    var rest: seq<Step> := [];
    if Waits(t, id) {
      rest := Answered(t, id);
    }
    more := [step] + rest;
    assert more[1..] == rest;
  }

  /**
   A waiting end_and_wait can be answered without the task's or a caller's help exactly when the
   closer is not blocked.
   */
  lemma AnsweredIff(s: Closer, id: nat)
    requires Inv(s) && Waits(s, id)
    ensures (exists more :: AnsweredBy(s, id, more)) <==> !Blocked(s)
  {
    if !Blocked(s) {
      var more := Answered(s, id);
      assert AnsweredBy(s, id, more);
    } else {
      assert CallerInv(s, id) && CallerInv(s, s.lock.value);
      forall more ensures !AnsweredBy(s, id, more) {
        if more != [] && Legal(s, more) {
          BlockedNeedsMore(s, more[0]);
        }
      }
    }
  }

  lemma BlockedNeedsMore(s: Closer, step: Step)
    requires Inv(s) && Blocked(s) && Enabled(s, step)
    ensures !Prompt(step)
  {
    HolderIsUnique(s);
  }

  /** No prompt step is left. */
  ghost predicate Exhausted(s: Closer)
  {
    forall step :: Prompt(step) ==> !Enabled(s, step)
  }

  /** A run of prompt steps that cannot be extended. */
  ghost predicate Maximal(s: Closer, more: seq<Step>)
  {
    Legal(s, more) && (forall i :: 0 <= i < |more| ==> Prompt(more[i])) && Exhausted(Run(s, more))
  }

  /** Prompt steps run out: there are no more of them than there is work. */
  lemma {:induction false} PromptRunsEnd(s: Closer, more: seq<Step>)
    requires Inv(s) && Legal(s, more) && forall i :: 0 <= i < |more| ==> Prompt(more[i])
    ensures |more| <= Work(s)
    decreases |more|
  {
    if more != [] {
      assert Prompt(more[0]);
      StepsUseWork(s, more[0]);
      StepKeepsInv(s, more[0]);
      PromptRunsEnd(Take(s, more[0]), more[1..]);
    }
  }

  /** A wait_for_ready is queued that would block the closer if it got the lock. */
  ghost predicate Contended(s: Closer)
  {
    && s.lock.None? && s.receiver && s.taken.None? && !s.signalled && s.task.None? && !s.aborted
    && exists id :: Is(s, id, ReadyAwaitLock)
  }

  lemma StaysUncontended(s: Closer, step: Step)
    requires Inv(s) && !Blocked(s) && !Contended(s) && Prompt(step) && Enabled(s, step)
    ensures !Blocked(Take(s, step)) && !Contended(Take(s, step))
  {
    var t := Take(s, step);
    HolderIsUnique(s);
    assert step.ReadySignal? ==> CallerInv(s, step.id);
    assert forall id: nat :: Is(t, id, ReadyAwaitLock) ==> Is(s, id, ReadyAwaitLock);
  }

  /** A prompt step leaves an end_and_wait waiting, or answers it. */
  lemma PromptKeepsWaiting(s: Closer, step: Step, id: nat)
    requires Inv(s) && Waits(s, id) && Prompt(step) && Enabled(s, step)
    ensures var t := Take(s, step); Waits(t, id) || (id in t.callers && t.callers[id].Replied?)
  {
  }

  /** Nor does any prompt step take an answer back. */
  lemma {:induction false} RepliesStay(s: Closer, id: nat, more: seq<Step>)
    requires Legal(s, more) && id in s.callers && s.callers[id].Replied?
    ensures id in Run(s, more).callers && Run(s, more).callers[id] == s.callers[id]
    decreases |more|
  {
    if more != [] {
      RepliesStay(Take(s, more[0]), id, more[1..]);
    }
  }

  lemma {:induction false} MaximalAnswers(s: Closer, id: nat, more: seq<Step>)
    requires Inv(s) && Waits(s, id) && !Blocked(s) && !Contended(s) && Maximal(s, more)
    ensures AnsweredBy(s, id, more)
    decreases |more|
  {
    if more == [] {
      var step := SomeoneCanMove(s, id);
      assert false;
    } else {
      var t, rest := Take(s, more[0]), more[1..];
      assert Prompt(more[0]);
      StepKeepsInv(s, more[0]);
      StaysUncontended(s, more[0]);
      PromptKeepsWaiting(s, more[0], id);
      if Waits(t, id) {
        assert forall i :: 0 <= i < |rest| ==> rest[i] == more[i + 1];
        MaximalAnswers(t, id, rest);
      } else {
        RepliesStay(t, id, rest);
      }
    }
  }

  /** If a queued wait_for_ready gets the lock first, nothing prompt is left to do. */
  lemma ContendedCanBlock(s: Closer, id: nat) returns (more: seq<Step>)
    requires Inv(s) && Contended(s) && Is(s, id, AwaitLock)
    ensures Maximal(s, more) && !AnsweredBy(s, id, more)
  {
    var waiter :| Is(s, waiter, ReadyAwaitLock);
    var t := Take(s, ReadyAcquire(waiter));
    StepKeepsInv(s, ReadyAcquire(waiter));
    assert Blocked(t);
    forall step | Enabled(t, step) ensures !Prompt(step) {
      BlockedNeedsMore(t, step);
    }
    more := [ReadyAcquire(waiter)];
    assert Legal(t, []) && Run(t, []) == t;
    assert more[1..] == [];
    assert Run(s, more) == t;
  }

  /**
   However the prompt steps fall, once none is left a waiting end_and_wait has been answered: exactly
   when the closer is not blocked and no queued wait_for_ready could block it.
   */
  lemma AlwaysAnsweredIff(s: Closer, id: nat)
    requires Inv(s) && Waits(s, id)
    ensures (forall more :: Maximal(s, more) ==> AnsweredBy(s, id, more)) <==> !Blocked(s) && !Contended(s)
  {
    if !Blocked(s) && !Contended(s) {
      forall more | Maximal(s, more) ensures AnsweredBy(s, id, more) {
        MaximalAnswers(s, id, more);
      }
    } else {
      HolderIsUnique(s);
      if Blocked(s) {
        forall step | Enabled(s, step) ensures !Prompt(step) {
          BlockedNeedsMore(s, step);
        }
        assert Legal(s, []) && Run(s, []) == s;
        assert Maximal(s, []) && !AnsweredBy(s, id, []);
      } else {
        var more := ContendedCanBlock(s, id);
      }
    }
  }

  /** For instance: a wait_for_ready that came first blocks an end_and_wait on a task that is not ready. */
  lemma WaitForReadyBlocks()
    ensures var steps := [CallWaitForReady(0), ReadyAcquire(0), CallEndAndWait(1)];
            Legal(Initial(true), steps) && Blocked(Run(Initial(true), steps)) && Waits(Run(Initial(true), steps), 1)
  {
    var s0 := Initial(true);
    var s1 := Take(s0, CallWaitForReady(0));
    var s2 := Take(s1, ReadyAcquire(0));
    var s3 := Take(s2, CallEndAndWait(1));
    assert Legal(s3, []) && Run(s3, []) == s3;
    var c: seq<Step> := [CallEndAndWait(1)];
    assert c[1..] == [];
    assert Legal(s2, c) && Run(s2, c) == s3;
    var b: seq<Step> := [ReadyAcquire(0), CallEndAndWait(1)];
    assert b[1..] == c;
    assert Legal(s1, b) && Run(s1, b) == s3;
    assert [CallWaitForReady(0), ReadyAcquire(0), CallEndAndWait(1)][1..] == b;
  }

  /** And merely queued with it, it can come to that. */
  lemma WaitForReadyContends()
    ensures var steps := [CallWaitForReady(0), CallEndAndWait(1)];
            Legal(Initial(true), steps) && Contended(Run(Initial(true), steps)) && Waits(Run(Initial(true), steps), 1)
  {
    var s1 := Take(Initial(true), CallWaitForReady(0));
    var s2 := Take(s1, CallEndAndWait(1));
    assert Legal(s2, []) && Run(s2, []) == s2 && Is(s2, 0, ReadyAwaitLock);
    var b: seq<Step> := [CallEndAndWait(1)];
    assert b[1..] == [];
    assert Legal(s1, b) && Run(s1, b) == s2;
    assert [CallWaitForReady(0), CallEndAndWait(1)][1..] == b;
  }

  // ----- readiness -----

  /** Whenever a wait_for_ready has returned, the task was ready or has ended. */
  ghost predicate Readied(s: Closer)
  {
    forall id :: Is(s, id, ReadyDone) ==> Resolves(s)
  }

  /** A step that drops a call which the task still keeps waiting. */
  predicate GivesUp(s: Closer, step: Step)
  {
    || (step.DropJoin? && s.task.None?)
    || (step.DropCall? && Is(s, step.id, ReadyHolding) && !Resolves(s))
  }

  predicate Patient(s: Closer, steps: seq<Step>)
    requires Legal(s, steps)
    decreases |steps|
  {
    steps != [] ==> !GivesUp(s, steps[0]) && Patient(Take(s, steps[0]), steps[1..])
  }

  /** Either there is nothing to wait for, or somebody holds the lock on it, or the next caller can still wait. */
  ghost predicate ReadySound(s: Closer)
  {
    Readied(s) && (Resolves(s) || s.lock.Some? || (s.receiver && s.taken.None?))
  }

  lemma StepKeepsReadied(s: Closer, step: Step)
    requires ReadySound(s) && Enabled(s, step)
    ensures Readied(Take(s, step))
  {
    var t := Take(s, step);
    forall id: nat | Is(t, id, ReadyDone) ensures Resolves(t) {
      assert Is(s, id, ReadyDone) || step == ReadyAcquire(id) || step == ReadySignal(id);
    }
  }

  lemma StepKeepsReadySound(s: Closer, step: Step)
    requires Inv(s) && ReadySound(s) && Enabled(s, step) && !GivesUp(s, step)
    ensures ReadySound(Take(s, step))
  {
    HolderIsUnique(s);
    StepKeepsReadied(s, step);
  }

  lemma {:induction false} RunKeepsReadySound(s: Closer, steps: seq<Step>)
    requires Inv(s) && ReadySound(s) && Legal(s, steps) && Patient(s, steps)
    ensures ReadySound(Run(s, steps))
    decreases |steps|
  {
    if steps != [] {
      StepKeepsInv(s, steps[0]);
      StepKeepsReadySound(s, steps[0]);
      RunKeepsReadySound(Take(s, steps[0]), steps[1..]);
    }
  }

  /**
   Over every interleaving of calls on a task spawned with a receiver, in which no call is dropped
   that the task still keeps waiting: whenever any wait_for_ready has returned, the task was ready or
   has ended.
   */
  lemma ReturnedMeansReady(steps: seq<Step>)
    requires Legal(Initial(true), steps) && Patient(Initial(true), steps)
    ensures Readied(Run(Initial(true), steps))
  {
    RunKeepsReadySound(Initial(true), steps);
  }

  ghost predicate StaysReadied(s: Closer, more: seq<Step>)
  {
    Legal(s, more) && Patient(s, more) ==> Readied(Run(s, more))
  }

  /** With the lock free and nothing left to wait on, a new wait_for_ready returns at once. */
  lemma NothingToWaitOn(s: Closer) returns (more: seq<Step>)
    requires !Resolves(s) && s.lock.None? && !(s.receiver && s.taken.None?)
    ensures Legal(s, more) && Patient(s, more) && !Readied(Run(s, more))
  {
    var late := FreshId(s.callers.Keys);
    var s1 := Take(s, CallWaitForReady(late));
    var s2 := Take(s1, ReadyAcquire(late));
    assert Is(s2, late, ReadyDone) && !Resolves(s2);
    assert Legal(s2, []) && Run(s2, []) == s2 && Patient(s2, []);
    var last: seq<Step> := [ReadyAcquire(late)];
    assert last[1..] == [];
    assert Legal(s1, last) && Patient(s1, last) && Run(s1, last) == s2;
    more := [CallWaitForReady(late)] + last;
    assert more[1..] == last;
  }

  /**
   The condition is exact: from a state that satisfies the invariant, returns of wait_for_ready mean
   readiness in every patient continuation if and only if they do now and there is still a receiver
   to wait on, somebody who holds the lock on one, or nothing more to wait for.
   */
  lemma ReadySoundIff(s: Closer)
    requires Inv(s)
    ensures (forall more :: StaysReadied(s, more)) <==> ReadySound(s)
  {
    if ReadySound(s) {
      forall more ensures StaysReadied(s, more) {
        if Legal(s, more) && Patient(s, more) {
          RunKeepsReadySound(s, more);
        }
      }
    } else if Readied(s) {
      var more := NothingToWaitOn(s);
      assert !StaysReadied(s, more);
    } else {
      assert Legal(s, []) && Patient(s, []) && Run(s, []) == s;
      assert !StaysReadied(s, []);
    }
  }

  /** A wait_for_ready that is dropped takes the receiver with it: the next one returns before readiness. */
  lemma DroppedWaitHidesReadiness(s: Closer, first: nat, second: nat)
    requires Inv(s) && Is(s, first, ReadyHolding) && Is(s, second, ReadyAwaitLock) && !Resolves(s)
    ensures Legal(s, [DropCall(first), ReadyAcquire(second)])
    ensures !Readied(Run(s, [DropCall(first), ReadyAcquire(second)]))
  {
    assert CallerInv(s, first);
    var t := Take(s, DropCall(first));
    var last: seq<Step> := [ReadyAcquire(second)];
    assert last[1..] == [];
    var u := Take(t, ReadyAcquire(second));
    assert Legal(u, []) && Run(u, []) == u;
    assert Legal(t, last) && Run(t, last) == u;
    assert Is(u, second, ReadyDone) && !Resolves(u);
    assert [DropCall(first), ReadyAcquire(second)][1..] == last;
  }
}
