/**
 The wasm stream handle (crates/xmtp_common/src/stream_handles.rs): a local task that selects
 between an end signal and its future, sends one result, and then drops the signal channel.
 */
module WasmHandle {
  import opened Wrappers

  datatype Value = StreamClosed | Output(v: int)

  /** Still selecting; resolved, result not sent yet; result sent; task gone, with the signal receiver dropped. */
  datatype Task = Selecting | Resolved(value: Value) | SentResult | Gone

  /**
   `signal`: the one-slot channel holds an end signal.  `closers`: live senders, the handle's
   own included.  `future`: the wrapped future's value once it is ready.  `sent`: every result
   sent.  `signalled`: some end signal has ever been stored.
   */
  datatype Wasm = Wasm(signal: bool, closers: nat, future: Option<int>, task: Task, sent: seq<Value>, signalled: bool)

  const INITIAL := Wasm(false, 1, None, Selecting, [], false)

  datatype Step = TrySend | Clone | DropCloser | FutureReady(v: int) | Poll | SendResult | Finish

  predicate Enabled(s: Wasm, step: Step)
  {
    match step
    case TrySend => s.closers > 0
    case Clone => s.closers > 0
    case DropCloser => s.closers > 0
    case FutureReady(_) => s.future.None?
    case Poll => s.task == Selecting
    case SendResult => s.task.Resolved?
    case Finish => s.task == SentResult
  }

  /** CloserHandle::poll: ready on a stored signal; a channel with no senders left counts as never ready. */
  predicate CloserReady(s: Wasm)
  {
    s.signal
  }

  function Take(s: Wasm, step: Step): Wasm
    requires Enabled(s, step)
  {
    match step
    // a full or closed channel drops the signal
    case TrySend => if s.task == Gone || s.signal then s else s.(signal := true, signalled := true)
    case Clone => s.(closers := s.closers + 1)
    case DropCloser => s.(closers := s.closers - 1)
    case FutureReady(v) => s.(future := Some(v))
    // select polls the closer first
    case Poll =>
      if CloserReady(s) then s.(signal := false, task := Resolved(StreamClosed))
      else if s.future.Some? then s.(task := Resolved(Output(s.future.value)))
      else s
    case SendResult => s.(task := SentResult, sent := s.sent + [s.task.value])
    case Finish => s.(task := Gone)
  }

  /** AbortHandle::is_finished: the receiver of the signal channel is gone. */
  predicate IsFinished(s: Wasm)
  {
    s.task == Gone
  }

  predicate Legal(s: Wasm, steps: seq<Step>)
    decreases |steps|
  {
    steps == [] || (Enabled(s, steps[0]) && Legal(Take(s, steps[0]), steps[1..]))
  }

  function Run(s: Wasm, steps: seq<Step>): Wasm
    requires Legal(s, steps)
    decreases |steps|
  {
    if steps == [] then s else Run(Take(s, steps[0]), steps[1..])
  }

  ghost predicate Justified(s: Wasm, v: Value)
  {
    match v
    case StreamClosed => s.signalled
    case Output(x) => s.future == Some(x)
  }

  ghost predicate Inv(s: Wasm)
  {
    && (s.signal ==> s.signalled)
    && (match s.task
        case Selecting => s.sent == []
        case Resolved(v) => s.sent == [] && Justified(s, v)
        case _ => |s.sent| == 1 && Justified(s, s.sent[0]))
  }

  lemma {:induction false} RunKeepsInv(s: Wasm, steps: seq<Step>)
    requires Inv(s) && Legal(s, steps)
    ensures Inv(Run(s, steps))
    ensures TrySend !in steps ==> Run(s, steps).signalled == s.signalled
    decreases |steps|
  {
    if steps != [] {
      assert Inv(Take(s, steps[0]));
      assert TrySend !in steps ==> steps[0] != TrySend;
      RunKeepsInv(Take(s, steps[0]), steps[1..]);
    }
  }

  /**
   In every run at most one result is sent; a handle that reports finished has had its result
   sent; a result is the future's own value, or StreamClosed after an end signal was stored.
   */
  lemma ExactlyOneResult(steps: seq<Step>)
    requires Legal(INITIAL, steps)
    ensures var s := Run(INITIAL, steps);
            && |s.sent| <= 1
            && (IsFinished(s) ==> |s.sent| == 1)
            && (|s.sent| == 1 ==> Justified(s, s.sent[0]))
  {
    RunKeepsInv(INITIAL, steps);
  }

  /** The polls, sends and drops with which the task, left to itself, comes to its end. */
  function Remaining(task: Task): seq<Step>
  {
    match task
    case Selecting => [Poll, SendResult, Finish]
    case Resolved(_) => [SendResult, Finish]
    case SentResult => [Finish]
    case Gone => []
  }

  /** With an end signal or a ready future, the task by itself sends exactly one result and is then finished. */
  lemma {:induction false} TaskFinishes(s: Wasm)
    requires Inv(s) && (s.task == Selecting ==> s.signal || s.future.Some?)
    ensures Legal(s, Remaining(s.task))
    ensures IsFinished(Run(s, Remaining(s.task))) && |Run(s, Remaining(s.task)).sent| == 1
    decreases |Remaining(s.task)|
  {
    if s.task != Gone {
      var t := Take(s, Remaining(s.task)[0]);
      assert Remaining(s.task)[1..] == Remaining(t.task);
      TaskFinishes(t);
    }
  }

  /** Without an end signal, however many closers are cloned or dropped, only the future can end the task. */
  lemma DroppingClosersNeverEnds(steps: seq<Step>)
    requires Legal(INITIAL, steps) && TrySend !in steps
    ensures var s := Run(INITIAL, steps);
            && (s.future.None? ==> s.task == Selecting && s.sent == [])
            && (s.sent != [] ==> s.sent == [Output(s.future.value)])
  {
    RunKeepsInv(INITIAL, steps);
  }

  /** A state in which an end signal is on its way to being the result. */
  ghost predicate Closing(s: Wasm)
  {
    && (s.task == Selecting ==> s.signal && s.sent == [])
    && (s.task.Resolved? ==> s.task.value == StreamClosed && s.sent == [])
    && (s.task == SentResult || s.task == Gone ==> s.sent == [StreamClosed])
  }

  lemma {:induction false} ClosingStays(s: Wasm, steps: seq<Step>)
    requires Closing(s) && Legal(s, steps)
    ensures Closing(Run(s, steps))
    decreases |steps|
  {
    if steps != [] {
      assert Closing(Take(s, steps[0]));
      ClosingStays(Take(s, steps[0]), steps[1..]);
    }
  }

  /**
   An end signal stored before the task has resolved beats the future, even one that was ready
   already: in every continuation of such a run the only result ever sent is StreamClosed.
   */
  lemma SignalBeatsFuture(first: seq<Step>, second: seq<Step>)
    requires Legal(INITIAL, first) && Run(INITIAL, first).task == Selecting && Run(INITIAL, first).closers > 0
    requires Legal(Take(Run(INITIAL, first), TrySend), second)
    ensures var s := Run(Take(Run(INITIAL, first), TrySend), second);
            && (s.sent == [] || s.sent == [StreamClosed])
            && (IsFinished(s) ==> s.sent == [StreamClosed])
  {
    RunKeepsInv(INITIAL, first);
    ClosingStays(Take(Run(INITIAL, first), TrySend), second);
  }
}
