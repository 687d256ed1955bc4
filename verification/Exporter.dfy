/**
 ArchiveExporter (crates/xmtp_archive/src/exporter.rs): a pull-driven state machine
 that seals elements, frames them, compresses them, and hands the bytes out through
 caller buffers of any size.
 */
module Exporter {
  import opened Bytes
  import opened Wrappers
  import opened Nonce
  import opened Archive

  /** One poll of the element stream; the stream reports its end after the last event, for ever. */
  datatype StreamEvent = Item(element: BackupElement) | NotReady | Failure

  datatype Stage = NonceStage | MetadataStage | ElementsStage

  datatype PollRead = Ready(amount: nat) | Pending | Error

  datatype FillEnd = Filled | Exhausted | Blocked(r: PollRead)

  const FILL_LIMIT: nat := 8000

  function Delivered(script: seq<StreamEvent>): (es: seq<BackupElement>)
  {
    if script == [] then []
    else (if script[0].Item? then [script[0].element] else []) + Delivered(script[1..])
  }

  /** A write of ready-made bytes, or a poll that yields nothing and so ends the current fill. */
  datatype Todo = Put(data: bytes) | Block

  function Seal(s: Suite, n: nonce, e: BackupElement): bytes
  {
    Prefixed(s.cipher.enc(n, s.wire.ser(e)))
  }

  /** What the fills will see of a script whose elements are sealed from nonce n on. */
  function Todos(s: Suite, n: nonce, script: seq<StreamEvent>): (todo: seq<Todo>)
    ensures |todo| == |script|
    decreases |script|
  {
    if script == [] then []
    else match script[0]
      case Item(e) => [Put(Seal(s, n, e))] + Todos(s, Advance(n, 1), script[1..])
      case _ => [Block] + Todos(s, n, script[1..])
  }

  /**
   The whole operation history of the compressor, given its history so far, the sink
   length at which the current fill began, and what is still to come.
   Caller buffers do not appear: they cannot move a flush.
   */
  function Plan(z: Zstd, h: History, base: nat, todo: seq<Todo>): History
    decreases |todo|, |z.emit(h)| - base >= FILL_LIMIT
  {
    if |z.emit(h)| - base >= FILL_LIMIT then
      Plan(z, Then(h, Flush), |z.emit(Then(h, Flush))|, todo)
    else if todo == [] then
      Then(h, Close)
    else match todo[0]
      case Put(data) => Plan(z, Then(h, Write(data)), base, todo[1..])
      case Block => Plan(z, h, |z.emit(h)|, todo[1..])
  }

  /** The bytes a to-do list writes. */
  function Puts(todo: seq<Todo>): bytes
  {
    if todo == [] then []
    else (match todo[0] case Put(data) => data case Block => []) + Puts(todo[1..])
  }

  /** A finished compressor history: closed once, at the end, with w written before. */
  ghost predicate ClosedWith(plan: History, w: bytes)
  {
    plan.Then? && plan.op == Close && Open(plan.before) && Written(plan.before) == w
  }

  /** However the fills fall, the planned history writes exactly what is still to come and closes once, at the end. */
  lemma {:induction false} PlanWrites(z: Zstd, h: History, base: nat, todo: seq<Todo>)
    requires Open(h)
    ensures ClosedWith(Plan(z, h, base, todo), Written(h) + Puts(todo))
    decreases |todo|, |z.emit(h)| - base >= FILL_LIMIT
  {
    if |z.emit(h)| - base >= FILL_LIMIT {
      PlanWrites(z, Then(h, Flush), |z.emit(Then(h, Flush))|, todo);
    } else if todo == [] {
    } else if todo[0].Put? {
      PlanWrites(z, Then(h, Write(todo[0].data)), base, todo[1..]);
      ConcatAssoc(Written(h), todo[0].data, Puts(todo[1..]));
    } else {
      PlanWrites(z, h, |z.emit(h)|, todo[1..]);
    }
  }

  /** A plan only ever adds to what has been emitted. */
  lemma {:induction false} PlanExtends(z: Zstd, h: History, base: nat, todo: seq<Todo>)
    requires Appends(z)
    ensures z.emit(h) <= z.emit(Plan(z, h, base, todo))
    decreases |todo|, |z.emit(h)| - base >= FILL_LIMIT
  {
    if |z.emit(h)| - base >= FILL_LIMIT {
      PlanExtends(z, Then(h, Flush), |z.emit(Then(h, Flush))|, todo);
    } else if todo == [] {
    } else if todo[0].Put? {
      PlanExtends(z, Then(h, Write(todo[0].data)), base, todo[1..]);
    } else {
      PlanExtends(z, h, |z.emit(h)|, todo[1..]);
    }
  }

  /** Not-ready polls aside, a to-do list writes the frames of its elements under consecutive nonces. */
  lemma {:induction false} TodosPutFrames(s: Suite, n: nonce, script: seq<StreamEvent>)
    ensures Puts(Todos(s, n, script)) == Frames(s.cipher, n, SerAll(s.wire, Delivered(script)))
    decreases |script|
  {
    if script != [] {
      var rest := SerAll(s.wire, Delivered(script[1..]));
      if script[0].Item? {
        var e := script[0].element;
        TodosPutFrames(s, Advance(n, 1), script[1..]);
        assert SerAll(s.wire, Delivered(script)) == [s.wire.ser(e)] + rest;
        FramesCons(s.cipher, n, s.wire.ser(e), rest);
      } else {
        TodosPutFrames(s, n, script[1..]);
        assert Delivered(script) == Delivered(script[1..]);
      }
    }
  }

  /** The compressed body of an archive whose first element is the metadata. */
  function Body(s: Suite, n: nonce, save: BackupMetadataSave, script: seq<StreamEvent>): bytes
  {
    s.zstd.emit(Plan(s.zstd, Fresh, 0, Todos(s, n, [Item(Metadata(save))] + script)))
  }

  /** Decompressing the body gives the frames, wherever the element stream was not ready. */
  lemma BodyInflates(s: Suite, n: nonce, save: BackupMetadataSave, script: seq<StreamEvent>)
    requires Lossless(s.zstd)
    ensures s.zstd.inflate(Body(s, n, save, script))
         == Frames(s.cipher, n, SerAll(s.wire, [Metadata(save)] + Delivered(script)))
  {
    var all := [Item(Metadata(save))] + script;
    var plan := Plan(s.zstd, Fresh, 0, Todos(s, n, all));
    PlanWrites(s.zstd, Fresh, 0, Todos(s, n, all));
    TodosPutFrames(s, n, all);
    assert all[1..] == script;
    assert Delivered(all) == [Metadata(save)] + Delivered(script);
  }

  /** Polls of the element stream took it from `before` to `after`, and each gave an element. */
  ghost predicate Took(before: seq<StreamEvent>, after: seq<StreamEvent>)
  {
    && |after| <= |before|
    && after == before[|before| - |after|..]
    && forall i :: 0 <= i < |before| - |after| ==> before[i].Item?
  }

  /** They did so up to one that gave none, and that one is what r reports. */
  ghost predicate Halted(before: seq<StreamEvent>, after: seq<StreamEvent>, r: PollRead)
  {
    && |after| < |before|
    && var i := |before| - |after| - 1;
       && after == before[i + 1..]
       && (forall j :: 0 <= j < i ==> before[j].Item?)
       && ((r == Pending && before[i] == NotReady) || (r == Error && before[i] == Failure))
  }

  lemma TookTwice(a: seq<StreamEvent>, b: seq<StreamEvent>, c: seq<StreamEvent>)
    requires Took(a, b) && Took(b, c)
    ensures Took(a, c)
  {
    forall i | 0 <= i < |a| - |c| ensures a[i].Item? {
      assert i >= |a| - |b| ==> a[i] == b[i - (|a| - |b|)];
    }
  }

  lemma TookThenHalted(a: seq<StreamEvent>, b: seq<StreamEvent>, c: seq<StreamEvent>, r: PollRead)
    requires Took(a, b) && Halted(b, c, r)
    ensures Halted(a, c, r)
  {
    var i := |a| - |c| - 1;
    forall j | 0 <= j < i ensures a[j].Item? {
      assert j >= |a| - |b| ==> a[j] == b[j - (|a| - |b|)];
    }
    assert a[i] == b[|b| - |c| - 1];
  }

  /** One element of the plan. */
  lemma PlanItem(s: Suite, h: History, base: nat, n: nonce, e: BackupElement, rest: seq<StreamEvent>)
    requires |s.zstd.emit(h)| - base < FILL_LIMIT
    ensures Plan(s.zstd, h, base, Todos(s, n, [Item(e)] + rest))
         == Plan(s.zstd, Then(h, Write(Seal(s, n, e))), base, Todos(s, Advance(n, 1), rest))
  {
    assert ([Item(e)] + rest)[1..] == rest;
    assert Todos(s, n, [Item(e)] + rest)[1..] == Todos(s, Advance(n, 1), rest);
  }

  /** A full sink is flushed, and the next fill begins. */
  lemma PlanFlush(z: Zstd, h: History, base: nat, todo: seq<Todo>)
    requires |z.emit(h)| - base >= FILL_LIMIT
    ensures Plan(z, h, base, todo) == Plan(z, Then(h, Flush), |z.emit(Then(h, Flush))|, todo)
  {
  }

  /** A poll in the plan that gives none. */
  lemma PlanBlock(s: Suite, h: History, base: nat, n: nonce, event: StreamEvent, rest: seq<StreamEvent>)
    requires |s.zstd.emit(h)| - base < FILL_LIMIT && !event.Item?
    ensures Plan(s.zstd, h, base, Todos(s, n, [event] + rest)) == Plan(s.zstd, h, |s.zstd.emit(h)|, Todos(s, n, rest))
  {
    assert ([event] + rest)[1..] == rest;
    assert Todos(s, n, [event] + rest)[1..] == Todos(s, n, rest);
  }

  class ArchiveExporter {
    const suite: Suite
    const metadata: BackupMetadataSave
    const nonce: array<byte>
    var stage: Stage
    var stream: seq<StreamEvent>
    var position: nat
    var encoderFinished: bool
    var nonceBuffer: bytes
    // the compressor: what it has been asked so far, and its sink
    var ops: History
    var sink: bytes

    // every byte handed out so far, and all that was emitted before the sink was last cleared
    ghost var out: bytes
    ghost var emitted: bytes
    // the value of the nonce bytes
    ghost var counter: nonce
    ghost const header: bytes
    // the compressor history this export is heading for, fixed at construction
    ghost const plan: History

    ghost predicate Valid()
      reads this, nonce
    {
      Consistent() && OnPlan(|suite.zstd.emit(ops)|)
    }

    /** The buffers agree with what has been handed out. */
    ghost predicate Consistent()
      reads this, nonce
    {
      && Appends(suite.zstd)
      && NonceValid()
      && (encoderFinished ==> stream == [] && stage == ElementsStage)
      && position <= |sink|
      && SinkValid()
      && (if stage == NonceStage
          then ops == Fresh && nonceBuffer != [] && out + nonceBuffer == header
          else nonceBuffer == [] && out == header + (emitted + sink[..position]))
    }

    ghost predicate NonceValid()
      reads `counter, nonce
    {
      nonce.Length == NONCE_SIZE && NonceOf(nonce[..]) == counter
    }

    ghost predicate SinkValid()
      reads `ops, `sink, `emitted
    {
      emitted + sink == suite.zstd.emit(ops)
    }

    /** What is still to be sealed: the metadata first, unless it is done, then the elements. */
    ghost function Due(): seq<StreamEvent>
      reads `stage, `stream
    {
      if stage == ElementsStage then stream else [Item(Metadata(metadata))] + stream
    }

    /** The plan is what remains to be done, with the current fill begun at sink length b. */
    ghost predicate OnPlan(b: nat)
      reads `ops, `stage, `stream, `encoderFinished, `counter
    {
      plan == if encoderFinished then ops else Plan(suite.zstd, ops, b, Todos(suite, counter, Due()))
    }

    /** All the bytes this export will ever have handed out. */
    ghost function Goal(): bytes
    {
      header + suite.zstd.emit(plan)
    }

    /** `start` is the random nonce, `stream` the polls of the element stream. */
    constructor (suite: Suite, start: nonce, save: BackupMetadataSave, stream: seq<StreamEvent>)
      requires Appends(suite.zstd)
      ensures Valid() && fresh(nonce) && out == []
      ensures this.suite == suite && this.stream == stream && !encoderFinished
      ensures Goal() == Header(start) + Body(suite, start, save, stream)
    {
      this.suite := suite;
      metadata := save;
      stage := NonceStage;
      this.stream := stream;
      position := 0;
      encoderFinished := false;
      var bytes := NonceBytes(start);
      NonceBijection(start, bytes);
      nonceBuffer := LeBytes(BACKUP_VERSION, VERSION_SIZE) + bytes;
      ops, sink := Fresh, [];
      out, emitted, counter, header := [], [], start, Header(start);
      plan := Plan(suite.zstd, Fresh, 0, Todos(suite, start, [Item(Metadata(save))] + stream));
      nonce := new byte[NONCE_SIZE](i requires 0 <= i < NONCE_SIZE => bytes[i]);
      new;
      assert nonce[..] == bytes;
    }

    /** One operation of the compressor: whatever it emits is appended to the sink. */
    method Encode(op: Op)
      requires Appends(suite.zstd) && SinkValid()
      modifies this`ops, this`sink
      ensures ops == Then(old(ops), op) && SinkValid()
    {
      var before := suite.zstd.emit(ops);
      ops := Then(ops, op);
      assert before <= suite.zstd.emit(ops);
      sink := sink + suite.zstd.emit(ops)[|before|..];
    }

    /** Encrypts, prefixes and writes one element, and steps the nonce. */
    method WriteElement(e: BackupElement)
      requires Appends(suite.zstd) && SinkValid() && NonceValid()
      modifies this`ops, this`sink, this`counter, nonce
      ensures ops == Then(old(ops), Write(Seal(suite, old(counter), e))) && counter == Advance(old(counter), 1)
      ensures SinkValid() && NonceValid()
    {
      var op := Write(Seal(suite, NonceOf(nonce[..]), e));
      Increment(nonce);
      counter := Advance(counter, 1);
      Encode(op);
    }

    /** Copies to the front of the caller's buffer. */
    method CopyOut(buf: array<byte>, data: bytes)
      requires |data| <= buf.Length
      modifies buf
      ensures buf[..|data|] == data && buf[|data|..] == old(buf[|data|..])
    {
      forall i | 0 <= i < |data| {
        buf[i] := data[i];
      }
    }

    /** What the inner loop keeps. */
    ghost predicate Filling()
      reads `counter, nonce, `ops, `sink, `emitted, `stage, `stream, `encoderFinished
    {
      && Appends(suite.zstd) && SinkValid() && NonceValid() && stage != NonceStage
      && (encoderFinished ==> stream == [] && stage == ElementsStage && sink == [])
    }

    /**
     One round of the inner loop: seals the metadata, or else the element that a poll of the stream
     gives, or closes the compressor at its end; None to go on.
     */
    method Round() returns (end: Option<FillEnd>)
      requires Filling() && |sink| < FILL_LIMIT && OnPlan(|emitted|)
      modifies this`stage, this`stream, this`encoderFinished, this`ops, this`sink, this`counter, nonce
      ensures Appends(suite.zstd) && SinkValid() && NonceValid() && stage == ElementsStage
      ensures end == None ==>
                && !encoderFinished && Took(old(stream), stream) && OnPlan(|emitted|)
                && (|stream| < |old(stream)| || (stream == old(stream) && old(stage) == MetadataStage))
      ensures end.Some? ==> end.value == Exhausted || end.value.Blocked?
      ensures end == Some(Exhausted) ==>
                && encoderFinished && stream == old(stream) == [] && OnPlan(|emitted|)
                && (old(encoderFinished) ==> ops == old(ops) && sink == old(sink))
      ensures end.Some? && end.value.Blocked? ==>
                && !encoderFinished && Halted(old(stream), stream, end.value.r)
                && OnPlan(|suite.zstd.emit(ops)|)
    {
      assert |suite.zstd.emit(ops)| - |emitted| == |sink|;
      if stage == MetadataStage {
        PlanItem(suite, ops, |emitted|, counter, Metadata(metadata), stream);
        stage := ElementsStage;
        WriteElement(Metadata(metadata));
        return None;
      }
      if stream == [] {
        if !encoderFinished {
          encoderFinished := true;
          Encode(Close);
        }
        return Some(Exhausted);
      }
      var event := stream[0];
      assert stream == [event] + stream[1..];
      stream := stream[1..];
      match event {
        case NotReady =>
          PlanBlock(suite, ops, |emitted|, counter, event, stream);
          return Some(Blocked(Pending));
        case Failure =>
          PlanBlock(suite, ops, |emitted|, counter, event, stream);
          return Some(Blocked(Error));
        case Item(e) =>
          PlanItem(suite, ops, |emitted|, counter, e, stream);
          WriteElement(e);
          return None;
      }
    }

    /** The inner loop: seals elements until the sink holds 8000 bytes or nothing more is to be had. */
    method Fill() returns (end: FillEnd)
      requires Valid() && stage != NonceStage && position == 0 && sink == []
      modifies this`stage, this`stream, this`encoderFinished, this`ops, this`sink, this`counter, nonce
      ensures Appends(suite.zstd) && SinkValid() && NonceValid() && stage != NonceStage
      ensures encoderFinished ==> stream == [] && stage == ElementsStage
      ensures old(encoderFinished) ==> encoderFinished && ops == old(ops) && sink == [] && end == Exhausted
      ensures end == Filled ==> !encoderFinished && |sink| >= FILL_LIMIT
      ensures end == Exhausted ==> encoderFinished
      ensures end.Blocked? ==> !encoderFinished && Halted(old(stream), stream, end.r)
      ensures !end.Blocked? ==> Took(old(stream), stream)
      ensures OnPlan(if end.Blocked? then |suite.zstd.emit(ops)| else |emitted|)
    {
      while |sink| < FILL_LIMIT
        invariant Filling() && encoderFinished == old(encoderFinished)
        invariant encoderFinished ==> ops == old(ops)
        invariant Took(old(stream), stream) && OnPlan(|emitted|)
        decreases |stream|, stage == MetadataStage
      {
        ghost var ahead := stream;
        var round := Round();
        if round.Some? {
          if round.value.Blocked? {
            TookThenHalted(old(stream), ahead, stream, round.value.r);
          }
          return round.value;
        }
        TookTwice(old(stream), ahead, stream);
      }
      return Filled;
    }

    /** The sink is consumed and starts afresh. */
    method Clear()
      requires Valid() && stage != NonceStage && position == |sink|
      modifies this`sink, this`position, this`emitted
      ensures Valid() && position == 0 && sink == [] && out == header + emitted && emitted == suite.zstd.emit(ops)
    {
      assert sink[..position] == sink;
      position := 0;
      sink := [];
      emitted := suite.zstd.emit(ops);
      assert emitted + [] == emitted;
    }

    /** The sink is consumed: clears it, fills it again, and flushes unless the compressor is closed. */
    method Refill() returns (end: FillEnd)
      requires Valid() && stage != NonceStage && position == |sink|
      modifies this`stage, this`stream, this`encoderFinished, this`ops, this`sink, this`position, this`emitted,
               this`counter, nonce
      ensures Valid() && stage != NonceStage && position == 0
      ensures end.Blocked? ==> Halted(old(stream), stream, end.r)
      ensures !end.Blocked? ==> Took(old(stream), stream)
      ensures !end.Blocked? && sink == [] ==> encoderFinished && out == Goal()
      ensures old(encoderFinished) ==> encoderFinished && !end.Blocked? && sink == []
    {
      Clear();
      end := Fill();
      if !encoderFinished && !end.Blocked? {
        PlanFlush(suite.zstd, ops, |emitted|, Todos(suite, counter, Due()));
        Encode(Flush);
      }
      assert sink[..0] == [] && emitted + [] == emitted;
    }

    /** What has been handed out is always the beginning of the goal. */
    lemma OutWithinGoal()
      requires Valid()
      ensures out <= Goal()
    {
      if !encoderFinished {
        PlanExtends(suite.zstd, ops, |suite.zstd.emit(ops)|, Todos(suite, counter, Due()));
      }
    }

    method ServeHeader(buf: array<byte>) returns (amount: nat)
      requires Valid() && buf != nonce && stage == NonceStage
      modifies this`stage, this`nonceBuffer, this`out, buf
      ensures Valid() && stream == old(stream)
      ensures amount <= buf.Length && out == old(out) + buf[..amount] && buf[amount..] == old(buf[amount..])
      ensures amount == 0 ==> buf.Length == 0
    {
      amount := if |nonceBuffer| < buf.Length then |nonceBuffer| else buf.Length;
      CopyOut(buf, nonceBuffer[..amount]);
      MoveAcross(out, nonceBuffer, amount);
      out := out + nonceBuffer[..amount];
      nonceBuffer := nonceBuffer[amount..];
      if nonceBuffer == [] {
        stage := MetadataStage;
      }
    }

    method ServeSink(buf: array<byte>) returns (amount: nat)
      requires Valid() && buf != nonce && stage != NonceStage && position < |sink|
      modifies this`position, this`out, buf
      ensures Valid()
      ensures amount <= buf.Length && out == old(out) + buf[..amount] && buf[amount..] == old(buf[amount..])
      ensures amount == 0 ==> buf.Length == 0
    {
      var available := sink[position..];
      amount := if |available| < buf.Length then |available| else buf.Length;
      CopyOut(buf, available[..amount]);
      TakeMore(header, emitted, sink, position, amount);
      out := out + available[..amount];
      position := position + amount;
    }

    /**
     One poll.  Whatever the buffer, the bytes handed out so far followed by those of
     this call are the next bytes of the goal, which never moves; a zero-length read
     into a nonempty buffer means the whole goal has been handed out, and it then stays so.
     Elements are taken from the stream in order; the poll is pending or fails exactly
     as the first poll of the stream that gives no element.
     */
    method PollRead(buf: array<byte>) returns (r: PollRead)
      requires Valid() && buf != nonce
      modifies this, nonce, buf
      ensures Valid()
      ensures r.Ready? ==> r.amount <= buf.Length && out == old(out) + buf[..r.amount]
                           && buf[r.amount..] == old(buf[r.amount..])
      ensures r.Ready? ==> Took(old(stream), stream)
      ensures !r.Ready? ==> out == old(out) && Halted(old(stream), stream, r)
      ensures r == Ready(0) && buf.Length > 0 ==> encoderFinished && out == Goal()
      ensures old(encoderFinished && out == Goal()) ==> r == Ready(0) && encoderFinished
    {
      while true
        invariant Valid() && out == old(out)
        invariant Took(old(stream), stream)
        invariant stage != NonceStage && position == |sink| ==> stream == old(stream)
        invariant buf[..] == old(buf[..])
        invariant old(encoderFinished && out == Goal()) ==> encoderFinished && position == |sink|
        decreases stage != NonceStage && position == |sink|
      {
        if stage == NonceStage {
          var amount := ServeHeader(buf);
          return Ready(amount);
        }
        if position < |sink| {
          var amount := ServeSink(buf);
          return Ready(amount);
        }
        var end := Refill();
        if end.Blocked? {
          return end.r;
        }
        if sink == [] {
          return Ready(0);
        }
      }
    }
  }

  /**
   Reads an export to its end through the given sequence of nonempty buffers, polling
   again whenever it is not ready.  The output depends on the buffers in no way: it is
   the header followed by the compressed body.
   */
  method ExportAll(s: Suite, start: nonce, save: BackupMetadataSave, script: seq<StreamEvent>, bufs: nat -> nat)
    returns (archive: bytes)
    requires Appends(s.zstd)
    requires forall i :: bufs(i) > 0
    ensures archive == Header(start) + Body(s, start, save, script)
  {
    var exporter := new ArchiveExporter(s, start, save, script);
    archive := [];
    var i := 0;
    while true
      invariant exporter.Valid() && fresh(exporter) && fresh(exporter.nonce)
      invariant exporter.Goal() == Header(start) + Body(s, start, save, script)
      invariant archive == exporter.out
      decreases |exporter.Goal()| - |archive|, |exporter.stream|
    {
      exporter.OutWithinGoal();
      var buf := new byte[bufs(i)];
      var r := exporter.PollRead(buf);
      i := i + 1;
      if r.Ready? {
        if r.amount == 0 {
          return;
        }
        archive := archive + buf[..r.amount];
      }
    }
  }
}
