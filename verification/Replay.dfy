/**
 How an importer's polls go, replayed as a function of the bytes and of the decompressor's
 schedule (crates/xmtp_archive/src/importer.rs).  `element_len` is a local variable of one poll, so
 a poll that is given up with a drained prefix in hand forgets it; here is exactly when that
 happens, and what it costs.
 */
module Replay {
  import opened Bytes
  import opened Wrappers
  import opened Nonce
  import opened Archive

  const BUFFER_SIZE: nat := 1024

  /**
   One poll of the decompressor: it gives up to `size` bytes (at least one until its end), or is not
   ready, or fails.  Beyond the schedule it fills the buffer.
   */
  datatype ReadEvent = Chunk(size: nat) | Wait | Fault

  predicate Steady(polls: seq<ReadEvent>)
  {
    forall i :: 0 <= i < |polls| ==> polls[i].Chunk?
  }

  predicate FaultFree(polls: seq<ReadEvent>)
  {
    forall i :: 0 <= i < |polls| ==> !polls[i].Fault?
  }

  /** What an importer has buffered, what the decompressor has yet to give, and how its next polls go. */
  datatype Reader = Reader(decoded: bytes, unread: bytes, polls: seq<ReadEvent>)

  /** Everything still to be parsed. */
  function Owed(rd: Reader): bytes
  {
    rd.decoded + rd.unread
  }

  predicate Upcoming(rd: Reader, e: ReadEvent)
  {
    rd.polls != [] && rd.polls[0] == e
  }

  function Later(polls: seq<ReadEvent>): seq<ReadEvent>
  {
    if polls == [] then [] else polls[1..]
  }

  /** How many bytes a read gives that is ready; none only at the end. */
  function Amount(rd: Reader): (k: nat)
    ensures k <= |rd.unread| && k <= BUFFER_SIZE && (k == 0 <==> rd.unread == [])
  {
    var size :=
      if rd.polls == [] || !rd.polls[0].Chunk? || rd.polls[0].size > BUFFER_SIZE then BUFFER_SIZE
      else if rd.polls[0].size == 0 then 1
      else rd.polls[0].size;
    if size < |rd.unread| then size else |rd.unread|
  }

  /** After a read of k bytes. */
  function Pulled(rd: Reader, k: nat): Reader
    requires k <= |rd.unread|
  {
    Reader(rd.decoded + rd.unread[..k], rd.unread[k..], Later(rd.polls))
  }

  /**
   Where a poll stops: not ready or broken with a prefix of `len` in hand (none if 0), with a whole
   element of `len` bytes buffered, at a clean end, or nowhere.
   */
  datatype Halt = Waiting(len: nat) | Broken(len: nat) | Complete(len: nat) | Done | Stuck

  datatype Polled = Polled(halt: Halt, rest: Reader)

  function InHand(h: Halt): nat
  {
    if h.Waiting? || h.Broken? || h.Complete? then h.len else 0
  }

  /** The bytes of a prefix in hand. */
  function Credit(len: nat): nat
  {
    if len == 0 then 0 else PREFIX_SIZE
  }

  /** One poll, from the top of its loop with `len` in hand. */
  function Poll(rd: Reader, len: nat): (r: Polled)
    requires len < U32
    ensures |r.rest.polls| <= |rd.polls| && (r.halt.Waiting? ==> |r.rest.polls| < |rd.polls|)
    ensures |Owed(r.rest)| + Credit(InHand(r.halt)) <= |Owed(rd)| + Credit(len)
    ensures r.halt.Complete? ==> 0 < r.halt.len <= |r.rest.decoded| && r.halt.len < U32
    decreases |rd.unread|, |rd.decoded|
  {
    if Upcoming(rd, Wait) then Polled(Waiting(len), rd.(polls := Later(rd.polls)))
    else if Upcoming(rd, Fault) then Polled(Broken(len), rd.(polls := Later(rd.polls)))
    else
      var k := Amount(rd);
      var got := Pulled(rd, k);
      if len == 0 && |got.decoded| >= PREFIX_SIZE then
        var held := PrefixLen(got.decoded);
        var rest := got.(decoded := got.decoded[PREFIX_SIZE..]);
        if held != 0 && |rest.decoded| >= held then Polled(Complete(held), rest)
        else if k == 0 && rest.decoded == [] then Polled(Done, rest)
        else Poll(rest, held)
      else if len != 0 && |got.decoded| >= len then Polled(Complete(len), got)
      else if k == 0 then Polled(if got.decoded == [] then Done else Stuck, got)
      else Poll(got, len)
  }

  /** What the bytes owed begin with, given what is in hand. */
  function Facing(rd: Reader, len: nat): Parsed
    requires len < U32
  {
    if len == 0 then NextFrame(Owed(rd)) else AfterPrefix(len, Owed(rd))
  }

  /** The frame a poll sees does not depend on how the reads split the bytes. */
  ghost predicate Sees(f: Parsed, r: Polled)
  {
    match r.halt
    case Waiting(len) => len < U32 && Facing(r.rest, len) == f
    case Broken(len) => len < U32 && Facing(r.rest, len) == f
    case Complete(len) =>
      0 < len <= |r.rest.decoded| && f == Frame(r.rest.decoded[..len], r.rest.decoded[len..] + r.rest.unread)
    case Done => f == End && Owed(r.rest) == []
    case Stuck => f == Cut
  }

  lemma PulledOwes(rd: Reader, k: nat)
    requires k <= |rd.unread|
    ensures Owed(Pulled(rd, k)) == Owed(rd)
  {
    MoveAcross(rd.decoded, rd.unread, k);
  }

  /** Draining a prefix takes it into hand. */
  lemma DrainFaces(rd: Reader)
    requires |rd.decoded| >= PREFIX_SIZE
    ensures Facing(rd.(decoded := rd.decoded[PREFIX_SIZE..]), PrefixLen(rd.decoded)) == Facing(rd, 0)
  {
    SliceConcat(rd.decoded, rd.unread, PREFIX_SIZE);
  }

  lemma CompleteFaces(rd: Reader, len: nat)
    requires 0 < len < U32 && len <= |rd.decoded|
    ensures Facing(rd, len) == Frame(rd.decoded[..len], rd.decoded[len..] + rd.unread)
  {
    SliceConcat(rd.decoded, rd.unread, len);
  }

  lemma {:induction false} PollSees(rd: Reader, len: nat)
    requires len < U32 && (len != 0 ==> |rd.decoded| < len)
    ensures Sees(Facing(rd, len), Poll(rd, len))
    decreases |rd.unread|, |rd.decoded|
  {
    if !Upcoming(rd, Wait) && !Upcoming(rd, Fault) {
      var k := Amount(rd);
      var got := Pulled(rd, k);
      PulledOwes(rd, k);
      assert Facing(got, len) == Facing(rd, len);
      if len == 0 && |got.decoded| >= PREFIX_SIZE {
        var held := PrefixLen(got.decoded);
        var rest := got.(decoded := got.decoded[PREFIX_SIZE..]);
        DrainFaces(got);
        if held != 0 && |rest.decoded| >= held {
          CompleteFaces(rest, held);
        } else if !(k == 0 && rest.decoded == []) {
          PollSees(rest, held);
        }
      } else if len != 0 && |got.decoded| >= len {
        CompleteFaces(got, len);
      } else if k > 0 {
        PollSees(got, len);
      }
    }
  }

  /** A schedule without faults, or without stalls, stays so, and polls stop accordingly. */
  lemma {:induction false} PollKeepsSchedule(rd: Reader, len: nat)
    requires len < U32
    ensures var r := Poll(rd, len);
            && (FaultFree(rd.polls) ==> FaultFree(r.rest.polls) && !r.halt.Broken?)
            && (Steady(rd.polls) ==> Steady(r.rest.polls) && !r.halt.Broken? && !r.halt.Waiting?)
    decreases |rd.unread|, |rd.decoded|
  {
    if !Upcoming(rd, Wait) && !Upcoming(rd, Fault) {
      var k := Amount(rd);
      var got := Pulled(rd, k);
      if len == 0 && |got.decoded| >= PREFIX_SIZE {
        var rest := got.(decoded := got.decoded[PREFIX_SIZE..]);
        PollKeepsSchedule(rest, PrefixLen(got.decoded));
      } else if k > 0 {
        PollKeepsSchedule(got, len);
      }
    }
  }

  /**
   What of the schedule a poll used up, and how that made it stop: reads that gave something, and
   then a stall if it is waiting, or a fault if it is broken.
   */
  ghost predicate Heard(before: seq<ReadEvent>, after: seq<ReadEvent>, h: Halt)
  {
    && |after| <= |before|
    && var n := |before| - |after|;
       && after == before[n..]
       && (h.Waiting? ==> n > 0 && before[n - 1] == Wait)
       && (h.Broken? ==> n > 0 && before[n - 1] == Fault)
       && forall i :: 0 <= i < (if h.Waiting? || h.Broken? then n - 1 else n) ==> before[i].Chunk?
  }

  /** The last event used up is e. */
  predicate LastHeard(before: seq<ReadEvent>, after: seq<ReadEvent>, e: ReadEvent)
  {
    |after| < |before| && before[|before| - |after| - 1] == e
  }

  lemma HeardTells(before: seq<ReadEvent>, after: seq<ReadEvent>, h: Halt)
    requires Heard(before, after, h)
    ensures h.Waiting? <==> LastHeard(before, after, Wait)
    ensures h.Broken? <==> LastHeard(before, after, Fault)
  {
  }

  lemma HeardChunk(before: seq<ReadEvent>, after: seq<ReadEvent>, h: Halt)
    requires before == [] || before[0].Chunk?
    requires Heard(Later(before), after, h)
    ensures Heard(before, after, h)
  {
    if before != [] {
      var n := |before| - |after|;
      assert forall i :: 0 < i < |before| ==> before[i] == before[1..][i - 1];
    }
  }

  lemma HeardHere(before: seq<ReadEvent>, h: Halt)
    requires before == [] || before[0].Chunk?
    requires !h.Waiting? && !h.Broken?
    ensures Heard(before, Later(before), h)
  {
  }

  lemma HeardNone(before: seq<ReadEvent>, h: Halt)
    requires before != [] && ((h.Waiting? && before[0] == Wait) || (h.Broken? && before[0] == Fault))
    ensures Heard(before, Later(before), h)
  {
  }

  /** One read of a poll: it stops there with an answer, or goes on with what is then in hand. */
  lemma PollReads(rd: Reader, len: nat) returns (next: Option<(Reader, nat)>)
    requires len < U32 && !Upcoming(rd, Wait) && !Upcoming(rd, Fault)
    ensures next == None ==>
              var p := Poll(rd, len); p.rest.polls == Later(rd.polls) && !p.halt.Waiting? && !p.halt.Broken?
    ensures next.Some? ==>
              var (rest, held) := next.value;
              && held < U32 && rest.polls == Later(rd.polls) && Poll(rd, len) == Poll(rest, held)
              && (|rest.unread| < |rd.unread| || (|rest.unread| == |rd.unread| && |rest.decoded| < |rd.decoded|))
  {
    var k := Amount(rd);
    var got := Pulled(rd, k);
    if len == 0 && |got.decoded| >= PREFIX_SIZE {
      var held := PrefixLen(got.decoded);
      var rest := got.(decoded := got.decoded[PREFIX_SIZE..]);
      if (held != 0 && |rest.decoded| >= held) || (k == 0 && rest.decoded == []) {
        return None;
      }
      return Some((rest, held));
    }
    if (len != 0 && |got.decoded| >= len) || k == 0 {
      return None;
    }
    return Some((got, len));
  }

  /** A poll stops waiting exactly at the first stall it meets, and broken exactly at the first fault. */
  lemma {:induction false} PollHears(rd: Reader, len: nat)
    requires len < U32
    ensures Heard(rd.polls, Poll(rd, len).rest.polls, Poll(rd, len).halt)
    decreases |rd.unread|, |rd.decoded|
  {
    var p := Poll(rd, len);
    if Upcoming(rd, Wait) || Upcoming(rd, Fault) {
      HeardNone(rd.polls, p.halt);
    } else {
      var next := PollReads(rd, len);
      if next == None {
        HeardHere(rd.polls, p.halt);
      } else {
        PollHears(next.value.0, next.value.1);
        HeardChunk(rd.polls, p.rest.polls, p.halt);
      }
    }
  }

  // ----- polling until there is an answer -----

  /** `lost`: some poll was given up with a prefix in hand. */
  datatype Awaited = Awaited(halt: Halt, rest: Reader, lost: bool)

  function Await(rd: Reader): (r: Awaited)
    ensures !r.halt.Waiting? && |r.rest.polls| <= |rd.polls|
    ensures |Owed(r.rest)| + Credit(InHand(r.halt)) + (if r.lost then PREFIX_SIZE else 0) <= |Owed(rd)|
    ensures r.halt.Complete? ==> 0 < r.halt.len <= |r.rest.decoded| && r.halt.len < U32
    decreases |rd.polls|
  {
    var p := Poll(rd, 0);
    if p.halt.Waiting? then
      var r := Await(p.rest);
      r.(lost := r.lost || p.halt.len != 0)
    else Awaited(p.halt, p.rest, false)
  }

  lemma {:induction false} AwaitSees(rd: Reader)
    ensures !Await(rd).lost ==> Sees(NextFrame(Owed(rd)), Polled(Await(rd).halt, Await(rd).rest))
    decreases |rd.polls|
  {
    PollSees(rd, 0);
    if Poll(rd, 0).halt.Waiting? {
      AwaitSees(Poll(rd, 0).rest);
    }
  }

  lemma {:induction false} AwaitKeepsSchedule(rd: Reader)
    ensures var r := Await(rd);
            && (FaultFree(rd.polls) ==> FaultFree(r.rest.polls) && !r.halt.Broken?)
            && (Steady(rd.polls) ==> Steady(r.rest.polls) && !r.lost)
    decreases |rd.polls|
  {
    PollKeepsSchedule(rd, 0);
    if Poll(rd, 0).halt.Waiting? {
      AwaitKeepsSchedule(Poll(rd, 0).rest);
    }
  }

  // ----- a whole run -----

  /** What a run delivered, and whether it ever lost a prefix. */
  datatype Session = Session(imported: Imported, lost: bool)

  /** Polls to the end, to the first rejected frame or to the first failed read. */
  function Run(c: Cipher, n: nonce, rd: Reader): (s: Session)
    decreases |Owed(rd)|
  {
    var a := Await(rd);
    match a.halt
    case Done => Session(Imported([], Ended, n), a.lost)
    case Stuck => Session(Imported([], Spinning, n), a.lost)
    case Broken(_) => Session(Imported([], Faulted, n), a.lost)
    case Complete(len) =>
      match Unseal(c, n, a.rest.decoded[..len])
      case None => Session(Imported([], Rejected, n), a.lost)
      case Some((p, m)) =>
        var s := Run(c, m, a.rest.(decoded := a.rest.decoded[len..]));
        Session(s.imported.(plains := [p] + s.imported.plains), a.lost || s.lost)
  }

  /** No poll of the run is given up with a prefix in hand. */
  ghost predicate Harmless(c: Cipher, n: nonce, rd: Reader)
  {
    !Run(c, n, rd).lost
  }

  /**
   A harmless run is the one function of the bytes, wherever else it was not ready; a failed read
   cuts it short and does nothing worse.
   */
  lemma {:induction false} HarmlessRunIsImport(c: Cipher, n: nonce, rd: Reader)
    requires Harmless(c, n, rd)
    ensures var r, i := Run(c, n, rd).imported, Import(c, n, Owed(rd));
            r.plains <= i.plains && (r.ending != Faulted ==> r == i)
    decreases |Owed(rd)|
  {
    AwaitSees(rd);
    var a := Await(rd);
    if a.halt.Complete? {
      var len := a.halt.len;
      var u := Unseal(c, n, a.rest.decoded[..len]);
      if u.Some? {
        HarmlessRunIsImport(c, u.value.1, a.rest.(decoded := a.rest.decoded[len..]));
      }
    }
  }

  lemma {:induction false} RunKeepsSchedule(c: Cipher, n: nonce, rd: Reader)
    ensures FaultFree(rd.polls) ==> Run(c, n, rd).imported.ending != Faulted
    ensures Steady(rd.polls) ==> Harmless(c, n, rd)
    decreases |Owed(rd)|
  {
    AwaitKeepsSchedule(rd);
    var a := Await(rd);
    if a.halt.Complete? {
      var len := a.halt.len;
      var u := Unseal(c, n, a.rest.decoded[..len]);
      if u.Some? {
        RunKeepsSchedule(c, u.value.1, a.rest.(decoded := a.rest.decoded[len..]));
      }
    }
  }

  /** Conservation: what a run delivers, and the prefix it lost if it lost any, were all in its input. */
  lemma {:induction false} RunConserves(c: Cipher, n: nonce, rd: Reader)
    requires IdealAead(c)
    ensures FramedSize(Run(c, n, rd).imported.plains) + (if Run(c, n, rd).lost then PREFIX_SIZE else 0) <= |Owed(rd)|
    decreases |Owed(rd)|
  {
    var a := Await(rd);
    if a.halt.Complete? {
      var len := a.halt.len;
      var u := Unseal(c, n, a.rest.decoded[..len]);
      if u.Some? {
        var rest := a.rest.(decoded := a.rest.decoded[len..]);
        RunConserves(c, u.value.1, rest);
        UnsealSize(c, n, a.rest.decoded[..len]);
      }
    }
  }

  lemma UnsealSize(c: Cipher, n: nonce, ct: bytes)
    requires IdealAead(c) && Unseal(c, n, ct).Some?
    ensures |ct| == |Unseal(c, n, ct).value.0| + TAG_SIZE
  {
  }

  /** Frames come back as they were written exactly when the run is harmless. */
  lemma FramesComeBackIff(c: Cipher, n: nonce, ps: seq<bytes>, rd: Reader)
    requires IdealAead(c) && Fits(ps) && Owed(rd) == Frames(c, n, ps) && FaultFree(rd.polls)
    ensures Run(c, n, rd).imported.plains == ps <==> Harmless(c, n, rd)
    ensures Harmless(c, n, rd) ==> Run(c, n, rd).imported == Imported(ps, Ended, Advance(n, |ps|))
  {
    RunKeepsSchedule(c, n, rd);
    RunConserves(c, n, rd);
    FramesSize(c, n, ps);
    if Harmless(c, n, rd) {
      HarmlessRunIsImport(c, n, rd);
      FramesImport(c, n, ps);
    }
  }

  /** A read of just the prefix, followed by a stall, is given up with it in hand. */
  lemma PollStalls(b: bytes, later: seq<ReadEvent>)
    requires |b| > PREFIX_SIZE && PrefixLen(b[..PREFIX_SIZE]) != 0
    ensures Poll(Reader([], b, [Chunk(PREFIX_SIZE), Wait] + later), 0).halt == Waiting(PrefixLen(b[..PREFIX_SIZE]))
  {
    var rd := Reader([], b, [Chunk(PREFIX_SIZE), Wait] + later);
    assert rd.polls[0] == Chunk(PREFIX_SIZE) && Later(rd.polls) == [Wait] + later;
    assert Amount(rd) == PREFIX_SIZE;
    var got := Pulled(rd, PREFIX_SIZE);
    assert got.decoded == b[..PREFIX_SIZE];
    var after := got.(decoded := got.decoded[PREFIX_SIZE..]);
    assert after.decoded == [] && Upcoming(after, Wait);
    var held := PrefixLen(got.decoded);
    assert Poll(after, held).halt == Waiting(held);
    assert Poll(rd, 0) == Poll(after, held);
  }

  /** For instance: so the first frame is lost. */
  lemma StallAfterPrefix(c: Cipher, n: nonce, ps: seq<bytes>, later: seq<ReadEvent>)
    requires IdealAead(c) && Fits(ps) && ps != []
    ensures !Harmless(c, n, Reader([], Frames(c, n, ps), [Chunk(PREFIX_SIZE), Wait] + later))
  {
    var b := Frames(c, n, ps);
    FirstPrefix(c.enc(n, ps[0]), Frames(c, Advance(n, 1), ps[1..]));
    PollStalls(b, later);
    assert Await(Reader([], b, [Chunk(PREFIX_SIZE), Wait] + later)).lost;
  }

  lemma FirstPrefix(ct: bytes, rest: bytes)
    requires 0 < |ct| < U32
    ensures var b := Prefixed(ct) + rest;
            |b| > PREFIX_SIZE && PrefixLen(b[..PREFIX_SIZE]) == |ct|
  {
    var b := Prefixed(ct) + rest;
    assert b[..PREFIX_SIZE] == LeBytes(|ct|, PREFIX_SIZE);
    assert b[..PREFIX_SIZE][..PREFIX_SIZE] == b[..PREFIX_SIZE];
    assert Pow256(PREFIX_SIZE) == U32;
    LeRoundTrip(|ct|, PREFIX_SIZE);
  }

  /** And stalls before the first read, however many, do no harm. */
  lemma {:induction false} StallsFirst(c: Cipher, n: nonce, rd: Reader)
    requires Upcoming(rd, Wait)
    ensures Run(c, n, rd) == Run(c, n, rd.(polls := rd.polls[1..]))
  {
    assert Poll(rd, 0) == Polled(Waiting(0), rd.(polls := rd.polls[1..]));
    assert Await(rd) == Await(rd.(polls := rd.polls[1..]));
    assert Owed(rd) == Owed(rd.(polls := rd.polls[1..]));
  }
}
