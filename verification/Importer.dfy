/**
 ArchiveImporter (crates/xmtp_archive/src/importer.rs): re-chunks the decompressed
 stream, peels length prefixes, decrypts with the one-step legacy fallback, and
 delivers the elements.
 */
module Importer {
  import opened Bytes
  import opened Wrappers
  import opened Nonce
  import opened Archive
  import opened Replay

  datatype ArchiveError = MissingMetadata | AesGcm | IO | Decode

  datatype ReadResult = Got(data: bytes) | NotReady | Failed

  /** Spins stands for a poll that never returns: the loop is at a fixed point. */
  datatype PollNext = Pending | Finished | Element(element: BackupElement) | Error(error: ArchiveError) | Spins

  /** How a run ends on an answer that is not an element. */
  function EndingOf(r: PollNext): Ending
  {
    match r
    case Finished => Ended
    case Spins => Spinning
    case Error(IO) => Faulted
    case _ => Rejected
  }

  /** What an answer adds to the items delivered. */
  function Item(r: PollNext): Option<BackupElement>
  {
    if r.Element? then Some(r.element) else None
  }

  lemma DeCons(w: Wire, ps: seq<bytes>)
    requires ps != []
    ensures DeAll(w, ps) == [w.de(ps[0])] + DeAll(w, ps[1..])
  {
  }

  class ArchiveImporter {
    const suite: Suite
    const nonce: array<byte>
    var metadata: BackupMetadata
    var decoded: bytes
    // the decompressor: the bytes it has yet to give, and how its next polls go
    var unread: bytes
    var polls: seq<ReadEvent>

    // the value of the nonce bytes
    ghost var counter: nonce

    ghost predicate Valid()
      reads `counter, nonce
    {
      nonce.Length == NONCE_SIZE && NonceOf(nonce[..]) == counter
    }

    /** What there is still to read and how. */
    ghost function Input(): Reader
      reads `decoded, `unread, `polls
    {
      Reader(decoded, unread, polls)
    }

    constructor (suite: Suite, start: bytes, unread: bytes, polls: seq<ReadEvent>)
      requires |start| == NONCE_SIZE
      ensures Valid() && fresh(nonce) && counter == NonceOf(start) && this.suite == suite
      ensures Input() == Reader([], unread, polls)
    {
      this.suite := suite;
      this.unread := unread;
      this.polls := polls;
      decoded := [];
      metadata := BackupMetadata(0, [], 0, None, None);
      nonce := new byte[NONCE_SIZE](i requires 0 <= i < NONCE_SIZE => start[i]);
      counter := NonceOf(start);
      new;
      assert nonce[..] == start;
    }

    /** One read of the decompressor, as its schedule says. */
    method Read() returns (r: ReadResult)
      modifies `unread, `polls
      ensures r.NotReady? <==> Upcoming(old(Input()), Wait)
      ensures r.Failed? <==> Upcoming(old(Input()), Fault)
      ensures !r.Got? ==> Input() == old(Input()).(polls := Later(old(polls)))
      ensures r.Got? ==>
                var k := Amount(old(Input()));
                && r.data == old(unread)[..k] && |r.data| <= BUFFER_SIZE
                && Input() == old(Input()).(unread := old(unread)[k..], polls := Later(old(polls)))
    {
      var size := BUFFER_SIZE;
      if polls != [] {
        var event := polls[0];
        polls := polls[1..];
        match event {
          case Wait => return NotReady;
          case Fault => return Failed;
          case Chunk(n) => size := if n == 0 then 1 else if n < BUFFER_SIZE then n else BUFFER_SIZE;
        }
      }
      var k := if size < |unread| then size else |unread|;
      r := Got(unread[..k]);
      unread := unread[k..];
    }

    /**
     Decrypts one frame in place of the nonce: on failure tries one step back, and restores the nonce
     if that fails too.
     */
    method Decrypt(ct: bytes) returns (p: Option<bytes>)
      requires Valid()
      modifies `counter, nonce
      ensures Valid()
      ensures match Unseal(suite.cipher, old(counter), ct)
              case Some((q, next)) => p == Some(q) && next == Advance(counter, 1)
              case None => p == None && counter == old(counter)
    {
      p := suite.cipher.dec(NonceOf(nonce[..]), ct);
      if p.None? {
        StepsUndo(counter);
        Decrement(nonce);
        counter := Advance(counter, -1);
        p := suite.cipher.dec(NonceOf(nonce[..]), ct);
        if p.None? {
          Increment(nonce);
          counter := Advance(counter, 1);
        }
      }
    }

    /** What a plaintext is delivered as. */
    function Decoded(p: bytes): PollNext
    {
      match suite.wire.de(p)
      case Some(e) => Element(e)
      case None => Error(Decode)
    }

    /** Answer r, and the state it leaves, are right for a poll that stopped at h at nonce n. */
    ghost predicate Settles(h: Halt, rest: Reader, n: nonce, r: PollNext)
      requires h.Complete? ==> h.len <= |rest.decoded|
      reads `decoded, `unread, `polls, `counter
    {
      match h
      case Waiting(_) => r == Pending && Input() == rest && counter == n
      case Broken(_) => r == Error(IO) && Input() == rest && counter == n
      case Done => r == Finished && Input() == rest && counter == n
      case Stuck => r == Spins && Input() == rest && counter == n
      case Complete(len) =>
        match Unseal(suite.cipher, n, rest.decoded[..len])
        case None => r == Error(AesGcm) && Input() == rest && counter == n
        case Some((p, m)) =>
          r == Decoded(p) && Input() == rest.(decoded := rest.decoded[len..]) && counter == m
    }

    /** A whole element is buffered: decrypts it, and drops it from the buffer and steps the nonce if that worked. */
    method Deliver(len: nat) returns (r: PollNext)
      requires Valid() && 0 < len <= |decoded|
      modifies `decoded, `counter, nonce
      ensures Valid() && Settles(Complete(len), old(Input()), old(counter), r)
    {
      var p := Decrypt(decoded[..len]);
      if p.None? {
        return Error(AesGcm);
      }
      decoded := decoded[len..];
      Increment(nonce);
      counter := Advance(counter, 1);
      r := match suite.wire.de(p.value) case Some(e) => Element(e) case None => Error(Decode);
    }

    /** Answer r, and what is now owed, are right for a poll at nonce n that faced f. */
    ghost predicate Outcome(f: Parsed, n: nonce, r: PollNext)
      reads `decoded, `unread, `polls, `counter
    {
      match f
      case End => r == Finished && Owed(Input()) == [] && counter == n
      case Cut => r == Spins && counter == n
      case Frame(ct, rest) =>
        match Unseal(suite.cipher, n, ct)
        case None => r == Error(AesGcm) && counter == n && Owed(Input()) == ct + rest
        case Some((p, m)) => r == Decoded(p) && counter == m && Owed(Input()) == rest
    }

    lemma SettledOutcome(f: Parsed, h: Halt, rest: Reader, n: nonce, r: PollNext)
      requires Sees(f, Polled(h, rest)) && Settles(h, rest, n, r) && !h.Waiting? && !h.Broken?
      ensures Outcome(f, n, r)
    {
      if h.Complete? {
        MoveAcross([], rest.decoded, h.len);
        ConcatAssoc(rest.decoded[..h.len], rest.decoded[h.len..], rest.unread);
      }
    }

    /** The answers after which a run goes on. */
    predicate Carries(r: PollNext)
    {
      r.Element? || r == Error(Decode)
    }

    /** After an element the rest of the run follows it; after any other answer the run is over. */
    lemma RunStep(rd: Reader, n: nonce, r: PollNext)
      requires var a := Await(rd); Settles(a.halt, a.rest, n, r)
      ensures var before := Run(suite.cipher, n, rd).imported;
              if Carries(r) then
                var after := Run(suite.cipher, counter, Input()).imported;
                && before.plains != [] && before.plains[1..] == after.plains
                && suite.wire.de(before.plains[0]) == Item(r)
                && before.ending == after.ending && |Owed(Input())| < |Owed(rd)|
              else before.plains == [] && before.ending == EndingOf(r)
    {
    }

    /** Which kind of answer each stop gives, and that the schedule is left as it was then. */
    lemma SettledKinds(p: Polled, n: nonce, r: PollNext)
      requires p.halt.Complete? ==> p.halt.len <= |p.rest.decoded|
      requires Settles(p.halt, p.rest, n, r)
      ensures (r == Pending <==> p.halt.Waiting?) && (r == Error(IO) <==> p.halt.Broken?) && polls == p.rest.polls
    {
    }

    /** Answer r, with elementLen in hand if it is not one, is what the replay of a poll says. */
    ghost predicate Replays(p: Polled, n: nonce, r: PollNext, elementLen: nat)
      requires p.halt.Complete? ==> p.halt.len <= |p.rest.decoded|
      reads `decoded, `unread, `polls, `counter
    {
      Settles(p.halt, p.rest, n, r) && (p.halt.Waiting? || p.halt.Broken? ==> elementLen == p.halt.len)
    }

    /** The loop of one poll. */
    method Loop() returns (r: PollNext, elementLen: nat)
      requires Valid()
      modifies `decoded, `unread, `polls, `counter, nonce
      ensures Valid() && Replays(Poll(old(Input()), 0), old(counter), r, elementLen)
    {
      ghost var goal := Poll(Input(), 0);
      elementLen := 0;
      while true
        invariant Valid() && counter == old(counter)
        invariant elementLen < U32 && Poll(Input(), elementLen) == goal
        decreases |unread|, |decoded|
      {
        var read := Read();
        match read {
          case NotReady => return Pending, elementLen;
          case Failed => return Error(IO), elementLen;
          case Got(_) =>
        }
        decoded := decoded + read.data;

        var drained := elementLen == 0 && |decoded| >= PREFIX_SIZE;
        if drained {
          elementLen := PrefixLen(decoded);
          decoded := decoded[PREFIX_SIZE..];
        }

        if elementLen != 0 && |decoded| >= elementLen {
          assert goal == Polled(Complete(elementLen), Input());
          r := Deliver(elementLen);
          return;
        }

        if read.data == [] && decoded == [] {
          return Finished, elementLen;
        }
        // at the end of the input an iteration that drains nothing repeats for ever
        if read.data == [] && !drained {
          return Spins, elementLen;
        }
      }
    }

    /**
     One poll.  `elementLen` is the value of that local variable on return.  The poll goes as its
     replay says; it is given up with a prefix in hand exactly when the replay is.  Otherwise nothing
     is lost, and the answer is decided by the frame the owed bytes begin with, however the
     decompressor splits them.
     */
    method PollNext() returns (r: PollNext, elementLen: nat)
      requires Valid()
      modifies `decoded, `unread, `polls, `counter, nonce
      ensures Valid() && Replays(Poll(old(Input()), 0), old(counter), r, elementLen)
      ensures Heard(old(polls), polls, Poll(old(Input()), 0).halt)
      ensures r == Pending <==> LastHeard(old(polls), polls, Wait)
      ensures r == Error(IO) <==> LastHeard(old(polls), polls, Fault)
      ensures r == Pending || r == Error(IO) ==>
                elementLen < U32 && Facing(Input(), elementLen) == NextFrame(Owed(old(Input())))
      ensures r != Pending && r != Error(IO) ==> Outcome(NextFrame(Owed(old(Input()))), old(counter), r)
    {
      ghost var goal := Poll(Input(), 0);
      PollSees(Input(), 0);
      PollHears(Input(), 0);
      HeardTells(Input().polls, goal.rest.polls, goal.halt);
      r, elementLen := Loop();
      SettledKinds(goal, old(counter), r);
      if !goal.halt.Waiting? && !goal.halt.Broken? {
        SettledOutcome(NextFrame(Owed(old(Input()))), goal.halt, goal.rest, old(counter), r);
      }
    }

    /** Polls until there is an answer. */
    method Next() returns (r: PollNext)
      requires Valid()
      modifies `decoded, `unread, `polls, `counter, nonce
      ensures Valid() && var a := Await(old(Input())); Settles(a.halt, a.rest, old(counter), r)
      ensures !Await(old(Input())).lost && r != Error(IO) ==>
                Outcome(NextFrame(Owed(old(Input()))), old(counter), r)
    {
      ghost var goal := Await(Input());
      AwaitSees(Input());
      while true
        invariant Valid() && counter == old(counter)
        invariant var a := Await(Input()); a.halt == goal.halt && a.rest == goal.rest
        decreases |polls|
      {
        var elementLen;
        r, elementLen := PollNext();
        if r != Pending {
          if !goal.lost && r != Error(IO) {
            SettledOutcome(NextFrame(Owed(old(Input()))), goal.halt, goal.rest, old(counter), r);
          }
          return;
        }
      }
    }

    /** What the importer will still deliver, on the schedule it has. */
    ghost function Remaining(): (r: Archived)
      ensures r.Contents?
      reads `decoded, `unread, `polls, `counter, `metadata
    {
      var i := Run(suite.cipher, counter, Input()).imported;
      Contents(metadata, DeAll(suite.wire, i.plains), i.ending)
    }

    /** The same for what is delivered. */
    lemma RemainingStep(rd: Reader, n: nonce, r: PollNext)
      requires var a := Await(rd); Settles(a.halt, a.rest, n, r)
      ensures var before := Run(suite.cipher, n, rd).imported;
              if Carries(r) then
                && DeAll(suite.wire, before.plains) == [Item(r)] + Remaining().elements
                && before.ending == Remaining().ending && |Owed(Input())| < |Owed(rd)|
              else DeAll(suite.wire, before.plains) == [] && before.ending == EndingOf(r)
    {
      RunStep(rd, n, r);
      if Carries(r) {
        DeCons(suite.wire, Run(suite.cipher, n, rd).imported.plains);
      }
    }

    /** The next item for a consumer that goes on past elements that do not decode, or how the run ends. */
    method NextItem() returns (item: Option<Option<BackupElement>>, ending: Ending)
      requires Valid()
      modifies `decoded, `unread, `polls, `counter, nonce
      ensures Valid()
      ensures item.None? ==> old(Remaining()) == Contents(metadata, [], ending)
      ensures item.Some? ==>
                && old(Remaining()) == Contents(metadata, [item.value] + Remaining().elements, Remaining().ending)
                && |Owed(Input())| < |Owed(old(Input()))|
    {
      ghost var rd, n := Input(), counter;
      var next := Next();
      RemainingStep(rd, n, next);
      if Carries(next) {
        return Some(Item(next)), Ended;
      }
      return None, EndingOf(next);
    }
  }

  /** What an archive holds, as far as it can be read; Hangs when loading never returns. */
  datatype Archived =
    | Refused(error: ArchiveError)
    | Hangs
    | Contents(metadata: BackupMetadata, elements: seq<Option<BackupElement>>, ending: Ending)

  const HEADER_SIZE: nat := VERSION_SIZE + NONCE_SIZE

  function VersionOf(archive: bytes): nat
    requires |archive| >= HEADER_SIZE
  {
    LeVal(archive[..VERSION_SIZE])
  }

  function StartOf(archive: bytes): nonce
    requires |archive| >= HEADER_SIZE
  {
    NonceOf(archive[VERSION_SIZE..HEADER_SIZE])
  }

  function ReadArchive(s: Suite, archive: bytes): Archived
  {
    if |archive| < HEADER_SIZE then Refused(IO)
    else ReadBody(s, VersionOf(archive), Import(s.cipher, StartOf(archive), s.zstd.inflate(archive[HEADER_SIZE..])))
  }

  /** The first element must be the metadata; one that does not decode is delivered as an error and passed over. */
  function ReadBody(s: Suite, version: nat, i: Imported): Archived
  {
    if i.plains == [] then (if i.ending == Spinning then Hangs else Refused(MissingMetadata))
    else match s.wire.de(i.plains[0])
      case Some(Metadata(save)) =>
        Contents(FromMetadataSave(save, version), DeAll(s.wire, i.plains[1..]), i.ending)
      case _ => Refused(MissingMetadata)
  }

  /** How the import of an archive goes on a schedule. */
  function ImportSession(s: Suite, archive: bytes, polls: seq<ReadEvent>): Session
    requires |archive| >= HEADER_SIZE
  {
    Run(s.cipher, StartOf(archive), Reader([], s.zstd.inflate(archive[HEADER_SIZE..]), polls))
  }

  function ReplayArchive(s: Suite, archive: bytes, polls: seq<ReadEvent>): Archived
  {
    if |archive| < HEADER_SIZE then Refused(IO)
    else ReadBody(s, VersionOf(archive), ImportSession(s, archive, polls).imported)
  }

  /** No poll of the import is given up with a prefix in hand. */
  ghost predicate HarmlessImport(s: Suite, archive: bytes, polls: seq<ReadEvent>)
  {
    |archive| >= HEADER_SIZE ==> !ImportSession(s, archive, polls).lost
  }

  /** A harmless import is the one function of the archive bytes. */
  lemma HarmlessImportReads(s: Suite, archive: bytes, polls: seq<ReadEvent>)
    requires HarmlessImport(s, archive, polls) && FaultFree(polls)
    ensures ReplayArchive(s, archive, polls) == ReadArchive(s, archive)
  {
    if |archive| >= HEADER_SIZE {
      var body := s.zstd.inflate(archive[HEADER_SIZE..]);
      var rd := Reader([], body, polls);
      assert Owed(rd) == body;
      RunKeepsSchedule(s.cipher, StartOf(archive), rd);
      HarmlessRunIsImport(s.cipher, StartOf(archive), rd);
    }
  }

  /** A read that fails before the metadata is there is reported as missing metadata. */
  lemma FaultIsMissingMetadata(s: Suite, archive: bytes, later: seq<ReadEvent>)
    requires |archive| >= HEADER_SIZE
    ensures ReplayArchive(s, archive, [Fault] + later) == Refused(MissingMetadata)
  {
    var rd := Reader([], s.zstd.inflate(archive[HEADER_SIZE..]), [Fault] + later);
    assert Upcoming(rd, Fault) && !Upcoming(rd, Wait);
    assert Poll(rd, 0).halt == Broken(0);
    assert Await(rd).halt == Broken(0);
  }

  datatype LoadResult = Loaded(importer: ArchiveImporter) | LoadFailed(error: ArchiveError) | LoadHangs

  /** Reads the header, then the metadata element; a failed read is a missing one. */
  method Load(s: Suite, archive: bytes, polls: seq<ReadEvent>) returns (r: LoadResult)
    ensures r.Loaded? ==> fresh(r.importer) && fresh(r.importer.nonce) && r.importer.Valid() && r.importer.suite == s
    ensures ReplayArchive(s, archive, polls) ==
            match r
            case LoadFailed(e) => Refused(e)
            case LoadHangs => Hangs
            case Loaded(importer) => importer.Remaining()
  {
    if |archive| < HEADER_SIZE {
      return LoadFailed(IO);
    }
    var version := LeVal(archive[..VERSION_SIZE]);
    var start := archive[VERSION_SIZE..HEADER_SIZE];
    var body := s.zstd.inflate(archive[HEADER_SIZE..]);
    var importer := new ArchiveImporter(s, start, body, polls);
    ghost var rd := importer.Input();
    var first := importer.Next();
    importer.RunStep(rd, StartOf(archive), first);
    if first == Spins {
      return LoadHangs;
    }
    if !first.Element? || !first.element.Metadata? {
      return LoadFailed(MissingMetadata);
    }
    importer.metadata := FromMetadataSave(first.element.save, version);
    r := Loaded(importer);
  }

  /** Polls an importer to its end; an element that does not decode is passed over. */
  method Drain(importer: ArchiveImporter) returns (elements: seq<Option<BackupElement>>, ending: Ending)
    requires importer.Valid()
    modifies importer`decoded, importer`unread, importer`polls, importer`counter, importer.nonce
    ensures Contents(importer.metadata, elements, ending) == old(importer.Remaining())
  {
    ghost var goal := importer.Remaining();
    ghost var rest := goal;
    elements := [];
    while true
      invariant importer.Valid()
      invariant rest == importer.Remaining() && rest.ending == goal.ending
      invariant elements + rest.elements == goal.elements
      decreases |Owed(importer.Input())|
    {
      var item;
      item, ending := importer.NextItem();
      if item.None? {
        return;
      }
      rest := importer.Remaining();
      ConcatAssoc(elements, [item.value], rest.elements);
      elements := elements + [item.value];
    }
  }

  /**
   Loads an archive and polls it to its end, to the first rejected frame or to the first failed
   read.  On every schedule the result is the replay's; on every schedule without a failed read or a
   prefix lost, it is one function of the archive bytes.
   */
  method ImportArchive(s: Suite, archive: bytes, polls: seq<ReadEvent>) returns (r: Archived)
    ensures r == ReplayArchive(s, archive, polls)
    ensures HarmlessImport(s, archive, polls) && FaultFree(polls) ==> r == ReadArchive(s, archive)
    ensures |archive| < 14 ==> r == Refused(IO)
  {
    if HarmlessImport(s, archive, polls) && FaultFree(polls) {
      HarmlessImportReads(s, archive, polls);
    }
    var loaded := Load(s, archive, polls);
    match loaded {
      case LoadFailed(e) => return Refused(e);
      case LoadHangs => return Hangs;
      case Loaded(_) =>
    }
    var elements, ending := Drain(loaded.importer);
    return Contents(loaded.importer.metadata, elements, ending);
  }
}
