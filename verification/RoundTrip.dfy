/**
 Export followed by import: what went into an archive is what comes out of it.
 */
module RoundTrip {
  import opened Bytes
  import opened Wrappers
  import opened Nonce
  import opened Archive
  import opened Exporter
  import opened Importer
  import opened Replay
  import opened Truncation
  import ExportStream

  /** Everything an archive carries: the metadata element, then the delivered elements. */
  function Carried(options: ArchiveOptions, now: int, script: seq<StreamEvent>): seq<BackupElement>
  {
    [Metadata(SaveFromOptions(options, now))] + Delivered(script)
  }

  function ArchiveBytes(s: Suite, start: nonce, options: ArchiveOptions, now: int, script: seq<StreamEvent>): bytes
  {
    Header(start) + Body(s, start, SaveFromOptions(options, now), script)
  }

  /** Contents that were all read: the metadata of these options, and elements that all decode. */
  function Restored(options: ArchiveOptions, now: int, es: seq<BackupElement>, ending: Ending): Archived
  {
    Contents(BackupMetadata(BACKUP_VERSION, options.elements, now, options.startNs, options.endNs),
             seq(|es|, i requires 0 <= i < |es| => Some(es[i])), ending)
  }

  /** What reading such an archive back should give. */
  function Expected(options: ArchiveOptions, now: int, script: seq<StreamEvent>): Archived
  {
    Restored(options, now, Delivered(script), Ended)
  }

  /** The header is where the reader looks for it. */
  lemma HeaderParts(start: nonce, body: bytes)
    ensures var archive := Header(start) + body;
            && |archive| >= HEADER_SIZE
            && LeVal(archive[..VERSION_SIZE]) == BACKUP_VERSION
            && NonceOf(archive[VERSION_SIZE..HEADER_SIZE]) == start
            && archive[HEADER_SIZE..] == body
  {
    var archive := Header(start) + body;
    assert archive[..VERSION_SIZE] == LeBytes(BACKUP_VERSION, VERSION_SIZE);
    assert archive[VERSION_SIZE..HEADER_SIZE] == NonceBytes(start);
    NonceBijection(start, NonceBytes(start));
    LeRoundTrip(BACKUP_VERSION, VERSION_SIZE);
  }

  /** At the level of plaintexts the archive round-trips exactly when every ciphertext is shorter than 2^32 bytes. */
  lemma PlaintextsRoundTripIff(s: Suite, start: nonce, options: ArchiveOptions, now: int, script: seq<StreamEvent>)
    requires Sound(s)
    ensures var body := ArchiveBytes(s, start, options, now, script)[HEADER_SIZE..];
            var ps := SerAll(s.wire, Carried(options, now, script));
            Import(s.cipher, start, s.zstd.inflate(body)).plains == ps <==> Fits(ps)
  {
    HeaderParts(start, Body(s, start, SaveFromOptions(options, now), script));
    BodyInflates(s, start, SaveFromOptions(options, now), script);
    FramesImportIff(s.cipher, start, SerAll(s.wire, Carried(options, now, script)));
  }

  lemma DeSer(w: Wire, es: seq<BackupElement>)
    requires Faithful(w)
    ensures DeAll(w, SerAll(w, es)) == seq(|es|, i requires 0 <= i < |es| => Some(es[i]))
  {
  }

  /** Reading the bytes of an archive gives back its options, export time and elements, in order. */
  lemma ArchiveRoundTrip(s: Suite, start: nonce, options: ArchiveOptions, now: int, script: seq<StreamEvent>)
    requires Sound(s) && Fits(SerAll(s.wire, Carried(options, now, script)))
    ensures ReadArchive(s, ArchiveBytes(s, start, options, now, script)) == Expected(options, now, script)
  {
    var save := SaveFromOptions(options, now);
    var ps := SerAll(s.wire, Carried(options, now, script));
    HeaderParts(start, Body(s, start, save, script));
    BodyInflates(s, start, save, script);
    FramesImport(s.cipher, start, ps);
    assert ps[1..] == SerAll(s.wire, Delivered(script));
    DeSer(s.wire, Delivered(script));
    MetadataRoundTrip(options, now, BACKUP_VERSION);
  }

  /** Under a key that opens none of the frames, loading reports that the metadata is missing. */
  lemma WrongKeyIsRefused(s: Suite, other: Cipher, start: nonce, options: ArchiveOptions, now: int,
                          script: seq<StreamEvent>)
    requires Sound(s) && Fits(SerAll(s.wire, Carried(options, now, script)))
    requires forall n: nonce, m: nonce, p: bytes :: other.dec(n, s.cipher.enc(m, p)) == None
    ensures ReadArchive(s.(cipher := other), ArchiveBytes(s, start, options, now, script)) == Refused(MissingMetadata)
  {
    var save := SaveFromOptions(options, now);
    var ps := SerAll(s.wire, Carried(options, now, script));
    HeaderParts(start, Body(s, start, save, script));
    BodyInflates(s, start, save, script);
    NextFrameOfPrefixed(s.cipher.enc(start, ps[0]), Frames(s.cipher, Advance(start, 1), ps[1..]));
  }

  /**
   On every schedule without a failed read, the plaintexts of an archive come back exactly when no
   poll is given up with a length prefix in hand.
   */
  lemma PlaintextsComeBackIff(s: Suite, start: nonce, options: ArchiveOptions, now: int, script: seq<StreamEvent>,
                              polls: seq<ReadEvent>)
    requires Sound(s) && Fits(SerAll(s.wire, Carried(options, now, script))) && FaultFree(polls)
    ensures var archive := ArchiveBytes(s, start, options, now, script);
            && |archive| >= HEADER_SIZE
            && (ImportSession(s, archive, polls).imported.plains == SerAll(s.wire, Carried(options, now, script))
                <==> HarmlessImport(s, archive, polls))
  {
    var save := SaveFromOptions(options, now);
    var ps := SerAll(s.wire, Carried(options, now, script));
    var body := Body(s, start, save, script);
    HeaderParts(start, body);
    BodyInflates(s, start, save, script);
    var rd := Reader([], s.zstd.inflate(body), polls);
    assert Owed(rd) == s.zstd.inflate(body);
    FramesComeBackIff(s.cipher, start, ps, rd);
  }

  /** A first read of just the prefix of the metadata, followed by a stall, is such a schedule. */
  lemma StallLosesMetadata(s: Suite, start: nonce, options: ArchiveOptions, now: int, script: seq<StreamEvent>)
    requires Sound(s) && Fits(SerAll(s.wire, Carried(options, now, script)))
    ensures !HarmlessImport(s, ArchiveBytes(s, start, options, now, script), [Chunk(PREFIX_SIZE), Wait])
  {
    var save := SaveFromOptions(options, now);
    HeaderParts(start, Body(s, start, save, script));
    BodyInflates(s, start, save, script);
    assert [Chunk(PREFIX_SIZE), Wait] + [] == [Chunk(PREFIX_SIZE), Wait];
    StallAfterPrefix(s.cipher, start, SerAll(s.wire, Carried(options, now, script)), []);
  }

  /**
   The whole trip, for every sequence of nonempty export buffers, wherever the element stream was
   not ready, and however the import side splits the bytes or is not ready: the result is the
   replay's on every schedule, and exactly the exported metadata and elements on every harmless one.
   */
  method ExportThenImport(s: Suite, start: nonce, options: ArchiveOptions, now: int, script: seq<StreamEvent>,
                          bufs: nat -> nat, polls: seq<ReadEvent>) returns (r: Archived)
    requires Sound(s) && Fits(SerAll(s.wire, Carried(options, now, script)))
    requires forall i :: bufs(i) > 0
    ensures r == ReplayArchive(s, ArchiveBytes(s, start, options, now, script), polls)
    ensures FaultFree(polls) && HarmlessImport(s, ArchiveBytes(s, start, options, now, script), polls) ==>
              r == Expected(options, now, script)
  {
    var archive := ExportAll(s, start, SaveFromOptions(options, now), script, bufs);
    r := ImportArchive(s, archive, polls);
    ArchiveRoundTrip(s, start, options, now, script);
  }

  /**
   Any frames at all: without any, or if the first is not the metadata, loading reports that the
   metadata is missing; otherwise each of the others comes back in its place, decoded or as an error.
   */
  lemma AnyFramesRead(s: Suite, start: nonce, ps: seq<bytes>, body: bytes)
    requires IdealAead(s.cipher) && Fits(ps) && s.zstd.inflate(body) == Frames(s.cipher, start, ps)
    ensures var r := ReadArchive(s, Header(start) + body);
            if ps != [] && s.wire.de(ps[0]).Some? && s.wire.de(ps[0]).value.Metadata? then
              && r.Contents? && r.ending == Ended && |r.elements| == |ps| - 1
              && r.metadata == FromMetadataSave(s.wire.de(ps[0]).value.save, BACKUP_VERSION)
              && forall i :: 0 <= i < |ps| - 1 ==> r.elements[i] == s.wire.de(ps[i + 1])
            else r == Refused(MissingMetadata)
  {
    HeaderParts(start, body);
    FramesImport(s.cipher, start, ps);
  }

  // ----- archives that stop early -----

  /** What is read when the first k plaintexts come through. */
  lemma ReadPrefix(s: Suite, options: ArchiveOptions, now: int, script: seq<StreamEvent>, k: nat, ending: Ending,
                   n: nonce)
    requires Faithful(s.wire) && 0 < k <= |Delivered(script)| + 1
    ensures ReadBody(s, BACKUP_VERSION, Imported(SerAll(s.wire, Carried(options, now, script))[..k], ending, n))
         == Restored(options, now, Delivered(script)[..k - 1], ending)
  {
    var ps := SerAll(s.wire, Carried(options, now, script));
    assert ps[..k][1..] == SerAll(s.wire, Delivered(script)[..k - 1]);
    DeSer(s.wire, Delivered(script)[..k - 1]);
    MetadataRoundTrip(options, now, BACKUP_VERSION);
  }

  /**
   An archive whose body decompresses to its first m bytes only: loading hangs or is refused if the
   metadata frame is cut; otherwise the elements that are there whole come back, with an end that
   looks clean if nothing or just a prefix is left over, and a poll that never returns if not.
   */
  lemma CutArchiveReads(s: Suite, start: nonce, options: ArchiveOptions, now: int, script: seq<StreamEvent>,
                        ps: seq<bytes>, body: bytes, m: nat)
    requires Sound(s) && ps == SerAll(s.wire, Carried(options, now, script)) && Fits(ps)
    requires m <= |Frames(s.cipher, start, ps)| && s.zstd.inflate(body) == Frames(s.cipher, start, ps)[..m]
    ensures var k, clean := Whole(ps, m), LooksEnded(LeftOver(ps, m));
            ReadArchive(s, Header(start) + body)
            == if k == 0 then (if clean then Refused(MissingMetadata) else Hangs)
               else Restored(options, now, Delivered(script)[..k - 1], if clean then Ended else Spinning)
  {
    HeaderParts(start, body);
    CutImport(s.cipher, start, ps, m);
    var k := Whole(ps, m);
    var r := CutAfter(start, ps, m);
    assert ReadArchive(s, Header(start) + body) == ReadBody(s, BACKUP_VERSION, r);
    if k > 0 {
      ReadPrefix(s, options, now, script, k, r.ending, r.nonce);
    }
  }

  /** There is such a body for every cut. */
  lemma CutBodyExists(z: Zstd, cut: bytes)
    requires Lossless(z)
    ensures z.inflate(z.emit(Then(Then(Fresh, Write(cut)), Close))) == cut
  {
    var h := Then(Fresh, Write(cut));
    assert Written(h) == Written(Fresh) + cut;
    assert Open(Fresh) && Open(h);
  }

  /** The element stream of an export: the selected tables, with queries that go as `db` says. */
  function ElementStream(options: ArchiveOptions, tables: ExportStream.Kind -> ExportStream.Records,
                         db: nat -> seq<ExportStream.DbPoll>): seq<StreamEvent>
  {
    ExportStream.Merged(ExportStream.Sources(tables, db, ExportStream.Kinds(options.elements)))
  }

  /**
   From database to importer: however the queries went, reading the archive back gives every record of
   the selected tables that its provider does not skip, in order, provided no table has a gap.
   */
  lemma BackupRestoresRecords(s: Suite, start: nonce, options: ArchiveOptions, now: int,
                              tables: ExportStream.Kind -> ExportStream.Records, db: nat -> seq<ExportStream.DbPoll>)
    requires Sound(s) && Fits(SerAll(s.wire, Carried(options, now, ElementStream(options, tables, db))))
    requires ExportStream.Gapless(tables, ExportStream.Kinds(options.elements))
    ensures var es := ExportStream.AllKept(tables, ExportStream.Kinds(options.elements));
            ReadArchive(s, ArchiveBytes(s, start, options, now, ElementStream(options, tables, db)))
            == Restored(options, now, es, Ended)
  {
    var kinds := ExportStream.Kinds(options.elements);
    ArchiveRoundTrip(s, start, options, now, ElementStream(options, tables, db));
    ExportStream.StreamDelivers(tables, db, kinds);
    ExportStream.GaplessExportsAll(tables, kinds);
  }
}
