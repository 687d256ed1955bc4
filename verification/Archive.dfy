/**
 The archive byte format and what an importer makes of it
 (crates/xmtp_archive/src/lib.rs, and the specification side of exporter.rs and
 importer.rs).  The foreign libraries are parameters: an AEAD cipher under one
 key, a streaming compressor and a message codec, each with the law it is used for.
 */
module Archive {
  import opened Bytes
  import opened Wrappers
  import opened Nonce

  const TAG_SIZE: nat := 16
  const PREFIX_SIZE: nat := 4
  const BACKUP_VERSION: nat := 0
  const VERSION_SIZE: nat := 2

  // ----- metadata -----

  datatype Selection = Unspecified | Messages | Consent | Event

  datatype ArchiveOptions = ArchiveOptions(
    elements: seq<Selection>, startNs: Option<int>, endNs: Option<int>, excludeDisappearing: bool)

  /** The wire form: selections are raw enum numbers. */
  datatype BackupMetadataSave = BackupMetadataSave(
    elements: seq<int>, exportedAtNs: int, startNs: Option<int>, endNs: Option<int>)

  datatype BackupMetadata = BackupMetadata(
    backupVersion: nat, elements: seq<Selection>, exportedAtNs: int, startNs: Option<int>, endNs: Option<int>)

  function SelectionNumber(s: Selection): int
  {
    match s
    case Unspecified => 0
    case Messages => 1
    case Consent => 2
    case Event => 3
  }

  function SelectionOf(i: int): Option<Selection>
  {
    match i
    case 0 => Some(Unspecified)
    case 1 => Some(Messages)
    case 2 => Some(Consent)
    case 3 => Some(Event)
    case _ => None
  }

  /** Numbers that name no selection are dropped, as the generated accessor does. */
  function Selections(raw: seq<int>): seq<Selection>
  {
    if raw == [] then []
    else
      var tail := Selections(raw[1..]);
      match SelectionOf(raw[0])
      case Some(s) => [s] + tail
      case None => tail
  }

  function SaveFromOptions(o: ArchiveOptions, now: int): BackupMetadataSave
  {
    BackupMetadataSave(seq(|o.elements|, i requires 0 <= i < |o.elements| => SelectionNumber(o.elements[i])),
                       now, o.startNs, o.endNs)
  }

  function FromMetadataSave(save: BackupMetadataSave, version: nat): BackupMetadata
  {
    BackupMetadata(version, Selections(save.elements), save.exportedAtNs, save.startNs, save.endNs)
  }

  /** Options survive the trip through the wire metadata, apart from the disappearing-messages switch. */
  lemma {:induction false} MetadataRoundTrip(o: ArchiveOptions, now: int, version: nat)
    ensures FromMetadataSave(SaveFromOptions(o, now), version)
         == BackupMetadata(version, o.elements, now, o.startNs, o.endNs)
    decreases |o.elements|
  {
    if o.elements != [] {
      var o' := o.(elements := o.elements[1..]);
      MetadataRoundTrip(o', now, version);
      assert SaveFromOptions(o, now).elements[1..] == SaveFromOptions(o', now).elements;
    }
  }

  /** The wire form carries each field under its own name, and selections under their enum numbers. */
  lemma WireMetadata(o: ArchiveOptions, now: int)
    ensures var m := SaveFromOptions(o, now);
            && m.exportedAtNs == now && m.startNs == o.startNs && m.endNs == o.endNs
            && |m.elements| == |o.elements|
            && forall i :: 0 <= i < |o.elements| ==>
                 && (m.elements[i] == 0 <==> o.elements[i] == Unspecified)
                 && (m.elements[i] == 1 <==> o.elements[i] == Messages)
                 && (m.elements[i] == 2 <==> o.elements[i] == Consent)
                 && (m.elements[i] == 3 <==> o.elements[i] == Event)
                 && 0 <= m.elements[i] <= 3
  {
  }

  /** Selections are read one by one, and numbers that name none are passed over. */
  lemma {:induction false} SelectionsRead(a: seq<int>, b: seq<int>, i: int)
    ensures Selections(a + b) == Selections(a) + Selections(b)
    ensures (i < 0 || i > 3) ==> Selections([i]) == []
  {
    assert [i][1..] == [];
    if a == [] {
      assert a + b == b;
    } else {
      assert (a + b)[1..] == a[1..] + b;
      SelectionsRead(a[1..], b, i);
    }
  }

  // ----- the foreign libraries -----

  datatype BackupElement = Metadata(save: BackupMetadataSave) | Content(kind: nat, payload: bytes) | Unset

  /** AES-256-GCM under one key. */
  datatype Cipher = Cipher(enc: (nonce, bytes) -> bytes, dec: (nonce, bytes) -> Option<bytes>)

  /** Sections 5.1 and 5.2 of RFC 5116 with no forgeries: a ciphertext opens under the one nonce it was made with. */
  ghost predicate IdealAead(c: Cipher)
  {
    && (forall n: nonce, p: bytes :: |c.enc(n, p)| == |p| + TAG_SIZE)
    && (forall n: nonce, p: bytes :: c.dec(n, c.enc(n, p)) == Some(p))
    && (forall n: nonce, ct: bytes :: c.dec(n, ct).Some? ==> ct == c.enc(n, c.dec(n, ct).value))
    && (forall m: nonce, n: nonce, p: bytes, q: bytes :: c.enc(m, p) == c.enc(n, q) ==> m == n)
  }

  /** What is asked of the streaming compressor, in order. */
  datatype Op = Write(data: bytes) | Flush | Close

  /** What the compressor has been asked to do, latest last. */
  datatype History = Fresh | Then(before: History, op: Op)

  /**
   The compressor: everything it has put in its sink after a history of operations,
   and the inverse the decoder applies.  How much each write emits, and what a flush
   adds, is left open.
   */
  datatype Zstd = Zstd(emit: History -> bytes, inflate: bytes -> bytes)

  function Written(h: History): bytes
  {
    match h
    case Fresh => []
    case Then(before, Write(d)) => Written(before) + d
    case Then(before, _) => Written(before)
  }

  predicate Open(h: History)
  {
    h.Then? ==> !h.op.Close? && Open(h.before)
  }

  /** The sink only grows. */
  ghost predicate Appends(z: Zstd)
  {
    z.emit(Fresh) == [] && forall h: History, op: Op :: z.emit(h) <= z.emit(Then(h, op))
  }

  ghost predicate Lossless(z: Zstd)
  {
    Appends(z) && forall h: History :: Open(h) ==> z.inflate(z.emit(Then(h, Close))) == Written(h)
  }

  /** The protocol-buffer codec. */
  datatype Wire = Wire(ser: BackupElement -> bytes, de: bytes -> Option<BackupElement>)

  ghost predicate Faithful(w: Wire)
  {
    forall e: BackupElement :: w.de(w.ser(e)) == Some(e)
  }

  datatype Suite = Suite(cipher: Cipher, zstd: Zstd, wire: Wire)

  ghost predicate Sound(s: Suite)
  {
    IdealAead(s.cipher) && Lossless(s.zstd) && Faithful(s.wire)
  }

  // ----- frames -----

  function Prefixed(ct: bytes): (f: bytes)
    ensures |f| == PREFIX_SIZE + |ct|
  {
    // the length is cast to u32, so it wraps at 2^32
    LeBytes(|ct| % U32, PREFIX_SIZE) + ct
  }

  /** The plaintexts sealed under consecutive nonces from n, length-prefixed, end to end. */
  function Frames(c: Cipher, n: nonce, ps: seq<bytes>): bytes
    decreases |ps|
  {
    if ps == [] then [] else Prefixed(c.enc(n, ps[0])) + Frames(c, Advance(n, 1), ps[1..])
  }

  lemma FramesCons(c: Cipher, n: nonce, p: bytes, ps: seq<bytes>)
    ensures Frames(c, n, [p] + ps) == Prefixed(c.enc(n, p)) + Frames(c, Advance(n, 1), ps)
  {
    assert ([p] + ps)[1..] == ps;
  }

  function SerAll(w: Wire, es: seq<BackupElement>): (ps: seq<bytes>)
    ensures |ps| == |es|
  {
    seq(|es|, i requires 0 <= i < |es| => w.ser(es[i]))
  }

  function DeAll(w: Wire, ps: seq<bytes>): (es: seq<Option<BackupElement>>)
    ensures |es| == |ps|
  {
    seq(|ps|, i requires 0 <= i < |ps| => w.de(ps[i]))
  }

  function Header(n: nonce): bytes
  {
    LeBytes(BACKUP_VERSION, VERSION_SIZE) + NonceBytes(n)
  }

  // ----- what the importer makes of a byte stream -----

  /** End: no more elements.  Cut: the input stops inside a frame. */
  datatype Parsed = End | Cut | Frame(ct: bytes, rest: bytes)

  /**
   The next ciphertext of a decompressed stream.  Zero-length frames are passed over,
   and a stream that stops right after a prefix counts as ended.
   */
  function NextFrame(b: bytes): (r: Parsed)
    ensures r.Frame? ==> 0 < |r.ct| < U32 && PREFIX_SIZE + |r.ct| + |r.rest| <= |b|
  {
    if b == [] then End
    else if |b| < PREFIX_SIZE then Cut
    else
      var len := PrefixLen(b);
      var rest := b[PREFIX_SIZE..];
      if len == 0 then NextFrame(rest) else AfterPrefix(len, rest)
  }

  function AfterPrefix(len: nat, rest: bytes): (r: Parsed)
    requires 0 < len < U32
    ensures r.Frame? ==> |r.ct| == len && |r.ct| + |r.rest| == |rest|
  {
    if len <= |rest| then Frame(rest[..len], rest[len..])
    else if rest == [] then End
    else Cut
  }

  function PrefixLen(b: bytes): (len: nat)
    requires |b| >= PREFIX_SIZE
    ensures len < U32
  {
    assert Pow256(PREFIX_SIZE) == U32;
    LeVal(b[..PREFIX_SIZE])
  }

  /** The plaintext of a ciphertext at importer nonce n and the nonce that follows; the step back is the legacy rule. */
  function Unseal(c: Cipher, n: nonce, ct: bytes): Option<(bytes, nonce)>
  {
    match c.dec(n, ct)
    case Some(p) => Some((p, Advance(n, 1)))
    case None =>
      var m := Advance(n, -1);
      match c.dec(m, ct)
      case Some(p) => Some((p, Advance(m, 1)))
      case None => None
  }

  /**
   Ended: clean end.  Rejected: a ciphertext opened under neither nonce.  Spinning: cut input, a poll
   never returns.  Faulted: a read failed, which only a replay can show.
   */
  datatype Ending = Ended | Rejected | Spinning | Faulted

  datatype Imported = Imported(plains: seq<bytes>, ending: Ending, nonce: nonce)

  /** Everything an importer at nonce n delivers from a decompressed stream. */
  function Import(c: Cipher, n: nonce, b: bytes): (r: Imported)
    decreases |b|
  {
    match NextFrame(b)
    case End => Imported([], Ended, n)
    case Cut => Imported([], Spinning, n)
    case Frame(ct, rest) =>
      match Unseal(c, n, ct)
      case None => Imported([], Rejected, n)
      case Some((p, m)) =>
        var r := Import(c, m, rest);
        r.(plains := [p] + r.plains)
  }

  lemma NextFrameOfPrefixed(ct: bytes, rest: bytes)
    requires 0 < |ct| < U32
    ensures NextFrame(Prefixed(ct) + rest) == Frame(ct, rest)
  {
    var b := Prefixed(ct) + rest;
    assert b[..PREFIX_SIZE] == LeBytes(|ct|, PREFIX_SIZE);
    assert b[PREFIX_SIZE..] == ct + rest;
    assert Pow256(PREFIX_SIZE) == U32;
    LeRoundTrip(|ct|, PREFIX_SIZE);
  }

  /** A frame is the length of its ciphertext, least significant byte first, and the ciphertext. */
  lemma FrameLayout(ct: bytes, i: nat)
    requires |ct| < U32
    ensures i < PREFIX_SIZE ==> Prefixed(ct)[i] == (|ct| / Pow256(i)) % 256
    ensures Prefixed(ct)[PREFIX_SIZE..] == ct
  {
    assert |ct| % U32 == |ct|;
    if i < PREFIX_SIZE {
      LeBytesAt(|ct|, PREFIX_SIZE, i);
    }
  }

  /** An archive begins with two zero bytes, for version 0, and the nonce, least significant byte first. */
  lemma HeaderLayout(n: nonce, i: nat)
    ensures |Header(n)| == 14 && Header(n)[0] == 0 && Header(n)[1] == 0
    ensures i < 12 ==> Header(n)[2 + i] == (n / Pow256(i)) % 256
  {
    if i < 12 {
      LeBytesAt(n, NONCE_SIZE, i);
    }
  }

  /** A frame of length zero is passed over. */
  lemma ZeroFrameSkipped(c: Cipher, n: nonce, b: bytes)
    ensures Import(c, n, [0, 0, 0, 0] + b) == Import(c, n, b)
  {
    var zero: bytes := [0, 0, 0, 0];
    var all := zero + b;
    assert all[..PREFIX_SIZE] == zero && all[PREFIX_SIZE..] == b;
    assert LeVal(zero) == 0;
    assert NextFrame(all) == NextFrame(b);
  }

  // ----- round trip of the framing -----

  ghost predicate Fits(ps: seq<bytes>)
  {
    forall i :: 0 <= i < |ps| ==> |ps[i]| + TAG_SIZE < U32
  }

  /** Frames sealed under consecutive nonces come back in order, and the importer nonce ends one past the last. */
  lemma {:induction false} FramesImport(c: Cipher, n: nonce, ps: seq<bytes>)
    requires IdealAead(c) && Fits(ps)
    ensures Import(c, n, Frames(c, n, ps)) == Imported(ps, Ended, Advance(n, |ps|))
    decreases |ps|
  {
    if ps == [] {
      AdvanceAdds(n, 0, 0);
    } else {
      var rest := Frames(c, Advance(n, 1), ps[1..]);
      NextFrameOfPrefixed(c.enc(n, ps[0]), rest);
      FramesImport(c, Advance(n, 1), ps[1..]);
      AdvanceAdds(n, 1, |ps| - 1);
    }
  }

  /** An importer can only deliver plaintexts whose ciphertext length fits the prefix. */
  lemma {:induction false} DeliveredFit(c: Cipher, n: nonce, b: bytes)
    requires IdealAead(c)
    ensures Fits(Import(c, n, b).plains)
    decreases |b|
  {
    match NextFrame(b)
    case End =>
    case Cut =>
    case Frame(ct, rest) =>
      match Unseal(c, n, ct)
      case None =>
      case Some((p, m)) => DeliveredFit(c, m, rest);
  }

  /** The framing round-trips exactly when every ciphertext is shorter than 2^32 bytes. */
  lemma FramesImportIff(c: Cipher, n: nonce, ps: seq<bytes>)
    requires IdealAead(c)
    ensures Import(c, n, Frames(c, n, ps)).plains == ps <==> Fits(ps)
  {
    if Fits(ps) {
      FramesImport(c, n, ps);
    }
    DeliveredFit(c, n, Frames(c, n, ps));
  }

  /** The bytes a list of plaintexts takes up in an archive. */
  function FramedSize(ps: seq<bytes>): nat
  {
    if ps == [] then 0 else PREFIX_SIZE + |ps[0]| + TAG_SIZE + FramedSize(ps[1..])
  }

  lemma {:induction false} FramesSize(c: Cipher, n: nonce, ps: seq<bytes>)
    requires IdealAead(c)
    ensures |Frames(c, n, ps)| == FramedSize(ps)
    decreases |ps|
  {
    if ps != [] {
      FramesSize(c, Advance(n, 1), ps[1..]);
    }
  }

  /** Nothing is delivered twice or made up: what comes out took up no more than what went in. */
  lemma {:induction false} DeliveredSize(c: Cipher, n: nonce, b: bytes)
    requires IdealAead(c)
    ensures FramedSize(Import(c, n, b).plains) <= |b|
    decreases |b|
  {
    match NextFrame(b)
    case End =>
    case Cut =>
    case Frame(ct, rest) =>
      match Unseal(c, n, ct)
      case None =>
      case Some((p, m)) => DeliveredSize(c, m, rest);
  }

  /**
   A poll given up with a prefix in hand loses those four bytes: what is owed afterwards is only
   what should have followed them.  Whatever importer nonce and polls follow, the frames can
   then no longer be delivered as they were written.
   */
  lemma LostPrefixIsFatal(c: Cipher, n: nonce, ps: seq<bytes>, elementLen: nat, owed: bytes, m: nonce)
    requires IdealAead(c) && ps != [] && Fits(ps)
    requires 0 < elementLen < U32 && AfterPrefix(elementLen, owed) == NextFrame(Frames(c, n, ps))
    ensures Import(c, m, owed).plains != ps
  {
    NextFrameOfPrefixed(c.enc(n, ps[0]), Frames(c, Advance(n, 1), ps[1..]));
    FramesSize(c, n, ps);
    DeliveredSize(c, m, owed);
  }

  // ----- the legacy nonce rule -----

  /** A frame as found in some archive: sealed under some nonce, or bytes that open under none. */
  datatype Sealed = Sealed(n: nonce, p: bytes) | Forged(bytes)

  function Ciphertext(c: Cipher, x: Sealed): bytes
  {
    match x
    case Sealed(n, p) => c.enc(n, p)
    case Forged(b) => b
  }

  ghost predicate WellFramed(c: Cipher, xs: seq<Sealed>)
  {
    forall i :: 0 <= i < |xs| ==>
      && 0 < |Ciphertext(c, xs[i])| < U32
      && (xs[i].Forged? ==> forall n: nonce :: c.dec(n, Ciphertext(c, xs[i])).None?)
  }

  function Concatenated(c: Cipher, xs: seq<Sealed>): bytes
  {
    if xs == [] then [] else Prefixed(Ciphertext(c, xs[0])) + Concatenated(c, xs[1..])
  }

  function SealedInOrder(n: nonce, ps: seq<bytes>): (xs: seq<Sealed>)
    ensures |xs| == |ps|
  {
    seq(|ps|, i requires 0 <= i < |ps| => Sealed(Advance(n, i), ps[i]))
  }

  /** An export seals frame i under the nonce i places after the first, and up to 2^96 frames no two share one. */
  lemma {:induction false} FramesAreSealedInOrder(c: Cipher, n: nonce, ps: seq<bytes>)
    ensures Frames(c, n, ps) == Concatenated(c, SealedInOrder(n, ps))
    ensures |ps| <= SPACE ==>
              forall i, j :: 0 <= i < j < |ps| ==> SealedInOrder(n, ps)[i].n != SealedInOrder(n, ps)[j].n
    decreases |ps|
  {
    AdvanceAdds(n, 0, 0);
    if ps != [] {
      FramesAreSealedInOrder(c, Advance(n, 1), ps[1..]);
      assert SealedInOrder(n, ps)[1..] == SealedInOrder(Advance(n, 1), ps[1..]) by {
        forall i: nat | i < |ps| - 1 ensures Advance(Advance(n, 1), i) == Advance(n, i + 1) {
          AdvanceAdds(n, 1, i);
        }
      }
    }
    if |ps| <= SPACE {
      forall i, j | 0 <= i < j < |ps| ensures Advance(n, i) != Advance(n, j) {
        AdvanceCollides(n, i, j);
      }
    }
  }

  /**
   The first k frames follow the legacy rule from start: the first is under start or
   one before it, and each later one under its predecessor's nonce or one past it.
   */
  ghost predicate Linked(xs: seq<Sealed>, start: nonce, k: nat)
    requires k <= |xs|
  {
    && (forall i :: 0 <= i < k ==> xs[i].Sealed?)
    && (k > 0 ==> xs[0].n == start || xs[0].n == Advance(start, -1))
    && (forall i :: 1 <= i < k ==> xs[i].n == xs[i - 1].n || xs[i].n == Advance(xs[i - 1].n, 1))
  }

  lemma UnsealExact(c: Cipher, n: nonce, x: Sealed)
    requires IdealAead(c) && WellFramed(c, [x])
    ensures Unseal(c, n, Ciphertext(c, x)) ==
            if x.Sealed? && (x.n == n || x.n == Advance(n, -1)) then Some((x.p, Advance(x.n, 1))) else None
  {
    assert [x][0] == x;
    StepsUndo(n);
    if x.Sealed? {
      var m := Advance(n, -1);
      assert c.dec(x.n, c.enc(x.n, x.p)) == Some(x.p);
      if c.dec(n, Ciphertext(c, x)).Some? {
        assert c.enc(n, c.dec(n, Ciphertext(c, x)).value) == c.enc(x.n, x.p);
      }
      if c.dec(m, Ciphertext(c, x)).Some? {
        assert c.enc(m, c.dec(m, Ciphertext(c, x)).value) == c.enc(x.n, x.p);
      }
    }
  }

  /** Dropping the head of a linked run: the tail is linked from the nonce after the head's. */
  lemma LinkedTail(xs: seq<Sealed>, start: nonce, k: nat)
    requires 1 <= k <= |xs| && xs[0].Sealed? && (xs[0].n == start || xs[0].n == Advance(start, -1))
    ensures Linked(xs, start, k) <==> Linked(xs[1..], Advance(xs[0].n, 1), k - 1)
  {
    var ys, m := xs[1..], Advance(xs[0].n, 1);
    StepsUndo(xs[0].n);
    assert forall i :: 0 <= i < |ys| ==> ys[i] == xs[i + 1];
    if Linked(ys, m, k - 1) {
      forall i | 1 <= i < k
        ensures xs[i].Sealed? && (xs[i].n == xs[i - 1].n || xs[i].n == Advance(xs[i - 1].n, 1))
      {
        assert xs[i] == ys[i - 1];
        assert i > 1 ==> xs[i - 1] == ys[i - 2];
      }
    }
  }

  /** What the importer made of the frames xs is their longest linked prefix. */
  ghost predicate LongestLinked(xs: seq<Sealed>, start: nonce, r: Imported)
  {
    var k := |r.plains|;
    && k <= |xs|
    && (forall j: nat :: j <= |xs| ==> (Linked(xs, start, j) <==> j <= k))
    && (forall i :: 0 <= i < k ==> xs[i].Sealed? && r.plains[i] == xs[i].p)
    && r.nonce == (if k == 0 then start else Advance(xs[k - 1].n, 1))
    && r.ending == (if k == |xs| then Ended else Rejected)
  }

  lemma LongestLinkedStep(xs: seq<Sealed>, start: nonce, r: Imported)
    requires xs != [] && xs[0].Sealed? && (xs[0].n == start || xs[0].n == Advance(start, -1))
    requires LongestLinked(xs[1..], Advance(xs[0].n, 1), r)
    ensures LongestLinked(xs, start, r.(plains := [xs[0].p] + r.plains))
  {
    var k := |r.plains| + 1;
    assert forall i :: 0 <= i < |xs[1..]| ==> xs[1..][i] == xs[i + 1];
    forall j: nat | j <= |xs| ensures Linked(xs, start, j) <==> j <= k {
      if j > 0 {
        LinkedTail(xs, start, j);
      }
    }
    assert k > 1 ==> xs[1..][k - 2] == xs[k - 1];
  }

  /**
   Legacy acceptance is exact.  On any sequence of well-framed ciphertexts the importer
   delivers the longest prefix that follows the legacy rule and no more, in order; its
   nonce is then one past the last accepted frame's, and is what it was if none was
   accepted; and it ends cleanly exactly when every frame was accepted.
   */
  lemma {:induction false} LegacyAcceptance(c: Cipher, start: nonce, xs: seq<Sealed>)
    requires IdealAead(c) && WellFramed(c, xs)
    ensures LongestLinked(xs, start, Import(c, start, Concatenated(c, xs)))
    decreases |xs|
  {
    if xs != [] {
      var x := xs[0];
      NextFrameOfPrefixed(Ciphertext(c, x), Concatenated(c, xs[1..]));
      UnsealExact(c, start, x);
      if x.Sealed? && (x.n == start || x.n == Advance(start, -1)) {
        assert WellFramed(c, xs[1..]) by {
          assert forall i :: 0 <= i < |xs[1..]| ==> xs[1..][i] == xs[i + 1];
        }
        LegacyAcceptance(c, Advance(x.n, 1), xs[1..]);
        LongestLinkedStep(xs, start, Import(c, Advance(x.n, 1), Concatenated(c, xs[1..])));
      }
    }
  }

  // ----- the assumptions can be met -----

  /** An ideal cipher exists: its tag spells out the nonce. */
  lemma TagCipherIsIdeal(c: Cipher)
    requires c == Cipher((n: nonce, p: bytes) => p + Tag(n), Untag)
    ensures IdealAead(c)
  {
    forall n: nonce, p: bytes ensures c.dec(n, c.enc(n, p)) == Some(p) {
      assert (p + Tag(n))[|p|..] == Tag(n);
      assert (p + Tag(n))[..|p|] == p;
    }
    forall m: nonce, n: nonce, p: bytes, q: bytes | c.enc(m, p) == c.enc(n, q) ensures m == n {
      assert (p + Tag(m))[|p|..][..NONCE_SIZE] == NonceBytes(m);
      assert (q + Tag(n))[|q|..][..NONCE_SIZE] == NonceBytes(n);
      NonceBijection(m, NonceBytes(m));
      NonceBijection(n, NonceBytes(n));
    }
  }

  function Tag(n: nonce): (t: bytes)
    ensures |t| == TAG_SIZE
  {
    NonceBytes(n) + [0, 0, 0, 0]
  }

  function Untag(n: nonce, ct: bytes): (p: Option<bytes>)
    ensures p.Some? ==> ct == p.value + Tag(n)
  {
    if |ct| >= TAG_SIZE && ct[|ct| - TAG_SIZE..] == Tag(n) then Some(ct[..|ct| - TAG_SIZE]) else None
  }

  /** A lossless compressor exists: it copies. */
  lemma CopyingCodecIsLossless(z: Zstd)
    requires z == Zstd(Written, (b: bytes) => b)
    ensures Lossless(z)
  {
    forall h: History, op: Op ensures z.emit(h) <= z.emit(Then(h, op)) {
      assert z.emit(Then(h, op)) == Written(Then(h, op));
    }
    forall h: History ensures z.inflate(z.emit(Then(h, Close))) == Written(h) {
      assert z.emit(Then(h, Close)) == Written(Then(h, Close));
    }
  }
}
