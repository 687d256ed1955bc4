/**
 What an importer makes of a stream of frames that stops early
 (crates/xmtp_archive/src/importer.rs): it delivers the frames that are there whole, and reports a
 clean end not only at a frame boundary but also right after a length prefix; anywhere else it spins.
 */
module Truncation {
  import opened Bytes
  import opened Nonce
  import opened Archive

  function FrameSize(p: bytes): nat
  {
    PREFIX_SIZE + |p| + TAG_SIZE
  }

  /** How many frames lie whole within the first m bytes. */
  function Whole(ps: seq<bytes>, m: nat): (k: nat)
    ensures k <= |ps|
  {
    if ps == [] || m < FrameSize(ps[0]) then 0 else 1 + Whole(ps[1..], m - FrameSize(ps[0]))
  }

  /** How many bytes are left over after them. */
  function LeftOver(ps: seq<bytes>, m: nat): (left: nat)
    ensures left <= m
  {
    if ps == [] || m < FrameSize(ps[0]) then m else LeftOver(ps[1..], m - FrameSize(ps[0]))
  }

  /** A cut the importer takes for the end. */
  predicate LooksEnded(left: nat)
  {
    left == 0 || left == PREFIX_SIZE
  }

  /** A stream that stops inside its first frame. */
  lemma CutInFirst(ct: bytes, rest: bytes, m: nat)
    requires 0 < |ct| < U32 && m < PREFIX_SIZE + |ct|
    ensures NextFrame((Prefixed(ct) + rest)[..m]) == if LooksEnded(m) then End else Cut
  {
    var p := LeBytes(|ct|, PREFIX_SIZE);
    assert |ct| % U32 == |ct|;
    var b := (Prefixed(ct) + rest)[..m];
    if m >= PREFIX_SIZE {
      assert b[..PREFIX_SIZE] == p;
      PrefixReads(|ct|, b);
    }
  }

  lemma PrefixReads(len: nat, b: bytes)
    requires len < U32 && |b| >= PREFIX_SIZE && b[..PREFIX_SIZE] == LeBytes(len, PREFIX_SIZE)
    ensures PrefixLen(b) == len
  {
    assert Pow256(PREFIX_SIZE) == U32;
    LeRoundTrip(len, PREFIX_SIZE);
  }

  /** What should come of the first m bytes of the frames of ps. */
  function CutAfter(n: nonce, ps: seq<bytes>, m: nat): Imported
  {
    var k := Whole(ps, m);
    Imported(ps[..k], if LooksEnded(LeftOver(ps, m)) then Ended else Spinning, Advance(n, k))
  }

  lemma CutAfterNone(n: nonce, ps: seq<bytes>, m: nat)
    requires ps == [] || m < FrameSize(ps[0])
    ensures CutAfter(n, ps, m) == Imported([], if LooksEnded(m) then Ended else Spinning, n)
  {
    AdvanceAdds(n, 0, 0);
    assert ps[..0] == [];
  }

  lemma CutAfterFirst(n: nonce, ps: seq<bytes>, m: nat)
    requires ps != [] && m >= FrameSize(ps[0])
    ensures var rest := CutAfter(Advance(n, 1), ps[1..], m - FrameSize(ps[0]));
            CutAfter(n, ps, m) == rest.(plains := [ps[0]] + rest.plains)
  {
    var k := Whole(ps[1..], m - FrameSize(ps[0]));
    AdvanceAdds(n, 1, k);
    assert ps[..k + 1] == [ps[0]] + ps[1..][..k];
  }

  /** A frame sealed under the importer's nonce comes first. */
  lemma ImportCons(c: Cipher, n: nonce, p: bytes, b: bytes)
    requires IdealAead(c) && |p| + TAG_SIZE < U32
    ensures var rest := Import(c, Advance(n, 1), b);
            Import(c, n, Prefixed(c.enc(n, p)) + b) == rest.(plains := [p] + rest.plains)
  {
    NextFrameOfPrefixed(c.enc(n, p), b);
  }

  lemma ImportCutFirst(c: Cipher, n: nonce, b: bytes, left: nat)
    requires NextFrame(b) == if LooksEnded(left) then End else Cut
    ensures Import(c, n, b) == Imported([], if LooksEnded(left) then Ended else Spinning, n)
  {
  }

  /**
   A stream of frames cut at any byte: exactly the frames that lie whole before the cut are
   delivered, the nonce is one past the last of them, and the end looks clean exactly when nothing
   or a whole prefix is left over.
   */
  lemma {:induction false} CutImport(c: Cipher, n: nonce, ps: seq<bytes>, m: nat)
    requires IdealAead(c) && Fits(ps) && m <= |Frames(c, n, ps)|
    ensures Import(c, n, Frames(c, n, ps)[..m]) == CutAfter(n, ps, m)
    decreases |ps|
  {
    if ps == [] {
      CutAfterNone(n, ps, m);
      assert Frames(c, n, ps)[..m] == [];
    } else {
      var ct, rest, size := c.enc(n, ps[0]), Frames(c, Advance(n, 1), ps[1..]), FrameSize(ps[0]);
      var b := (Prefixed(ct) + rest)[..m];
      assert Frames(c, n, ps)[..m] == b;
      if m < size {
        CutAfterNone(n, ps, m);
        CutInFirst(ct, rest, m);
        ImportCutFirst(c, n, b, m);
      } else {
        CutLater(ct, rest, m);
        ImportCons(c, n, ps[0], rest[..m - size]);
        CutImport(c, Advance(n, 1), ps[1..], m - size);
        CutAfterFirst(n, ps, m);
      }
    }
  }

  lemma CutLater(ct: bytes, rest: bytes, m: nat)
    requires PREFIX_SIZE + |ct| <= m <= PREFIX_SIZE + |ct| + |rest|
    ensures (Prefixed(ct) + rest)[..m] == Prefixed(ct) + rest[..m - PREFIX_SIZE - |ct|]
  {
  }

  /** A cut j bytes into frame k leaves k frames whole and j bytes over. */
  lemma {:induction false} CutAt(ps: seq<bytes>, k: nat, j: nat)
    requires k < |ps| && j < FrameSize(ps[k])
    ensures Whole(ps, FramedSize(ps[..k]) + j) == k && LeftOver(ps, FramedSize(ps[..k]) + j) == j
    ensures FramedSize(ps[..k]) + j < FramedSize(ps)
  {
    if k > 0 {
      assert ps[..k][1..] == ps[1..][..k - 1];
      CutAt(ps[1..], k - 1, j);
    }
  }

  /** Every cut short of the end is one such. */
  lemma {:induction false} CutsAreInside(ps: seq<bytes>, m: nat)
    requires m <= FramedSize(ps)
    ensures var k := Whole(ps, m);
            && m == FramedSize(ps[..k]) + LeftOver(ps, m)
            && (k == |ps| <==> m == FramedSize(ps))
            && (k < |ps| ==> LeftOver(ps, m) < FrameSize(ps[k]))
  {
    if ps != [] && m >= FrameSize(ps[0]) {
      var k := Whole(ps[1..], m - FrameSize(ps[0]));
      CutsAreInside(ps[1..], m - FrameSize(ps[0]));
      assert ps[..k + 1][1..] == ps[1..][..k];
    } else if ps != [] {
      assert ps[..0] == [];
      assert FramedSize(ps) >= FrameSize(ps[0]);
    }
  }

  /** A cut that looks like the end with frames still to come. */
  ghost predicate LooksEndedEarly(ps: seq<bytes>, m: nat)
  {
    exists k: nat :: k < |ps| && (m == FramedSize(ps[..k]) || m == FramedSize(ps[..k]) + PREFIX_SIZE)
  }

  lemma LooksEndedEarlyIff(ps: seq<bytes>, m: nat)
    requires m <= FramedSize(ps)
    ensures LooksEndedEarly(ps, m) <==> LooksEnded(LeftOver(ps, m)) && Whole(ps, m) < |ps|
  {
    CutsAreInside(ps, m);
    if k: nat :| k < |ps| && (m == FramedSize(ps[..k]) || m == FramedSize(ps[..k]) + PREFIX_SIZE) {
      CutAt(ps, k, m - FramedSize(ps[..k]));
    }
  }

  /**
   When a clean end can be trusted: a cut stream ends cleanly with frames missing if and only if it
   was cut at the beginning of a frame or right after a frame's prefix.
   */
  lemma CleanEndMissesIff(c: Cipher, n: nonce, ps: seq<bytes>, m: nat)
    requires IdealAead(c) && Fits(ps) && m <= |Frames(c, n, ps)|
    ensures var r := Import(c, n, Frames(c, n, ps)[..m]);
            r.ending == Ended && r.plains != ps <==> LooksEndedEarly(ps, m)
  {
    FramesSize(c, n, ps);
    CutImport(c, n, ps, m);
    LooksEndedEarlyIff(ps, m);
    PrefixIsAll(ps, Whole(ps, m));
  }

  lemma PrefixIsAll(ps: seq<bytes>, k: nat)
    requires k <= |ps|
    ensures ps[..k] == ps <==> k == |ps|
  {
    assert |ps[..k]| == k;
  }

  /** A frame's prefix, or a part of its body, left over from a cut at m. */
  ghost predicate CutIn(ps: seq<bytes>, k: nat, j: nat, m: nat)
  {
    k < |ps| && j < FrameSize(ps[k]) && m == FramedSize(ps[..k]) + j
  }

  lemma CutAtWithin(ps: seq<bytes>, k: nat, j: nat, m: nat)
    requires CutIn(ps, k, j, m)
    ensures m < FramedSize(ps) && Whole(ps, m) == k && LeftOver(ps, m) == j
  {
    CutAt(ps, k, j);
  }

  lemma CutImportIs(c: Cipher, n: nonce, ps: seq<bytes>, m: nat, k: nat, j: nat)
    requires IdealAead(c) && Fits(ps) && m <= FramedSize(ps) && k == Whole(ps, m) && j == LeftOver(ps, m)
    ensures m <= |Frames(c, n, ps)|
    ensures Import(c, n, Frames(c, n, ps)[..m])
         == Imported(ps[..k], if LooksEnded(j) then Ended else Spinning, Advance(n, k))
  {
    FramesSize(c, n, ps);
    CutImport(c, n, ps, m);
  }

  /** For instance: cut right after the prefix of frame k, the first k frames come with a clean end. */
  lemma LonePrefixLooksEnded(c: Cipher, n: nonce, ps: seq<bytes>, k: nat, m: nat)
    requires IdealAead(c) && Fits(ps) && CutIn(ps, k, PREFIX_SIZE, m)
    ensures m <= |Frames(c, n, ps)| && Import(c, n, Frames(c, n, ps)[..m]) == Imported(ps[..k], Ended, Advance(n, k))
  {
    CutAtWithin(ps, k, PREFIX_SIZE, m);
    CutImportIs(c, n, ps, m, k, PREFIX_SIZE);
  }

  /** And cut inside the body of frame k, the poll after the first k frames never returns. */
  lemma CutBodySpins(c: Cipher, n: nonce, ps: seq<bytes>, k: nat, j: nat, m: nat)
    requires IdealAead(c) && Fits(ps) && j > PREFIX_SIZE && CutIn(ps, k, j, m)
    ensures m <= |Frames(c, n, ps)| && Import(c, n, Frames(c, n, ps)[..m]) == Imported(ps[..k], Spinning, Advance(n, k))
  {
    CutAtWithin(ps, k, j, m);
    CutImportIs(c, n, ps, m, k, j);
  }
}
