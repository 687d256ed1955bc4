/**
 A message codec that meets the law asked of one: every element has bytes of its own.  It stands in
 for protocol buffers only to show that the law can be met.
 */
module PlainWire {
  import opened Bytes
  import opened Wrappers
  import opened Archive

  function PutNat(n: nat): bytes
  {
    if n == 0 then [0] else [1] + PutNat(n - 1)
  }

  function PutInt(i: int): bytes
  {
    if i < 0 then [1] + PutNat(-i) else [0] + PutNat(i)
  }

  function PutOption(o: Option<int>): bytes
  {
    if o.None? then [0] else [1] + PutInt(o.value)
  }

  function PutInts(xs: seq<int>): bytes
  {
    if xs == [] then [0] else [1] + (PutInt(xs[0]) + PutInts(xs[1..]))
  }

  function PutSave(m: BackupMetadataSave): bytes
  {
    PutInts(m.elements) + (PutInt(m.exportedAtNs) + (PutOption(m.startNs) + PutOption(m.endNs)))
  }

  function Put(e: BackupElement): bytes
  {
    match e
    case Metadata(save) => [0] + PutSave(save)
    case Content(kind, payload) => [1] + (PutNat(kind) + payload)
    case Unset => [2]
  }

  /** The first byte on both sides is the same and can be taken off. */
  lemma Behead(p: bytes, q: bytes, s: bytes, t: bytes)
    requires p != [] && q != [] && p + s == q + t
    ensures p[0] == q[0] && p[1..] + s == q[1..] + t
  {
    assert p[0] == (p + s)[0] && q[0] == (q + t)[0];
    assert p[1..] + s == (p + s)[1..] && q[1..] + t == (q + t)[1..];
  }

  lemma NoneLeft(s: bytes, t: bytes)
    requires [] + s == [] + t
    ensures s == t
  {
    assert [] + s == s && [] + t == t;
  }

  lemma {:induction false} NatCancel(m: nat, n: nat, s: bytes, t: bytes)
    requires PutNat(m) + s == PutNat(n) + t
    ensures m == n && s == t
  {
    Behead(PutNat(m), PutNat(n), s, t);
    if m > 0 {
      NatCancel(m - 1, n - 1, s, t);
    } else {
      NoneLeft(s, t);
    }
  }

  lemma IntCancel(i: int, j: int, s: bytes, t: bytes)
    requires PutInt(i) + s == PutInt(j) + t
    ensures i == j && s == t
  {
    Behead(PutInt(i), PutInt(j), s, t);
    NatCancel(if i < 0 then -i else i, if j < 0 then -j else j, s, t);
  }

  lemma OptionCancel(a: Option<int>, b: Option<int>, s: bytes, t: bytes)
    requires PutOption(a) + s == PutOption(b) + t
    ensures a == b && s == t
  {
    Behead(PutOption(a), PutOption(b), s, t);
    if a.Some? {
      IntCancel(a.value, b.value, s, t);
    } else {
      NoneLeft(s, t);
    }
  }

  lemma {:induction false} IntsCancel(xs: seq<int>, ys: seq<int>, s: bytes, t: bytes)
    requires PutInts(xs) + s == PutInts(ys) + t
    ensures xs == ys && s == t
    decreases |xs|
  {
    Behead(PutInts(xs), PutInts(ys), s, t);
    if xs != [] {
      ConcatAssoc(PutInt(xs[0]), PutInts(xs[1..]), s);
      ConcatAssoc(PutInt(ys[0]), PutInts(ys[1..]), t);
      IntCancel(xs[0], ys[0], PutInts(xs[1..]) + s, PutInts(ys[1..]) + t);
      IntsCancel(xs[1..], ys[1..], s, t);
      assert xs == [xs[0]] + xs[1..] && ys == [ys[0]] + ys[1..];
    } else {
      NoneLeft(s, t);
    }
  }

  lemma SaveInjective(a: BackupMetadataSave, b: BackupMetadataSave)
    requires PutSave(a) == PutSave(b)
    ensures a == b
  {
    var a2, b2 := PutOption(a.startNs) + PutOption(a.endNs), PutOption(b.startNs) + PutOption(b.endNs);
    IntsCancel(a.elements, b.elements, PutInt(a.exportedAtNs) + a2, PutInt(b.exportedAtNs) + b2);
    IntCancel(a.exportedAtNs, b.exportedAtNs, a2, b2);
    OptionCancel(a.startNs, b.startNs, PutOption(a.endNs), PutOption(b.endNs));
    assert PutOption(a.endNs) + [] == PutOption(b.endNs) + [];
    OptionCancel(a.endNs, b.endNs, [], []);
  }

  lemma PutInjective(a: BackupElement, b: BackupElement)
    requires Put(a) == Put(b)
    ensures a == b
  {
    assert Put(a)[0] == Put(b)[0] && Put(a)[1..] == Put(b)[1..];
    if a.Metadata? {
      SaveInjective(a.save, b.save);
    } else if a.Content? {
      NatCancel(a.kind, b.kind, a.payload, b.payload);
    }
  }

  /** The element a byte string was made from, if any. */
  ghost function Get(b: bytes): Option<BackupElement>
  {
    if exists e: BackupElement :: Put(e) == b then (var e: BackupElement :| Put(e) == b; Some(e)) else None
  }

  /** A faithful message codec exists. */
  lemma PlainWireIsFaithful(w: Wire)
    requires w == Wire(Put, Get)
    ensures Faithful(w)
  {
    forall e: BackupElement ensures w.de(w.ser(e)) == Some(e) {
      assert Get(Put(e)).Some?;
      PutInjective(Get(Put(e)).value, e);
    }
  }
}
