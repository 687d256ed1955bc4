/**
 The cache key of the caching signature verifier
 (apps/mls_validation_service/src/cached_signature_verifier.rs): every verification
 parameter, length-prefixed, hashed.
 */
module CacheKey {
  import opened Bytes
  import opened Wrappers

  const LENGTH_SIZE: nat := 4
  const HASH_SIZE: nat := 32
  const BLOCK_SIZE: nat := 8

  datatype Parameters = Parameters(chainId: bytes, address: bytes, hash: bytes, signature: bytes, block: Option<nat>)

  /** One verification request: a 32-byte hash and a 64-bit block number, if any. */
  type Request = r: Parameters | |r.hash| == HASH_SIZE && (r.block.Some? ==> r.block.value < U64)
    witness Parameters([], [], seq(HASH_SIZE, i => 0), [], None)

  /** A length-prefixed field; the length is cast to u32, so it wraps at 2^32. */
  function Field(x: bytes): bytes
  {
    BeBytes(|x| % U32, LENGTH_SIZE) + x
  }

  function BlockTag(b: Option<nat>): bytes
  {
    match b
    case Some(n) => [1] + BeBytes(n, BLOCK_SIZE)
    case None => [0]
  }

  /** The bytes that are hashed. */
  function Preimage(r: Request): bytes
  {
    Field(r.chainId) + (Field(r.address) + (r.hash + (Field(r.signature) + BlockTag(r.block))))
  }

  lemma Flatten(a1: bytes, a2: bytes, b1: bytes, b2: bytes, h: bytes, c1: bytes, c2: bytes, t: bytes)
    ensures [] + a1 + a2 + b1 + b2 + h + c1 + c2 + t == (a1 + a2) + ((b1 + b2) + (h + ((c1 + c2) + t)))
  {
  }

  /** Builds the buffer field by field and hashes it. */
  method BuildCacheKey(r: Request, digest: bytes -> bytes) returns (key: bytes)
    ensures key == digest(Preimage(r))
  {
    var buf: bytes := [];
    buf := buf + BeBytes(|r.chainId| % U32, LENGTH_SIZE);
    buf := buf + r.chainId;
    buf := buf + BeBytes(|r.address| % U32, LENGTH_SIZE);
    buf := buf + r.address;
    buf := buf + r.hash;
    buf := buf + BeBytes(|r.signature| % U32, LENGTH_SIZE);
    buf := buf + r.signature;
    Flatten(BeBytes(|r.chainId| % U32, LENGTH_SIZE), r.chainId, BeBytes(|r.address| % U32, LENGTH_SIZE), r.address,
            r.hash, BeBytes(|r.signature| % U32, LENGTH_SIZE), r.signature, BlockTag(r.block));
    match r.block {
      case Some(n) =>
        ConcatAssoc(buf, [1], BeBytes(n, BLOCK_SIZE));
        buf := buf + [1];
        buf := buf + BeBytes(n, BLOCK_SIZE);
      case None =>
        buf := buf + [0];
    }
    key := digest(buf);
  }

  lemma BeInjective(v: nat, w: nat, n: nat)
    requires v < Pow256(n) && w < Pow256(n) && BeBytes(v, n) == BeBytes(w, n)
    ensures v == w
  {
    BeRoundTrip(v, n);
    BeRoundTrip(w, n);
    ModUnique(v, Pow256(n), 0, v);
    ModUnique(w, Pow256(n), 0, w);
  }

  lemma LengthInjective(v: nat, w: nat)
    requires v < U32 && w < U32 && BeBytes(v, LENGTH_SIZE) == BeBytes(w, LENGTH_SIZE)
    ensures v == w
  {
    assert Pow256(LENGTH_SIZE) == U32;
    BeInjective(v, w, LENGTH_SIZE);
  }

  lemma FieldAssoc(x: bytes, s: bytes, p: bytes)
    requires |x| < U32 && p == BeBytes(|x|, LENGTH_SIZE)
    ensures Field(x) + s == p + (x + s)
  {
    FieldIs(x, p);
    ConcatAssoc(p, x, s);
  }

  lemma FieldIs(x: bytes, p: bytes)
    requires |x| < U32 && p == BeBytes(|x|, LENGTH_SIZE)
    ensures Field(x) == p + x
  {
    ModUnique(|x|, U32, 0, |x|);
  }

  /** A field shorter than 2^32 bytes can be read back off the front of anything. */
  lemma FieldCancel(x: bytes, y: bytes, s: bytes, t: bytes)
    requires |x| < U32 && |y| < U32 && Field(x) + s == Field(y) + t
    ensures x == y && s == t
  {
    var p, q := BeBytes(|x|, LENGTH_SIZE), BeBytes(|y|, LENGTH_SIZE);
    FieldAssoc(x, s, p);
    FieldAssoc(y, t, q);
    Cancel(p, q, x + s, y + t);
    LengthInjective(|x|, |y|);
    Cancel(x, y, s, t);
  }

  lemma BlockTagInjective(a: Option<nat>, b: Option<nat>)
    requires (a.Some? ==> a.value < U64) && (b.Some? ==> b.value < U64) && BlockTag(a) == BlockTag(b)
    ensures a == b
  {
    assert Pow256(BLOCK_SIZE) == U64 by {
      assert Pow256(6) == 0x1_0000_0000_0000;
    }
    if a.Some? && b.Some? {
      Cancel([1], [1], BeBytes(a.value, BLOCK_SIZE), BeBytes(b.value, BLOCK_SIZE));
      BeInjective(a.value, b.value, BLOCK_SIZE);
    } else {
      assert BlockTag(a)[0] == BlockTag(b)[0];
    }
  }

  predicate FieldsWithin(r: Request, limit: nat)
  {
    |r.chainId| <= limit && |r.address| <= limit && |r.signature| <= limit
  }

  /** With every field under 2^32 bytes, equal buffers mean equal requests, None against Some(0) included. */
  lemma PreimageInjective(a: Request, b: Request)
    requires FieldsWithin(a, U32 - 1) && FieldsWithin(b, U32 - 1) && Preimage(a) == Preimage(b)
    ensures a == b
  {
    var a3, b3 := Field(a.signature) + BlockTag(a.block), Field(b.signature) + BlockTag(b.block);
    var a2, b2 := a.hash + a3, b.hash + b3;
    FieldCancel(a.chainId, b.chainId, Field(a.address) + a2, Field(b.address) + b2);
    FieldCancel(a.address, b.address, a2, b2);
    Cancel(a.hash, b.hash, a3, b3);
    FieldCancel(a.signature, b.signature, BlockTag(a.block), BlockTag(b.block));
    BlockTagInjective(a.block, b.block);
  }

  /** The bytes b begin with the field x: its length in four bytes, most significant first, and its content. */
  ghost predicate ReadsField(b: bytes, x: bytes)
  {
    && |b| >= 4 + |x|
    && (forall i :: 0 <= i < 4 ==> b[i] == (|x| / Pow256(3 - i)) % 256)
    && b[4..4 + |x|] == x
  }

  lemma FieldReads(x: bytes, rest: bytes)
    requires |x| < U32
    ensures ReadsField(Field(x) + rest, x) && (Field(x) + rest)[4 + |x|..] == rest
  {
    var p := BeBytes(|x|, LENGTH_SIZE);
    FieldAssoc(x, rest, p);
    var b := p + (x + rest);
    forall i | 0 <= i < 4 ensures b[i] == (|x| / Pow256(3 - i)) % 256 {
      BeBytesAt(|x|, LENGTH_SIZE, i);
    }
    assert b[4..4 + |x|] == x && b[4 + |x|..] == rest;
  }

  /**
   The layout of the buffer, byte by byte: chain id, address, the 32 bytes of the hash, signature, and
   then 1 and the block number in eight bytes, most significant first, or 0.
   */
  lemma PreimageLayout(r: Request)
    requires FieldsWithin(r, U32 - 1)
    ensures var b := Preimage(r);
            && ReadsField(b, r.chainId)
            && var b2 := b[4 + |r.chainId|..];
               && ReadsField(b2, r.address)
               && var b3 := b2[4 + |r.address|..];
                  && |b3| >= 32 && b3[..32] == r.hash
                  && ReadsField(b3[32..], r.signature)
                  && var b4 := b3[32..][4 + |r.signature|..];
                     match r.block
                     case None => b4 == [0]
                     case Some(n) =>
                       |b4| == 9 && b4[0] == 1
                       && forall i :: 1 <= i < 9 ==> b4[i] == (n / Pow256(8 - i)) % 256
  {
    var t := BlockTag(r.block);
    var s4 := Field(r.signature) + t;
    var s3 := r.hash + s4;
    var s2 := Field(r.address) + s3;
    FieldReads(r.chainId, s2);
    FieldReads(r.address, s3);
    assert s3[..32] == r.hash && s3[32..] == s4;
    FieldReads(r.signature, t);
    TagReads(r.block);
  }

  lemma TagReads(block: Option<nat>)
    ensures match block
            case None => BlockTag(block) == [0]
            case Some(n) =>
              |BlockTag(block)| == 9 && BlockTag(block)[0] == 1
              && forall i :: 1 <= i < 9 ==> BlockTag(block)[i] == (n / Pow256(8 - i)) % 256
  {
    if block.Some? {
      forall i | 1 <= i < 9 ensures BlockTag(block)[i] == (block.value / Pow256(8 - i)) % 256 {
        BeBytesAt(block.value, BLOCK_SIZE, i - 1);
      }
    }
  }

  function Zeros(n: nat): (z: bytes)
    ensures |z| == n
  {
    seq(n, i => 0)
  }

  /** Two requests that differ in where a field of 2^32 zero bytes sits. */
  function Shifted(first: bool): Request
  {
    if first then Parameters(Zeros(U32), [], Zeros(HASH_SIZE), [], None)
    else Parameters([], Zeros(U32), Zeros(HASH_SIZE), [], None)
  }

  /** At 2^32 bytes the length prefix wraps to zero and the boundary between two fields is lost. */
  lemma LongFieldsCollide()
    ensures Shifted(true) != Shifted(false) && Preimage(Shifted(true)) == Preimage(Shifted(false))
  {
    var z, empty: bytes := Zeros(U32), [];
    var prefix := BeBytes(0, LENGTH_SIZE);
    assert Shifted(true).address != Shifted(false).address;
    BeZeros(LENGTH_SIZE);
    assert Field(z) == prefix + z;
    assert Field(empty) == prefix + empty;
    var tail := Zeros(HASH_SIZE) + (Field([]) + BlockTag(None));
    ZerosCommute(prefix, z, tail);
  }

  lemma {:induction false} BeZeros(n: nat)
    ensures BeBytes(0, n) == Zeros(n)
  {
    if n > 0 {
      BeZeros(n - 1);
    }
  }

  lemma ZerosCommute(p: bytes, z: bytes, tail: bytes)
    requires p == Zeros(|p|) && z == Zeros(|z|)
    ensures (p + z) + ((p + []) + tail) == (p + []) + ((p + z) + tail)
  {
  }

  /**
   The encoding is uniquely decodable on all requests whose variable fields have at most
   `limit` bytes exactly when the limit is below 2^32.
   */
  lemma UniquelyDecodableIff(limit: nat)
    ensures (forall a: Request, b: Request ::
               FieldsWithin(a, limit) && FieldsWithin(b, limit) && Preimage(a) == Preimage(b) ==> a == b)
            <==> limit < U32
  {
    if limit < U32 {
      forall a: Request, b: Request | FieldsWithin(a, limit) && FieldsWithin(b, limit) && Preimage(a) == Preimage(b)
        ensures a == b
      {
        PreimageInjective(a, b);
      }
    } else {
      LongFieldsCollide();
      assert FieldsWithin(Shifted(true), limit) && FieldsWithin(Shifted(false), limit);
    }
  }

  /** The digest has no collision among the given requests. */
  ghost predicate CollisionFree(digest: bytes -> bytes, rs: set<Request>)
  {
    forall a, b :: a in rs && b in rs && digest(Preimage(a)) == digest(Preimage(b)) ==> Preimage(a) == Preimage(b)
  }

  ghost predicate Encodable(rs: set<Request>)
  {
    forall r :: r in rs ==> FieldsWithin(r, U32 - 1)
  }

  /** Among such requests, equal keys mean equal requests. */
  lemma KeysDistinguish(digest: bytes -> bytes, rs: set<Request>, a: Request, b: Request)
    requires CollisionFree(digest, rs) && Encodable(rs) && a in rs && b in rs
    requires digest(Preimage(a)) == digest(Preimage(b))
    ensures a == b
  {
    PreimageInjective(a, b);
  }
}
