/**
 The 96-bit nonce counter of the archive codec (crates/xmtp_archive/src/util.rs):
 twelve bytes, least significant first, stepped in place.
 */
module Nonce {
  import opened Bytes

  const NONCE_SIZE: nat := 12

  /** The 128-bit scratch integer a nonce is stepped through. */
  const SCRATCH_SIZE: nat := 16

  /** The number of distinct nonces, 2^96. */
  const SPACE: nat := 0x1_0000_0000_0000_0000_0000_0000

  /** A nonce by its value; NonceBytes and NonceOf go between it and its twelve bytes. */
  type nonce = x: nat | x < SPACE

  lemma SpaceIsPow()
    ensures Pow256(NONCE_SIZE) == SPACE
  {
    assert Pow256(4) == 0x1_0000_0000;
    assert Pow256(8) == 0x1_0000_0000_0000_0000 by {
      assert Pow256(6) == 0x1_0000_0000_0000;
    }
    assert Pow256(10) == 0x1_0000_0000_0000_0000_0000;
  }

  function NonceBytes(n: nonce): (s: bytes)
    ensures |s| == NONCE_SIZE
  {
    LeBytes(n, NONCE_SIZE)
  }

  function NonceOf(s: bytes): nonce
    requires |s| == NONCE_SIZE
  {
    SpaceIsPow();
    LeVal(s)
  }

  /** Nonces and their bytes are in one-to-one correspondence. */
  lemma NonceBijection(n: nonce, s: bytes)
    requires |s| == NONCE_SIZE
    ensures NonceOf(NonceBytes(n)) == n
    ensures NonceBytes(NonceOf(s)) == s
  {
    SpaceIsPow();
    LeRoundTrip(n, NONCE_SIZE);
    ModUnique(n, SPACE, 0, n);
    LeBytesOfVal(s);
  }

  /** The bytes of a nonce are its digits, least significant first. */
  lemma NonceDigits(s: bytes, i: nat)
    requires |s| == NONCE_SIZE && i < NONCE_SIZE
    ensures s[i] == (NonceOf(s) / Pow256(i)) % 256
  {
    LeBytesOfVal(s);
    LeBytesAt(LeVal(s), NONCE_SIZE, i);
  }

  /** The nonce k places after n, wrapping at 2^96. */
  function Advance(n: nonce, k: int): nonce
  {
    (n + k) % SPACE
  }

  /** Advancing is an action of the integers: steps add up, and zero steps do nothing. */
  lemma AdvanceAdds(n: nonce, j: int, k: int)
    ensures Advance(Advance(n, j), k) == Advance(n, j + k)
    ensures Advance(n, 0) == n
  {
    ModShift((n + j) % SPACE + k, (n + j) / SPACE, SPACE);
    ModUnique(n, SPACE, 0, n);
  }

  /** Increment and decrement undo each other at every nonce, the wrap points 0 and 2^96 - 1 included. */
  lemma StepsUndo(n: nonce)
    ensures Advance(Advance(n, 1), -1) == n && Advance(Advance(n, -1), 1) == n
    ensures Advance(SPACE - 1, 1) == 0 && Advance(0, -1) == SPACE - 1
  {
    AdvanceAdds(n, 1, -1);
    AdvanceAdds(n, -1, 1);
  }

  /**
   No two frames of one export share a nonce, as section 3.1 of RFC 5116 demands:
   two offsets give the same nonce exactly when they differ by a multiple of 2^96,
   so any window of at most 2^96 consecutive offsets is free of repeats.
   */
  lemma AdvanceCollides(n: nonce, i: int, j: int)
    ensures Advance(n, i) == Advance(n, j) <==> (j - i) % SPACE == 0
    ensures 0 <= i < j < SPACE ==> Advance(n, i) != Advance(n, j)
  {
    var a, b := n + i, n + j;
    if Advance(n, i) == Advance(n, j) {
      assert b - a == (b / SPACE - a / SPACE) * SPACE;
      ModUnique(b - a, SPACE, b / SPACE - a / SPACE, 0);
    }
    if (j - i) % SPACE == 0 {
      ModShift(a, (j - i) / SPACE, SPACE);
    }
    if 0 <= i < j < SPACE {
      ModUnique(j - i, SPACE, 0, j - i);
    }
  }

  /** Steps the nonce forward in place. */
  method Increment(a: array<byte>)
    requires a.Length == NONCE_SIZE
    modifies a
    ensures NonceOf(a[..]) == Advance(old(NonceOf(a[..])), 1)
  {
    StepInPlace(a, 1);
  }

  /** Steps the nonce back in place. */
  method Decrement(a: array<byte>)
    requires a.Length == NONCE_SIZE
    modifies a
    ensures NonceOf(a[..]) == Advance(old(NonceOf(a[..])), -1)
  {
    StepInPlace(a, -1);
  }

  /** Zero-extends to 128 bits, adds with 128-bit wrap-around, and copies the low twelve bytes back. */
  method StepInPlace(a: array<byte>, d: int)
    requires a.Length == NONCE_SIZE && (d == 1 || d == -1)
    modifies a
    ensures NonceOf(a[..]) == Advance(old(NonceOf(a[..])), d)
  {
    var buf := a[..] + [0, 0, 0, 0];
    var val := (LeVal(buf) + d) % Pow256(SCRATCH_SIZE);
    var out := LeBytes(val, SCRATCH_SIZE);
    LeValZeroExtend(a[..], [0, 0, 0, 0]);
    SpaceIsPow();
    TruncatedAdd(LeVal(a[..]), d, NONCE_SIZE, SCRATCH_SIZE);
    NonceBijection(Advance(NonceOf(a[..]), d), a[..]);
    forall i | 0 <= i < NONCE_SIZE {
      a[i] := out[i];
    }
    assert a[..] == out[..NONCE_SIZE];
  }

  /** k increments in a row add k, whatever wraps on the way. */
  method IncrementMany(start: nonce, k: nat) returns (n: nonce)
    ensures n == (start + k) % SPACE
  {
    var bytes := NonceBytes(start);
    NonceBijection(start, bytes);
    var a := new byte[NONCE_SIZE](i requires 0 <= i < NONCE_SIZE => bytes[i]);
    assert a[..] == bytes;
    AdvanceAdds(start, 0, 0);
    var i := 0;
    while i < k
      invariant 0 <= i <= k && NonceOf(a[..]) == Advance(start, i)
    {
      Increment(a);
      AdvanceAdds(start, i, 1);
      i := i + 1;
    }
    n := NonceOf(a[..]);
  }
}
