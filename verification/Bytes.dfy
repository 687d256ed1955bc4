/**
 Bytes and the fixed-width integer encodings the system puts on the wire:
 little-endian (archive frames, nonces, the version header) and big-endian
 (cache keys).
 */
module Bytes {

  type byte = x: int | 0 <= x < 256
  type bytes = seq<byte>

  /** The number of values of a u32, and of a u64. */
  const U32: nat := 0x1_0000_0000
  const U64: nat := 0x1_0000_0000_0000_0000

  /** The number of values of an n-byte unsigned integer. */
  function Pow256(n: nat): (p: nat)
    ensures p >= 1
  {
    if n == 0 then 1 else 256 * Pow256(n - 1)
  }

  function LeVal(s: bytes): (v: nat)
    ensures v < Pow256(|s|)
  {
    if s == [] then 0 else s[0] + 256 * LeVal(s[1..])
  }

  function LeBytes(v: nat, n: nat): (s: bytes)
    ensures |s| == n
  {
    if n == 0 then [] else [v % 256] + LeBytes(v / 256, n - 1)
  }

  function BeVal(s: bytes): (v: nat)
    ensures v < Pow256(|s|)
  {
    if s == [] then 0 else 256 * BeVal(s[..|s| - 1]) + s[|s| - 1]
  }

  function BeBytes(v: nat, n: nat): (s: bytes)
    ensures |s| == n
  {
    if n == 0 then [] else BeBytes(v / 256, n - 1) + [v % 256]
  }

  lemma ConcatAssoc<T>(a: seq<T>, b: seq<T>, c: seq<T>)
    ensures (a + b) + c == a + (b + c)
  {
  }

  lemma ConsAppend<T>(a: seq<T>, b: seq<T>)
    requires a != []
    ensures a + b == [a[0]] + (a[1..] + b) && (a + b)[1..] == a[1..] + b
  {
  }

  /** Beginnings of the same length, and what follows them, can be told apart. */
  lemma Cancel<T>(a: seq<T>, b: seq<T>, s: seq<T>, t: seq<T>)
    requires |a| == |b| && a + s == b + t
    ensures a == b && s == t
  {
    assert (a + s)[..|a|] == a && (b + t)[..|b|] == b;
    assert (a + s)[|a|..] == s && (b + t)[|b|..] == t;
  }

  /** Appending the next k bytes of s to its first i. */
  lemma TakeMore(a: bytes, b: bytes, s: bytes, i: nat, k: nat)
    requires i + k <= |s|
    ensures (a + (b + s[..i])) + s[i..][..k] == a + (b + s[..i + k])
  {
    assert s[..i + k] == s[..i] + s[i..][..k];
  }

  lemma SliceConcat(a: bytes, b: bytes, k: nat)
    requires k <= |a|
    ensures (a + b)[..k] == a[..k] && (a + b)[k..] == a[k..] + b
  {
  }

  lemma MoveAcross(a: bytes, s: bytes, k: nat)
    requires k <= |s|
    ensures (a + s[..k]) + s[k..] == a + s
  {
    assert s == s[..k] + s[k..];
  }

  lemma ModUnique(a: int, b: int, q: int, r: int)
    requires b > 0 && a == q * b + r && 0 <= r < b
    ensures a % b == r && a / b == q
  {
    var d := a / b - q;
    assert a == b * (a / b) + a % b;
    assert b * d == r - a % b;
    MulBounds(b, d);
  }

  lemma MulBounds(b: int, d: int)
    requires b > 0
    ensures d >= 1 ==> b * d >= b
    ensures d <= -1 ==> b * d <= -b
  {
  }

  /** Splitting off the low byte of a value commutes with truncation. */
  lemma ModSplit(v: nat, n: nat)
    ensures v % Pow256(n + 1) == v % 256 + 256 * ((v / 256) % Pow256(n))
  {
    var p := Pow256(n);
    var q, r := (v / 256) / p, (v / 256) % p;
    assert v / 256 == p * q + r;
    assert q * (256 * p) == 256 * (p * q);
    ModUnique(v, 256 * p, q, v % 256 + 256 * r);
  }

  /** Encoding in n bytes and reading back truncates modulo 256^n. */
  lemma {:induction false} LeRoundTrip(v: nat, n: nat)
    ensures LeVal(LeBytes(v, n)) == v % Pow256(n)
  {
    if n > 0 {
      LeRoundTrip(v / 256, n - 1);
      ModSplit(v, n - 1);
      assert LeBytes(v, n)[1..] == LeBytes(v / 256, n - 1);
    }
  }

  lemma {:induction false} BeRoundTrip(v: nat, n: nat)
    ensures BeVal(BeBytes(v, n)) == v % Pow256(n)
  {
    if n > 0 {
      BeRoundTrip(v / 256, n - 1);
      ModSplit(v, n - 1);
      assert BeBytes(v, n)[..n - 1] == BeBytes(v / 256, n - 1);
    }
  }

  /** Reading and encoding back restores the bytes. */
  lemma {:induction false} LeBytesOfVal(s: bytes)
    ensures LeBytes(LeVal(s), |s|) == s
  {
    if s != [] {
      ModUnique(LeVal(s), 256, LeVal(s[1..]), s[0]);
      LeBytesOfVal(s[1..]);
      assert s == [s[0]] + s[1..];
    }
  }

  lemma LeValInjective(s: bytes, t: bytes)
    requires |s| == |t| && LeVal(s) == LeVal(t)
    ensures s == t
  {
    LeBytesOfVal(s);
    LeBytesOfVal(t);
  }

  /** The first m bytes of a wider encoding are the m-byte encoding. */
  lemma {:induction false} LeBytesPrefix(v: nat, m: nat, n: nat)
    requires m <= n
    ensures LeBytes(v, n)[..m] == LeBytes(v, m)
  {
    if m > 0 {
      LeBytesPrefix(v / 256, m - 1, n - 1);
    }
  }

  /** Trailing zero bytes do not change a little-endian value. */
  lemma {:induction false} LeValZeroExtend(s: bytes, z: bytes)
    requires forall i :: 0 <= i < |z| ==> z[i] == 0
    ensures LeVal(s + z) == LeVal(s)
  {
    if s != [] {
      assert (s + z)[1..] == s[1..] + z;
      LeValZeroExtend(s[1..], z);
    } else if z != [] {
      assert s + z == z;
      LeValZeroExtend([], z[1..]);
      assert [] + z[1..] == z[1..];
    }
  }

  /** Truncating to n bytes and then to m is truncating to m. */
  lemma {:induction false} ModNarrow(v: nat, m: nat, n: nat)
    requires m <= n
    ensures (v % Pow256(n)) % Pow256(m) == v % Pow256(m)
  {
    LeRoundTrip(v, n);
    LeRoundTrip(v, m);
    LeRoundTrip(v % Pow256(n), m);
    LeRoundTrip(v % Pow256(n), n);
    LeBytesPrefix(v, m, n);
    LeBytesPrefix(v % Pow256(n), m, n);
    var w := v % Pow256(n);
    ModUnique(w, Pow256(n), 0, w);
    LeValInjective(LeBytes(v, n), LeBytes(w, n));
  }

  lemma ModShift(x: int, c: int, b: int)
    requires b > 0
    ensures (x + c * b) % b == x % b
  {
    assert x + c * b == (x / b + c) * b + x % b;
    ModUnique(x + c * b, b, x / b + c, x % b);
  }

  /** Truncating to n bytes and keeping the low m of them is truncating to m bytes. */
  lemma LeBytesTruncate(x: nat, m: nat, n: nat)
    requires m <= n
    ensures LeBytes(x % Pow256(n), n)[..m] == LeBytes(x % Pow256(m), m)
  {
    var w, u := x % Pow256(n), x % Pow256(m);
    LeBytesPrefix(w, m, n);
    LeRoundTrip(w, m);
    ModNarrow(x, m, n);
    LeRoundTrip(u, m);
    ModUnique(u, Pow256(m), 0, u);
    LeValInjective(LeBytes(w, m), LeBytes(u, m));
  }

  /** Adding d modulo 256^n and keeping the low m bytes adds d modulo 256^m. */
  lemma TruncatedAdd(v: nat, d: int, m: nat, n: nat)
    requires m <= n && v + d + Pow256(n) >= 0
    ensures LeBytes((v + d) % Pow256(n), n)[..m] == LeBytes((v + d) % Pow256(m), m)
  {
    ModShift(v + d, 1, Pow256(n));
    PowSplit(m, n - m);
    ModShift(v + d, Pow256(n - m), Pow256(m));
    LeBytesTruncate(v + d + Pow256(n), m, n);
  }

  lemma {:induction false} PowSplit(m: nat, k: nat)
    ensures Pow256(m + k) == Pow256(k) * Pow256(m)
  {
    if k > 0 {
      PowSplit(m, k - 1);
    }
  }

  lemma DivDiv(v: nat, p: nat)
    requires p > 0
    ensures (v / 256) / p == v / (256 * p)
  {
    var q, r := (v / 256) / p, (v / 256) % p;
    assert v / 256 == p * q + r;
    assert q * (256 * p) == 256 * (p * q);
    ModUnique(v, 256 * p, q, v % 256 + 256 * r);
  }

  /** Byte i of a little-endian encoding is the digit of weight 256^i. */
  lemma {:induction false} LeBytesAt(v: nat, n: nat, i: nat)
    requires i < n
    ensures LeBytes(v, n)[i] == (v / Pow256(i)) % 256
  {
    if i > 0 {
      LeBytesAt(v / 256, n - 1, i - 1);
      DivDiv(v, Pow256(i - 1));
    }
  }

  /** Byte i of a big-endian encoding in n bytes is the digit of weight 256^(n - 1 - i). */
  lemma {:induction false} BeBytesAt(v: nat, n: nat, i: nat)
    requires i < n
    ensures BeBytes(v, n)[i] == (v / Pow256(n - 1 - i)) % 256
  {
    if i < n - 1 {
      BeBytesAt(v / 256, n - 1, i);
      DivDiv(v, Pow256(n - 2 - i));
    }
  }
}
