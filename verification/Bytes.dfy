/** Octets and little-endian numbers, the way the x86 targets of the repository
    read and write them through `uint64_t` pointers. */
module Bytes {

  type Byte = b: int | 0 <= b < 256

  /** A received frame holds at least an Ethernet header: 6 octets of destination,
      6 of source, 2 of type. */
  type Frame = f: seq<Byte> | 14 <= |f| witness seq(14, _ => 0)

  /** 256 to the power of k. */
  function Pow256(k: nat): (p: nat)
    ensures p > 0
  {
    if k == 0 then 1 else 256 * Pow256(k - 1)
  }

  /** The first k octets of v in little-endian order. */
  function LeBytes(v: nat, k: nat): (s: seq<Byte>)
    ensures |s| == k
  {
    if k == 0 then [] else [v % 256] + LeBytes(v / 256, k - 1)
  }

  /** The number a little-endian octet sequence stands for. */
  function LeValue(s: seq<Byte>): nat {
    if s == [] then 0 else s[0] + 256 * LeValue(s[1..])
  }

  lemma {:induction false} LeValueBound(s: seq<Byte>)
    ensures LeValue(s) < Pow256(|s|)
  {
    if s != [] {
      LeValueBound(s[1..]);
    }
  }

  /** Writing a number that fits and reading it back gives the number. */
  lemma {:induction false} LeValueOfLeBytes(v: nat, k: nat)
    requires v < Pow256(k)
    ensures LeValue(LeBytes(v, k)) == v
  {
    if k > 0 {
      LeValueOfLeBytes(v / 256, k - 1);
      assert LeBytes(v, k)[1..] == LeBytes(v / 256, k - 1);
    }
  }

  /** Reading octets and writing them back gives the octets. */
  lemma {:induction false} LeBytesOfLeValue(s: seq<Byte>)
    ensures LeBytes(LeValue(s), |s|) == s
  {
    if s != [] {
      LeBytesOfLeValue(s[1..]);
      assert LeValue(s) % 256 == s[0] && LeValue(s) / 256 == LeValue(s[1..]);
    }
  }

  /** A wide write cut short is the narrow write. */
  lemma {:induction false} LeBytesPrefix(v: nat, j: nat, k: nat)
    requires j <= k
    ensures LeBytes(v, k)[..j] == LeBytes(v, j)
  {
    if j > 0 {
      LeBytesPrefix(v / 256, j - 1, k - 1);
      assert LeBytes(v, k)[..j] == [v % 256] + LeBytes(v / 256, k - 1)[..j - 1];
    }
  }

  /** A wide read masked to its low octets is the narrow read. */
  lemma {:induction false} LeValuePrefix(s: seq<Byte>, j: nat)
    requires j <= |s|
    ensures LeValue(s) % Pow256(j) == LeValue(s[..j])
  {
    if j > 0 {
      LeValuePrefix(s[1..], j - 1);
      assert s[..j][1..] == s[1..][..j - 1];
      ScaledMod(LeValue(s[1..]), s[0], Pow256(j - 1));
    }
  }

  lemma ScaledMod(x: nat, b: Byte, p: nat)
    requires p > 0
    ensures (b + 256 * x) % (256 * p) == b + 256 * (x % p)
  {
    var q, r := x / p, x % p;
    assert x == q * p + r;
    assert b + 256 * x == q * (256 * p) + (b + 256 * r) by {
      assert 256 * (q * p) == q * (256 * p);
    }
    assert 0 <= b + 256 * r < 256 * p;
    DivModUnique(b + 256 * x, 256 * p, q, b + 256 * r);
  }

  lemma DivModUnique(a: nat, m: nat, q: nat, r: nat)
    requires m > 0 && a == q * m + r && r < m
    ensures a % m == r && a / m == q
  {
    var d := a / m - q;
    assert d * m == r - a % m by {
      assert a == a / m * m + a % m;
      assert d * m == a / m * m - q * m;
    }
    if d != 0 {
      MultipleIsFar(d, m);
    }
  }

  /** No nonzero multiple of m lies strictly between -m and m. */
  lemma MultipleIsFar(d: int, m: nat)
    requires d != 0
    ensures d * m >= m || d * m + m <= 0
  {
  }

  /** Little-endian octets of `top * 256^k + low`: first those of `low`, then the top octet. */
  lemma {:induction false} LeBytesWithTop(top: nat, low: nat, k: nat)
    requires low < Pow256(k)
    ensures LeBytes(top * Pow256(k) + low, k + 1) == LeBytes(low, k) + [top % 256]
  {
    if k == 0 {
      assert LeBytes(top, 1) == [top % 256] + LeBytes(top / 256, 0);
    } else {
      var p := Pow256(k - 1);
      var v := top * Pow256(k) + low;
      assert v == 256 * (top * p + low / 256) + low % 256 by {
        assert top * (256 * p) == 256 * (top * p);
      }
      assert v % 256 == low % 256 && v / 256 == top * p + low / 256;
      LeBytesWithTop(top, low / 256, k - 1);
      assert LeBytes(low, k) == [low % 256] + LeBytes(low / 256, k - 1);
    }
  }

  /** The octets of a packet kept in several segments, one after another. */
  function Flatten(segs: seq<seq<Byte>>): seq<Byte> {
    if segs == [] then [] else segs[0] + Flatten(segs[1..])
  }

  /** s with buf written over it from position offset on. */
  function Overwritten(s: seq<Byte>, buf: seq<Byte>, offset: nat): (r: seq<Byte>)
    requires offset + |buf| <= |s|
    ensures |r| == |s|
  {
    s[..offset] + buf + s[offset + |buf|..]
  }

  function Zeros(n: nat): (z: seq<Byte>)
    ensures |z| == n
  {
    seq(n, _ => 0)
  }
}
