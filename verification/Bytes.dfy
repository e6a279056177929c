/** Octets, and node identifiers as big-endian byte strings. */
module Bytes {
  import opened XorMetric

  newtype byte = x: int | 0 <= x < 256

  type bytes = seq<byte>

  /** A byte-string literal. */
  function Ascii(s: string): (b: bytes)
    ensures |b| == |s|
  {
    seq(|s|, i requires 0 <= i < |s| => (s[i] as int % 256) as byte)
  }

  function FromBytes(b: bytes): nat {
    if b == [] then 0 else 256 * FromBytes(b[..|b| - 1]) + b[|b| - 1] as nat
  }

  function ToBytes(v: nat, n: nat): (b: bytes)
    ensures |b| == n
  {
    if n == 0 then [] else ToBytes(v / 256, n - 1) + [(v % 256) as byte]
  }

  lemma Pow2Byte(n: nat)
    requires n > 0
    ensures Pow2(8 * n) == 256 * Pow2(8 * (n - 1))
  {
    var m := 8 * (n - 1);
    assert Pow2(m + 1) == 2 * Pow2(m);
    assert Pow2(m + 2) == 2 * Pow2(m + 1);
    assert Pow2(m + 3) == 2 * Pow2(m + 2);
    assert Pow2(m + 4) == 2 * Pow2(m + 3);
    assert Pow2(m + 5) == 2 * Pow2(m + 4);
    assert Pow2(m + 6) == 2 * Pow2(m + 5);
    assert Pow2(m + 7) == 2 * Pow2(m + 6);
    assert Pow2(m + 8) == 2 * Pow2(m + 7);
  }

  lemma {:induction false} FromBytesRange(b: bytes)
    ensures FromBytes(b) < Pow2(8 * |b|)
  {
    if b != [] {
      FromBytesRange(b[..|b| - 1]);
      Pow2Byte(|b|);
    }
  }

  /** The byte that stands k places from the end has weight 256^k. */
  lemma {:induction false} ByteAt(b: bytes, k: nat)
    requires k < |b|
    ensures b[|b| - 1 - k] as nat == FromBytes(b) / Pow2(8 * k) % 256
    decreases k
  {
    assert Pow2(0) == 1;
    if k > 0 {
      var c := b[..|b| - 1];
      ByteAt(c, k - 1);
      assert FromBytes(b) / 256 == FromBytes(c);
      DivideTwice(FromBytes(b), 256, Pow2(8 * (k - 1)));
      Pow2Byte(k);
    }
  }

  lemma {:induction false} FromToBytes(v: nat, n: nat)
    requires v < Pow2(8 * n)
    ensures FromBytes(ToBytes(v, n)) == v
  {
    if n > 0 {
      Pow2Byte(n);
      FromToBytes(v / 256, n - 1);
      assert ToBytes(v, n)[..n - 1] == ToBytes(v / 256, n - 1);
    }
  }

  /** Comparing identifiers of one length as numbers is the same as comparing their bytes. */
  lemma {:induction false} FromBytesInjective(a: bytes, b: bytes)
    requires |a| == |b| && FromBytes(a) == FromBytes(b)
    ensures a == b
  {
    if a != [] {
      FromBytesInjective(a[..|a| - 1], b[..|b| - 1]);
      assert a == a[..|a| - 1] + [a[|a| - 1]];
      assert b == b[..|b| - 1] + [b[|b| - 1]];
    }
  }
}
